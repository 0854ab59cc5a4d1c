/**
 * The two Bean Validation constraints the payloads use. A Java String's length counts UTF-16
 * code units; here one `char` is one unit.
 */
module Constraints {
  import opened Wrappers

  /** String.trim() would leave nothing: every character is at or below U+0020. */
  predicate IsBlank(s: string) {
    forall i :: 0 <= i < |s| ==> s[i] <= ' '
  }

  /** @NotBlank: the value is present and not blank. */
  predicate NotBlank(s: Option<string>) {
    s.Some? && !IsBlank(s.value)
  }

  /** @Size(min, max): an absent value passes; a present one needs min <= length <= max. */
  predicate Size(s: Option<string>, min: nat, max: nat) {
    s.None? || min <= |s.value| <= max
  }

  /** The message of a constraint that fails, none for one that holds. */
  function Report(holds: bool, message: string): set<string> {
    if holds then {} else {message}
  }
}
