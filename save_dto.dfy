/** The create payload (BookSaveDto) and its @NotBlank + @Size rules. */
module SaveDto {
  import opened Wrappers
  import opened Constraints

  datatype BookSaveDto = BookSaveDto(title: Option<string>, author: Option<string>, genre: Option<string>)

  const TitleMin: nat := 2
  const TitleMax: nat := 100
  const AuthorMin: nat := 2
  const AuthorMax: nat := 50
  const GenreMin: nat := 2
  const GenreMax: nat := 50

  const TitleMandatory := "Title is mandatory"
  const TitleSize := "Title must be between 2 and 100 characters"
  const AuthorMandatory := "Author is mandatory"
  const AuthorSize := "Author name must be between 2 and 50 characters"
  const GenreMandatory := "Genre is mandatory"
  const GenreSize := "Genre must be between 2 and 50 characters"

  predicate TitleValid(t: Option<string>) {
    NotBlank(t) && Size(t, TitleMin, TitleMax)
  }

  predicate AuthorValid(a: Option<string>) {
    NotBlank(a) && Size(a, AuthorMin, AuthorMax)
  }

  predicate GenreValid(g: Option<string>) {
    NotBlank(g) && Size(g, GenreMin, GenreMax)
  }

  /** The payload passes @Validated. */
  predicate Valid(p: BookSaveDto) {
    TitleValid(p.title) && AuthorValid(p.author) && GenreValid(p.genre)
  }

  /** The messages of every constraint the payload breaks; each annotation is checked on its own. */
  function Violations(p: BookSaveDto): set<string> {
    Report(NotBlank(p.title), TitleMandatory) + Report(Size(p.title, TitleMin, TitleMax), TitleSize)
    + Report(NotBlank(p.author), AuthorMandatory) + Report(Size(p.author, AuthorMin, AuthorMax), AuthorSize)
    + Report(NotBlank(p.genre), GenreMandatory) + Report(Size(p.genre, GenreMin, GenreMax), GenreSize)
  }

  /** A payload is rejected exactly when some constraint reports a violation. */
  lemma ViolationsEmptyIffValid(p: BookSaveDto)
    ensures Violations(p) == {} <==> Valid(p)
  {
  }

  /** Each field is valid exactly when it is present, not blank and within its length range. */
  lemma FieldRules(p: BookSaveDto)
    ensures TitleValid(p.title) <==> p.title.Some? && !IsBlank(p.title.value) && 2 <= |p.title.value| <= 100
    ensures AuthorValid(p.author) <==> p.author.Some? && !IsBlank(p.author.value) && 2 <= |p.author.value| <= 50
    ensures GenreValid(p.genre) <==> p.genre.Some? && !IsBlank(p.genre.value) && 2 <= |p.genre.value| <= 50
  {
  }

  /** A payload missing any field is rejected, with that field's "is mandatory" message. */
  lemma MissingFieldRejected(p: BookSaveDto)
    requires p.title.None? || p.author.None? || p.genre.None?
    ensures !Valid(p)
    ensures p.title.None? ==> TitleMandatory in Violations(p)
    ensures p.author.None? ==> AuthorMandatory in Violations(p)
    ensures p.genre.None? ==> GenreMandatory in Violations(p)
  {
  }

  /** A whitespace-only value whose length is in range still fails, on @NotBlank alone. */
  lemma BlankInRangeRejected(t: string, a: string, g: string)
    requires IsBlank(t) && 2 <= |t| <= 100
    requires IsBlank(a) && 2 <= |a| <= 50
    requires IsBlank(g) && 2 <= |g| <= 50
    ensures !TitleValid(Some(t)) && !AuthorValid(Some(a)) && !GenreValid(Some(g))
    ensures Violations(BookSaveDto(Some(t), Some(a), Some(g))) == {TitleMandatory, AuthorMandatory, GenreMandatory}
  {
  }

  /** The payload ("title", "author", "genre") passes. */
  lemma SamplePayloadValid()
    ensures Valid(BookSaveDto(Some("title"), Some("author"), Some("genre")))
  {
    assert "title"[0] > ' ' && "author"[0] > ' ' && "genre"[0] > ' ';
  }
}
