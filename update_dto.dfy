/** The partial-update payload (BookUpdateDto): optional fields with @Size rules only. */
module UpdateDto {
  import opened Wrappers
  import opened Constraints
  import SaveDto

  datatype BookUpdateDto = BookUpdateDto(title: Option<string>, author: Option<string>, genre: Option<string>)

  /** The payload passes @Validated: every present field is within its length range. */
  predicate Valid(p: BookUpdateDto) {
    && Size(p.title, SaveDto.TitleMin, SaveDto.TitleMax)
    && Size(p.author, SaveDto.AuthorMin, SaveDto.AuthorMax)
    && Size(p.genre, SaveDto.GenreMin, SaveDto.GenreMax)
  }

  /** The messages of every @Size constraint the payload breaks. */
  function Violations(p: BookUpdateDto): set<string> {
    Report(Size(p.title, SaveDto.TitleMin, SaveDto.TitleMax), SaveDto.TitleSize)
    + Report(Size(p.author, SaveDto.AuthorMin, SaveDto.AuthorMax), SaveDto.AuthorSize)
    + Report(Size(p.genre, SaveDto.GenreMin, SaveDto.GenreMax), SaveDto.GenreSize)
  }

  /** A payload is rejected exactly when some constraint reports a violation. */
  lemma ViolationsEmptyIffValid(p: BookUpdateDto)
    ensures Violations(p) == {} <==> Valid(p)
  {
  }

  /** An absent field always passes; a present one passes exactly when its length is in range. */
  lemma FieldRules(p: BookUpdateDto)
    ensures Valid(p) <==>
      && (p.title.Some? ==> 2 <= |p.title.value| <= 100)
      && (p.author.Some? ==> 2 <= |p.author.value| <= 50)
      && (p.genre.Some? ==> 2 <= |p.genre.value| <= 50)
  {
  }

  /** The empty payload passes. */
  lemma AllAbsentValid()
    ensures Valid(BookUpdateDto(None, None, None)) && Violations(BookUpdateDto(None, None, None)) == {}
  {
  }

  /** The one-character author "q" is rejected with the author's size message only. */
  lemma OneCharAuthorRejected()
    ensures !Valid(BookUpdateDto(None, Some("q"), None))
    ensures Violations(BookUpdateDto(None, Some("q"), None)) == {SaveDto.AuthorSize}
  {
  }

  /** There is no blank check: whitespace of an in-range length passes. */
  lemma BlankInRangeAccepted(t: string, a: string, g: string)
    requires IsBlank(t) && 2 <= |t| <= 100
    requires IsBlank(a) && 2 <= |a| <= 50
    requires IsBlank(g) && 2 <= |g| <= 50
    ensures Valid(BookUpdateDto(Some(t), Some(a), Some(g)))
    ensures Violations(BookUpdateDto(Some(t), Some(a), Some(g))) == {}
  {
  }

  /** The same JSON body read as an update payload. */
  function FromSaveDto(p: SaveDto.BookSaveDto): BookUpdateDto {
    BookUpdateDto(p.title, p.author, p.genre)
  }

  /** Every valid create payload is a valid update payload. */
  lemma SaveValidImpliesUpdateValid(p: SaveDto.BookSaveDto)
    requires SaveDto.Valid(p)
    ensures Valid(FromSaveDto(p))
  {
  }

  /** The converse fails: the whitespace title "  " passes as an update but not as a create. */
  lemma UpdateValidDoesNotImplySaveValid()
    ensures Valid(FromSaveDto(SaveDto.BookSaveDto(Some("  "), Some("author"), Some("genre"))))
    ensures !SaveDto.Valid(SaveDto.BookSaveDto(Some("  "), Some("author"), Some("genre")))
  {
  }
}
