/** A book: title, author, publication year and ISBN, each with a sentinel default.
    A book is a value here; getters are the datatype's fields and setters return
    the updated book. */
module Books {
  import opened Text
  import opened Authors

  /** The sentinels of `AuthorBookConstants`; their values are not part of this model. */
  const DefaultTitle: string
  const DefaultIsbn: string
  const DefaultPublication: int := UnknownYear
  const DefaultAuthor: Author := UnknownAuthor

  datatype Book = Book(title: string, author: Author, year: int, isbn: string)

  /** `new Book(title, author)`: year and ISBN unknown. */
  function NewBook(title: string, author: Author): (r: Book)
    ensures r.title == title && r.author == author
    ensures r.year == DefaultPublication && r.isbn == DefaultIsbn
  {
    Book(title, author, DefaultPublication, DefaultIsbn)
  }

  /** `new Book(title)`: author, year and ISBN unknown. */
  function NewTitledBook(title: string): (r: Book)
    ensures r == NewBook(title, DefaultAuthor)
    ensures r.title == title && r.author == DefaultAuthor
  {
    Book(title, DefaultAuthor, DefaultPublication, DefaultIsbn)
  }

  /** `new Book()`: every field unknown. */
  function NewDefaultBook(): (r: Book)
    ensures r == NewTitledBook(DefaultTitle)
    ensures r.title == DefaultTitle && r.author == DefaultAuthor
    ensures r.year == DefaultPublication && r.isbn == DefaultIsbn
  {
    Book(DefaultTitle, DefaultAuthor, DefaultPublication, DefaultIsbn)
  }

  /** `setTitle(title)`: an empty title is refused and the book is left as it was. */
  function SetTitle(b: Book, title: string): (r: Book)
    ensures r.author == b.author && r.year == b.year && r.isbn == b.isbn
    ensures r.title == (if title == "" then b.title else title)
  {
    if title != "" then b.(title := title) else b
  }

  /** `setAuthor(author)`. */
  function SetAuthor(b: Book, author: Author): (r: Book)
    ensures r.title == b.title && r.year == b.year && r.isbn == b.isbn && r.author == author
  {
    b.(author := author)
  }

  /** A publication year the setter accepts: not the sentinel, not zero, strictly inside the year bounds. */
  predicate ValidPubYear(y: int) {
    y != DefaultPublication && y != 0 && ValidYearStart < y < ValidYearEnd
  }

  /** `setPubYear(year)`. */
  function SetPubYear(b: Book, year: int): (r: Book)
    ensures r.title == b.title && r.author == b.author && r.isbn == b.isbn
    ensures r == b || r.year == year
    ensures r.year == year <==> ValidPubYear(year) || b.year == year
  {
    if year != DefaultPublication && year > ValidYearStart && year < ValidYearEnd && year != 0 then
      b.(year := year)
    else
      b
  }

  /** An ISBN the setter accepts: 10 or 13 characters as Java counts them, in UTF-16 code units. */
  predicate ValidIsbn(s: string) {
    JavaLength(s) == 10 || JavaLength(s) == 13
  }

  /** `setIntStdBookNum(isbn)`. */
  function SetIsbn(b: Book, isbn: string): (r: Book)
    ensures r.title == b.title && r.author == b.author && r.year == b.year
    ensures r.isbn == (if ValidIsbn(isbn) then isbn else b.isbn)
  {
    if JavaLength(isbn) == 10 || JavaLength(isbn) == 13 then b.(isbn := isbn) else b
  }

  /** A string of digits is as long in UTF-16 code units as in characters. */
  lemma AsciiLength(s: string)
    requires forall i :: 0 <= i < |s| ==> '0' <= s[i] <= '9'
    ensures JavaLength(s) == |s|
  {
    assert forall i :: 0 <= i < |s| ==> IsBmp(s[i]);
  }

  /** An ASCII ISBN is accepted by its number of characters; five digits from outside the Basic
      Multilingual Plane are ten UTF-16 code units, so they are accepted too. */
  lemma IsbnLengthInCodeUnits(b: Book)
    ensures SetIsbn(b, "0441013597").isbn == "0441013597"
    ensures SetIsbn(b, "044101359").isbn == b.isbn
    ensures SetIsbn(b, "\U{1D7CE}\U{1D7CF}\U{1D7D0}\U{1D7D1}\U{1D7D2}").isbn
            == "\U{1D7CE}\U{1D7CF}\U{1D7D0}\U{1D7D1}\U{1D7D2}"
  {
    AsciiLength("0441013597");
    AsciiLength("044101359");
    FiveWideDigits();
  }

  /** Five mathematical digits outside the Basic Multilingual Plane are ten code units. */
  lemma FiveWideDigits()
    ensures JavaLength("\U{1D7CE}\U{1D7CF}\U{1D7D0}\U{1D7D1}\U{1D7D2}") == 10
  {
    var five := "\U{1D7CE}\U{1D7CF}\U{1D7D0}\U{1D7D1}\U{1D7D2}";
    assert JavaLength(five[4..]) == 2;
    assert JavaLength(five[3..]) == 4 by { assert five[3..][1..] == five[4..]; }
    assert JavaLength(five[2..]) == 6 by { assert five[2..][1..] == five[3..]; }
    assert JavaLength(five[1..]) == 8 by { assert five[1..][1..] == five[2..]; }
  }

  /** The setters only ever store an acceptable value: a valid ISBN stays valid,
      a valid year stays valid, a non-empty title stays non-empty. */
  lemma SettersKeepFieldsValid(b: Book, title: string, year: int, isbn: string)
    ensures b.title != "" ==> SetTitle(b, title).title != ""
    ensures ValidPubYear(b.year) ==> ValidPubYear(SetPubYear(b, year).year)
    ensures ValidIsbn(SetIsbn(b, isbn).isbn) <==> ValidIsbn(b.isbn) || ValidIsbn(isbn)
  {
  }

  /** Each setter writes only its own field, so setters of different fields commute. */
  lemma SettersCommute(b: Book, title: string, year: int, isbn: string)
    ensures SetTitle(SetIsbn(b, isbn), title) == SetIsbn(SetTitle(b, title), isbn)
    ensures SetPubYear(SetIsbn(b, isbn), year) == SetIsbn(SetPubYear(b, year), isbn)
    ensures SetTitle(SetPubYear(b, year), title) == SetPubYear(SetTitle(b, title), year)
  {
  }

  /** `equals(other)`: two books are the same book exactly when their ISBNs are equal. */
  function Equals(b: Book, other: Book): (r: bool)
    ensures r ==> (ValidIsbn(b.isbn) <==> ValidIsbn(other.isbn))
    ensures r ==> SetIsbn(b, other.isbn) == b
  {
    b.isbn == other.isbn
  }

  /** Book identity is an equivalence relation that ignores title, author and year. */
  lemma EqualsIsIsbnEquivalence(a: Book, b: Book, c: Book, title: string, author: Author, year: int)
    ensures Equals(a, a)
    ensures Equals(a, b) ==> Equals(b, a)
    ensures Equals(a, b) && Equals(b, c) ==> Equals(a, c)
    ensures Equals(a, b) <==> Equals(a.(title := title, author := author, year := year), b)
  {
  }

  /** Two books built without an ISBN are the same book whatever their titles and authors. */
  lemma DefaultIsbnsCollide(t1: string, a1: Author, t2: string)
    ensures Equals(NewBook(t1, a1), NewTitledBook(t2))
    ensures Equals(NewTitledBook(t2), NewDefaultBook())
  {
  }

  /** `sameAuthor(other)`: the two books' authors have the same name. */
  function SameAuthor(b: Book, other: Book): (r: bool)
    requires Comparable(b.author) && Comparable(other.author)
    ensures r ==> EqualsIgnoreCase(b.author.surname.value, other.author.surname.value)
    ensures r <== b.author == other.author
    ensures !r <== !EqualsIgnoreCase(b.author.givenName, other.author.givenName)
                   && |b.author.givenName| > 1 && |other.author.givenName| > 1
  {
    HasSameName(b.author, other.author)
  }

  /** `sameAuthor` is reflexive and symmetric, as name equivalence is. */
  lemma SameAuthorSymmetric(b: Book, other: Book)
    requires Comparable(b.author) && Comparable(other.author)
    ensures SameAuthor(b, b)
    ensures SameAuthor(b, other) <==> SameAuthor(other, b)
  {
    HasSameNameReflexive(b.author);
    HasSameNameSymmetric(b.author, other.author);
  }
}
