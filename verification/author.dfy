/** An author: a given name, a surname that the constructor may leave `null`,
    and birth and death years that default to the "unknown year" sentinel.
    Authors are values here; the source shares them by reference. */
module Authors {
  import opened Text

  /** The sentinel year of `AuthorBookConstants.UNKNOWN_YEAR`; its value is not part of this model. */
  const UnknownYear: int

  /** The sentinel author `AuthorBookConstants.UNKNOWN_AUTHOR`; its value is not part of this model. */
  const UnknownAuthor: Author

  /** `Author.DEFAULT_YEAR`. */
  const DefaultYear: int := UnknownYear

  /** The year bounds `validYearStart` and `validYearEnd`, at their initial values. */
  const ValidYearStart: int := -1999
  const ValidYearEnd: int := 2023

  datatype Author = Author(givenName: string, surname: Nullable<string>, birthYear: int, deathYear: int)

  /** `new Author(givenName, surname)`: an empty name is replaced by the sentinel author's.
      When only the given name is empty the surname is never assigned and stays `null`. */
  function NewAuthor(givenName: string, surname: string): (r: Author)
    ensures r.birthYear == DefaultYear && r.deathYear == DefaultYear
    ensures r.givenName == (if givenName == "" then UnknownAuthor.givenName else givenName)
    ensures surname == "" ==> r.surname == UnknownAuthor.surname
    ensures surname != "" ==> (r.surname == Null <==> givenName == "")
    ensures surname != "" && givenName != "" ==> r.surname == Ref(surname)
  {
    if givenName == "" && surname == "" then
      Author(UnknownAuthor.givenName, UnknownAuthor.surname, DefaultYear, DefaultYear)
    else if givenName == "" then
      Author(UnknownAuthor.givenName, Null, DefaultYear, DefaultYear)
    else if surname == "" then
      Author(givenName, UnknownAuthor.surname, DefaultYear, DefaultYear)
    else
      Author(givenName, Ref(surname), DefaultYear, DefaultYear)
  }

  /** Both names present, as `hasSameName` needs of either side:
      it reads the first character of each given name and lower-cases each surname. */
  predicate Comparable(a: Author) {
    a.givenName != "" && a.surname.Ref?
  }

  /** A given name that is an initial: one UTF-16 code unit long, so `length()` is 1. */
  predicate IsInitial(name: string) {
    |name| == 1 && IsBmp(name[0])
  }

  /** `a.hasSameName(other)`: the surnames are equal ignoring case, and so are the given
      names, or their first letters are equal and one of them is a single letter (an initial).
      Lengths and first characters are Java's, in UTF-16 code units. */
  function HasSameName(a: Author, other: Author): (r: bool)
    requires Comparable(a) && Comparable(other)
    ensures r <==>
      && (|| EqualsIgnoreCase(a.givenName, other.givenName)
          || (LowerChar(a.givenName[0]) == LowerChar(other.givenName[0])
              && (IsInitial(a.givenName) || IsInitial(other.givenName))))
      && EqualsIgnoreCase(a.surname.value, other.surname.value)
  {
    var given := Lower(other.givenName);
    var sur := Lower(other.surname.value);
    var firstInitial := FirstUnit(given);
    var givenMatch := Lower(a.givenName) == given;
    var givenInitialMatch := FirstUnit(Lower(a.givenName)) == firstInitial;
    var givenLengthOne := JavaLength(a.givenName) == 1 || JavaLength(given) == 1;
    var surMatch := Lower(a.surname.value) == sur;
    assert givenLengthOne ==> (givenInitialMatch <==> Lower(a.givenName)[0] == given[0]) by {
      if givenLengthOne {
        FirstUnitsAgree(Lower(a.givenName), given);
      }
    }
    (givenMatch || (givenInitialMatch && givenLengthOne)) && surMatch
  }

  /** Every author has the same name as itself. */
  lemma HasSameNameReflexive(a: Author)
    requires Comparable(a)
    ensures HasSameName(a, a)
  {
  }

  /** Name equivalence does not depend on which author asks. */
  lemma HasSameNameSymmetric(a: Author, b: Author)
    requires Comparable(a) && Comparable(b)
    ensures HasSameName(a, b) <==> HasSameName(b, a)
  {
  }

  /** Two full given names that differ are never the same name, even with equal initials:
      an initial only stands in for a name when one side is a single letter. */
  lemma FullNamesMustAgree(a: Author, b: Author)
    requires Comparable(a) && Comparable(b)
    requires |a.givenName| > 1 && |b.givenName| > 1
    ensures HasSameName(a, b) <==>
      EqualsIgnoreCase(a.givenName, b.givenName) && EqualsIgnoreCase(a.surname.value, b.surname.value)
  {
  }

  /** The lower-case forms of the names used in the examples below. */
  lemma LowerOfExampleNames()
    ensures Lower("Jane") == "jane" && Lower("John") == "john" && Lower("Jake") == "jake"
    ensures Lower("J") == "j" && Lower("J.") == "j." && Lower("Doe") == "doe" && Lower("doe") == "doe"
  {
    assert Lower("Jane") == "jane" && Lower("John") == "john" && Lower("Jake") == "jake";
    assert Lower("J") == "j" && Lower("J.") == "j." && Lower("Doe") == "doe" && Lower("doe") == "doe";
  }

  /** "Jane Doe" matches "J Doe" and "J Doe" matches "John Doe", but "Jane Doe" does not match
      "John Doe". "Jane" and "Jake" do not match, and "J." (two characters) is not an initial. */
  lemma InitialsBridgeNames()
    ensures var jane := Author("Jane", Ref("Doe"), DefaultYear, DefaultYear);
            var j := Author("J", Ref("Doe"), DefaultYear, DefaultYear);
            var john := Author("John", Ref("Doe"), DefaultYear, DefaultYear);
            var jake := Author("Jake", Ref("doe"), DefaultYear, DefaultYear);
            var jDot := Author("J.", Ref("Doe"), DefaultYear, DefaultYear);
            && HasSameName(jane, j) && HasSameName(j, john) && !HasSameName(jane, john)
            && !HasSameName(jane, jake) && !HasSameName(jane, jDot)
  {
    LowerOfExampleNames();
  }

  /** Because an initial bridges two different given names, name equivalence is not transitive. */
  lemma HasSameNameNotTransitive()
    ensures !(forall a: Author, b: Author, c: Author
                | Comparable(a) && Comparable(b) && Comparable(c)
                :: HasSameName(a, b) && HasSameName(b, c) ==> HasSameName(a, c))
  {
    var jane := Author("Jane", Ref("Doe"), DefaultYear, DefaultYear);
    var j := Author("J", Ref("Doe"), DefaultYear, DefaultYear);
    var john := Author("John", Ref("Doe"), DefaultYear, DefaultYear);
    InitialsBridgeNames();
    assert HasSameName(jane, j) && HasSameName(j, john) && !HasSameName(jane, john);
  }

  /** A letter outside the Basic Multilingual Plane is two UTF-16 code units, so on its own it
      is not an initial: "\U{1D4A5}" (mathematical script J) does not stand for "\U{1D4A5}ane". */
  lemma SupplementaryLetterIsNoInitial()
    ensures var full := Author("\U{1D4A5}ane", Ref("Doe"), DefaultYear, DefaultYear);
            var single := Author("\U{1D4A5}", Ref("Doe"), DefaultYear, DefaultYear);
            && JavaLength(single.givenName) == 2
            && !HasSameName(full, single) && HasSameName(single, single)
  {
    assert Lower("\U{1D4A5}ane") == "\U{1D4A5}ane" && Lower("\U{1D4A5}") == "\U{1D4A5}";
  }

  /** `y` lies within the valid-year bounds, both ends included. */
  predicate InYearRange(y: int) {
    ValidYearStart <= y <= ValidYearEnd
  }

  /** `setLifeRange(birth)`: accepts a birth year within the bounds and changes nothing else;
      it does not compare the birth year with the death year. */
  function SetBirthYear(a: Author, birth: int): (r: Author)
    ensures r.givenName == a.givenName && r.surname == a.surname && r.deathYear == a.deathYear
    ensures r.birthYear == birth || r == a
    ensures r.birthYear == birth <==> InYearRange(birth) || a.birthYear == birth
  {
    if birth < ValidYearStart || birth > ValidYearEnd then a else a.(birthYear := birth)
  }

  /** Both years are set, in the bounds and in order. */
  predicate LifeSpanValid(a: Author) {
    ValidYearStart <= a.birthYear <= a.deathYear <= ValidYearEnd
  }

  /** `setLifeRange(birth, death)`: both years are set together, or neither is. */
  function SetLifeRange(a: Author, birth: int, death: int): (r: Author)
    ensures r.givenName == a.givenName && r.surname == a.surname
    ensures r == a || (r.birthYear == birth && r.deathYear == death)
    ensures (r.birthYear == birth && r.deathYear == death)
            <==> (ValidYearStart <= birth <= death <= ValidYearEnd)
                 || (a.birthYear == birth && a.deathYear == death)
  {
    if death < birth || birth < ValidYearStart || death > ValidYearEnd then a
    else a.(birthYear := birth, deathYear := death)
  }

  /** Setting both years keeps a valid life span valid, and establishes one when accepted. */
  lemma SetLifeRangeKeepsLifeSpan(a: Author, birth: int, death: int)
    ensures LifeSpanValid(a) ==> LifeSpanValid(SetLifeRange(a, birth, death))
    ensures ValidYearStart <= birth <= death <= ValidYearEnd ==> LifeSpanValid(SetLifeRange(a, birth, death))
  {
  }

  /** Setting the birth year alone can break a valid life span: the single-year setter
      checks only the bounds, so `birthYear <= deathYear` is not an invariant of `Author`. */
  lemma SetBirthYearBreaksLifeSpan()
    ensures var a := Author("Mary", Ref("Shelley"), 1797, 1851);
            LifeSpanValid(a) && !LifeSpanValid(SetBirthYear(a, 1900))
  {
  }

  /** The text of a surname in string concatenation: `null` prints as "null", so it cannot be
      told apart from the surname "null". */
  function SurnameText(s: Nullable<string>): (r: string)
    ensures r == "null" <==> s == Null || s == Ref("null")
    ensures s.Ref? ==> |r| == |s.value|
  {
    match s
    case Null => "null"
    case Ref(v) => v
  }

  /** `toString()`: "Surname, GivenName". */
  function ToString(a: Author): (r: string)
    ensures |r| == |SurnameText(a.surname)| + 2 + |a.givenName|
  {
    SurnameText(a.surname) + ", " + a.givenName
  }

  /** In "Surname, GivenName" with a comma-free surname, the first comma ends the surname. */
  lemma FirstCommaEndsSurname(s: string, g: string)
    requires ',' !in s
    ensures (s + ", " + g)[|s|] == ','
    ensures forall k :: 0 <= k < |s| ==> (s + ", " + g)[k] != ','
  {
  }

  /** When surnames carry no comma, the display form determines both names. */
  lemma ToStringInjective(a: Author, b: Author)
    requires a.surname.Ref? && b.surname.Ref?
    requires ',' !in a.surname.value && ',' !in b.surname.value
    requires ToString(a) == ToString(b)
    ensures a.surname == b.surname && a.givenName == b.givenName
  {
    var s, t := a.surname.value, b.surname.value;
    var r := ToString(a);
    FirstCommaEndsSurname(s, a.givenName);
    FirstCommaEndsSurname(t, b.givenName);
    assert |s| == |t|;
    assert s == r[..|s|] == t;
    assert a.givenName == r[|s| + 2..] == b.givenName;
  }
}
