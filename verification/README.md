# Lending-library catalog in Dafny

This project models a small lending-library catalog written in Java. It has three classes:

- `Author`: a given name, a surname, and birth and death years. It also has a loose
  name-equivalence test, `hasSameName`, in which an initial can stand for a given name.
- `Book`: title, author, publication year and ISBN. It has validating setters and an
  identity test that compares ISBNs only.
- `Library`: a fixed-capacity catalog held in three parallel arrays.
  - `books` holds the unique books.
  - `copies` holds the number of copies owned.
  - `checkedIn` holds the number of copies on the shelf.
  - `numBooks` counts the active entries.

  It supports duplicate-aware insertion, check-out, check-in, deletion with compaction,
  and counting and listing queries.

All state is modelled as immutable values. Every mutator is a function that returns the
new state, or the new state together with the returned message (`Reply`). Each `for` loop
of the source is a function that recurses on the loop index. The contract of that
function is the loop's invariant, and its recursive call carries the proof.

Files:

- `text.dfy` (module `Text`): Java `null` (`Nullable`), ASCII lower-casing, the substring
  test, and Java's UTF-16 view of a string: `length()` (`JavaLength`) and `charAt(0)`
  (`FirstUnit`, `FirstUnitsAgree`).
- `author.dfy` (module `Authors`): `Author`.
- `book.dfy` (module `Books`): `Book`.
- `sums.dfy` (module `Sums`): sums over integer sequences and their facts.
- `catalog.dfy` (module `Catalog`): `Library`, its operations and the catalog invariant
  `Valid`.
- `catalog_properties.dfy` (module `CatalogProperties`): properties that relate the
  operations. These are invariant preservation, the effect of each operation on the
  counts, and round trips between adding and deleting.

The catalog invariant `Valid` has four parts:

- the three arrays are as long as the capacity;
- every active entry has `1 <= copies` and `0 <= checkedIn <= copies`;
- every slot from `numBooks` on is null/0/0;
- no two active entries share both ISBN and title.

Facts about the code that the model keeps, including where the code does less than its own
comments suggest:

- `checkOut` lends one copy from every ISBN-or-title match that has one. The last matching
  entry alone decides the answer: "All out of copies." when that entry has no copy on the
  shelf, "Checked out!" otherwise. `checkIn` likewise answers "All of our copies are already
  checked in." only when the last matching entry has all its copies on the shelf.
- `getTotalCopies` and `getNumCheckedOut` sum the whole arrays, not only the active
  entries. In a valid catalog the two agree (`CatalogProperties.NumCheckedOutIsActiveOut`).
- Appending a new book to a full catalog throws an array-index exception. Adding a copy of
  a book already present does not, because that branch never indexes `[numBooks]`.
  Deleting a matching book from a full catalog also throws, because compaction reads slot
  `numBooks`. Both exceptions are preconditions here, required only on the branch that
  throws.
- The Javadoc of `getDeathYear` and of `setLifeRange(birth, death)` (src/Author.java:52
  and :75) says a death year comes after the birth year. The single-year setter does not
  keep this (`Authors.SetBirthYearBreaksLifeSpan`).
- The Javadoc of `setIntStdBookNum` (src/Book.java:109) says an ISBN has 10 or 13
  characters. Only that setter checks it. Java counts the length in UTF-16 code units
  (`Text.JavaLength`). The constructors store the sentinel ISBN, so every book built
  without an ISBN is the same book by `equals` (`Books.DefaultIsbnsCollide`).
- `hasSameName` compares lengths and first characters as Java does, in UTF-16 code units
  (`Text.JavaLength`, `Text.FirstUnit`). So a letter outside the Basic Multilingual Plane is
  not an initial (`Authors.SupplementaryLetterIsNoInitial`).
- `numBooksByAuthor` and `listBooksByAuthor` compare names only inside their loops. An
  empty catalog therefore answers for any author, including one whose surname the
  constructor left `null` (`CatalogProperties.EmptyCatalogAnswersAnyAuthor`).

## Model

| member | source | states |
|---|---|---|
| Text.Lower | src/Library.java:219-220 | lower-casing keeps the length and lower-cases each character on its own |
| Text.LowerIdempotent | src/Library.java:219-220 | lower-casing an already lower-cased string changes nothing |
| Text.Contains | src/Library.java:221 | `contains` holds exactly when the pattern occurs at some position of the text |
| Text.JavaLength | src/Book.java:112 | Java's `length()` in UTF-16 code units: between the number of characters and twice it; equal to it iff every character is in the Basic Multilingual Plane; 1 iff the string is one such character |
| Text.FirstUnit | src/Author.java:99 | Java's `charAt(0)`: the first character inside the Basic Multilingual Plane, and a high surrogate outside it |
| Text.FirstUnitsAgree | src/Author.java:104-105 | when either string starts inside the Basic Multilingual Plane, equal first code units mean equal first characters |
| Text.ContainsSelfAndEmpty | src/Library.java:221 | every string contains itself and the empty string |
| Authors.NewAuthor | src/Author.java:24-38 | an empty name becomes the sentinel author's name; for a non-empty surname, the surname is null exactly when the given name was empty (an empty surname takes the sentinel author's, whatever that is); the years are the default |
| Authors.HasSameName | src/Author.java:93-113 | true iff the surnames are equal ignoring case, and the given names are equal ignoring case or share a first letter with one of them an initial (a single UTF-16 code unit); both given names must be non-empty and both surnames non-null |
| Authors.HasSameNameReflexive | src/Author.java:93-113 | every author with both names has the same name as itself |
| Authors.HasSameNameSymmetric | src/Author.java:93-113 | name equivalence gives the same answer from either side |
| Authors.FullNamesMustAgree | src/Author.java:104-108 | when neither given name is a single letter, only full case-insensitive equality of both names counts |
| Authors.InitialsBridgeNames | src/Author.java:104-108 | "Jane Doe" matches "J Doe" and "J Doe" matches "John Doe", but "Jane Doe" does not match "John Doe"; "Jane" vs "Jake" and "Jane" vs "J." do not match |
| Authors.HasSameNameNotTransitive | src/Author.java:104-108 | name equivalence is not transitive over authors with both names |
| Authors.SupplementaryLetterIsNoInitial | src/Author.java:104-105 | a single letter outside the Basic Multilingual Plane has `length()` 2, so it does not stand for a longer given name with that letter |
| Authors.SetBirthYear | src/Author.java:64-70 | the birth year is taken iff it is within the inclusive bounds -1999..2023; nothing else changes |
| Authors.SetBirthYearBreaksLifeSpan | src/Author.java:64-70 | a valid life span can become invalid: the death year is not consulted |
| Authors.SetLifeRange | src/Author.java:77-86 | both years are set iff -1999 <= birth <= death <= 2023; otherwise the author is unchanged |
| Authors.SetLifeRangeKeepsLifeSpan | src/Author.java:77-86 | the two-year setter keeps a valid life span valid and establishes one when it accepts |
| Authors.SurnameText | src/Author.java:121 | a surname prints as itself and a null surname as "null", so the two print alike only for the surname "null" |
| Authors.ToString | src/Author.java:119-123 | the display form is surname, comma, space and given name, with a null surname printed as "null" |
| Authors.ToStringInjective | src/Author.java:119-123 | with comma-free surnames, the display form determines both names |
| Books.NewBook | src/Book.java:23-28 | keeps the title and author; the year and ISBN are the defaults |
| Books.NewTitledBook | src/Book.java:34-39 | same as the two-argument constructor with the default author |
| Books.NewDefaultBook | src/Book.java:44-49 | all four fields are the defaults |
| Books.SetTitle | src/Book.java:55-61 | a non-empty title replaces the title; an empty one leaves the whole book unchanged |
| Books.SetAuthor | src/Book.java:75-77 | replaces only the author |
| Books.SetPubYear | src/Book.java:91-97 | the year is taken iff it is not the sentinel, not 0, and strictly between -1999 and 2023; other fields never change |
| Books.SetIsbn | src/Book.java:111-117 | the ISBN is taken iff its length in UTF-16 code units is 10 or 13; other fields never change |
| Books.SettersKeepFieldsValid | src/Book.java:55-117 | the setters only ever store acceptable values, so valid title, year and ISBN stay valid |
| Books.SettersCommute | src/Book.java:55-117 | setters of different fields commute |
| Books.EqualsIsIsbnEquivalence | src/Book.java:145-151 | `equals` is reflexive, symmetric and transitive, and ignores title, author and year |
| Books.DefaultIsbnsCollide | src/Book.java:23-49 | books built without an ISBN are all equal by `equals` |
| Books.Equals | src/Book.java:145-151 | `equals` is defined as equality of the ISBN strings; the ensures state consequences of that definition: of two equal books one has a valid ISBN iff the other does, and copying the other's ISBN changes nothing |
| Books.SameAuthor | src/Book.java:132-138 | equal authors always match; a match needs the surnames equal ignoring case; two full given names that differ ignoring case never match |
| Books.IsbnLengthInCodeUnits | src/Book.java:111-117 | a 10-digit ASCII ISBN is accepted and a 9-digit one refused; five digits outside the Basic Multilingual Plane are ten code units and are accepted |
| Books.SameAuthorSymmetric | src/Book.java:132-138 | `sameAuthor` is reflexive and symmetric because name equivalence is |
| Catalog.Valid | src/Library.java:3-13 | the catalog invariant: every slot has between none and all of its copies on the shelf, and every slot past the active prefix is null |
| Catalog.TotalCopies | src/Library.java:28-34 | with no negative entry, the total is at least zero and at least each entry's copies |
| Catalog.CountsBounded | src/Library.java:28-47 | with no negative entry the whole-array total is at least each entry, and with sound counters the shelf sum lies between zero and the total |
| Catalog.NumCheckedOut | src/Library.java:40-47 | when every slot has between none and all of its copies on the shelf, the number checked out is between zero and the total |
| Catalog.Agrees | src/Library.java:77 | the two identity rules: `addBook`'s ISBN-and-title rule is stricter than `Book.equals` (an agreement implies equal ISBNs and titles), and the lending and deletion rule (lines 114, 139 and 242) holds exactly when the books are `equals` or share a title; every book agrees with itself under both |
| Catalog.NewLibrary | src/Library.java:16-21 | a new library is valid, empty, and has the requested capacity |
| Catalog.LastIndex | src/Library.java:241-245 | the last index below n that agrees with the book under the given rule, or -1 when none does |
| Catalog.ScanCopies | src/Library.java:74-82 | the scan bumps both counters of every active entry with the book's ISBN and title, and reports whether any existed |
| Catalog.AddBook | src/Library.java:73-90 | with an ISBN-and-title match, exactly the matching entries gain a copy on the shelf and nothing else changes; otherwise the book is written at the old numBooks with both counters incremented and the count grows by one; needs room only when appending |
| Catalog.AddBooks | src/Library.java:97-101 | adding a list never shrinks the catalog and grows it by at most the list's length |
| Catalog.CheckOutMessage | src/Library.java:115-120 | the answer at a matching entry is "Checked out!" iff the entry has a copy on the shelf; it is never empty and never "Book not found." |
| Catalog.CheckOutFrom | src/Library.java:113-121 | the check-out loop from index i lends one copy from each later matching entry that has one, and the last match decides the message |
| Catalog.CheckOut | src/Library.java:108-126 | every ISBN-or-title match with a copy on the shelf loses one; the last match gives "All out of copies." or "Checked out!"; with no match the state is unchanged and the answer is "Book not found." |
| Catalog.CheckInMessage | src/Library.java:140-145 | the answer at a matching entry is "Checked in!" iff some copy of it is out; it is never empty and never "Book not found." |
| Catalog.CheckInFrom | src/Library.java:138-147 | the check-in loop from index i takes one copy back into each later match below its ceiling, and the last match decides the message |
| Catalog.CheckIn | src/Library.java:133-152 | every match below its ceiling gains one; the last match gives "All of our copies are already checked in." or "Checked in!"; with no match the state is unchanged and the answer is "Book not found." |
| Catalog.ScanLast | src/Library.java:240-245 | the forward search ends on the last ISBN-or-title match, or -1 |
| Catalog.ShiftFrom | src/Library.java:246-250 | the compaction loop moves each slot from j to numBooks-1 down by one and leaves the rest alone |
| Catalog.DeleteBook | src/Library.java:237-260 | the last match is removed: entries before it are kept, each later entry moves down one, the count drops by one, the slot at the old count is cleared, and the answer is "Book removed."; with no match the state is unchanged and the answer is "Book not found." |
| Catalog.CountByAuthor | src/Library.java:176-182 | the count over the first n entries is the number of those whose author has the same name as the query |
| Catalog.NumBooksByAuthor | src/Library.java:175-183 | counts exactly the active entries whose author has the same name, so it is at most numBooks |
| Catalog.AuthorLine | src/Library.java:199 | a listing line starts with the entry's title, names the query author, and ends in a newline |
| Catalog.NoBooksBy | src/Library.java:203 | the no-match answer names the query author and ends in a full stop, not a newline |
| Catalog.AuthorLines | src/Library.java:197-201 | the listing is empty iff no entry matches, and otherwise ends in a newline |
| Catalog.ListBooksByAuthor | src/Library.java:194-206 | the answer is "No books by <author>." exactly when no active entry matches; otherwise it is the listing in catalog order |
| Catalog.TitleHit | src/Library.java:219-221 | an entry hits when its lower-cased title contains the lower-cased query: a hit means the query is no longer than the title, and the empty query or a title equal ignoring case always hits |
| Catalog.TitleLine | src/Library.java:222 | a listing line starts with the entry's title, names the entry's own author, and ends in a newline |
| Catalog.NoBooksTitled | src/Library.java:226 | the no-match answer holds the query in double quotes and ends in a full stop |
| Catalog.TitleLines | src/Library.java:218-224 | the listing is empty iff no active title contains the query ignoring case, and otherwise ends in a newline |
| Catalog.ListBooksByTitle | src/Library.java:216-230 | the answer is the quoted no-match message exactly when no active title contains the query ignoring case; otherwise it is the listing |
| CatalogProperties.NumCheckedOutIsActiveOut | src/Library.java:28-47 | in a valid catalog, the whole-array sums equal the sums over active entries; the number checked out is the sum of copies minus shelf count per entry, which is non-negative; the total is at least numBooks |
| CatalogProperties.AddBookBumpsOneEntry | src/Library.java:74-82 | in a valid catalog, adding a present book bumps exactly the one entry with its ISBN and title |
| CatalogProperties.AddBookKeepsValid | src/Library.java:73-90 | adding a book keeps the catalog invariant |
| CatalogProperties.AddBookCounts | src/Library.java:73-90 | adding a book leaves the number checked out unchanged and, in a valid catalog, adds one to the total |
| CatalogProperties.AddBookFinds | src/Library.java:73-90 | after adding, the book is findable by ISBN and title, and so is every book findable before |
| CatalogProperties.RoomForAll | src/Library.java:97-101 | room for the whole list is enough for adding it not to overflow |
| CatalogProperties.AddBooksFacts | src/Library.java:97-101 | adding a list keeps the invariant, adds one copy per book, checks none out, and leaves every listed book findable |
| CatalogProperties.AddBooksAppends | src/Library.java:97-101 | books whose ISBN-and-title pairs are all new are appended in order, one copy each |
| CatalogProperties.CheckOutCounts | src/Library.java:108-126 | a check-out that lends from k entries raises the number checked out by k and keeps the total; "Checked out!" means k >= 1 |
| CatalogProperties.CheckOutKeepsValid | src/Library.java:108-126 | check-out keeps the invariant, so no shelf count goes below zero |
| CatalogProperties.CheckInCounts | src/Library.java:133-152 | a check-in into k entries lowers the number checked out by k and keeps the total; "Checked in!" means k >= 1 |
| CatalogProperties.CheckInKeepsValid | src/Library.java:133-152 | check-in keeps the invariant, so no shelf count rises above the copies owned |
| CatalogProperties.CheckOutThenIn | src/Library.java:108-152 | for a book that matches a single entry with a copy on the shelf, check-out then check-in restores the catalog |
| CatalogProperties.DeleteBookKeepsValid | src/Library.java:237-260 | deletion keeps the invariant |
| CatalogProperties.DeleteBookCounts | src/Library.java:237-260 | deleting an entry removes its copies from the total and its loaned copies from the number checked out |
| CatalogProperties.AddThenDelete | src/Library.java:237-260 | adding a book that is not yet a copy of any entry, then deleting it, returns the original catalog |
| CatalogProperties.DeleteLastAppended | src/Library.java:237-260 | deleting the most recently appended book undoes its addition |
| CatalogProperties.DeleteAppendedInReverse | src/Library.java:237-260 | deleting appended books in reverse order restores the catalog they were appended to |
| CatalogProperties.AddBooksThenDeleteReversed | src/Library.java:237-260 | adding books with new ISBN-and-title pairs, then deleting them in reverse order, gives back the original catalog |
| CatalogProperties.EmptyCatalogAnswersAnyAuthor | src/Library.java:175-206 | an empty catalog counts 0 and answers "No books by ..." for every author; the author built from an empty given name prints as "null, ..." |
| CatalogProperties.TitleHitIgnoresCase | src/Library.java:219-221 | lower-casing the query first does not change whether an entry hits |
| CatalogProperties.TitleQueryIgnoresCase | src/Library.java:216-230 | lower-casing the query first does not change whether the title query finds anything |
| CatalogProperties.TitleQueryFindsStoredTitle | src/Library.java:216-230 | a query equal to an active title, ignoring case, lists something; an empty catalog lists nothing |
| CatalogProperties.DuneFindsDune | src/Library.java:216-230 | the query "dune" finds the stored title "Dune" |
| CatalogProperties.AuthorQueryFindsEntry | src/Library.java:175-206 | an entry whose author matches the query is counted and listed |

## Left out

- Diagnostics printed by rejected setters are not modelled. A rejected setter returns the
  value unchanged.
- Display strings that print integers or compare references are not modelled:
  `Library.toString`, `getStatus`, `Author.getInfoString` and `Book.toString`. The last
  compares `author.equals(DEFAULT_AUTHOR)` by reference.
- The values of the `AuthorBookConstants` sentinels are left unspecified. They are
  constants without a definition: `UnknownYear`, `UnknownAuthor`, `DefaultTitle` and
  `DefaultIsbn`.
- `validYearStart` and `validYearEnd` are public static mutable fields in the source. The
  model fixes them at their initial values, -1999 and 2023.
- Null arguments are excluded by the types: a null book, author, title, ISBN or name
  string. `addBook(null)` appends a null entry, and the next lending or deletion scan
  then fails with a null-pointer exception. The model has no null book to append.
- Array overflow is not modelled as an exception. A precondition replaces it on `AddBook`
  (append branch only), `AddBooks` (`CanAddAll`) and `DeleteBook` (match found only).
- The exceptions of `hasSameName` on an empty given name or a null surname are
  preconditions too (`Comparable`). The catalog queries require comparable authors only
  where the source compares them (`AuthorsComparable`): every active entry's author, and
  the query author once the catalog has an entry.
- Catalog.NewLibrary: the size is a `nat`, so the `NegativeArraySizeException` of
  `new Library(-1)` is not modelled.
- Java's Unicode `toLowerCase` is modelled as ASCII lower-casing.
- Strings are sequences of Unicode characters. Java lengths and first characters are
  computed in UTF-16 code units (`Text.JavaLength`, `Text.FirstUnit`). A Java string that
  holds an unpaired surrogate cannot be written in the model.
- The `int` counters are unbounded. Java's 32-bit wrap-around after 2^31 copies is not
  modelled.
- Books and authors are shared mutable objects in the source. The model stores them as
  values, so changing a book after adding it cannot change the catalog.
- Getters are the datatypes' fields.
