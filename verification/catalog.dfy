/** The lending library: a fixed-capacity catalog held in three parallel arrays
    (`books`, `copies` owned, `checkedIn` copies on the shelf) and an active count
    `numBooks`. The state is a value; every operation returns the new state, and each
    of the source's `for` loops is a function recursive over the loop index whose
    contract is the loop's invariant. */
module Catalog {
  import opened Text
  import opened Authors
  import opened Books
  import opened Sums

  datatype Library = Library(books: seq<Nullable<Book>>, copies: seq<int>, checkedIn: seq<int>, numBooks: int)

  /** What `checkOut`, `checkIn` and `deleteBook` return: the new state and the message. */
  datatype Reply = Reply(lib: Library, message: string)

  /** One position of the three arrays taken together. */
  datatype Slot = Slot(book: Nullable<Book>, copies: int, checkedIn: int)

  const EmptySlot := Slot(Null, 0, 0)

  const BookNotFound := "Book not found."
  const AllOutOfCopies := "All out of copies."
  const CheckedOut := "Checked out!"
  const AllCheckedIn := "All of our copies are already checked in."
  const CheckedIn := "Checked in!"
  const BookRemoved := "Book removed."

  /** The two identity rules: `addBook` needs ISBN and title to agree, lending and deletion
      accept either. */
  datatype Rule = IsbnAndTitle | IsbnOrTitle

  function Agrees(rule: Rule, entry: Book, b: Book): (r: bool)
    ensures entry == b ==> r
    ensures rule == IsbnAndTitle && r ==> Equals(entry, b) && entry.title == b.title
    ensures rule == IsbnOrTitle ==> (r <==> Equals(entry, b) || entry.title == b.title)
  {
    match rule
    case IsbnAndTitle => b.isbn == entry.isbn && b.title == entry.title
    case IsbnOrTitle => entry.isbn == b.isbn || entry.title == b.title
  }

  function Capacity(lib: Library): nat {
    |lib.books|
  }

  /** The three arrays have the capacity's length. */
  predicate Parallel(lib: Library) {
    |lib.copies| == |lib.books| && |lib.checkedIn| == |lib.books|
  }

  /** What every loop over the active prefix needs: the count is within the arrays
      and no active slot holds `null`. */
  predicate Shaped(lib: Library) {
    && Parallel(lib)
    && 0 <= lib.numBooks <= |lib.books|
    && (forall i :: 0 <= i < lib.numBooks ==> lib.books[i].Ref?)
  }

  function SlotAt(lib: Library, i: int): Slot
    requires Parallel(lib) && 0 <= i < |lib.books|
  {
    Slot(lib.books[i], lib.copies[i], lib.checkedIn[i])
  }

  function SetSlot(lib: Library, i: int, s: Slot): (r: Library)
    requires Parallel(lib) && 0 <= i < |lib.books|
    ensures Parallel(r) && |r.books| == |lib.books| && r.numBooks == lib.numBooks
    ensures SlotAt(r, i) == s
    ensures forall j :: 0 <= j < |lib.books| && j != i ==> SlotAt(r, j) == SlotAt(lib, j)
  {
    lib.(books := lib.books[i := s.book], copies := lib.copies[i := s.copies],
         checkedIn := lib.checkedIn[i := s.checkedIn])
  }

  /** The catalog invariant: every active entry owns at least one copy and has between none
      and all of them on the shelf; every slot past the active prefix is null/0/0; and no two
      active entries share both ISBN and title. */
  function Valid(lib: Library): (r: bool)
    ensures r ==> CountersSound(lib)
    ensures r ==> Shaped(lib) && forall i :: lib.numBooks <= i < |lib.books| ==> lib.books[i] == Null
  {
    var v :=
      && Shaped(lib)
      && (forall i :: 0 <= i < lib.numBooks ==> 1 <= lib.copies[i] && 0 <= lib.checkedIn[i] <= lib.copies[i])
      && (forall i :: lib.numBooks <= i < |lib.books| ==> SlotAt(lib, i) == EmptySlot)
      && (forall i, j :: 0 <= i < j < lib.numBooks ==> !Agrees(IsbnAndTitle, lib.books[i].value, lib.books[j].value));
    assert v ==> CountersSound(lib) && forall i :: lib.numBooks <= i < |lib.books| ==> lib.books[i] == Null by {
      if v {
        forall i | lib.numBooks <= i < |lib.books|
          ensures lib.books[i] == Null && lib.copies[i] == 0 && lib.checkedIn[i] == 0
        {
          assert SlotAt(lib, i) == EmptySlot;
        }
      }
    }
    v
  }

  /** `new Library(librarySize)`. */
  function NewLibrary(librarySize: nat): (r: Library)
    ensures Valid(r) && Capacity(r) == librarySize && r.numBooks == 0
  {
    Library(seq(librarySize, _ => Null), seq(librarySize, _ => 0), seq(librarySize, _ => 0), 0)
  }

  // ---------------------------------------------------------------- matching

  /** The last index below `n` whose book agrees with `b` under `rule`, or -1. */
  function LastIndex(books: seq<Nullable<Book>>, n: int, b: Book, rule: Rule): (k: int)
    requires 0 <= n <= |books| && forall i :: 0 <= i < n ==> books[i].Ref?
    ensures -1 <= k < n
    ensures k >= 0 ==> Agrees(rule, books[k].value, b)
    ensures forall j :: k < j < n ==> !Agrees(rule, books[j].value, b)
    decreases n
  {
    if n == 0 then -1
    else if Agrees(rule, books[n - 1].value, b) then n - 1
    else LastIndex(books, n - 1, b, rule)
  }

  /** The last active entry that agrees with `b`, or -1. */
  function LastMatch(lib: Library, b: Book, rule: Rule): int
    requires Shaped(lib)
  {
    LastIndex(lib.books, lib.numBooks, b, rule)
  }

  /** Some active entry has both `b`'s ISBN and its title. */
  predicate HasCopy(lib: Library, b: Book)
    requires Shaped(lib)
  {
    LastMatch(lib, b, IsbnAndTitle) >= 0
  }

  // ---------------------------------------------------------------- addBook

  /** The scan of `addBook` from index `i` on: every entry with `b`'s ISBN and title gains
      a copy on the shelf, and the flag records whether any did. */
  function ScanCopies(lib: Library, b: Book, i: int, isCopy: bool): (r: (Library, bool))
    requires Shaped(lib) && 0 <= i <= lib.numBooks
    ensures Shaped(r.0) && r.0.books == lib.books && r.0.numBooks == lib.numBooks
    ensures |r.0.copies| == |lib.copies| && |r.0.checkedIn| == |lib.checkedIn|
    ensures forall j :: 0 <= j < |lib.books| ==>
      var bump := if i <= j < lib.numBooks && Agrees(IsbnAndTitle, lib.books[j].value, b) then 1 else 0;
      r.0.copies[j] == lib.copies[j] + bump && r.0.checkedIn[j] == lib.checkedIn[j] + bump
    ensures r.1 <==> isCopy || LastMatch(lib, b, IsbnAndTitle) >= i
    decreases lib.numBooks - i
  {
    if i == lib.numBooks then (lib, isCopy)
    else if Agrees(IsbnAndTitle, lib.books[i].value, b) then
      ScanCopies(lib.(copies := lib.copies[i := lib.copies[i] + 1],
                      checkedIn := lib.checkedIn[i := lib.checkedIn[i] + 1]), b, i + 1, true)
    else
      ScanCopies(lib, b, i + 1, isCopy)
  }

  /** `addBook(b)`: with an entry of the same ISBN and title, every such entry gains a copy;
      otherwise `b` is appended at `numBooks` with one copy, on the shelf. Appending to a
      full catalog overflows the arrays. */
  function AddBook(lib: Library, b: Book): (r: Library)
    requires Shaped(lib)
    requires HasCopy(lib, b) || lib.numBooks < Capacity(lib)
    ensures Shaped(r) && Capacity(r) == Capacity(lib)
    ensures HasCopy(lib, b) ==>
      && r.numBooks == lib.numBooks && r.books == lib.books
      && |r.copies| == |lib.copies| && |r.checkedIn| == |lib.checkedIn|
      && forall j :: 0 <= j < |lib.books| ==>
           var bump := if j < lib.numBooks && Agrees(IsbnAndTitle, lib.books[j].value, b) then 1 else 0;
           r.copies[j] == lib.copies[j] + bump && r.checkedIn[j] == lib.checkedIn[j] + bump
    ensures !HasCopy(lib, b) ==>
      && r.numBooks == lib.numBooks + 1
      && r.books == lib.books[lib.numBooks := Ref(b)]
      && r.copies == lib.copies[lib.numBooks := lib.copies[lib.numBooks] + 1]
      && r.checkedIn == lib.checkedIn[lib.numBooks := lib.checkedIn[lib.numBooks] + 1]
  {
    var (l, isCopy) := ScanCopies(lib, b, 0, false);
    if !isCopy then
      assert l == lib by {
        assert l.copies == lib.copies && l.checkedIn == lib.checkedIn;
      }
      var n := l.numBooks;
      l.(books := l.books[n := Ref(b)],
         copies := l.copies[n := l.copies[n] + 1],
         checkedIn := l.checkedIn[n := l.checkedIn[n] + 1],
         numBooks := n + 1)
    else
      l
  }

  /** The books of `bs` can be added one after another without overflowing the arrays. */
  predicate CanAddAll(lib: Library, bs: seq<Book>)
    requires Shaped(lib)
    decreases |bs|
  {
    || bs == []
    || ((HasCopy(lib, bs[0]) || lib.numBooks < Capacity(lib)) && CanAddAll(AddBook(lib, bs[0]), bs[1..]))
  }

  /** `addBooks(newBooks)`: `addBook` on each book in order. */
  function AddBooks(lib: Library, bs: seq<Book>): (r: Library)
    requires Shaped(lib) && CanAddAll(lib, bs)
    ensures Shaped(r) && Capacity(r) == Capacity(lib)
    ensures lib.numBooks <= r.numBooks <= lib.numBooks + |bs|
    decreases |bs|
  {
    if bs == [] then lib else AddBooks(AddBook(lib, bs[0]), bs[1..])
  }

  // ---------------------------------------------------------------- checkOut

  /** Entry `j` agrees with `b` under the lending rule and has a copy on the shelf. */
  predicate Lends(lib: Library, b: Book, j: int)
    requires Shaped(lib) && 0 <= j < lib.numBooks
  {
    Agrees(IsbnOrTitle, lib.books[j].value, b) && lib.checkedIn[j] != 0
  }

  /** The message lending produces at the last matching entry `k`. */
  function CheckOutMessage(lib: Library, k: int): (r: string)
    requires Shaped(lib) && 0 <= k < lib.numBooks
    ensures r != "" && r != BookNotFound
    ensures r == CheckedOut <==> lib.checkedIn[k] != 0
  {
    if lib.checkedIn[k] == 0 then AllOutOfCopies else CheckedOut
  }

  /** The loop of `checkOut` from index `i` on, `result` being the message so far. */
  function CheckOutFrom(lib: Library, b: Book, i: int, result: string): (r: Reply)
    requires Shaped(lib) && 0 <= i <= lib.numBooks
    ensures Shaped(r.lib)
    ensures r.lib.books == lib.books && r.lib.copies == lib.copies && r.lib.numBooks == lib.numBooks
    ensures |r.lib.checkedIn| == |lib.checkedIn|
    ensures forall j :: 0 <= j < |lib.books| ==>
      r.lib.checkedIn[j] == (if i <= j < lib.numBooks && Lends(lib, b, j) then lib.checkedIn[j] - 1 else lib.checkedIn[j])
    ensures var k := LastMatch(lib, b, IsbnOrTitle);
      r.message == (if k >= i then CheckOutMessage(lib, k) else result)
    decreases lib.numBooks - i
  {
    if i == lib.numBooks then Reply(lib, result)
    else if Agrees(IsbnOrTitle, lib.books[i].value, b) then
      if lib.checkedIn[i] == 0 then
        CheckOutFrom(lib, b, i + 1, AllOutOfCopies)
      else
        CheckOutFrom(lib.(checkedIn := lib.checkedIn[i := lib.checkedIn[i] - 1]), b, i + 1, CheckedOut)
    else
      CheckOutFrom(lib, b, i + 1, result)
  }

  /** `checkOut(b)`: every active entry agreeing with `b` on ISBN or title that has a copy on
      the shelf lends one; the last agreeing entry decides the message; with no agreeing
      entry the catalog is unchanged and the book is not found. */
  function CheckOut(lib: Library, b: Book): (r: Reply)
    requires Shaped(lib)
    ensures Shaped(r.lib)
    ensures r.lib.books == lib.books && r.lib.copies == lib.copies && r.lib.numBooks == lib.numBooks
    ensures |r.lib.checkedIn| == |lib.checkedIn|
    ensures forall j :: 0 <= j < |lib.books| ==>
      r.lib.checkedIn[j] == (if j < lib.numBooks && Lends(lib, b, j) then lib.checkedIn[j] - 1 else lib.checkedIn[j])
    ensures var k := LastMatch(lib, b, IsbnOrTitle);
      if k < 0 then r == Reply(lib, BookNotFound) else r.message == CheckOutMessage(lib, k)
  {
    var r := CheckOutFrom(lib, b, 0, "");
    if r.message == "" then
      assert r.lib.checkedIn == lib.checkedIn;
      Reply(r.lib, BookNotFound)
    else
      r
  }

  // ---------------------------------------------------------------- checkIn

  /** Entry `j` agrees with `b` under the lending rule and has a copy out. */
  predicate Takes(lib: Library, b: Book, j: int)
    requires Shaped(lib) && 0 <= j < lib.numBooks
  {
    Agrees(IsbnOrTitle, lib.books[j].value, b) && lib.checkedIn[j] != lib.copies[j]
  }

  /** The message returning produces at the last matching entry `k`. */
  function CheckInMessage(lib: Library, k: int): (r: string)
    requires Shaped(lib) && 0 <= k < lib.numBooks
    ensures r != "" && r != BookNotFound
    ensures r == CheckedIn <==> lib.checkedIn[k] != lib.copies[k]
  {
    if lib.checkedIn[k] == lib.copies[k] then AllCheckedIn else CheckedIn
  }

  /** The loop of `checkIn` from index `i` on, `result` being the message so far. */
  function CheckInFrom(lib: Library, b: Book, i: int, result: string): (r: Reply)
    requires Shaped(lib) && 0 <= i <= lib.numBooks
    ensures Shaped(r.lib)
    ensures r.lib.books == lib.books && r.lib.copies == lib.copies && r.lib.numBooks == lib.numBooks
    ensures |r.lib.checkedIn| == |lib.checkedIn|
    ensures forall j :: 0 <= j < |lib.books| ==>
      r.lib.checkedIn[j] == (if i <= j < lib.numBooks && Takes(lib, b, j) then lib.checkedIn[j] + 1 else lib.checkedIn[j])
    ensures var k := LastMatch(lib, b, IsbnOrTitle);
      r.message == (if k >= i then CheckInMessage(lib, k) else result)
    decreases lib.numBooks - i
  {
    if i == lib.numBooks then Reply(lib, result)
    else if Agrees(IsbnOrTitle, lib.books[i].value, b) then
      if lib.checkedIn[i] == lib.copies[i] then
        CheckInFrom(lib, b, i + 1, AllCheckedIn)
      else
        CheckInFrom(lib.(checkedIn := lib.checkedIn[i := lib.checkedIn[i] + 1]), b, i + 1, CheckedIn)
    else
      CheckInFrom(lib, b, i + 1, result)
  }

  /** `checkIn(b)`: every active entry agreeing with `b` on ISBN or title that has a copy out
      takes one back; the last agreeing entry decides the message; with no agreeing entry
      the catalog is unchanged and the book is not found. */
  function CheckIn(lib: Library, b: Book): (r: Reply)
    requires Shaped(lib)
    ensures Shaped(r.lib)
    ensures r.lib.books == lib.books && r.lib.copies == lib.copies && r.lib.numBooks == lib.numBooks
    ensures |r.lib.checkedIn| == |lib.checkedIn|
    ensures forall j :: 0 <= j < |lib.books| ==>
      r.lib.checkedIn[j] == (if j < lib.numBooks && Takes(lib, b, j) then lib.checkedIn[j] + 1 else lib.checkedIn[j])
    ensures var k := LastMatch(lib, b, IsbnOrTitle);
      if k < 0 then r == Reply(lib, BookNotFound) else r.message == CheckInMessage(lib, k)
  {
    var r := CheckInFrom(lib, b, 0, "");
    if r.message == "" then
      assert r.lib.checkedIn == lib.checkedIn;
      Reply(r.lib, BookNotFound)
    else
      r
  }

  // ---------------------------------------------------------------- deleteBook

  /** The search loop of `deleteBook` from index `i` on: `index` is the last agreeing
      index seen so far, and the loop ends on the last agreeing index overall. */
  function ScanLast(lib: Library, b: Book, i: int, index: int): (r: int)
    requires Shaped(lib) && 0 <= i <= lib.numBooks && -1 <= index < i
    ensures r == (var k := LastMatch(lib, b, IsbnOrTitle); if k >= i then k else index)
    decreases lib.numBooks - i
  {
    if i == lib.numBooks then index
    else ScanLast(lib, b, i + 1, if Agrees(IsbnOrTitle, lib.books[i].value, b) then i else index)
  }

  /** The compaction loop of `deleteBook` from `j` on: each slot up to `numBooks - 1`
      takes the contents of the slot after it. */
  function ShiftFrom(lib: Library, j: int): (r: Library)
    requires Parallel(lib) && 0 <= j <= lib.numBooks < |lib.books|
    ensures Parallel(r) && |r.books| == |lib.books| && r.numBooks == lib.numBooks
    ensures forall k {:trigger SlotAt(r, k)} :: 0 <= k < |lib.books| ==>
      SlotAt(r, k) == if j <= k < lib.numBooks then SlotAt(lib, k + 1) else SlotAt(lib, k)
    decreases lib.numBooks - j
  {
    if j == lib.numBooks then lib
    else
      var l := SetSlot(lib, j, SlotAt(lib, j + 1));
      var r := ShiftFrom(l, j + 1);
      forall k | 0 <= k < |lib.books|
        ensures SlotAt(r, k) == if j <= k < lib.numBooks then SlotAt(lib, k + 1) else SlotAt(lib, k)
      {
        assert SlotAt(r, k) == if j + 1 <= k < l.numBooks then SlotAt(l, k + 1) else SlotAt(l, k);
      }
      r
  }

  /** `deleteBook(b)`: the last active entry agreeing with `b` on ISBN or title is removed,
      later entries move down one place and the count drops by one. Compaction reads the
      slot at `numBooks`, so removing from a full catalog overflows the arrays. */
  function DeleteBook(lib: Library, b: Book): (r: Reply)
    requires Shaped(lib)
    requires LastMatch(lib, b, IsbnOrTitle) >= 0 ==> lib.numBooks < Capacity(lib)
    ensures Shaped(r.lib) && Capacity(r.lib) == Capacity(lib)
    ensures var k := LastMatch(lib, b, IsbnOrTitle);
      if k < 0 then r == Reply(lib, BookNotFound)
      else
        && r.message == BookRemoved
        && r.lib.numBooks == lib.numBooks - 1
        && (forall j {:trigger SlotAt(r.lib, j)} :: 0 <= j < k ==> SlotAt(r.lib, j) == SlotAt(lib, j))
        && (forall j {:trigger SlotAt(r.lib, j)} :: k <= j < lib.numBooks ==> SlotAt(r.lib, j) == SlotAt(lib, j + 1))
        && SlotAt(r.lib, lib.numBooks) == EmptySlot
        && (forall j {:trigger SlotAt(r.lib, j)} :: lib.numBooks < j < |lib.books| ==> SlotAt(r.lib, j) == SlotAt(lib, j))
  {
    var index := ScanLast(lib, b, 0, -1);
    if index > -1 then
      var n := lib.numBooks;
      var shifted := ShiftFrom(lib, index);
      var cleared := SetSlot(shifted, n, EmptySlot);
      var l := cleared.(numBooks := n - 1);
      forall j {:trigger SlotAt(l, j)} | 0 <= j < |lib.books|
        ensures SlotAt(l, j) ==
          if j == n then EmptySlot else if index <= j < n then SlotAt(lib, j + 1) else SlotAt(lib, j)
      {
        assert SlotAt(l, j) == SlotAt(cleared, j);
        if j != n {
          assert SlotAt(cleared, j) == SlotAt(shifted, j);
        }
      }
      forall j | 0 <= j < n - 1
        ensures l.books[j].Ref?
      {
        assert l.books[j] == SlotAt(l, j).book;
      }
      Reply(l, BookRemoved)
    else
      Reply(lib, BookNotFound)
  }

  // ---------------------------------------------------------------- counts

  /** `getTotalCopies()`: the sum over the whole `copies` array, active or not. */
  function TotalCopies(lib: Library): (r: int)
    ensures (forall i :: 0 <= i < |lib.copies| ==> 0 <= lib.copies[i]) ==>
      0 <= r && forall i :: 0 <= i < |lib.copies| ==> lib.copies[i] <= r
  {
    CountsBounded(lib);
    Sum(lib.copies)
  }

  /** Every slot, active or not, has between none and all of its copies on the shelf. */
  predicate CountersSound(lib: Library) {
    && Parallel(lib)
    && forall i :: 0 <= i < |lib.copies| ==> 0 <= lib.checkedIn[i] <= lib.copies[i]
  }

  /** `getNumCheckedOut()`: all copies minus the sum over the whole `checkedIn` array. */
  function NumCheckedOut(lib: Library): (r: int)
    ensures CountersSound(lib) ==> 0 <= r <= TotalCopies(lib)
  {
    CountsBounded(lib);
    TotalCopies(lib) - Sum(lib.checkedIn)
  }

  /** The bounds behind the counting queries: with no negative entry the total is at least
      each entry; with sound counters the shelf holds between none and all of the copies. */
  lemma CountsBounded(lib: Library)
    ensures (forall i :: 0 <= i < |lib.copies| ==> 0 <= lib.copies[i]) ==>
      0 <= Sum(lib.copies) && forall i :: 0 <= i < |lib.copies| ==> lib.copies[i] <= Sum(lib.copies)
    ensures CountersSound(lib) ==> 0 <= Sum(lib.checkedIn) <= Sum(lib.copies)
  {
    if forall i :: 0 <= i < |lib.copies| ==> 0 <= lib.copies[i] {
      SumBoundsElements(lib.copies, |lib.copies|);
    }
    if CountersSound(lib) {
      SumMonotone(lib.checkedIn, lib.copies, |lib.copies|);
      SumBoundsElements(lib.checkedIn, |lib.checkedIn|);
    }
  }

  // ---------------------------------------------------------------- queries by author and title

  /** What the loops over the active entries need to compare each entry's author with `a`
      by name: every such author, and `a` as soon as there is one entry; an empty catalog
      never compares, so it accepts any author. */
  predicate AuthorsComparable(lib: Library, a: Author)
    requires Shaped(lib)
  {
    && (lib.numBooks > 0 ==> Comparable(a))
    && forall i :: 0 <= i < lib.numBooks ==> Comparable(lib.books[i].value.author)
  }

  /** The active indices whose book's author has the same name as `a`, below `n`. */
  function AuthorIndices(lib: Library, a: Author, n: int): set<int>
    requires Shaped(lib) && AuthorsComparable(lib, a) && 0 <= n <= lib.numBooks
  {
    set i | 0 <= i < n && HasSameName(lib.books[i].value.author, a)
  }

  /** The counting loop of `numBooksByAuthor` over the first `n` entries. */
  function CountByAuthor(lib: Library, a: Author, n: int): (r: nat)
    requires Shaped(lib) && AuthorsComparable(lib, a) && 0 <= n <= lib.numBooks
    ensures r == |AuthorIndices(lib, a, n)|
    ensures r <= n
    decreases n
  {
    if n == 0 then 0
    else
      var prev := CountByAuthor(lib, a, n - 1);
      var hit := HasSameName(lib.books[n - 1].value.author, a);
      AuthorIndicesStep(lib, a, n);
      prev + (if hit then 1 else 0)
  }

  /** The indices below `n` are those below `n - 1`, and `n - 1` itself when it matches. */
  lemma AuthorIndicesStep(lib: Library, a: Author, n: int)
    requires Shaped(lib) && AuthorsComparable(lib, a) && 0 < n <= lib.numBooks
    ensures n - 1 !in AuthorIndices(lib, a, n - 1)
    ensures AuthorIndices(lib, a, n) ==
      AuthorIndices(lib, a, n - 1) + (if HasSameName(lib.books[n - 1].value.author, a) then {n - 1} else {})
  {
  }

  /** `numBooksByAuthor(a)`: how many active entries have an author with the same name as `a`. */
  function NumBooksByAuthor(lib: Library, a: Author): (r: nat)
    requires Shaped(lib) && AuthorsComparable(lib, a)
    ensures r == |AuthorIndices(lib, a, lib.numBooks)|
    ensures r <= lib.numBooks
  {
    CountByAuthor(lib, a, lib.numBooks)
  }

  /** The listing line of `listBooksByAuthor`: the entry's title and the query author. */
  function AuthorLine(title: string, a: Author): (r: string)
    ensures |r| == |title| + |ToString(a)| + 4
    ensures r[..|title|] == title && r[|r| - 1] == '\n'
  {
    title + ". " + ToString(a) + ".\n"
  }

  /** The listing loop of `listBooksByAuthor` over the first `n` entries. */
  function AuthorLines(lib: Library, a: Author, n: int): (r: string)
    requires Shaped(lib) && AuthorsComparable(lib, a) && 0 <= n <= lib.numBooks
    ensures r == "" <==> CountByAuthor(lib, a, n) == 0
    ensures r != "" ==> r[|r| - 1] == '\n'
    decreases n
  {
    if n == 0 then ""
    else
      var e := lib.books[n - 1].value;
      AuthorLines(lib, a, n - 1) + (if HasSameName(e.author, a) then AuthorLine(e.title, a) else "")
  }

  /** The answer of `listBooksByAuthor` when no entry matches; it ends in a full stop, not a newline. */
  function NoBooksBy(a: Author): (r: string)
    ensures |r| == |ToString(a)| + 13 && r[|r| - 1] == '.'
  {
    "No books by " + ToString(a) + "."
  }

  /** `listBooksByAuthor(a)`: one line per active entry by an author with the same name as
      `a`, in catalog order, or a single message when there is none. */
  function ListBooksByAuthor(lib: Library, a: Author): (r: string)
    requires Shaped(lib) && AuthorsComparable(lib, a)
    ensures r == NoBooksBy(a) <==> NumBooksByAuthor(lib, a) == 0
    ensures NumBooksByAuthor(lib, a) > 0 ==> r == AuthorLines(lib, a, lib.numBooks)
  {
    if NumBooksByAuthor(lib, a) > 0 then
      var r := AuthorLines(lib, a, lib.numBooks);
      assert r[|r| - 1] != NoBooksBy(a)[|NoBooksBy(a)| - 1];
      r
    else
      NoBooksBy(a)
  }

  /** The title of entry `i` contains `s`, ignoring case. */
  function TitleHit(lib: Library, s: string, i: int): (r: bool)
    requires Shaped(lib) && 0 <= i < lib.numBooks
    ensures r ==> |s| <= |lib.books[i].value.title|
    ensures s == "" || EqualsIgnoreCase(lib.books[i].value.title, s) ==> r
  {
    var title := Lower(lib.books[i].value.title);
    ContainsSelfAndEmpty(title);
    var hit := Contains(title, Lower(s));
    assert hit ==> exists k :: OccursAt(title, Lower(s), k);
    hit
  }

  /** The listing line of `listBooksByTitle`: the entry's title and its own author. */
  function TitleLine(e: Book): (r: string)
    ensures |r| == |e.title| + |ToString(e.author)| + 4
    ensures r[..|e.title|] == e.title && r[|r| - 1] == '\n'
  {
    e.title + ". " + ToString(e.author) + ".\n"
  }

  /** The listing loop of `listBooksByTitle` over the first `n` entries. */
  function TitleLines(lib: Library, s: string, n: int): (r: string)
    requires Shaped(lib) && 0 <= n <= lib.numBooks
    ensures r == "" <==> forall i :: 0 <= i < n ==> !TitleHit(lib, s, i)
    ensures r != "" ==> r[|r| - 1] == '\n'
    decreases n
  {
    if n == 0 then ""
    else
      var e := lib.books[n - 1].value;
      TitleLines(lib, s, n - 1) + (if TitleHit(lib, s, n - 1) then TitleLine(e) else "")
  }

  /** The answer of `listBooksByTitle` when no title matches: the query in quotes, ending in a
      full stop. */
  function NoBooksTitled(s: string): (r: string)
    ensures |r| == |s| + 30 && r[|r| - 1] == '.'
    ensures r[15..15 + |s|] == s && r[14] == '"' && r[15 + |s|] == '"'
  {
    "No books with \"" + s + "\" in the title."
  }

  /** `listBooksByTitle(s)`: one line per active entry whose title contains `s` ignoring case,
      in catalog order, or a single message naming `s` when there is none. */
  function ListBooksByTitle(lib: Library, s: string): (r: string)
    requires Shaped(lib)
    ensures r == NoBooksTitled(s) <==> forall i :: 0 <= i < lib.numBooks ==> !TitleHit(lib, s, i)
    ensures (exists i :: 0 <= i < lib.numBooks && TitleHit(lib, s, i)) ==> r == TitleLines(lib, s, lib.numBooks)
  {
    var line := TitleLines(lib, s, lib.numBooks);
    if line == "" then
      NoBooksTitled(s)
    else
      assert line[|line| - 1] != NoBooksTitled(s)[|NoBooksTitled(s)| - 1];
      line
  }
}
