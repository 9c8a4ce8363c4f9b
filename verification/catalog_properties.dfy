/** What the catalog's operations promise when taken together: each mutator keeps the
    catalog invariant, the counting queries agree with the active entries, and adding
    and deleting are inverse to each other. */
module CatalogProperties {
  import opened Text
  import opened Authors
  import opened Books
  import opened Sums
  import opened Catalog

  // ---------------------------------------------------------------- the counting queries

  /** Copies out over the first `n` entries: owned minus on the shelf, entry by entry. */
  function ActiveOut(lib: Library, n: int): int
    requires Parallel(lib) && 0 <= n <= |lib.books|
    decreases n
  {
    if n == 0 then 0 else ActiveOut(lib, n - 1) + lib.copies[n - 1] - lib.checkedIn[n - 1]
  }

  lemma {:induction false} ActiveOutIsDifference(lib: Library, n: int)
    requires Parallel(lib) && 0 <= n <= |lib.books|
    ensures ActiveOut(lib, n) == SumTo(lib.copies, n) - SumTo(lib.checkedIn, n)
    decreases n
  {
    if n > 0 {
      ActiveOutIsDifference(lib, n - 1);
    }
  }

  lemma {:induction false} ActiveOutNonNegative(lib: Library, n: int)
    requires Valid(lib) && 0 <= n <= lib.numBooks
    ensures ActiveOut(lib, n) >= 0
    ensures SumTo(lib.copies, n) >= n
    decreases n
  {
    if n > 0 {
      ActiveOutNonNegative(lib, n - 1);
    }
  }

  /** Although the queries sum the whole arrays, in a valid catalog only the active entries
      contribute: the total is the active copies, at least one per entry, and the number checked
      out is the sum over active entries of copies owned minus copies on the shelf, never negative. */
  lemma NumCheckedOutIsActiveOut(lib: Library)
    requires Valid(lib)
    ensures TotalCopies(lib) == SumTo(lib.copies, lib.numBooks) >= lib.numBooks
    ensures Sum(lib.checkedIn) == SumTo(lib.checkedIn, lib.numBooks)
    ensures NumCheckedOut(lib) == ActiveOut(lib, lib.numBooks) >= 0
  {
    var n := lib.numBooks;
    assert forall i :: n <= i < |lib.books| ==> lib.copies[i] == 0 && lib.checkedIn[i] == 0 by {
      forall i | n <= i < |lib.books|
        ensures lib.copies[i] == 0 && lib.checkedIn[i] == 0
      {
        assert SlotAt(lib, i) == EmptySlot;
      }
    }
    SumZeroTail(lib.copies, n, |lib.books|);
    SumZeroTail(lib.checkedIn, n, |lib.books|);
    ActiveOutIsDifference(lib, n);
    ActiveOutNonNegative(lib, n);
  }

  // ---------------------------------------------------------------- addBook

  /** Two active entries cannot both have `b`'s ISBN and title in a valid catalog. */
  lemma CopyIsUnique(lib: Library, b: Book, i: int, j: int)
    requires Valid(lib) && 0 <= i < lib.numBooks && 0 <= j < lib.numBooks
    requires Agrees(IsbnAndTitle, lib.books[i].value, b) && Agrees(IsbnAndTitle, lib.books[j].value, b)
    ensures i == j
  {
    if i < j {
      assert Agrees(IsbnAndTitle, lib.books[i].value, lib.books[j].value);
    } else if j < i {
      assert Agrees(IsbnAndTitle, lib.books[j].value, lib.books[i].value);
    }
  }

  /** In a valid catalog, adding a book already present bumps exactly one entry: the one
      with its ISBN and title. */
  lemma AddBookBumpsOneEntry(lib: Library, b: Book)
    requires Valid(lib) && HasCopy(lib, b)
    ensures var k := LastMatch(lib, b, IsbnAndTitle);
      && AddBook(lib, b).copies == lib.copies[k := lib.copies[k] + 1]
      && AddBook(lib, b).checkedIn == lib.checkedIn[k := lib.checkedIn[k] + 1]
  {
    var k := LastMatch(lib, b, IsbnAndTitle);
    var r := AddBook(lib, b);
    forall j | 0 <= j < lib.numBooks && Agrees(IsbnAndTitle, lib.books[j].value, b)
      ensures j == k
    {
      CopyIsUnique(lib, b, j, k);
    }
    assert r.copies == lib.copies[k := lib.copies[k] + 1];
    assert r.checkedIn == lib.checkedIn[k := lib.checkedIn[k] + 1];
  }

  /** `addBook` keeps the catalog invariant. */
  lemma AddBookKeepsValid(lib: Library, b: Book)
    requires Valid(lib) && (HasCopy(lib, b) || lib.numBooks < Capacity(lib))
    ensures Valid(AddBook(lib, b))
  {
    var r := AddBook(lib, b);
    var n := lib.numBooks;
    if HasCopy(lib, b) {
      forall i | n <= i < |r.books|
        ensures SlotAt(r, i) == EmptySlot
      {
        assert SlotAt(lib, i) == EmptySlot;
      }
    } else {
      assert SlotAt(lib, n) == EmptySlot;
      forall i | n + 1 <= i < |r.books|
        ensures SlotAt(r, i) == EmptySlot
      {
        assert SlotAt(lib, i) == EmptySlot;
      }
      forall i, j | 0 <= i < j < r.numBooks
        ensures !Agrees(IsbnAndTitle, r.books[i].value, r.books[j].value)
      {
        if j == n {
          assert !Agrees(IsbnAndTitle, lib.books[i].value, b);
        }
      }
    }
  }

  /** `addBook` adds exactly one copy to the total and leaves the number checked out alone:
      the new copy is on the shelf. */
  lemma AddBookCounts(lib: Library, b: Book)
    requires Shaped(lib) && (HasCopy(lib, b) || lib.numBooks < Capacity(lib))
    ensures NumCheckedOut(AddBook(lib, b)) == NumCheckedOut(lib)
    ensures Valid(lib) ==> TotalCopies(AddBook(lib, b)) == TotalCopies(lib) + 1
  {
    var r := AddBook(lib, b);
    SumDifferencePointwise(lib.copies, lib.checkedIn, r.copies, r.checkedIn, |lib.copies|);
    if Valid(lib) {
      var k := if HasCopy(lib, b) then LastMatch(lib, b, IsbnAndTitle) else lib.numBooks;
      if HasCopy(lib, b) {
        AddBookBumpsOneEntry(lib, b);
      }
      SumUpdate(lib.copies, k, lib.copies[k] + 1, |lib.copies|);
    }
  }

  /** After `addBook(b)` the catalog has an entry with `b`'s ISBN and title, and every
      entry it had before is still findable. */
  lemma AddBookFinds(lib: Library, b: Book, c: Book)
    requires Shaped(lib) && (HasCopy(lib, b) || lib.numBooks < Capacity(lib))
    ensures HasCopy(AddBook(lib, b), b)
    ensures HasCopy(lib, c) ==> HasCopy(AddBook(lib, b), c)
  {
    var r := AddBook(lib, b);
    if !HasCopy(lib, b) {
      assert r.books[lib.numBooks].value == b;
    }
    if HasCopy(lib, c) {
      var k := LastMatch(lib, c, IsbnAndTitle);
      assert r.books[k] == lib.books[k];
    }
  }

  /** Room for every book of the list is enough for `addBooks` not to overflow. */
  lemma {:induction false} RoomForAll(lib: Library, bs: seq<Book>)
    requires Shaped(lib) && lib.numBooks + |bs| <= Capacity(lib)
    ensures CanAddAll(lib, bs)
    decreases |bs|
  {
    if bs != [] {
      RoomForAll(AddBook(lib, bs[0]), bs[1..]);
    }
  }

  /** `addBooks` keeps the invariant, adds one copy per book, checks none out, and leaves
      every book of the list findable by ISBN and title. */
  lemma {:induction false} AddBooksFacts(lib: Library, bs: seq<Book>)
    requires Valid(lib) && CanAddAll(lib, bs)
    ensures Valid(AddBooks(lib, bs))
    ensures TotalCopies(AddBooks(lib, bs)) == TotalCopies(lib) + |bs|
    ensures NumCheckedOut(AddBooks(lib, bs)) == NumCheckedOut(lib)
    ensures forall c :: c in bs ==> HasCopy(AddBooks(lib, bs), c)
    ensures forall c :: HasCopy(lib, c) ==> HasCopy(AddBooks(lib, bs), c)
    decreases |bs|
  {
    if bs != [] {
      var l := AddBook(lib, bs[0]);
      AddBookKeepsValid(lib, bs[0]);
      AddBookCounts(lib, bs[0]);
      AddBooksFacts(l, bs[1..]);
      forall c | HasCopy(lib, c) || c == bs[0]
        ensures HasCopy(AddBooks(lib, bs), c)
      {
        AddBookFinds(lib, bs[0], c);
      }
      forall c | c in bs
        ensures HasCopy(AddBooks(lib, bs), c)
      {
        if c != bs[0] {
          assert c in bs[1..];
        }
      }
    }
  }

  // ---------------------------------------------------------------- checkOut and checkIn

  /** How many of the first `m` slots are active entries that `checkOut(b)` lends from. */
  function LendCount(lib: Library, b: Book, m: int): nat
    requires Shaped(lib) && 0 <= m <= |lib.books|
    decreases m
  {
    if m == 0 then 0
    else LendCount(lib, b, m - 1) + (if m - 1 < lib.numBooks && Lends(lib, b, m - 1) then 1 else 0)
  }

  /** How many of the first `m` slots are active entries that `checkIn(b)` takes a copy back into. */
  function TakeCount(lib: Library, b: Book, m: int): nat
    requires Shaped(lib) && 0 <= m <= |lib.books|
    decreases m
  {
    if m == 0 then 0
    else TakeCount(lib, b, m - 1) + (if m - 1 < lib.numBooks && Takes(lib, b, m - 1) then 1 else 0)
  }

  lemma {:induction false} ShelfAfterCheckOut(lib: Library, b: Book, m: int)
    requires Shaped(lib) && 0 <= m <= |lib.books|
    ensures SumTo(CheckOut(lib, b).lib.checkedIn, m) == SumTo(lib.checkedIn, m) - LendCount(lib, b, m)
    decreases m
  {
    if m > 0 {
      ShelfAfterCheckOut(lib, b, m - 1);
    }
  }

  lemma {:induction false} ShelfAfterCheckIn(lib: Library, b: Book, m: int)
    requires Shaped(lib) && 0 <= m <= |lib.books|
    ensures SumTo(CheckIn(lib, b).lib.checkedIn, m) == SumTo(lib.checkedIn, m) + TakeCount(lib, b, m)
    decreases m
  {
    if m > 0 {
      ShelfAfterCheckIn(lib, b, m - 1);
    }
  }

  /** A check-out that lends from `k` entries raises the number checked out by `k`; a
      successful one lends from at least one. */
  lemma CheckOutCounts(lib: Library, b: Book)
    requires Shaped(lib)
    ensures NumCheckedOut(CheckOut(lib, b).lib) == NumCheckedOut(lib) + LendCount(lib, b, |lib.books|)
    ensures TotalCopies(CheckOut(lib, b).lib) == TotalCopies(lib)
    ensures CheckOut(lib, b).message == CheckedOut ==> LendCount(lib, b, |lib.books|) >= 1
  {
    ShelfAfterCheckOut(lib, b, |lib.books|);
    if CheckOut(lib, b).message == CheckedOut {
      var k := LastMatch(lib, b, IsbnOrTitle);
      LendCountPositive(lib, b, k, |lib.books|);
    }
  }

  /** A check-in that takes copies back into `k` entries lowers the number checked out by `k`. */
  lemma CheckInCounts(lib: Library, b: Book)
    requires Shaped(lib)
    ensures NumCheckedOut(CheckIn(lib, b).lib) == NumCheckedOut(lib) - TakeCount(lib, b, |lib.books|)
    ensures TotalCopies(CheckIn(lib, b).lib) == TotalCopies(lib)
    ensures CheckIn(lib, b).message == CheckedIn ==> TakeCount(lib, b, |lib.books|) >= 1
  {
    ShelfAfterCheckIn(lib, b, |lib.books|);
    if CheckIn(lib, b).message == CheckedIn {
      var k := LastMatch(lib, b, IsbnOrTitle);
      TakeCountPositive(lib, b, k, |lib.books|);
    }
  }

  lemma {:induction false} LendCountPositive(lib: Library, b: Book, k: int, m: int)
    requires Shaped(lib) && 0 <= k < lib.numBooks && Lends(lib, b, k) && k < m <= |lib.books|
    ensures LendCount(lib, b, m) >= 1
    decreases m
  {
    if m - 1 > k {
      LendCountPositive(lib, b, k, m - 1);
    }
  }

  lemma {:induction false} TakeCountPositive(lib: Library, b: Book, k: int, m: int)
    requires Shaped(lib) && 0 <= k < lib.numBooks && Takes(lib, b, k) && k < m <= |lib.books|
    ensures TakeCount(lib, b, m) >= 1
    decreases m
  {
    if m - 1 > k {
      TakeCountPositive(lib, b, k, m - 1);
    }
  }

  /** `checkOut` keeps the invariant: it never takes an entry's shelf count below zero. */
  lemma CheckOutKeepsValid(lib: Library, b: Book)
    requires Valid(lib)
    ensures Valid(CheckOut(lib, b).lib)
  {
    var r := CheckOut(lib, b).lib;
    forall i | r.numBooks <= i < |r.books|
      ensures SlotAt(r, i) == EmptySlot
    {
      assert SlotAt(lib, i) == EmptySlot;
    }
  }

  /** `checkIn` keeps the invariant: it never raises an entry's shelf count above its copies. */
  lemma CheckInKeepsValid(lib: Library, b: Book)
    requires Valid(lib)
    ensures Valid(CheckIn(lib, b).lib)
  {
    var r := CheckIn(lib, b).lib;
    forall i | r.numBooks <= i < |r.books|
      ensures SlotAt(r, i) == EmptySlot
    {
      assert SlotAt(lib, i) == EmptySlot;
    }
  }

  /** Checking a book out and straight back in restores a valid catalog when the book
      matches exactly one entry and that entry had a copy on the shelf. */
  lemma CheckOutThenIn(lib: Library, b: Book, k: int)
    requires Valid(lib) && 0 <= k < lib.numBooks && Lends(lib, b, k)
    requires forall j :: 0 <= j < lib.numBooks && j != k ==> !Agrees(IsbnOrTitle, lib.books[j].value, b)
    ensures CheckOut(lib, b).message == CheckedOut
    ensures CheckIn(CheckOut(lib, b).lib, b) == Reply(lib, CheckedIn)
  {
    var out := CheckOut(lib, b).lib;
    var back := CheckIn(out, b);
    assert LastMatch(lib, b, IsbnOrTitle) == k;
    assert LastMatch(out, b, IsbnOrTitle) == k;
    assert back.lib.checkedIn == lib.checkedIn;
  }

  // ---------------------------------------------------------------- deleteBook

  /** Two catalogs with the same count and the same contents slot by slot are equal. */
  lemma SlotsDetermineLibrary(l1: Library, l2: Library)
    requires Parallel(l1) && Parallel(l2) && |l1.books| == |l2.books| && l1.numBooks == l2.numBooks
    requires forall j :: 0 <= j < |l1.books| ==> SlotAt(l1, j) == SlotAt(l2, j)
    ensures l1 == l2
  {
    assert l1.books == l2.books by {
      forall j | 0 <= j < |l1.books| ensures l1.books[j] == l2.books[j] {
        assert SlotAt(l1, j) == SlotAt(l2, j);
      }
    }
    assert l1.copies == l2.copies by {
      forall j | 0 <= j < |l1.books| ensures l1.copies[j] == l2.copies[j] {
        assert SlotAt(l1, j) == SlotAt(l2, j);
      }
    }
    assert l1.checkedIn == l2.checkedIn by {
      forall j | 0 <= j < |l1.books| ensures l1.checkedIn[j] == l2.checkedIn[j] {
        assert SlotAt(l1, j) == SlotAt(l2, j);
      }
    }
  }

  /** Deletion keeps the catalog invariant: the survivors keep their relative order, so
      no two of them come to share ISBN and title, and the vacated slot is cleared. */
  lemma DeleteBookKeepsValid(lib: Library, b: Book)
    requires Valid(lib)
    requires LastMatch(lib, b, IsbnOrTitle) >= 0 ==> lib.numBooks < Capacity(lib)
    ensures Valid(DeleteBook(lib, b).lib)
  {
    var k := LastMatch(lib, b, IsbnOrTitle);
    if k >= 0 {
      var r := DeleteBook(lib, b).lib;
      var n := lib.numBooks;
      // the old position of the survivor now at `j`
      forall j | 0 <= j < r.numBooks
        ensures SlotAt(r, j) == SlotAt(lib, if j < k then j else j + 1)
      {
      }
      forall j | 0 <= j < r.numBooks
        ensures 1 <= r.copies[j] && 0 <= r.checkedIn[j] <= r.copies[j]
      {
        assert SlotAt(r, j) == SlotAt(lib, if j < k then j else j + 1);
      }
      forall j | r.numBooks <= j < |r.books|
        ensures SlotAt(r, j) == EmptySlot
      {
        if j == n - 1 {
          assert SlotAt(r, j) == SlotAt(lib, n);
        } else if j > n {
          assert SlotAt(r, j) == SlotAt(lib, j);
        }
      }
      forall i, j | 0 <= i < j < r.numBooks
        ensures !Agrees(IsbnAndTitle, r.books[i].value, r.books[j].value)
      {
        var i0, j0 := if i < k then i else i + 1, if j < k then j else j + 1;
        assert SlotAt(r, i) == SlotAt(lib, i0) && SlotAt(r, j) == SlotAt(lib, j0);
        assert i0 < j0;
        assert !Agrees(IsbnAndTitle, lib.books[i0].value, lib.books[j0].value);
      }
    }
  }

  /** In a valid catalog, deleting an entry takes its copies out of the total and its
      copies out on loan out of the number checked out. */
  lemma DeleteBookCounts(lib: Library, b: Book)
    requires Valid(lib)
    requires LastMatch(lib, b, IsbnOrTitle) >= 0 ==> lib.numBooks < Capacity(lib)
    ensures var k := LastMatch(lib, b, IsbnOrTitle);
      var r := DeleteBook(lib, b).lib;
      k >= 0 ==>
        && TotalCopies(r) == TotalCopies(lib) - lib.copies[k]
        && NumCheckedOut(r) == NumCheckedOut(lib) - (lib.copies[k] - lib.checkedIn[k])
  {
    var k := LastMatch(lib, b, IsbnOrTitle);
    if k >= 0 {
      var r := DeleteBook(lib, b).lib;
      var n := lib.numBooks;
      forall j | n <= j < |lib.books|
        ensures lib.copies[j] == 0 && lib.checkedIn[j] == 0
      {
        assert SlotAt(lib, j) == EmptySlot;
      }
      assert r.copies == lib.copies[..k] + lib.copies[k + 1..] + [0] by {
        forall j | 0 <= j < |r.copies|
          ensures r.copies[j] == (lib.copies[..k] + lib.copies[k + 1..] + [0])[j]
        {
          assert SlotAt(r, j).copies == r.copies[j];
          if j < k {
            assert SlotAt(r, j) == SlotAt(lib, j);
          } else if j < n {
            assert SlotAt(r, j) == SlotAt(lib, j + 1);
          } else if j > n {
            assert SlotAt(r, j) == SlotAt(lib, j);
          }
        }
      }
      assert r.checkedIn == lib.checkedIn[..k] + lib.checkedIn[k + 1..] + [0] by {
        forall j | 0 <= j < |r.checkedIn|
          ensures r.checkedIn[j] == (lib.checkedIn[..k] + lib.checkedIn[k + 1..] + [0])[j]
        {
          assert SlotAt(r, j).checkedIn == r.checkedIn[j];
          if j < k {
            assert SlotAt(r, j) == SlotAt(lib, j);
          } else if j < n {
            assert SlotAt(r, j) == SlotAt(lib, j + 1);
          } else if j > n {
            assert SlotAt(r, j) == SlotAt(lib, j);
          }
        }
      }
      SumWithZero(lib.copies[..k] + lib.copies[k + 1..]);
      SumWithZero(lib.checkedIn[..k] + lib.checkedIn[k + 1..]);
      SumRemove(lib.copies, k);
      SumRemove(lib.checkedIn, k);
    }
  }

  lemma SumWithZero(s: seq<int>)
    ensures Sum(s + [0]) == Sum(s)
  {
    assert (s + [0])[..|s|] == s[..|s|];
    SumPrefix(s + [0], s, |s|);
  }

  /** Adding a book that is not yet a copy of any entry, then deleting it, gives the
      catalog back unchanged, provided there is room for the deletion's compaction. */
  lemma AddThenDelete(lib: Library, b: Book)
    requires Valid(lib) && !HasCopy(lib, b) && lib.numBooks + 1 < Capacity(lib)
    ensures var l := AddBook(lib, b);
      && LastMatch(l, b, IsbnOrTitle) == lib.numBooks
      && DeleteBook(l, b) == Reply(lib, BookRemoved)
  {
    var n := lib.numBooks;
    var l := AddBook(lib, b);
    assert LastMatch(l, b, IsbnOrTitle) == n by {
      assert l.books[n].value == b;
    }
    var r := DeleteBook(l, b);
    forall j | 0 <= j < |lib.books|
      ensures SlotAt(r.lib, j) == SlotAt(lib, j)
    {
      if j < n {
        assert SlotAt(r.lib, j) == SlotAt(l, j);
      } else if j == n {
        assert SlotAt(r.lib, j) == SlotAt(l, n + 1) == SlotAt(lib, n + 1) == EmptySlot;
        assert SlotAt(lib, n) == EmptySlot;
      } else if j > n + 1 {
        assert SlotAt(r.lib, j) == SlotAt(l, j);
      } else {
        assert SlotAt(lib, n + 1) == EmptySlot;
      }
    }
    SlotsDetermineLibrary(r.lib, lib);
  }

  // ---------------------------------------------------------------- adding many, deleting in reverse

  /** No two of `bs`, and none of `bs` with an active entry, share both ISBN and title. */
  predicate FreshBooks(lib: Library, bs: seq<Book>)
    requires Shaped(lib)
  {
    && (forall i, j :: 0 <= i < |bs| && 0 <= j < lib.numBooks ==> !Agrees(IsbnAndTitle, lib.books[j].value, bs[i]))
    && (forall i, j :: 0 <= i < j < |bs| ==> !Agrees(IsbnAndTitle, bs[i], bs[j]))
  }

  /** `r` is the valid catalog `lib` with `bs` appended as new entries, one copy each on the shelf. */
  predicate Extends(r: Library, lib: Library, bs: seq<Book>)
    requires Valid(lib)
  {
    && Valid(r) && |r.books| == |lib.books|
    && r.numBooks == lib.numBooks + |bs|
    && (forall j :: 0 <= j < lib.numBooks ==> SlotAt(r, j) == SlotAt(lib, j))
    && (forall i :: 0 <= i < |bs| ==> SlotAt(r, lib.numBooks + i) == Slot(Ref(bs[i]), 1, 1))
  }

  /** Adding the first of a list of new books appends it, and the rest are still new. */
  lemma AddFreshHead(lib: Library, bs: seq<Book>)
    requires Valid(lib) && FreshBooks(lib, bs) && bs != [] && lib.numBooks < Capacity(lib)
    ensures !HasCopy(lib, bs[0])
    ensures Extends(AddBook(lib, bs[0]), lib, [bs[0]])
    ensures FreshBooks(AddBook(lib, bs[0]), bs[1..])
  {
    var n := lib.numBooks;
    var b := bs[0];
    assert !HasCopy(lib, b);
    var l := AddBook(lib, b);
    AddBookKeepsValid(lib, b);
    assert SlotAt(lib, n) == EmptySlot;
    assert SlotAt(l, n + 0) == Slot(Ref(b), 1, 1);
    var rest := bs[1..];
    forall i, j | 0 <= i < |rest| && 0 <= j < l.numBooks
      ensures !Agrees(IsbnAndTitle, l.books[j].value, rest[i])
    {
      if j < n {
        assert !Agrees(IsbnAndTitle, lib.books[j].value, bs[i + 1]);
      } else {
        assert !Agrees(IsbnAndTitle, bs[0], bs[i + 1]);
      }
    }
    forall i, j | 0 <= i < j < |rest|
      ensures !Agrees(IsbnAndTitle, rest[i], rest[j])
    {
      assert !Agrees(IsbnAndTitle, bs[i + 1], bs[j + 1]);
    }
  }

  /** Appending in two steps: `lib` extended by `[b]`, then by `rest`, is `lib` extended by `[b] + rest`. */
  lemma ExtendsCompose(lib: Library, l: Library, r: Library, b: Book, rest: seq<Book>)
    requires Valid(lib) && Valid(l) && Extends(l, lib, [b]) && Extends(r, l, rest)
    ensures Extends(r, lib, [b] + rest)
  {
    var n := lib.numBooks;
    var bs := [b] + rest;
    forall j | 0 <= j < n
      ensures SlotAt(r, j) == SlotAt(lib, j)
    {
      assert SlotAt(r, j) == SlotAt(l, j);
    }
    forall i | 0 <= i < |bs|
      ensures SlotAt(r, n + i) == Slot(Ref(bs[i]), 1, 1)
    {
      if i == 0 {
        assert SlotAt(r, n) == SlotAt(l, n + 0);
      } else {
        assert SlotAt(r, (n + 1) + (i - 1)) == Slot(Ref(rest[i - 1]), 1, 1);
      }
    }
  }

  /** Adding books whose ISBN-and-title pairs are new appends each of them, in order. */
  lemma {:induction false} AddBooksAppends(lib: Library, bs: seq<Book>)
    requires Valid(lib) && FreshBooks(lib, bs) && lib.numBooks + |bs| <= Capacity(lib)
    ensures CanAddAll(lib, bs)
    ensures Extends(AddBooks(lib, bs), lib, bs)
    decreases |bs|
  {
    RoomForAll(lib, bs);
    if bs == [] {
      assert AddBooks(lib, bs) == lib;
    } else {
      AddFreshHead(lib, bs);
      var l := AddBook(lib, bs[0]);
      AddBooksAppends(l, bs[1..]);
      assert AddBooks(lib, bs) == AddBooks(l, bs[1..]);
      ExtendsCompose(lib, l, AddBooks(lib, bs), bs[0], bs[1..]);
      assert [bs[0]] + bs[1..] == bs;
    }
  }

  /** Deleting the most recently appended book undoes its addition. */
  lemma DeleteLastAppended(r: Library, lib: Library, bs: seq<Book>)
    requires Valid(lib) && Extends(r, lib, bs) && bs != [] && r.numBooks < Capacity(r)
    ensures LastMatch(r, bs[|bs| - 1], IsbnOrTitle) == r.numBooks - 1
    ensures Extends(DeleteBook(r, bs[|bs| - 1]).lib, lib, bs[..|bs| - 1])
  {
    var m := r.numBooks;
    var b := bs[|bs| - 1];
    assert SlotAt(r, lib.numBooks + (|bs| - 1)) == Slot(Ref(b), 1, 1);
    assert r.books[m - 1].value == b;
    assert LastMatch(r, b, IsbnOrTitle) == m - 1;
    DeleteBookKeepsValid(r, b);
    var d := DeleteBook(r, b).lib;
    forall j | 0 <= j < m - 1
      ensures SlotAt(d, j) == SlotAt(r, j)
    {
    }
    var init := bs[..|bs| - 1];
    forall i | 0 <= i < |init|
      ensures SlotAt(d, lib.numBooks + i) == Slot(Ref(init[i]), 1, 1)
    {
      assert SlotAt(d, lib.numBooks + i) == SlotAt(r, lib.numBooks + i);
    }
  }

  /** The reverse of a sequence, last element first. */
  function Reverse<T>(s: seq<T>): (r: seq<T>)
    ensures |r| == |s|
  {
    if s == [] then [] else [s[|s| - 1]] + Reverse(s[..|s| - 1])
  }

  /** The books of `ds` can be deleted one after another without overflowing the arrays. */
  predicate CanDeleteAll(lib: Library, ds: seq<Book>)
    requires Shaped(lib)
    decreases |ds|
  {
    || ds == []
    || ((LastMatch(lib, ds[0], IsbnOrTitle) >= 0 ==> lib.numBooks < Capacity(lib))
        && CanDeleteAll(DeleteBook(lib, ds[0]).lib, ds[1..]))
  }

  /** `deleteBook` on each book of `ds` in order. */
  function DeleteBooks(lib: Library, ds: seq<Book>): Library
    requires Shaped(lib) && CanDeleteAll(lib, ds)
    decreases |ds|
  {
    if ds == [] then lib else DeleteBooks(DeleteBook(lib, ds[0]).lib, ds[1..])
  }

  lemma {:induction false} DeleteAppendedInReverse(r: Library, lib: Library, bs: seq<Book>)
    requires Valid(lib) && Extends(r, lib, bs) && r.numBooks < Capacity(r)
    ensures CanDeleteAll(r, Reverse(bs))
    ensures DeleteBooks(r, Reverse(bs)) == lib
    decreases |bs|
  {
    if bs == [] {
      forall j | 0 <= j < |lib.books|
        ensures SlotAt(r, j) == SlotAt(lib, j)
      {
        if j >= lib.numBooks {
          assert SlotAt(r, j) == EmptySlot == SlotAt(lib, j);
        }
      }
      SlotsDetermineLibrary(r, lib);
    } else {
      var b := bs[|bs| - 1];
      DeleteLastAppended(r, lib, bs);
      var d := DeleteBook(r, b).lib;
      DeleteAppendedInReverse(d, lib, bs[..|bs| - 1]);
      assert Reverse(bs) == [b] + Reverse(bs[..|bs| - 1]);
      assert Reverse(bs)[1..] == Reverse(bs[..|bs| - 1]);
    }
  }

  /** Adding books with new ISBN-and-title pairs and then deleting them in reverse order of
      insertion gives the catalog back unchanged. Starting from an empty catalog, it ends
      empty with every counter zero. */
  lemma AddBooksThenDeleteReversed(lib: Library, bs: seq<Book>)
    requires Valid(lib) && FreshBooks(lib, bs) && lib.numBooks + |bs| < Capacity(lib)
    ensures CanAddAll(lib, bs)
    ensures CanDeleteAll(AddBooks(lib, bs), Reverse(bs))
    ensures DeleteBooks(AddBooks(lib, bs), Reverse(bs)) == lib
  {
    AddBooksAppends(lib, bs);
    DeleteAppendedInReverse(AddBooks(lib, bs), lib, bs);
  }

  // ---------------------------------------------------------------- queries by author and title

  /** A query whose text equals an active title, ignoring case, lists at least that entry;
      the empty catalog lists nothing for any query. */
  lemma TitleQueryFindsStoredTitle(lib: Library, s: string, i: int, size: nat)
    requires Shaped(lib) && 0 <= i < lib.numBooks
    requires EqualsIgnoreCase(s, lib.books[i].value.title)
    ensures ListBooksByTitle(lib, s) != NoBooksTitled(s)
    ensures ListBooksByTitle(NewLibrary(size), s) == NoBooksTitled(s)
  {
    ContainsSelfAndEmpty(Lower(s));
    assert TitleHit(lib, s, i);
  }

  /** Whether one title contains the query does not depend on the query's case. */
  lemma TitleHitIgnoresCase(lib: Library, s: string, i: int)
    requires Shaped(lib) && 0 <= i < lib.numBooks
    ensures TitleHit(lib, Lower(s), i) == TitleHit(lib, s, i)
  {
    LowerIdempotent(s);
  }

  /** The title query ignores the case of the query: lower-casing it first finds a match
      exactly when the query itself does. */
  lemma TitleQueryIgnoresCase(lib: Library, s: string)
    requires Shaped(lib)
    ensures ListBooksByTitle(lib, Lower(s)) == NoBooksTitled(Lower(s))
        <==> ListBooksByTitle(lib, s) == NoBooksTitled(s)
  {
    forall i | 0 <= i < lib.numBooks
      ensures TitleHit(lib, Lower(s), i) == TitleHit(lib, s, i)
    {
      TitleHitIgnoresCase(lib, s, i);
    }
  }

  /** "dune" finds "Dune". */
  lemma DuneFindsDune(lib: Library)
    requires Shaped(lib) && lib.numBooks > 0 && lib.books[0].value.title == "Dune"
    ensures ListBooksByTitle(lib, "dune") != NoBooksTitled("dune")
  {
    assert Lower("Dune") == "dune" == Lower("dune");
    TitleQueryFindsStoredTitle(lib, "dune", 0, 0);
  }

  /** An entry whose author has the same name as the query author is always counted and
      listed; and by symmetry of name equivalence, the count for `a` includes every entry
      whose author `a` would match. */
  lemma AuthorQueryFindsEntry(lib: Library, a: Author, i: int)
    requires Shaped(lib) && AuthorsComparable(lib, a) && 0 <= i < lib.numBooks
    requires HasSameName(a, lib.books[i].value.author)
    ensures i in AuthorIndices(lib, a, lib.numBooks)
    ensures NumBooksByAuthor(lib, a) >= 1
    ensures ListBooksByAuthor(lib, a) != NoBooksBy(a)
  {
    HasSameNameSymmetric(a, lib.books[i].value.author);
    assert i in AuthorIndices(lib, a, lib.numBooks);
  }

  /** An empty catalog never compares authors, so it answers for any author, even one whose
      surname the constructor left null; that author prints as "null, ...". */
  lemma EmptyCatalogAnswersAnyAuthor(size: nat, a: Author)
    ensures AuthorsComparable(NewLibrary(size), a)
    ensures NumBooksByAuthor(NewLibrary(size), a) == 0
    ensures ListBooksByAuthor(NewLibrary(size), a) == NoBooksBy(a)
    ensures NewAuthor("", "Doe").surname == Null
    ensures ListBooksByAuthor(NewLibrary(size), NewAuthor("", "Doe"))
            == "No books by null, " + UnknownAuthor.givenName + "."
  {
  }
}
