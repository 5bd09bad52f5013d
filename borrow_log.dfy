/** The append-only log of loans that the library keeps (src/models/library.ts), and
    the facts about its open records that the lending invariant rests on. A record is
    open while it has no return date. */
module BorrowLog {
  import opened Types

  /** `rec` is a loan of `isbn` that has not come back yet. JavaScript's `!r.returnDate`
      is true exactly when the return date is unset, since a Date object is never falsy. */
  predicate IsOpenFor(rec: BorrowRecord, isbn: string)
  {
    rec.isbn == isbn && rec.returnDate.None?
  }

  /** 1 if `rec` is an open loan of `isbn`, else 0. */
  function Tally(rec: BorrowRecord, isbn: string): nat
  {
    if IsOpenFor(rec, isbn) then 1 else 0
  }

  /** How many loans of `isbn` are open in `recs`. */
  function OpenCount(recs: seq<BorrowRecord>, isbn: string): nat
  {
    if recs == [] then 0 else Tally(recs[0], isbn) + OpenCount(recs[1..], isbn)
  }

  /** The position of the oldest open loan of `isbn`: what `Array.prototype.find` returns. */
  function FirstOpen(recs: seq<BorrowRecord>, isbn: string): (r: Option<nat>)
    ensures r.Some? ==> r.value < |recs| && IsOpenFor(recs[r.value], isbn)
    ensures r.Some? ==> forall j :: 0 <= j < r.value ==> !IsOpenFor(recs[j], isbn)
    ensures r.None? ==> forall j :: 0 <= j < |recs| ==> !IsOpenFor(recs[j], isbn)
  {
    if recs == [] then None
    else if IsOpenFor(recs[0], isbn) then Some(0)
    else
      match FirstOpen(recs[1..], isbn)
      case None => None
      case Some(j) => Some(j + 1)
  }

  /** The position of the most recent open loan of `isbn`, searching from the end. */
  function LastOpen(recs: seq<BorrowRecord>, isbn: string): (r: Option<nat>)
    ensures r.Some? ==> r.value < |recs| && IsOpenFor(recs[r.value], isbn)
    ensures r.Some? ==> forall j :: r.value < j < |recs| ==> !IsOpenFor(recs[j], isbn)
    ensures r.None? ==> forall j :: 0 <= j < |recs| ==> !IsOpenFor(recs[j], isbn)
  {
    if recs == [] then None
    else if IsOpenFor(recs[|recs| - 1], isbn) then Some(|recs| - 1)
    else LastOpen(recs[..|recs| - 1], isbn)
  }

  /** The linear scan that `find` performs, front to back, stopping at the first open loan. */
  method FindFirstOpen(recs: seq<BorrowRecord>, isbn: string) returns (found: Option<nat>)
    ensures found == FirstOpen(recs, isbn)
  {
    var i := 0;
    while i < |recs|
      invariant 0 <= i <= |recs|
      invariant forall j :: 0 <= j < i ==> !IsOpenFor(recs[j], isbn)
    {
      if IsOpenFor(recs[i], isbn) {
        return Some(i);
      }
      i := i + 1;
    }
    return None;
  }

  /** Counting the open loans of a concatenation adds the counts of its parts. */
  lemma {:induction false} OpenCountAppend(a: seq<BorrowRecord>, b: seq<BorrowRecord>, isbn: string)
    ensures OpenCount(a + b, isbn) == OpenCount(a, isbn) + OpenCount(b, isbn)
  {
    if a == [] {
      assert a + b == b;
    } else {
      assert (a + b)[0] == a[0];
      assert (a + b)[1..] == a[1..] + b;
      OpenCountAppend(a[1..], b, isbn);
    }
  }

  /** No open loan of `isbn` is counted exactly when no record is an open loan of it. */
  lemma {:induction false} OpenCountZero(recs: seq<BorrowRecord>, isbn: string)
    ensures OpenCount(recs, isbn) == 0 <==> forall j :: 0 <= j < |recs| ==> !IsOpenFor(recs[j], isbn)
  {
    if recs != [] {
      OpenCountZero(recs[1..], isbn);
      assert forall j :: 1 <= j < |recs| ==> recs[j] == recs[1..][j - 1];
    }
  }

  /** Replacing one record changes the count of open loans by what the new record adds
      and the old one took away. */
  lemma {:induction false} OpenCountUpdate(recs: seq<BorrowRecord>, i: nat, rec: BorrowRecord, isbn: string)
    requires i < |recs|
    ensures OpenCount(recs[i := rec], isbn) + Tally(recs[i], isbn) == OpenCount(recs, isbn) + Tally(rec, isbn)
  {
    if i > 0 {
      assert recs[i := rec][1..] == recs[1..][i - 1 := rec];
      OpenCountUpdate(recs[1..], i - 1, rec, isbn);
    } else {
      assert recs[i := rec][1..] == recs[1..];
    }
  }

  /** Two different open loans of `isbn` make its count at least two. */
  lemma TwoOpenLoans(recs: seq<BorrowRecord>, isbn: string, lo: nat, hi: nat)
    requires lo < hi < |recs|
    requires IsOpenFor(recs[lo], isbn) && IsOpenFor(recs[hi], isbn)
    ensures OpenCount(recs, isbn) >= 2
  {
    assert recs == recs[..hi] + recs[hi..];
    OpenCountAppend(recs[..hi], recs[hi..], isbn);
    assert recs[..hi][lo] == recs[lo];
    OpenCountZero(recs[..hi], isbn);
    assert recs[hi..][0] == recs[hi];
    OpenCountZero(recs[hi..], isbn);
  }

  /** When at most one loan of `isbn` is open, two open loans of it are the same record. */
  lemma AtMostOneOpen(recs: seq<BorrowRecord>, isbn: string, i: nat, j: nat)
    requires OpenCount(recs, isbn) <= 1
    requires i < |recs| && j < |recs|
    requires IsOpenFor(recs[i], isbn) && IsOpenFor(recs[j], isbn)
    ensures i == j
  {
    if i < j {
      TwoOpenLoans(recs, isbn, i, j);
    } else if j < i {
      TwoOpenLoans(recs, isbn, j, i);
    }
  }

  /** When at most one loan of `isbn` is open, the oldest open loan is also the most
      recent one, so scanning from the front finds the loan a scan from the back would. */
  lemma FirstOpenIsMostRecent(recs: seq<BorrowRecord>, isbn: string)
    requires OpenCount(recs, isbn) <= 1
    ensures FirstOpen(recs, isbn) == LastOpen(recs, isbn)
  {
    var first, last := FirstOpen(recs, isbn), LastOpen(recs, isbn);
    if first.Some? && last.Some? {
      AtMostOneOpen(recs, isbn, first.value, last.value);
    }
  }

  /** A record exists for every open loan that is counted. */
  lemma OpenCountPositive(recs: seq<BorrowRecord>, isbn: string)
    requires OpenCount(recs, isbn) > 0
    ensures FirstOpen(recs, isbn).Some?
  {
    OpenCountZero(recs, isbn);
  }
}
