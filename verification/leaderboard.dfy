/**
 The top-10 leaderboard: each finished quiz appends an entry, the whole list
 is sorted by percentage, highest first, with a stable sort (equal
 percentages keep the order in which they were recorded), and only the
 first ten entries are kept.
 */
module Leaderboard {

  /** One finished quiz. The date is the browser's locale rendering and is kept opaque. */
  datatype Entry = Entry(score: nat, total: nat, percentage: int, date: string)

  /** The leaderboard keeps at most this many entries. */
  const Capacity: nat := 10

  /** Highest percentage first. */
  predicate Descending(s: seq<Entry>) {
    forall i, j :: 0 <= i < j < |s| ==> s[i].percentage >= s[j].percentage
  }

  lemma DescendingTail(s: seq<Entry>)
    requires s != [] && Descending(s)
    ensures Descending(s[1..])
  {
    forall i, j | 0 <= i < j < |s| - 1
      ensures s[1..][i].percentage >= s[1..][j].percentage
    {
      assert s[1..][i] == s[i + 1] && s[1..][j] == s[j + 1];
    }
  }

  /** `x` alone if it has percentage `p`, otherwise nothing. */
  function Tie1(x: Entry, p: int): seq<Entry> {
    if x.percentage == p then [x] else []
  }

  /** The entries of `s` with percentage `p`, in their order in `s`. */
  function Ties(s: seq<Entry>, p: int): (r: seq<Entry>)
    ensures |r| <= |s|
  {
    if s == [] then [] else Tie1(s[0], p) + Ties(s[1..], p)
  }

  /** Every entry of a tie list comes from the list and has the percentage asked for. */
  lemma {:induction false} TiesAreFromTheList(s: seq<Entry>, p: int)
    ensures forall x :: x in Ties(s, p) ==> x in s && x.percentage == p
  {
    if s != [] {
      TiesAreFromTheList(s[1..], p);
    }
  }

  /** `a` and `b` hold the same entries per percentage, in the same relative order. */
  ghost predicate SameTies(a: seq<Entry>, b: seq<Entry>) {
    forall p :: Ties(a, p) == Ties(b, p)
  }

  lemma TiesCons(x: Entry, rest: seq<Entry>, p: int)
    ensures Ties([x] + rest, p) == Tie1(x, p) + Ties(rest, p)
  {
    assert ([x] + rest)[1..] == rest;
  }

  lemma Regroup(a: seq<Entry>, b: seq<Entry>, h: seq<Entry>, t: seq<Entry>, u: seq<Entry>)
    requires a == h + (t + u) && b == h + t
    ensures a == b + u
  {
  }

  lemma {:induction false} TiesAppend(s: seq<Entry>, e: Entry, p: int)
    ensures Ties(s + [e], p) == Ties(s, p) + Tie1(e, p)
  {
    if s == [] {
      assert s + [e] == [e] + [];
      TiesCons(e, [], p);
    } else {
      assert (s + [e])[1..] == s[1..] + [e];
      TiesAppend(s[1..], e, p);
      Regroup(Ties(s + [e], p), Ties(s, p), Tie1(s[0], p), Ties(s[1..], p), Tie1(e, p));
    }
  }

  lemma {:induction false} TiesAbsent(s: seq<Entry>, p: int)
    requires forall i :: 0 <= i < |s| ==> s[i].percentage != p
    ensures Ties(s, p) == []
  {
    if s != [] {
      TiesAbsent(s[1..], p);
    }
  }

  /**
   Place `e` after every leading entry whose percentage is at least its
   own: what a stable descending sort does with an entry pushed onto the
   end of an already sorted list.
   */
  function InsertDesc(s: seq<Entry>, e: Entry): (r: seq<Entry>)
    ensures |r| == |s| + 1
    ensures multiset(r) == multiset(s) + multiset{e}
  {
    if s == [] then [e]
    else if s[0].percentage >= e.percentage then
      assert s == [s[0]] + s[1..];
      [s[0]] + InsertDesc(s[1..], e)
    else
      [e] + s
  }

  lemma {:induction false} InsertDescKeepsDescending(s: seq<Entry>, e: Entry)
    requires Descending(s)
    ensures Descending(InsertDesc(s, e))
  {
    if s != [] && s[0].percentage >= e.percentage {
      var rest := InsertDesc(s[1..], e);
      DescendingTail(s);
      InsertDescKeepsDescending(s[1..], e);
      InsertDescBounded(s[1..], e, s[0].percentage);
      ConsDescending(s[0], rest);
    }
  }

  /** Inserting an entry keeps every percentage at most `v` if it was so before. */
  lemma InsertDescBounded(s: seq<Entry>, e: Entry, v: int)
    requires forall i :: 0 <= i < |s| ==> s[i].percentage <= v
    requires e.percentage <= v
    ensures forall i :: 0 <= i < |InsertDesc(s, e)| ==> InsertDesc(s, e)[i].percentage <= v
  {
    var r := InsertDesc(s, e);
    forall i | 0 <= i < |r|
      ensures r[i].percentage <= v
    {
      assert r[i] in multiset(r);
      if r[i] != e {
        assert r[i] in s;
      }
    }
  }

  lemma ConsDescending(x: Entry, r: seq<Entry>)
    requires Descending(r)
    requires forall i :: 0 <= i < |r| ==> r[i].percentage <= x.percentage
    ensures Descending([x] + r)
  {
  }

  lemma {:induction false} InsertDescTies(s: seq<Entry>, e: Entry, p: int)
    requires Descending(s)
    ensures Ties(InsertDesc(s, e), p) == Ties(s, p) + Tie1(e, p)
  {
    if s == [] {
      TiesCons(e, [], p);
    } else if s[0].percentage >= e.percentage {
      DescendingTail(s);
      InsertDescTies(s[1..], e, p);
      InsertDescBehindHead(s, e, p);
    } else {
      InsertDescInFront(s, e, p);
    }
  }

  lemma InsertDescBehindHead(s: seq<Entry>, e: Entry, p: int)
    requires s != [] && s[0].percentage >= e.percentage
    requires Ties(InsertDesc(s[1..], e), p) == Ties(s[1..], p) + Tie1(e, p)
    ensures Ties(InsertDesc(s, e), p) == Ties(s, p) + Tie1(e, p)
  {
    var x, ins := s[0], InsertDesc(s[1..], e);
    assert InsertDesc(s, e) == [x] + ins;
    TiesCons(x, ins, p);
    Regroup(Ties(InsertDesc(s, e), p), Ties(s, p), Tie1(x, p), Ties(s[1..], p), Tie1(e, p));
  }


  lemma InsertDescInFront(s: seq<Entry>, e: Entry, p: int)
    requires Descending(s) && s != [] && s[0].percentage < e.percentage
    ensures Ties([e] + s, p) == Ties(s, p) + Tie1(e, p)
  {
    TiesCons(e, s, p);
    if e.percentage == p {
      TiesAbsent(s, p);
    }
  }

  /**
   Stable sort by percentage, highest first: each entry, taken in list
   order, is placed after the already sorted entries with a percentage at
   least its own. This is `Array.prototype.sort` with the comparator
   `(a, b) => b.percentage - a.percentage`, which section 22.1.3.27 of
   ECMA-262 (10th edition) requires to be stable.
   */
  function SortDesc(s: seq<Entry>): (r: seq<Entry>)
    ensures |r| == |s|
    ensures multiset(r) == multiset(s)
    ensures Descending(r)
    ensures SameTies(r, s)
  {
    if s == [] then []
    else
      var init, last := s[..|s| - 1], s[|s| - 1];
      var sortedInit := SortDesc(init);
      assert s == init + [last];
      InsertDescKeepsDescending(sortedInit, last);
      assert SameTies(InsertDesc(sortedInit, last), s) by {
        forall p
          ensures Ties(InsertDesc(sortedInit, last), p) == Ties(s, p)
        {
          InsertDescTies(sortedInit, last, p);
          TiesAppend(init, last, p);
        }
      }
      InsertDesc(sortedInit, last)
  }

  lemma TiesOfHead(s: seq<Entry>)
    requires s != []
    ensures Ties(s, s[0].percentage) != [] && Ties(s, s[0].percentage)[0] == s[0]
  {
  }

  /**
   There is only one stable descending order: two descending lists with the
   same entries per percentage in the same relative order are equal.
   */
  lemma {:induction false} StableOrderIsUnique(a: seq<Entry>, b: seq<Entry>)
    requires Descending(a) && Descending(b) && SameTies(a, b)
    ensures a == b
  {
    if a == [] || b == [] {
      // The first entry of a non-empty list would have to show up among the other's ties.
      if a != [] {
        TiesOfHead(a);
      } else if b != [] {
        TiesOfHead(b);
      }
    } else {
      var pa, pb := a[0].percentage, b[0].percentage;
      assert Ties(a, pa)[0] == a[0];
      assert Ties(b, pb)[0] == b[0];
      TiesAreFromTheList(a, pb);
      TiesAreFromTheList(b, pa);
      assert Ties(b, pa)[0] in b;
      assert Ties(a, pb)[0] in a;
      assert pa == pb;
      assert a[0] == b[0];
      forall p
        ensures Ties(a[1..], p) == Ties(b[1..], p)
      {
        var head := Tie1(a[0], p);
        assert Ties(a[1..], p) == Ties(a, p)[|head|..];
        assert Ties(b[1..], p) == Ties(b, p)[|head|..];
      }
      StableOrderIsUnique(a[1..], b[1..]);
      assert a == [a[0]] + a[1..];
      assert b == [b[0]] + b[1..];
    }
  }

  /** `SortDesc` is the stable descending sort: any descending rearrangement keeping tie order equals it. */
  lemma SortDescIsTheStableSort(s: seq<Entry>, t: seq<Entry>)
    requires Descending(t) && SameTies(t, s)
    ensures t == SortDesc(s)
  {
    StableOrderIsUnique(t, SortDesc(s));
  }

  /** Sorting a list that is already highest-first changes nothing. */
  lemma SortDescKeepsSortedList(s: seq<Entry>)
    requires Descending(s)
    ensures SortDesc(s) == s
  {
    StableOrderIsUnique(s, SortDesc(s));
  }

  /** At most `Capacity` entries: `slice(0, 10)`. */
  function Truncate(s: seq<Entry>): (r: seq<Entry>)
    ensures |r| == if |s| < Capacity then |s| else Capacity
    ensures r == s[..|r|]
  {
    if |s| <= Capacity then s else s[..Capacity]
  }

  /**
   Record a finished quiz: push the entry, sort the whole list stably by
   percentage, highest first, and keep the first ten.
   */
  function Record(board: seq<Entry>, e: Entry): (r: seq<Entry>)
    ensures |r| == if |board| < Capacity then |board| + 1 else Capacity
    ensures Descending(r)
    ensures multiset(r) <= multiset(board) + multiset{e}
    ensures r == SortDesc(board + [e])[..|r|]
  {
    var sorted := SortDesc(board + [e]);
    var r := Truncate(sorted);
    assert multiset(sorted) == multiset(r) + multiset(sorted[|r|..]) by {
      assert sorted == r + sorted[|r|..];
    }
    r
  }

  /** How many leading entries have a percentage of at least `p`: where an entry with `p` lands. */
  function PlaceOf(s: seq<Entry>, p: int): (k: nat)
    ensures k <= |s|
    ensures forall i :: 0 <= i < k ==> s[i].percentage >= p
    ensures k < |s| ==> s[k].percentage < p
  {
    if s == [] || s[0].percentage < p then 0 else 1 + PlaceOf(s[1..], p)
  }

  lemma SplitAfterHead(s: seq<Entry>, k: nat, e: Entry)
    requires 0 < |s| && k < |s|
    ensures [s[0]] + (s[1..][..k] + [e] + s[1..][k..]) == s[..k + 1] + [e] + s[k + 1..]
  {
    assert s[..k + 1] == [s[0]] + s[1..][..k];
    assert s[k + 1..] == s[1..][k..];
  }

  lemma {:induction false} InsertDescAtPlace(s: seq<Entry>, e: Entry)
    ensures InsertDesc(s, e) == s[..PlaceOf(s, e.percentage)] + [e] + s[PlaceOf(s, e.percentage)..]
  {
    if s != [] && s[0].percentage >= e.percentage {
      var k := PlaceOf(s[1..], e.percentage);
      InsertDescAtPlace(s[1..], e);
      SplitAfterHead(s, k, e);
    }
  }

  /**
   On a board that is already highest-first, recording an entry inserts it
   just after the last entry with a percentage at least its own, then cuts
   the board back to ten.
   */
  lemma RecordInsertsAtPlace(board: seq<Entry>, e: Entry)
    requires Descending(board)
    ensures var k := PlaceOf(board, e.percentage);
      Record(board, e) == Truncate(board[..k] + [e] + board[k..])
  {
    var k := PlaceOf(board, e.percentage);
    SortDescKeepsSortedList(board);
    InsertDescAtPlace(board, e);
    assert (board + [e])[..|board|] == board;
  }

  /**
   The new entry stays on a sorted board exactly when fewer than ten
   entries have a percentage at least its own; otherwise the board is
   unchanged apart from being cut to ten.
   */
  lemma RecordKeepsEntryIff(board: seq<Entry>, e: Entry)
    requires Descending(board)
    ensures var k := PlaceOf(board, e.percentage);
      && (k < Capacity ==> Record(board, e)[k] == e)
      && (k >= Capacity ==> Record(board, e) == board[..Capacity])
  {
    RecordInsertsAtPlace(board, e);
    TruncateAfterInsert(board, PlaceOf(board, e.percentage), e);
  }

  lemma TruncateAfterInsert(board: seq<Entry>, k: nat, e: Entry)
    requires k <= |board|
    ensures k < Capacity ==> Truncate(board[..k] + [e] + board[k..])[k] == e
    ensures k >= Capacity ==> Truncate(board[..k] + [e] + board[k..]) == board[..Capacity]
  {
    var s := board[..k] + [e] + board[k..];
    assert s[k] == e;
    if k >= Capacity {
      assert s[..Capacity] == board[..Capacity];
    }
  }

  /** Every percentage on the board lies between 0 and 100. */
  predicate PercentagesInRange(board: seq<Entry>) {
    forall i :: 0 <= i < |board| ==> 0 <= board[i].percentage <= 100
  }

  lemma RecordKeepsPercentagesInRange(board: seq<Entry>, e: Entry)
    requires PercentagesInRange(board)
    requires 0 <= e.percentage <= 100
    ensures PercentagesInRange(Record(board, e))
  {
    var r := Record(board, e);
    forall i | 0 <= i < |r|
      ensures 0 <= r[i].percentage <= 100
    {
      assert r[i] in multiset(r);
      assert r[i] in multiset(board) + multiset{e};
      if r[i] != e {
        assert r[i] in board;
      }
    }
  }
}
