/** The final step of the walk: the records are ordered by the first
    position of their node (`ast.sort(key=lambda x: x["current"].pos[0])`).
    The sort is a stable insertion sort on values; since the walk puts every
    position on exactly one node, the keys turn out pairwise distinct and the
    order strict. */
module Sorting {
  import opened Walk

  /** The sort key: the first position of the record's node. */
  function Key(r: Record): int
    requires r.current.pos != []
  {
    r.current.pos[0]
  }

  /** Every record has a key. */
  predicate Keyed(s: seq<Record>) {
    forall r :: r in s ==> r.current.pos != []
  }

  /** Neighbouring records are in key order. */
  predicate Sorted(s: seq<Record>)
    requires Keyed(s)
  {
    forall i :: 0 < i < |s| ==> Key(s[i - 1]) <= Key(s[i])
  }

  /** Every record is in key order with every later one. */
  predicate Ordered(s: seq<Record>)
    requires Keyed(s)
  {
    forall i, j :: 0 <= i < j < |s| ==> Key(s[i]) <= Key(s[j])
  }

  /** Puts `x` right before the first record whose key is not smaller,
      so that `x` stays ahead of records with an equal key. */
  function Insert(x: Record, s: seq<Record>): (r: seq<Record>)
    requires x.current.pos != [] && Keyed(s)
    ensures multiset(r) == multiset(s) + multiset{x}
    ensures Keyed(r)
    ensures r[0] == x || (s != [] && r[0] == s[0])
  {
    if s == [] || Key(x) <= Key(s[0]) then [x] + s
    else
      assert s == [s[0]] + s[1..];
      [s[0]] + Insert(x, s[1..])
  }

  lemma {:induction false} InsertSorted(x: Record, s: seq<Record>)
    requires x.current.pos != [] && Keyed(s) && Sorted(s)
    ensures Sorted(Insert(x, s))
  {
    if s != [] && Key(x) > Key(s[0]) {
      var t := Insert(x, s[1..]);
      InsertSorted(x, s[1..]);
      var r := [s[0]] + t;
      forall i | 0 < i < |r| ensures Key(r[i - 1]) <= Key(r[i]) {
        if i == 1 {
          assert r[1] == t[0];
          if |s| > 1 {
            assert s[1..][0] == s[1];
          }
        } else {
          assert r[i - 1] == t[i - 2] && r[i] == t[i - 1];
        }
      }
    }
  }

  /** Stable sort by key. */
  function SortByFirst(s: seq<Record>): (r: seq<Record>)
    requires Keyed(s)
    ensures multiset(r) == multiset(s)
    ensures Keyed(r)
  {
    if s == [] then []
    else
      assert s == [s[0]] + s[1..];
      Insert(s[0], SortByFirst(s[1..]))
  }

  /** The sort keeps exactly the records it is given. */
  lemma SortByFirstMembers(s: seq<Record>)
    requires Keyed(s)
    ensures forall x :: x in SortByFirst(s) <==> x in s
  {
    var r := SortByFirst(s);
    forall x ensures x in r <==> x in s {
      assert x in r <==> multiset(r)[x] > 0;
      assert x in s <==> multiset(s)[x] > 0;
    }
  }

  lemma {:induction false} SortedOrdered(s: seq<Record>)
    requires Keyed(s) && Sorted(s)
    ensures Ordered(s)
  {
    if |s| > 1 {
      SortedOrdered(s[1..]);
      forall i, j | 0 <= i < j < |s| ensures Key(s[i]) <= Key(s[j]) {
        if i > 0 {
          assert s[i] == s[1..][i - 1] && s[j] == s[1..][j - 1];
        } else if j > 1 {
          assert s[1] == s[1..][0] && s[j] == s[1..][j - 1];
        }
      }
    }
  }

  /** The sort returns a rearrangement of its input in key order. */
  lemma {:induction false} SortByFirstOrdered(s: seq<Record>)
    requires Keyed(s)
    ensures multiset(SortByFirst(s)) == multiset(s)
    ensures Ordered(SortByFirst(s))
  {
    SortByFirstSorted(s);
    SortedOrdered(SortByFirst(s));
  }

  lemma {:induction false} SortByFirstSorted(s: seq<Record>)
    requires Keyed(s)
    ensures Sorted(SortByFirst(s))
  {
    if s != [] {
      SortByFirstSorted(s[1..]);
      InsertSorted(s[0], SortByFirst(s[1..]));
    }
  }

  // ---------------------------------------------------------------------
  // Positions are carried along

  lemma {:induction false} InsertPositions(x: Record, s: seq<Record>)
    requires x.current.pos != [] && Keyed(s)
    ensures multiset(CurPositions(Insert(x, s))) == multiset(x.current.pos) + multiset(CurPositions(s))
  {
    if s != [] && Key(x) > Key(s[0]) {
      InsertPositions(x, s[1..]);
      var r := [s[0]] + Insert(x, s[1..]);
      assert r[0] == s[0] && r[1..] == Insert(x, s[1..]);
    } else {
      var r := [x] + s;
      assert r[0] == x && r[1..] == s;
    }
  }

  /** Sorting moves records around but keeps every position. */
  lemma {:induction false} SortByFirstPositions(s: seq<Record>)
    requires Keyed(s)
    ensures multiset(CurPositions(SortByFirst(s))) == multiset(CurPositions(s))
  {
    if s != [] {
      SortByFirstPositions(s[1..]);
      InsertPositions(s[0], SortByFirst(s[1..]));
    }
  }

  // ---------------------------------------------------------------------
  // Distinct keys

  lemma {:induction false} CurPositionsMember(recs: seq<Record>, i: nat, p: int)
    requires i < |recs| && p in recs[i].current.pos
    ensures p in CurPositions(recs)
  {
    if i > 0 {
      CurPositionsMember(recs[1..], i - 1, p);
    }
  }

  /** A position held by two different records occurs twice in the
      positions of the records. */
  lemma {:induction false} SharedPositionCountsTwice(recs: seq<Record>, i: nat, j: nat, p: int)
    requires i < j < |recs|
    requires p in recs[i].current.pos && p in recs[j].current.pos
    ensures multiset(CurPositions(recs))[p] >= 2
  {
    if i == 0 {
      CurPositionsMember(recs[1..], j - 1, p);
    } else {
      SharedPositionCountsTwice(recs[1..], i - 1, j - 1, p);
    }
  }

  /** When no position occurs twice, no two records share a key. */
  lemma DistinctKeys(recs: seq<Record>)
    requires Keyed(recs)
    requires forall p :: multiset(CurPositions(recs))[p] <= 1
    ensures forall i, j :: 0 <= i < j < |recs| ==> Key(recs[i]) != Key(recs[j])
  {
    forall i, j | 0 <= i < j < |recs| ensures Key(recs[i]) != Key(recs[j]) {
      assert recs[i] in recs && recs[j] in recs;
      if Key(recs[i]) == Key(recs[j]) {
        SharedPositionCountsTwice(recs, i, j, Key(recs[i]));
      }
    }
  }

  /** A run of counter values holds each value at most once. */
  lemma {:induction false} RangeOnce(lo: int, hi: int, p: int)
    requires lo <= hi
    ensures multiset(Range(lo, hi))[p] <= 1
    decreases hi - lo
  {
    if lo < hi {
      RangeOnce(lo + 1, hi, p);
      assert Range(lo, hi) == [lo] + Range(lo + 1, hi);
      RangeMembers(lo + 1, hi, p);
    }
  }

  /** Records that between them hold a run of counter values, each once,
      come out of the sort in strictly increasing key order. */
  lemma SortByFirstStrict(s: seq<Record>, lo: int, hi: int)
    requires Keyed(s) && lo <= hi
    requires multiset(CurPositions(s)) == multiset(Range(lo, hi))
    ensures var r := SortByFirst(s);
            forall i, j :: 0 <= i < j < |r| ==> Key(r[i]) < Key(r[j])
  {
    var r := SortByFirst(s);
    SortByFirstOrdered(s);
    SortByFirstPositions(s);
    forall p ensures multiset(CurPositions(r))[p] <= 1 {
      RangeOnce(lo, hi, p);
    }
    DistinctKeys(r);
  }
}
