/** Ascending order over finite sets of integers: how the glyph maps are
    walked and what "the next set bit" of a bitset is. */
module Ordered {
  import opened Wrappers

  lemma NonEmptyHasElement(s: set<int>)
    requires s != {}
    ensures exists y :: y in s
  {
    if forall y :: y !in s {
      assert false;
    }
  }

  lemma {:induction false} MinExists(s: set<int>)
    requires s != {}
    ensures exists m :: m in s && forall x :: x in s ==> m <= x
    decreases |s|
  {
    NonEmptyHasElement(s);
    var y :| y in s;
    if s != {y} {
      MinExists(s - {y});
      var m :| m in s - {y} && forall x :: x in s - {y} ==> m <= x;
      var least := if y < m then y else m;
      forall x | x in s
        ensures least <= x
      {
        if x != y {
          assert x in s - {y};
        }
      }
    } else {
      assert forall x :: x in s ==> y <= x;
    }
  }

  ghost function Min(s: set<int>): (m: int)
    requires s != {}
    ensures m in s && forall x :: x in s ==> m <= x
  {
    MinExists(s);
    var m :| m in s && forall x :: x in s ==> m <= x;
    m
  }

  /** The keys of a glyph map in the order the export visits them: ascending. */
  ghost function SortedKeys(s: set<int>): seq<int>
    decreases |s|
  {
    if s == {} then [] else [Min(s)] + SortedKeys(s - {Min(s)})
  }

  /** The sorted keys list exactly the members of the set. */
  lemma {:induction false} SortedKeysMembers(s: set<int>)
    ensures forall x :: x in SortedKeys(s) <==> x in s
    decreases |s|
  {
    if s != {} {
      var m := Min(s);
      SortedKeysMembers(s - {m});
      assert SortedKeys(s) == [m] + SortedKeys(s - {m});
    }
  }

  /** A strictly ascending list stays strictly ascending when a value below
      all of its entries is put in front. */
  lemma PrependAscending(m: int, rest: seq<int>)
    requires forall i, j :: 0 <= i < j < |rest| ==> rest[i] < rest[j]
    requires forall k :: 0 <= k < |rest| ==> m < rest[k]
    ensures forall i, j :: 0 <= i < j < |[m] + rest| ==> ([m] + rest)[i] < ([m] + rest)[j]
  {
    var r := [m] + rest;
    forall i, j | 0 <= i < j < |r|
      ensures r[i] < r[j]
    {
      assert r[j] == rest[j - 1];
      if i > 0 {
        assert r[i] == rest[i - 1];
      }
    }
  }

  /** The sorted keys are strictly ascending. */
  lemma {:induction false} SortedKeysAscending(s: set<int>)
    ensures forall i, j :: 0 <= i < j < |SortedKeys(s)| ==> SortedKeys(s)[i] < SortedKeys(s)[j]
    decreases |s|
  {
    if s != {} {
      var m := Min(s);
      var rest := SortedKeys(s - {m});
      SortedKeysAscending(s - {m});
      SortedKeysMembers(s - {m});
      forall k | 0 <= k < |rest|
        ensures m < rest[k]
      {
        assert rest[k] in s - {m};
      }
      PrependAscending(m, rest);
      assert SortedKeys(s) == [m] + rest;
    }
  }

  /** The sorted keys list every member of the set once, in ascending order. */
  lemma SortedKeysSound(s: set<int>)
    ensures forall x :: x in SortedKeys(s) <==> x in s
    ensures forall i, j :: 0 <= i < j < |SortedKeys(s)| ==> SortedKeys(s)[i] < SortedKeys(s)[j]
  {
    SortedKeysMembers(s);
    SortedKeysAscending(s);
  }

  lemma ProperSubsetSmaller(a: set<int>, b: set<int>)
    requires a < b
    ensures |a| < |b|
  {
    NonEmptyHasElement(b - a);
    var y :| y in b - a;
    assert b == (b - {y}) + {y};
    assert a <= b - {y};
    assert |a| <= |b - {y}| by {
      assert b - {y} == a + (b - {y} - a);
    }
  }

  /** The members of `s` above `c`. */
  function Above(s: set<int>, c: int): set<int> {
    set x | x in s && x > c
  }

  lemma AboveEmpty(s: set<int>, c: int)
    ensures Above(s, c) == {} <==> forall x :: x in s ==> x <= c
  {
    if Above(s, c) != {} {
      NonEmptyHasElement(Above(s, c));
      var y :| y in Above(s, c);
      assert y in s && y > c;
    } else {
      forall x | x in s
        ensures x <= c
      {
        assert x > c ==> x in Above(s, c);
      }
    }
  }

  /** The sorted keys start with the least key, followed by the sorted rest. */
  lemma SortedKeysStep(s: set<int>, m: int)
    requires m in s && forall x :: x in s ==> m <= x
    ensures SortedKeys(s) == [m] + SortedKeys(s - {m})
  {
    assert Min(s) == m;
  }

  /** `BitSet.nextSetBit(c + 1)`: the least member above `c`, or -1 when there is none. */
  ghost function NextAbove(s: set<int>, c: int): (r: int)
    requires c >= -1
    ensures r == -1 <==> Above(s, c) == {}
    ensures r == -1 <==> forall x :: x in s ==> x <= c
    ensures r != -1 ==> r in s && r > c && forall x :: x in s && x > c ==> r <= x
  {
    var above := Above(s, c);
    AboveEmpty(s, c);
    if above == {} then -1
    else
      assert forall x :: x in s && x > c ==> x in above;
      Min(above)
  }

  /** `BitSet.nextSetBit(c + 1)` with Java's `int` addition: at the largest
      `int` the sum wraps to the least one, and a negative index is refused
      with an `IndexOutOfBoundsException`. */
  ghost function NextSetBitAfter(s: set<int>, c: int): (r: Result<int>)
    requires IntMin <= c <= IntMax
    ensures r.Err? <==> c < -1 || c == IntMax
    ensures r.Err? ==> r.error == IndexOutOfBounds
    ensures r.Ok? ==> r.value == NextAbove(s, c)
  {
    var from := if c == IntMax then IntMin else c + 1;
    if from < 0 then Err(IndexOutOfBounds) else Ok(NextAbove(s, c))
  }

  /** Repeated `NextSetBitAfter` from `c` until it answers -1, as the walk of
      `getDefinedBlocks` does; an exception ends the walk. */
  ghost function Walk(s: set<int>, c: int): Result<seq<int>>
    requires -1 <= c <= IntMax
    requires forall x :: x in s ==> x <= IntMax
    decreases |Above(s, c)|
  {
    var n :- NextSetBitAfter(s, c);
    if n == -1 then Ok([])
    else
      assert n in Above(s, c) && n !in Above(s, n) && Above(s, n) < Above(s, c);
      ProperSubsetSmaller(Above(s, n), Above(s, c));
      var rest :- Walk(s, n);
      Ok([n] + rest)
  }

  /** Below the largest `int`, walking from `c` visits the members above `c`
      once each, in ascending order. */
  lemma {:induction false} WalkAscends(s: set<int>, c: int)
    requires -1 <= c < IntMax
    requires forall x :: x in s ==> x < IntMax
    ensures Walk(s, c) == Ok(SortedKeys(Above(s, c)))
    decreases |Above(s, c)|
  {
    var n := NextAbove(s, c);
    if n != -1 {
      var A := Above(s, c);
      assert Min(A) == n;
      assert A - {n} == Above(s, n);
      assert n in A && n !in Above(s, n) && Above(s, n) < A;
      WalkAscends(s, n);
    }
  }

  /** When the largest `int` is a member, the walk reaches it and then fails:
      `c + 1` wraps to a negative index. */
  lemma {:induction false} WalkReachesIntMax(s: set<int>, c: int)
    requires -1 <= c < IntMax
    requires forall x :: x in s ==> x <= IntMax
    requires IntMax in s
    ensures Walk(s, c) == Err(IndexOutOfBounds)
    decreases |Above(s, c)|
  {
    var n := NextAbove(s, c);
    assert IntMax in Above(s, c);
    assert n in Above(s, c) && n !in Above(s, n) && Above(s, n) < Above(s, c);
    if n < IntMax {
      assert IntMax in Above(s, n);
      ProperSubsetSmaller(Above(s, n), Above(s, c));
      WalkReachesIntMax(s, n);
    }
  }

  /** Starting from -1, the walk lists every member of a set of natural
      numbers below the largest `int`, each once, in ascending order. */
  lemma WalkFromStart(s: set<int>)
    requires forall x :: x in s ==> 0 <= x < IntMax
    ensures Walk(s, -1) == Ok(SortedKeys(s))
  {
    assert Above(s, -1) == s;
    WalkAscends(s, -1);
  }
}
