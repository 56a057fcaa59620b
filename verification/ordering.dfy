/** Filtering, stable sorting by a preorder, and first-match search in a sorted list. */
module Ordering {
  import opened Values

  /** [x for x in s if p(x)] */
  function Filter<T>(s: seq<T>, p: T -> bool): seq<T> {
    if s == [] then [] else (if p(s[0]) then [s[0]] else []) + Filter(s[1..], p)
  }

  /** keep lists positions below n in increasing order. */
  ghost predicate IsSelection(keep: seq<nat>, n: nat) {
    && (forall x | 0 <= x < |keep| :: keep[x] < n)
    && (forall x, y | 0 <= x < y < |keep| :: keep[x] < keep[y])
  }

  /** The elements at the given positions. */
  ghost function Select<T>(s: seq<T>, keep: seq<nat>): seq<T>
    requires IsSelection(keep, |s|)
  {
    seq(|keep|, x requires 0 <= x < |keep| => s[keep[x]])
  }

  /** A selection of the tail, seen from the whole. */
  lemma ShiftSelection<T>(s: seq<T>, rest: seq<nat>) returns (moved: seq<nat>)
    requires s != [] && IsSelection(rest, |s| - 1)
    ensures IsSelection(moved, |s|) && Select(s, moved) == Select(s[1..], rest)
    ensures forall i: nat :: i in moved <==> i > 0 && i - 1 in rest
  {
    moved := seq(|rest|, x requires 0 <= x < |rest| => rest[x] + 1);
    forall i: nat ensures i in moved <==> i > 0 && i - 1 in rest {
      if i > 0 && i - 1 in rest {
        var x :| 0 <= x < |rest| && rest[x] == i - 1;
        assert moved[x] == i;
      }
    }
  }

  lemma PrependFirst<T>(s: seq<T>, moved: seq<nat>)
    requires s != [] && IsSelection(moved, |s|) && 0 !in moved
    ensures IsSelection([0] + moved, |s|) && Select(s, [0] + moved) == [s[0]] + Select(s, moved)
    ensures forall i: nat :: i in [0] + moved <==> i == 0 || i in moved
  {
    forall x | 0 <= x < |moved| ensures moved[x] > 0 { assert moved[x] in moved; }
  }

  /** A filter keeps exactly the elements that satisfy p, in their order. */
  lemma {:induction false} FilterSelects<T>(s: seq<T>, p: T -> bool) returns (keep: seq<nat>)
    ensures IsSelection(keep, |s|) && Filter(s, p) == Select(s, keep)
    ensures forall i: nat | i < |s| :: i in keep <==> p(s[i])
  {
    keep := [];
    if s != [] {
      hide IsSelection, Select;
      var rest := FilterSelects(s[1..], p);
      var moved := ShiftSelection(s, rest);
      forall i: nat | 0 < i < |s| ensures i in moved <==> p(s[i]) { assert s[i] == s[1..][i - 1]; }
      if p(s[0]) {
        PrependFirst(s, moved);
        keep := [0] + moved;
      } else {
        keep := moved;
      }
    }
  }

  /** When exactly the first n elements satisfy p, the filter keeps n. */
  lemma {:induction false} FilterPrefix<T>(s: seq<T>, p: T -> bool, n: nat)
    requires n <= |s| && forall i: nat | i < |s| :: p(s[i]) <==> i < n
    ensures |Filter(s, p)| == n
  {
    if s != [] {
      var rest := s[1..];
      assert forall i: nat | i < |rest| :: rest[i] == s[i + 1];
      FilterPrefix(rest, p, if n == 0 then 0 else n - 1);
    }
  }

  lemma {:induction false} FilterMembers<T>(s: seq<T>, p: T -> bool)
    ensures forall x :: x in Filter(s, p) <==> x in s && p(x)
  {
    if s != [] {
      FilterMembers(s[1..], p);
      assert forall x :: x in s <==> x == s[0] || x in s[1..];
    }
  }

  ghost predicate TotalPreorder<T(!new)>(le: (T, T) -> bool) {
    && (forall x, y :: le(x, y) || le(y, x))
    && (forall x, y, z :: le(x, y) && le(y, z) ==> le(x, z))
  }

  ghost predicate Sorted<T>(s: seq<T>, le: (T, T) -> bool) {
    forall i, j | 0 <= i < j < |s| :: le(s[i], s[j])
  }

  /** Puts x before the first element it does not come after, so x stays ahead of its ties. */
  function Insert<T>(x: T, s: seq<T>, le: (T, T) -> bool): seq<T> {
    if s == [] || le(x, s[0]) then [x] + s else [s[0]] + Insert(x, s[1..], le)
  }

  /** What `list.sort` returns; `StableSortUnique` shows that nothing else is a stable sort. */
  function StableSort<T>(s: seq<T>, le: (T, T) -> bool): seq<T> {
    if s == [] then [] else Insert(s[0], StableSort(s[1..], le), le)
  }

  lemma {:induction false} InsertElements<T>(x: T, s: seq<T>, le: (T, T) -> bool)
    ensures multiset(Insert(x, s, le)) == multiset{x} + multiset(s)
  {
    if s == [] || le(x, s[0]) {
    } else {
      InsertElements(x, s[1..], le);
      assert s == [s[0]] + s[1..];
    }
  }

  lemma {:induction false} SortElements<T>(s: seq<T>, le: (T, T) -> bool)
    ensures multiset(StableSort(s, le)) == multiset(s)
  {
    if s != [] {
      SortElements(s[1..], le);
      InsertElements(s[0], StableSort(s[1..], le), le);
      assert s == [s[0]] + s[1..];
    }
  }

  lemma {:induction false} SortMembers<T>(s: seq<T>, le: (T, T) -> bool)
    ensures forall x :: x in StableSort(s, le) <==> x in s
  {
    SortElements(s, le);
    forall x ensures x in StableSort(s, le) <==> x in s {
      assert x in StableSort(s, le) <==> x in multiset(StableSort(s, le));
      assert x in s <==> x in multiset(s);
    }
  }

  lemma {:induction false} InsertSorted<T(!new)>(x: T, s: seq<T>, le: (T, T) -> bool)
    requires TotalPreorder(le) && Sorted(s, le)
    ensures Sorted(Insert(x, s, le), le)
  {
    if s == [] || le(x, s[0]) {
    } else {
      InsertSorted(x, s[1..], le);
      InsertElements(x, s[1..], le);
      var t := Insert(x, s[1..], le);
      forall j | 0 <= j < |t| ensures le(s[0], t[j]) {
        assert t[j] in multiset(t);
        assert t[j] == x || t[j] in s[1..];
      }
    }
  }

  lemma {:induction false} SortSorted<T(!new)>(s: seq<T>, le: (T, T) -> bool)
    requires TotalPreorder(le)
    ensures Sorted(StableSort(s, le), le)
  {
    if s != [] {
      SortSorted(s[1..], le);
      InsertSorted(s[0], StableSort(s[1..], le), le);
    }
  }

  predicate Tied<T>(x: T, y: T, le: (T, T) -> bool) { le(x, y) && le(y, x) }

  /** The elements of s tied with x, in their order in s. */
  function Ties<T>(s: seq<T>, x: T, le: (T, T) -> bool): seq<T> {
    Filter(s, y => Tied(y, x, le))
  }

  lemma {:induction false} InsertTies<T(!new)>(x: T, s: seq<T>, y: T, le: (T, T) -> bool)
    requires TotalPreorder(le)
    ensures Ties(Insert(x, s, le), y, le) == (if Tied(x, y, le) then [x] else []) + Ties(s, y, le)
  {
    if s == [] || le(x, s[0]) {
      assert ([x] + s)[1..] == s;
    } else {
      InsertTies(x, s[1..], y, le);
      assert Insert(x, s, le)[1..] == Insert(x, s[1..], le);
    }
  }

  /** Equal keys keep their original order. */
  lemma {:induction false} SortStable<T(!new)>(s: seq<T>, y: T, le: (T, T) -> bool)
    requires TotalPreorder(le)
    ensures Ties(StableSort(s, le), y, le) == Ties(s, y, le)
  {
    if s != [] {
      SortStable(s[1..], y, le);
      InsertTies(s[0], StableSort(s[1..], le), y, le);
    }
  }

  lemma TiesMember<T>(s: seq<T>, x: T, le: (T, T) -> bool)
    ensures Ties(s, x, le) != [] <==> exists y :: y in s && Tied(y, x, le)
  {
    var p := (y: T) => Tied(y, x, le);
    FilterMembers(s, p);
    var t := Filter(s, p);
    if t != [] {
      var y := t[0];
      assert y in t;
      assert Tied(y, x, le);
    }
    if y :| y in s && Tied(y, x, le) { assert y in Filter(s, p); }
  }

  /** Two sorted lists that agree on every class of ties are the same list. */
  lemma {:induction false} SortedTiesDetermine<T(!new)>(s: seq<T>, t: seq<T>, le: (T, T) -> bool)
    requires TotalPreorder(le) && Sorted(s, le) && Sorted(t, le)
    requires forall x :: Ties(s, x, le) == Ties(t, x, le)
    ensures s == t
  {
    if s == [] || t == [] {
      if s != [] { TiesMember(s, s[0], le); TiesMember(t, s[0], le); }
      if t != [] { TiesMember(t, t[0], le); TiesMember(s, t[0], le); }
    } else {
      assert s[0] in s && t[0] in t;
      TiesMember(s, t[0], le);
      TiesMember(t, t[0], le);
      TiesMember(s, s[0], le);
      TiesMember(t, s[0], le);
      assert Tied(s[0], t[0], le);
      assert Ties(s, s[0], le)[0] == s[0] && Ties(t, s[0], le)[0] == t[0];
      assert s[0] == t[0];
      forall x ensures Ties(s[1..], x, le) == Ties(t[1..], x, le) {
        assert Ties(s, x, le) == Ties(t, x, le);
        var here := if Tied(s[0], x, le) then [s[0]] else [];
        assert Ties(s, x, le) == here + Ties(s[1..], x, le);
        assert Ties(t, x, le) == here + Ties(t[1..], x, le);
        assert Ties(s[1..], x, le) == Ties(s, x, le)[|here|..];
      }
      SortedTiesDetermine(s[1..], t[1..], le);
      assert s == [s[0]] + s[1..] && t == [t[0]] + t[1..];
    }
  }

  ghost predicate IsStableSortOf<T(!new)>(t: seq<T>, s: seq<T>, le: (T, T) -> bool) {
    Sorted(t, le) && forall x :: Ties(t, x, le) == Ties(s, x, le)
  }

  /** The only sorted list that keeps ties in order is the one `StableSort` returns. */
  lemma StableSortUnique<T(!new)>(s: seq<T>, t: seq<T>, le: (T, T) -> bool)
    requires TotalPreorder(le)
    ensures t == StableSort(s, le) <==> IsStableSortOf(t, s, le)
  {
    var u := StableSort(s, le);
    SortSorted(s, le);
    forall x ensures Ties(u, x, le) == Ties(s, x, le) { SortStable(s, x, le); }
    assert IsStableSortOf(u, s, le);
    if IsStableSortOf(t, s, le) {
      forall x ensures Ties(t, x, le) == Ties(u, x, le) {
        assert Ties(t, x, le) == Ties(s, x, le);
      }
      SortedTiesDetermine(t, u, le);
    }
  }

  /** The first element satisfying p. */
  function First<T>(s: seq<T>, p: T -> bool): Option<T> {
    if s == [] then None else if p(s[0]) then Some(s[0]) else First(s[1..], p)
  }

  /** i satisfies p and comes before every other index that does: by le, then by position. */
  ghost predicate IsLeast<T>(s: seq<T>, p: T -> bool, le: (T, T) -> bool, i: int) {
    && 0 <= i < |s| && p(s[i])
    && forall j | 0 <= j < |s| && j != i && p(s[j]) ::
         le(s[i], s[j]) && (le(s[j], s[i]) ==> i < j)
  }

  lemma {:induction false} FirstOfInsert<T(!new)>(x: T, s: seq<T>, p: T -> bool, le: (T, T) -> bool)
    requires TotalPreorder(le) && Sorted(s, le)
    ensures First(Insert(x, s, le), p) ==
            if p(x) && (First(s, p).None? || le(x, First(s, p).value)) then Some(x) else First(s, p)
  {
    if s == [] || le(x, s[0]) {
      assert ([x] + s)[1..] == s;
      FirstIsMember(s, p);
    } else {
      FirstOfInsert(x, s[1..], p, le);
      assert Insert(x, s, le)[1..] == Insert(x, s[1..], le);
    }
  }

  lemma {:induction false} FirstIsMember<T>(s: seq<T>, p: T -> bool)
    ensures First(s, p).Some? ==> First(s, p).value in s && p(First(s, p).value)
    ensures First(s, p).None? <==> forall x | x in s :: !p(x)
  {
    if s != [] {
      FirstIsMember(s[1..], p);
    }
  }

  /** Scanning the sorted list finds the least matching index of the unsorted one. */
  lemma {:induction false} FirstOfSort<T(!new)>(s: seq<T>, p: T -> bool, le: (T, T) -> bool)
    requires TotalPreorder(le)
    ensures First(StableSort(s, le), p).None? <==> forall i | 0 <= i < |s| :: !p(s[i])
    ensures First(StableSort(s, le), p).Some? ==>
              exists i :: IsLeast(s, p, le, i) && First(StableSort(s, le), p) == Some(s[i])
  {
    if s != [] {
      var x, rest := s[0], s[1..];
      FirstOfSort(rest, p, le);
      SortSorted(rest, le);
      FirstOfInsert(x, StableSort(rest, le), p, le);
      var before, after := First(StableSort(rest, le), p), First(StableSort(s, le), p);
      if before.Some? {
        var i :| IsLeast(rest, p, le, i) && before == Some(rest[i]);
        if after == Some(x) && p(x) && le(x, rest[i]) {
          forall j | 0 <= j < |s| && j != 0 && p(s[j]) ensures le(s[0], s[j]) {
            assert s[j] == rest[j - 1];
          }
          assert IsLeast(s, p, le, 0);
        } else {
          assert s[i + 1] == rest[i];
          forall j | 0 <= j < |s| && j != i + 1 && p(s[j])
            ensures le(s[i + 1], s[j]) && (le(s[j], s[i + 1]) ==> i + 1 < j)
          {
            if j > 0 { assert s[j] == rest[j - 1]; }
          }
          assert IsLeast(s, p, le, i + 1);
        }
      } else if p(x) {
        forall j | 0 <= j < |s| && j != 0 ensures !p(s[j]) { assert s[j] == rest[j - 1]; }
        assert IsLeast(s, p, le, 0);
      }
    }
  }
}
