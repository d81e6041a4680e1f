// Offsets into nested records and their lexicographic order. An offset that is a prefix of
// another (written <=) names an ancestor of it.
module Offsets {

  type Offset = seq<nat>

  datatype Ordering = Before | Same | After

  /** The length of the longest common prefix. */
  function Mismatch(a: Offset, b: Offset): (m: nat)
    ensures m <= |a| && m <= |b| && a[..m] == b[..m]
    ensures m < |a| && m < |b| ==> a[m] != b[m]
  {
    if a == [] || b == [] || a[0] != b[0] then 0 else 1 + Mismatch(a[1..], b[1..])
  }

  function Compare(a: Offset, b: Offset): Ordering {
    var m := Mismatch(a, b);
    if m == |a| && m == |b| then Same
    else if m == |a| then Before
    else if m == |b| then After
    else if a[m] < b[m] then Before else After
  }

  /** Strictly before in lexicographic order. */
  predicate Less(a: Offset, b: Offset) {
    b != [] && (a == [] || a[0] < b[0] || (a[0] == b[0] && Less(a[1..], b[1..])))
  }

  /** The comparison decides the lexicographic order. */
  lemma {:induction false} CompareLess(a: Offset, b: Offset)
    ensures Compare(a, b) == if Less(a, b) then Before else if Less(b, a) then After else Same
    ensures Compare(a, b) == Same <==> a == b
  {
    if a != [] && b != [] && a[0] == b[0] {
      CompareLess(a[1..], b[1..]);
      assert a == [a[0]] + a[1..] && b == [b[0]] + b[1..];
    }
  }

  lemma {:induction false} LessTransitive(a: Offset, b: Offset, c: Offset)
    ensures Less(a, b) && Less(b, c) ==> Less(a, c)
    ensures !Less(a, b) && !Less(b, c) ==> !Less(a, c)
  {
    if a != [] && b != [] && c != [] {
      LessTransitive(a[1..], b[1..], c[1..]);
    }
  }

  lemma {:induction false} LessTotal(a: Offset, b: Offset)
    ensures !(Less(a, b) && Less(b, a))
    ensures Less(a, b) || Less(b, a) || a == b
    ensures !Less(a, a)
  {
    if a != [] {
      LessTotal(a[1..], if b != [] then b[1..] else []);
      if b != [] && a[1..] == b[1..] && a[0] == b[0] {
        assert a == [a[0]] + a[1..] && b == [b[0]] + b[1..];
      }
    }
  }

  lemma {:induction false} PrefixNotAfter(o: Offset, x: Offset)
    requires o <= x
    ensures !Less(x, o)
  {
    if o != [] {
      PrefixNotAfter(o[1..], x[1..]);
    }
  }

  /** Two ancestors of the same offset lie on one path. */
  lemma Comparable(a: Offset, b: Offset, c: Offset)
    ensures a <= c && b <= c ==> a <= b || b <= a
  {
  }

  /** What lies between an offset and one of its descendants is a descendant too. */
  lemma {:induction false} Sandwich(o: Offset, a: Offset, b: Offset)
    requires o <= b && !Less(a, o) && !Less(b, a)
    ensures o <= a
  {
    if o != [] {
      assert a != [] && b != [] && b[0] == o[0] && a[0] == o[0];
      Sandwich(o[1..], a[1..], b[1..]);
      assert a == [a[0]] + a[1..] && o == [o[0]] + o[1..];
    }
  }

  /** What lies between two siblings descends from the first. */
  lemma {:induction false} Between(p: Offset, i: nat, x: Offset)
    ensures !Less(x, p + [i]) && Less(x, p + [i + 1]) <==> p + [i] <= x
  {
    var a, b := p + [i], p + [i + 1];
    if p == [] {
      if x != [] {
        assert a[1..] == [] && b[1..] == [];
      }
    } else {
      assert a[0] == b[0] == p[0] && a[1..] == p[1..] + [i] && b[1..] == p[1..] + [i + 1];
      if x != [] && x[0] == p[0] {
        Between(p[1..], i, x[1..]);
        assert x == [x[0]] + x[1..] && a == [a[0]] + a[1..];
      }
    }
  }

  /** Nothing lies between an offset and its first child, but the offset itself. */
  lemma {:induction false} FirstChild(o: Offset, x: Offset)
    ensures Less(x, o + [0]) <==> Less(x, o) || x == o
  {
    var c := o + [0];
    if o == [] {
      if x != [] {
        assert c[1..] == [];
      }
    } else {
      assert c[0] == o[0] && c[1..] == o[1..] + [0];
      if x != [] && x[0] == o[0] {
        FirstChild(o[1..], x[1..]);
        assert x == [x[0]] + x[1..] && o == [o[0]] + o[1..];
      }
    }
  }

  /** A descendant that is not before child n goes through child n or a later one. */
  lemma {:induction false} LaterChild(o: Offset, n: nat, x: Offset)
    requires o <= x
    ensures Less(x, o + [n]) <==> |x| == |o| || x[|o|] < n
  {
    var c := o + [n];
    if o == [] {
      if x != [] {
        assert c[1..] == [];
      }
    } else {
      assert c[0] == o[0] == x[0] && c[1..] == o[1..] + [n];
      LaterChild(o[1..], n, x[1..]);
    }
  }

  // -- sorted lists of offsets ---------------------------------------------------------------

  /** No offset is before its predecessor. */
  predicate AdjacentSorted(os: seq<Offset>) {
    forall k :: 0 < k < |os| ==> !Less(os[k], os[k - 1])
  }

  ghost predicate SortedOffsets(os: seq<Offset>) {
    forall j, k :: 0 <= j < k < |os| ==> !Less(os[k], os[j])
  }

  lemma {:induction false} SortedThroughout(os: seq<Offset>)
    requires AdjacentSorted(os)
    ensures SortedOffsets(os)
  {
    forall j, k | 0 <= j < k < |os|
      ensures !Less(os[k], os[j])
    {
      Ordered(os, j, k);
    }
  }

  lemma {:induction false} Ordered(os: seq<Offset>, j: nat, k: nat)
    requires AdjacentSorted(os) && j < k < |os|
    ensures !Less(os[k], os[j])
    decreases k
  {
    if j + 1 < k {
      Ordered(os, j, k - 1);
      LessTransitive(os[k], os[k - 1], os[j]);
    } else {
      assert k - 1 == j;
    }
  }

  /** No offset is a prefix of the next one. */
  predicate AdjacentPrefixFree(os: seq<Offset>) {
    forall k :: 0 < k < |os| ==> !(os[k - 1] <= os[k])
  }

  /** In a sorted list, looking at neighbours is enough: no offset is an ancestor of another. */
  lemma PrefixFree(os: seq<Offset>, j: nat, k: nat)
    requires SortedOffsets(os) && AdjacentPrefixFree(os) && j < |os| && k < |os| && j != k
    ensures !(os[j] <= os[k])
  {
    if os[j] <= os[k] {
      if j < k {
        assert os[j + 1 - 1] == os[j];
        if j + 1 < k {
          Sandwich(os[j], os[j + 1], os[k]);
        }
      } else {
        // k comes first, so os[k] is not after os[j]; being a descendant, it is equal.
        PrefixNotAfter(os[j], os[k]);
        LessTotal(os[j], os[k]);
        assert os[k] <= os[j];
        assert os[k + 1 - 1] == os[k];
        if k + 1 < j {
          Sandwich(os[k], os[k + 1], os[j]);
        }
      }
    }
  }

  /** The cursor stands in front of the first offset that is not before o. */
  ghost predicate At(os: seq<Offset>, o: Offset, cursor: nat) {
    && cursor <= |os|
    && (forall k :: 0 <= k < cursor ==> Less(os[k], o))
    && (forall k :: cursor <= k < |os| ==> !Less(os[k], o))
  }

  ghost predicate Named(os: seq<Offset>, o: Offset) {
    exists k :: 0 <= k < |os| && os[k] == o
  }

  ghost predicate Passed(os: seq<Offset>, o: Offset) {
    exists k :: 0 <= k < |os| && o <= os[k]
  }

  /** Looking at the cursor only is as good as searching the whole list. */
  lemma CursorSees(os: seq<Offset>, o: Offset, cursor: nat)
    requires SortedOffsets(os) && AdjacentPrefixFree(os) && At(os, o, cursor)
    ensures Passed(os, o) <==> cursor < |os| && o <= os[cursor]
    ensures Named(os, o) <==> cursor < |os| && os[cursor] == o
  {
    if Passed(os, o) {
      var k :| 0 <= k < |os| && o <= os[k];
      PrefixNotAfter(o, os[k]);
      assert k >= cursor;
      if cursor < k {
        Sandwich(o, os[cursor], os[k]);
      }
    }
    if Named(os, o) {
      var k :| 0 <= k < |os| && os[k] == o;
      assert o <= os[k];
      LessTotal(o, o);
      assert k >= cursor;
      if cursor < k {
        Sandwich(o, os[cursor], os[k]);
        PrefixFree(os, k, cursor);
      }
    }
  }

  /** With no offset below o, the cursor already stands at the next sibling. */
  lemma SkipSibling(os: seq<Offset>, p: Offset, i: nat, cursor: nat)
    requires At(os, p + [i], cursor) && !Passed(os, p + [i])
    ensures At(os, p + [i + 1], cursor)
  {
    forall k | 0 <= k < |os|
      ensures Less(os[k], p + [i]) <==> Less(os[k], p + [i + 1])
    {
      Between(p, i, os[k]);
      SiblingsOrdered(p, i, os[k]);
    }
  }

  lemma SiblingsOrdered(p: Offset, i: nat, x: Offset)
    ensures Less(x, p + [i]) ==> Less(x, p + [i + 1])
  {
    LaterChild(p, i + 1, p + [i]);
    LessTransitive(x, p + [i], p + [i + 1]);
  }

  /** After the one offset that names o, the cursor stands at the next sibling. */
  lemma PassSibling(os: seq<Offset>, p: Offset, i: nat, cursor: nat)
    requires SortedOffsets(os) && AdjacentPrefixFree(os) && At(os, p + [i], cursor)
    requires cursor < |os| && os[cursor] == p + [i]
    ensures At(os, p + [i + 1], cursor + 1)
  {
    forall k | 0 <= k < |os|
      ensures Less(os[k], p + [i + 1]) <==> k < cursor + 1
    {
      Between(p, i, os[k]);
      SiblingsOrdered(p, i, os[k]);
      if k != cursor {
        PrefixFree(os, cursor, k);
      }
    }
  }

  /** Going down to the first child leaves the cursor where it is. */
  lemma EnterChild(os: seq<Offset>, o: Offset, cursor: nat)
    requires At(os, o, cursor) && !Named(os, o)
    ensures At(os, o + [0], cursor)
  {
    forall k | 0 <= k < |os|
      ensures Less(os[k], o) <==> Less(os[k], o + [0])
    {
      FirstChild(o, os[k]);
    }
  }

  /** Coming back from n children, when nothing goes through child n or later. */
  lemma LeaveChild(os: seq<Offset>, p: Offset, i: nat, n: nat, cursor: nat)
    requires At(os, p + [i] + [n], cursor)
    requires forall k :: 0 <= k < |os| && p + [i] <= os[k] ==> |os[k]| == |p| + 1 || os[k][|p| + 1] < n
    ensures At(os, p + [i + 1], cursor)
  {
    var o := p + [i];
    forall k | 0 <= k < |os|
      ensures Less(os[k], o + [n]) <==> Less(os[k], p + [i + 1])
    {
      Between(p, i, os[k]);
      SiblingsOrdered(p, i, os[k]);
      if o <= os[k] {
        LaterChild(o, n, os[k]);
      } else {
        NotBelow(o, n, os[k]);
      }
    }
  }

  lemma NotBelow(o: Offset, n: nat, x: Offset)
    requires !(o <= x)
    ensures Less(x, o + [n]) <==> Less(x, o)
  {
    LaterChild(o, n, o);
    LessTransitive(x, o, o + [n]);
    if Less(x, o + [n]) && !Less(x, o) {
      LessTotal(x, o + [n]);
      Sandwich(o, x, o + [n]);
    }
  }
}
