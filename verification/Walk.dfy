// The depth-first walks over a record type. They keep the offset of the current field and the
// enclosing records on two stacks instead of recursing.
module Walks {
  import opened Options
  import opened Offsets
  import opened Schemas
  import opened Words

  /** The offset of the next field in the enclosing record. */
  function Advance(index: Offset): Offset {
    if index == [] then [] else index[..|index| - 1] + [index[|index| - 1] + 1]
  }

  /** The leaves that a walk with these stacks still has in front of it. */
  ghost function Remaining<D>(history: seq<seq<Tree<D>>>, index: Offset): seq<LeafView<D>>
    requires |history| == |index|
    decreases |index|
  {
    if index == [] then []
    else
      var k := |index| - 1;
      LeavesFrom(history[k], index[k], index[..k]) + Remaining(history[..k], Advance(index[..k]))
  }

  ghost function Effort<D>(t: Tree<D>): nat
    decreases t
  {
    if t.Leaf? then 1 else 1 + EffortFrom(t.children, 0)
  }

  ghost function EffortFrom<D>(layer: seq<Tree<D>>, i: nat): (e: nat)
    ensures e > 0
    decreases layer, |layer| - i
  {
    if i >= |layer| then 1 else Effort(layer[i]) + EffortFrom(layer, i + 1)
  }

  /** The number of steps that a walk with these stacks still takes. */
  ghost function StepsLeft<D>(history: seq<seq<Tree<D>>>, index: Offset): nat
    requires |history| == |index|
    decreases |index|
  {
    if index == [] then 0
    else
      var k := |index| - 1;
      EffortFrom(history[k], index[k]) + StepsLeft(history[..k], Advance(index[..k]))
  }

  /** What the stacks mean, one level at a time. */
  lemma Top<D>(up: seq<seq<Tree<D>>>, layer: seq<Tree<D>>, p: Offset, i: nat)
    requires |up| == |p|
    ensures Remaining(up + [layer], p + [i]) == LeavesFrom(layer, i, p) + Remaining(up, Advance(p))
    ensures StepsLeft(up + [layer], p + [i]) == EffortFrom(layer, i) + StepsLeft(up, Advance(p))
    ensures Advance(p + [i]) == p + [i + 1]
  {
    hide LeavesFrom, EffortFrom;
    var history, index := up + [layer], p + [i];
    assert history[..|p|] == up && index[..|p|] == p;
  }

  /** One turn of the loop: step out of a finished record, into a record, or over a leaf. */
  method Step<D>(history: seq<seq<Tree<D>>>, index: Offset)
    returns (history': seq<seq<Tree<D>>>, index': Offset, leaf: Option<LeafView<D>>)
    requires |history| == |index| > 0
    ensures |history'| == |index'| && StepsLeft(history', index') < StepsLeft(history, index)
    ensures leaf.None? ==> Remaining(history', index') == Remaining(history, index)
    ensures leaf.Some? ==> Remaining(history, index) == [leaf.value] + Remaining(history', index')
    ensures leaf.Some? ==> leaf.value.index == index
  {
    hide Remaining, StepsLeft;
    var k := |index| - 1;
    var up, layer, p, i := history[..k], history[k], index[..k], index[k];
    assert up + [layer] == history && p + [i] == index;
    Top(up, layer, p, i);
    leaf := None;
    if i >= |layer| {
      history' := up;
      index' := Advance(p);
      return;
    }
    var field := layer[i];
    Top(up, layer, p, i + 1);
    if field.Leaf? {
      leaf := Some(LeafView(index, field));
      history' := history;
      index' := Advance(index);
      AppendAssociative([leaf.value], LeavesFrom(layer, i + 1, p), Remaining(up, Advance(p)));
    } else {
      history' := history + [field.children];
      index' := index + [0];
      Top(history, field.children, index, 0);
      AppendAssociative(LeavesFrom(field.children, 0, index), LeavesFrom(layer, i + 1, p),
                        Remaining(up, Advance(p)));
    }
  }

  lemma Started<D>(layer: seq<Tree<D>>)
    ensures Remaining([layer], [0]) == Leaves(layer)
  {
    var history, index: Offset := [layer], [0];
    assert history[..0] == [] && index[..0] == [];
    assert Remaining(history[..0], Advance(index[..0])) == [];
  }

  method AllLeaves<D>(layer: seq<Tree<D>>) returns (r: seq<LeafView<D>>)
    ensures r == Leaves(layer)
  {
    r := [];
    var index: Offset, history: seq<seq<Tree<D>>> := [0], [layer];
    Started(layer);
    while index != []
      invariant |history| == |index|
      invariant r + Remaining(history, index) == Leaves(layer)
      decreases StepsLeft(history, index)
    {
      var leaf;
      history, index, leaf := Step(history, index);
      if leaf.Some? {
        AppendAssociative(r, [leaf.value], Remaining(history, index));
        r := r + [leaf.value];
      }
    }
  }

  method NumLeaves<D>(layer: seq<Tree<D>>) returns (r: nat)
    ensures r == |Leaves(layer)|
  {
    r := 0;
    var index: Offset, history: seq<seq<Tree<D>>> := [0], [layer];
    Started(layer);
    while index != []
      invariant |history| == |index|
      invariant r + |Remaining(history, index)| == |Leaves(layer)|
      decreases StepsLeft(history, index)
    {
      var leaf;
      history, index, leaf := Step(history, index);
      if leaf.Some? {
        r := r + 1;
      }
    }
  }

  /** The offset of the n-th leaf; there is none when the walk ends before it. */
  method ResolveFlatIndex<D>(layer: seq<Tree<D>>, n: nat) returns (r: Option<Offset>)
    ensures r == if n < |Leaves(layer)| then Some(Leaves(layer)[n].index) else None
  {
    var index: Offset, history: seq<seq<Tree<D>>> := [0], [layer];
    var current := 0;
    Started(layer);
    ghost var all := Leaves(layer);
    while index != []
      invariant |history| == |index| && 0 <= current <= n && current <= |all|
      invariant all[current..] == Remaining(history, index)
      decreases StepsLeft(history, index)
    {
      var here := index;
      var leaf;
      history, index, leaf := Step(history, index);
      if leaf.Some? {
        assert all[current] == leaf.value;
        if current == n {
          return Some(here);
        }
        assert all[current + 1..] == all[current..][1..];
        current := current + 1;
      }
    }
    return None;
  }

  /** No leaf in front of the walk is before the current offset, and none is a record there. */
  lemma {:induction false} AheadOf<D>(history: seq<seq<Tree<D>>>, index: Offset, v: LeafView<D>)
    requires |history| == |index| && v in Remaining(history, index)
    ensures index != [] && !Less(v.index, index)
    ensures v.index == index ==> index[|index| - 1] < |history[|index| - 1]|
    ensures v.index == index ==> history[|index| - 1][index[|index| - 1]].Leaf?
    decreases |index|
  {
    hide Less, LeavesFrom;
    var k := |index| - 1;
    var p, i := index[..k], index[k];
    assert p + [i] == index;
    if v in LeavesFrom(history[k], i, p) {
      AheadInLayer(history[k], p, i, v);
    } else {
      AheadOf(history[..k], Advance(p), v);
      BeforeAdvance(p, i, v.index);
    }
  }

  /** What is not before the next field of an outer record is after everything inside this one. */
  lemma BeforeAdvance(p: Offset, i: nat, x: Offset)
    requires p != [] && !Less(x, Advance(p))
    ensures !Less(x, p + [i]) && x != p + [i]
  {
    var q, j := p[..|p| - 1], p[|p| - 1];
    assert q + [j] == p;
    Between(q, j, p + [i]);
    hide Less;
    if !Less(p + [i], x) {
      LessTransitive(p + [i], x, q + [j + 1]);
    }
    LessTotal(p + [i], x);
  }

  lemma AheadInLayer<D>(layer: seq<Tree<D>>, p: Offset, i: nat, v: LeafView<D>)
    requires v in LeavesFrom(layer, i, p)
    ensures !Less(v.index, p + [i])
    ensures v.index == p + [i] ==> i < |layer| && layer[i].Leaf?
  {
    LeavesFromExtend(layer, i, p, v);
    LaterChild(p, i, v.index);
    if v.index == p + [i] {
      if v in LeavesFrom(layer, i + 1, p) {
        LeavesFromExtend(layer, i + 1, p, v);
      } else {
        LeavesOfExtend(layer[i], p + [i], v);
      }
    }
  }

  lemma LeafPosition<D>(layer: seq<Tree<D>>, target: Offset) returns (n: nat)
    requires ValidIn(layer, target) && FieldAt(layer, target).Leaf?
    ensures n < |Leaves(layer)| && Leaves(layer)[n].index == target
  {
    LeavesExact(layer);
    var v := LeafView(target, FieldAt(layer, target));
    n :| 0 <= n < |Leaves(layer)| && Leaves(layer)[n] == v;
  }

  /** The position of a leaf. The assertions of the walk hold all along. */
  method FlatIndex<D>(layer: seq<Tree<D>>, target: Offset) returns (r: nat)
    requires ValidIn(layer, target) && FieldAt(layer, target).Leaf?
    ensures r < |Leaves(layer)| && Leaves(layer)[r].index == target
  {
    hide Remaining, StepsLeft, Leaves, Less, ValidIn, FieldAt;
    ghost var all := Leaves(layer);
    ghost var n := LeafPosition(layer, target);
    ghost var v := all[n];
    r := 0;
    var index: Offset, history: seq<seq<Tree<D>>> := [0], [layer];
    Started(layer);
    while true
      invariant |history| == |index| && 0 <= r <= n
      invariant all[r..] == Remaining(history, index)
      decreases StepsLeft(history, index)
    {
      assert all[r..][n - r] == v;
      AheadOf(history, index, v);
      assert index != [] && !Less(target, index);
      assert index == target ==> history[|index| - 1][index[|index| - 1]].Leaf?;
      var here := index;
      var leaf;
      history, index, leaf := Step(history, index);
      if leaf.Some? {
        assert all[r] == leaf.value;
        if target == here {
          return;
        }
        assert all[r + 1..] == all[r..][1..];
        r := r + 1;
      }
    }
  }

  /** Flat positions and leaf offsets are the same thing, in the same order. */
  method FlatRoundTrip<D>(layer: seq<Tree<D>>, target: Offset, n: nat)
    returns (there: Option<Offset>, back: Option<nat>)
    requires ValidIn(layer, target) && FieldAt(layer, target).Leaf?
    ensures there == Some(target)
    ensures back == if n < |Leaves(layer)| then Some(n) else None
  {
    var position := FlatIndex(layer, target);
    there := ResolveFlatIndex(layer, position);
    var o := ResolveFlatIndex(layer, n);
    back := None;
    if o.Some? {
      LeavesExact(layer);
      assert Leaves(layer)[n] in Leaves(layer);
      var m := FlatIndex(layer, o.value);
      LessTotal(o.value, o.value);
      back := Some(m);
    }
  }
}
