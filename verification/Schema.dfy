// Nested record types, with or without the columns that belong to them, and their leaves.
module Schemas {
  import opened Offsets

  /** A named field: a leaf that carries data of its own, or a record of further fields. The
      metadata of a record are its type name and attributes. */
  datatype Tree<D> = Leaf(name: string, kind: string, data: D)
                   | Branch(name: string, meta: string, children: seq<Tree<D>>)

  /** What the construction of a record type insists on, at every depth: a record has fields,
      and fields have names. */
  predicate Constructed<D>(layer: seq<Tree<D>>) {
    layer != [] && forall i :: 0 <= i < |layer| ==> ConstructedField(layer[i])
  }

  predicate ConstructedField<D>(t: Tree<D>) {
    t.name != "" && (t.Branch? ==> Constructed(t.children))
  }

  datatype LeafView<D> = LeafView(index: Offset, leaf: Tree<D>)

  /** The offset names a field of the record, at any depth. */
  predicate ValidIn<D>(layer: seq<Tree<D>>, o: Offset)
    decreases |o|
  {
    o != [] && o[0] < |layer| && (|o| == 1 || (layer[o[0]].Branch? && ValidIn(layer[o[0]].children, o[1..])))
  }

  function FieldAt<D>(layer: seq<Tree<D>>, o: Offset): Tree<D>
    requires ValidIn(layer, o)
    decreases |o|
  {
    if |o| == 1 then layer[o[0]] else FieldAt(layer[o[0]].children, o[1..])
  }

  lemma {:induction false} FieldsNamed<D>(layer: seq<Tree<D>>, o: Offset)
    requires Constructed(layer) && ValidIn(layer, o)
    ensures ConstructedField(FieldAt(layer, o))
    decreases |o|
  {
    if |o| > 1 {
      FieldsNamed(layer[o[0]].children, o[1..]);
    }
  }

  function LeavesOf<D>(t: Tree<D>, o: Offset): seq<LeafView<D>>
    decreases t
  {
    if t.Leaf? then [LeafView(o, t)] else LeavesFrom(t.children, 0, o)
  }

  /** The leaves below the fields from the i-th on, in depth-first order. */
  function LeavesFrom<D>(layer: seq<Tree<D>>, i: nat, p: Offset): seq<LeafView<D>>
    decreases layer, |layer| - i
  {
    if i >= |layer| then [] else LeavesOf(layer[i], p + [i]) + LeavesFrom(layer, i + 1, p)
  }

  function Leaves<D>(layer: seq<Tree<D>>): seq<LeafView<D>> {
    LeavesFrom(layer, 0, [])
  }

  ghost predicate Increasing<D>(s: seq<LeafView<D>>) {
    forall j, k :: 0 <= j < k < |s| ==> Less(s[j].index, s[k].index)
  }

  lemma {:induction false} LeavesOfExtend<D>(t: Tree<D>, o: Offset, v: LeafView<D>)
    requires v in LeavesOf(t, o)
    ensures o <= v.index && (t.Branch? ==> o != v.index)
    decreases t
  {
    if t.Branch? {
      LeavesFromExtend(t.children, 0, o, v);
    }
  }

  lemma {:induction false} LeavesFromExtend<D>(layer: seq<Tree<D>>, i: nat, p: Offset, v: LeafView<D>)
    requires v in LeavesFrom(layer, i, p)
    ensures p < v.index && i <= v.index[|p|] < |layer|
    decreases layer, |layer| - i
  {
    if v in LeavesOf(layer[i], p + [i]) {
      LeavesOfExtend(layer[i], p + [i], v);
      assert (p + [i])[|p|] == i;
    } else {
      LeavesFromExtend(layer, i + 1, p, v);
    }
  }

  lemma {:induction false} LeavesOfIncrease<D>(t: Tree<D>, o: Offset)
    ensures Increasing(LeavesOf(t, o))
    decreases t
  {
    if t.Branch? {
      LeavesFromIncrease(t.children, 0, o);
    }
  }

  /** Depth-first order is offset order. */
  lemma {:induction false} LeavesFromIncrease<D>(layer: seq<Tree<D>>, i: nat, p: Offset)
    ensures Increasing(LeavesFrom(layer, i, p))
    decreases layer, |layer| - i
  {
    if i < |layer| {
      LeavesOfIncrease(layer[i], p + [i]);
      LeavesFromIncrease(layer, i + 1, p);
      var a, b := LeavesOf(layer[i], p + [i]), LeavesFrom(layer, i + 1, p);
      forall x, y | x in a && y in b
        ensures Less(x.index, y.index)
      {
        LeavesOfExtend(layer[i], p + [i], x);
        LeavesFromExtend(layer, i + 1, p, y);
        Between(p, i, x.index);
        LaterChild(p, i + 1, y.index);
        if !Less(x.index, y.index) {
          LessTransitive(x.index, y.index, p + [i + 1]);
        }
      }
    }
  }

  /** The leaves are exactly the valid offsets of fields that are not records. */
  lemma {:induction false} LeavesValid<D>(layer: seq<Tree<D>>, i: nat, p: Offset, o: Offset)
    requires i <= |layer|
    requires ValidIn(layer, o) && o[0] >= i && FieldAt(layer, o).Leaf?
    ensures LeafView(p + o, FieldAt(layer, o)) in LeavesFrom(layer, i, p)
    decreases layer, |layer| - i
  {
    if o[0] > i {
      LeavesValid(layer, i + 1, p, o);
    } else if |o| == 1 {
      assert o == [i];
    } else {
      LeavesValid(layer[i].children, 0, p + [i], o[1..]);
      assert p + [i] + o[1..] == p + o;
    }
  }

  lemma {:induction false} ValidLeaves<D>(layer: seq<Tree<D>>, i: nat, p: Offset, v: LeafView<D>)
    requires v in LeavesFrom(layer, i, p)
    ensures p <= v.index && ValidIn(layer, v.index[|p|..])
    ensures v.leaf == FieldAt(layer, v.index[|p|..]) && v.leaf.Leaf?
    decreases layer, |layer| - i
  {
    LeavesFromExtend(layer, i, p, v);
    if v in LeavesOf(layer[i], p + [i]) {
      LeavesOfExtend(layer[i], p + [i], v);
      if layer[i].Branch? {
        ValidLeaves(layer[i].children, 0, p + [i], v);
        assert v.index[|p|..][1..] == v.index[|p| + 1..];
      } else {
        assert v.index[|p|..] == [i];
      }
    } else {
      ValidLeaves(layer, i + 1, p, v);
    }
  }

  /** A record has leaves. */
  lemma {:induction false} SomeLeaf<D>(layer: seq<Tree<D>>, p: Offset)
    requires Constructed(layer)
    ensures LeavesFrom(layer, 0, p) != []
  {
    if layer[0].Branch? {
      SomeLeaf(layer[0].children, p + [0]);
    }
  }

  /** The walk lists every field that is not a record once, in offset order. */
  lemma LeavesExact<D>(layer: seq<Tree<D>>)
    ensures Increasing(Leaves(layer))
    ensures forall o :: ValidIn(layer, o) && FieldAt(layer, o).Leaf?
                        ==> LeafView(o, FieldAt(layer, o)) in Leaves(layer)
    ensures forall v :: v in Leaves(layer) ==> ValidIn(layer, v.index)
    ensures forall v :: v in Leaves(layer) ==> v.leaf.Leaf? && v.leaf == FieldAt(layer, v.index)
  {
    LeavesFromIncrease(layer, 0, []);
    forall o | ValidIn(layer, o) && FieldAt(layer, o).Leaf?
      ensures LeafView(o, FieldAt(layer, o)) in Leaves(layer)
    {
      LeavesValid(layer, 0, [], o);
      assert [] + o == o;
    }
    forall v | v in Leaves(layer)
      ensures ValidIn(layer, v.index) && v.leaf.Leaf? && v.leaf == FieldAt(layer, v.index)
    {
      ValidLeaves(layer, 0, [], v);
      assert v.index[0..] == v.index;
    }
  }
}
