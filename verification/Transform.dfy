// Rewriting and selecting the fields of a record at given offsets. Both go over the record
// once, with a single cursor into the sorted list of offsets.
module Transforming {
  import opened Options
  import opened Offsets
  import opened Schemas
  import opened Words

  datatype Transformation<!D> = Transformation(index: Offset, fun: Tree<D> -> seq<Tree<D>>)

  function Indices<D>(ts: seq<Transformation<D>>): (os: seq<Offset>)
    ensures |os| == |ts| && forall k :: 0 <= k < |ts| ==> os[k] == ts[k].index
  {
    seq(|ts|, k requires 0 <= k < |ts| => ts[k].index)
  }

  /** What callers must ensure of the offsets: sorted, and none a prefix of the next one. */
  predicate Admissible(os: seq<Offset>) {
    AdjacentSorted(os) && AdjacentPrefixFree(os)
  }

  /** Every offset strictly below p goes on to a field of this layer. */
  ghost predicate ValidBelow<D>(layer: seq<Tree<D>>, p: Offset, os: seq<Offset>) {
    forall k :: 0 <= k < |os| && p < os[k] ==> ValidIn(layer, os[k][|p|..])
  }

  lemma ValidChild<D>(layer: seq<Tree<D>>, p: Offset, i: nat, os: seq<Offset>)
    requires ValidBelow(layer, p, os) && i < |layer|
    requires Passed(os, p + [i]) && !Named(os, p + [i])
    ensures layer[i].Branch? && ValidBelow(layer[i].children, p + [i], os)
    ensures forall k :: 0 <= k < |os| && p + [i] <= os[k] ==> os[k][|p| + 1] < |layer[i].children|
  {
    var o := p + [i];
    forall k | 0 <= k < |os| && o <= os[k]
      ensures layer[i].Branch? && ValidIn(layer[i].children, os[k][|o|..])
    {
      assert os[k] != o;
      assert p < os[k] && os[k][|p|] == o[|p|] == i;
      assert os[k][|p|..][1..] == os[k][|o|..];
    }
  }

  lemma ValidAtTop<D>(layer: seq<Tree<D>>, os: seq<Offset>)
    requires forall k :: 0 <= k < |os| ==> ValidIn(layer, os[k])
    ensures ValidBelow(layer, [], os) && At(os, [0], 0)
    ensures forall cursor: nat :: At(os, [|layer|], cursor) ==> cursor == |os|
  {
    forall k | 0 <= k < |os|
      ensures os[k][0..] == os[k] && !Less(os[k], [0]) && Less(os[k], [|layer|])
    {
      FirstChild([], os[k]);
      LaterChild([], |layer|, os[k]);
      assert [] + [0] == [0] && [] + [|layer|] == [|layer|];
    }
    forall cursor: nat | At(os, [|layer|], cursor)
      ensures cursor == |os|
    {
      AtEnd(os, [|layer|], cursor);
    }
  }

  lemma AtEnd(os: seq<Offset>, o: Offset, cursor: nat)
    requires At(os, o, cursor) && (cursor < |os| ==> Less(os[cursor], o))
    ensures cursor == |os|
  {
  }

  // -- rewriting, by looking up every field in the whole list ---------------------------------

  ghost function RewriteField<D>(t: Tree<D>, o: Offset, ts: seq<Transformation<D>>): seq<Tree<D>>
    decreases t
  {
    if Named(Indices(ts), o) then
      var k :| 0 <= k < |ts| && Indices(ts)[k] == o;
      ts[k].fun(t)
    else if Passed(Indices(ts), o) && t.Branch? then
      Wrap(t, RewriteFrom(t.children, 0, o, ts))
    else [t]
  }

  /** A record around the fields; it is dropped with its last field. */
  function Wrap<D>(t: Tree<D>, fields: seq<Tree<D>>): seq<Tree<D>>
    requires t.Branch?
  {
    if fields == [] then [] else [Branch(t.name, t.meta, fields)]
  }

  ghost function RewriteFrom<D>(layer: seq<Tree<D>>, i: nat, p: Offset, ts: seq<Transformation<D>>): seq<Tree<D>>
    decreases layer, |layer| - i
  {
    if i >= |layer| then [] else RewriteField(layer[i], p + [i], ts) + RewriteFrom(layer, i + 1, p, ts)
  }

  lemma RewriteNamed<D>(t: Tree<D>, o: Offset, ts: seq<Transformation<D>>, cursor: nat)
    requires SortedOffsets(Indices(ts)) && AdjacentPrefixFree(Indices(ts))
    requires cursor < |ts| && ts[cursor].index == o
    ensures RewriteField(t, o, ts) == ts[cursor].fun(t)
  {
    var os := Indices(ts);
    assert os[cursor] == o;
    assert Named(os, o);
    forall k | 0 <= k < |ts| && os[k] == o
      ensures k == cursor
    {
      if k != cursor {
        PrefixFree(os, k, cursor);
      }
    }
  }

  // -- rewriting with a cursor ----------------------------------------------------------------

  method TransformLayer<D>(layer: seq<Tree<D>>, p: Offset, ts: seq<Transformation<D>>, start: nat)
    returns (result: seq<Tree<D>>, current: nat)
    requires SortedOffsets(Indices(ts)) && AdjacentPrefixFree(Indices(ts))
    requires ValidBelow(layer, p, Indices(ts)) && At(Indices(ts), p + [0], start)
    ensures result == RewriteFrom(layer, 0, p, ts)
    ensures At(Indices(ts), p + [|layer|], current)
    decreases layer
  {
    hide At, ValidBelow, RewriteField, Passed, Named, SortedOffsets, AdjacentPrefixFree;
    ghost var os := Indices(ts);
    result, current := [], start;
    Bounded(os, p + [0], start);
    var i := 0;
    while i < |layer|
      invariant 0 <= i <= |layer| && 0 <= current <= |ts| && At(os, p + [i], current)
      invariant result + RewriteFrom(layer, i, p, ts) == RewriteFrom(layer, 0, p, ts)
    {
      var o, field := p + [i], layer[i];
      CursorSees(os, o, current);
      ghost var before := result;
      if current < |ts| && ts[current].index == o {
        RewriteNamed(field, o, ts, current);
        PassSibling(os, p, i, current);
        result := result + ts[current].fun(field);
        current := current + 1;
      } else if current < |ts| && o <= ts[current].index {
        ValidChild(layer, p, i, os);
        EnterChild(os, o, current);
        var nested;
        nested, current := TransformLayer(field.children, o, ts, current);
        LeaveChild(os, p, i, |field.children|, current);
        RewriteNested(field, o, ts);
        if nested != [] {
          result := result + [Branch(field.name, field.meta, nested)];
        }
      } else {
        SkipSibling(os, p, i, current);
        RewriteUntouched(field, o, ts);
        result := result + [field];
      }
      assert result == before + RewriteField(field, o, ts);
      AppendAssociative(before, RewriteField(field, o, ts), RewriteFrom(layer, i + 1, p, ts));
      Bounded(os, p + [i + 1], current);
      i := i + 1;
    }
  }

  lemma Bounded(os: seq<Offset>, o: Offset, cursor: nat)
    requires At(os, o, cursor)
    ensures cursor <= |os|
  {
  }

  lemma RewriteNested<D>(t: Tree<D>, o: Offset, ts: seq<Transformation<D>>)
    requires t.Branch? && Passed(Indices(ts), o) && !Named(Indices(ts), o)
    ensures RewriteField(t, o, ts) == Wrap(t, RewriteFrom(t.children, 0, o, ts))
  {
  }

  lemma RewriteUntouched<D>(t: Tree<D>, o: Offset, ts: seq<Transformation<D>>)
    requires !Passed(Indices(ts), o) && !Named(Indices(ts), o)
    ensures RewriteField(t, o, ts) == [t]
  {
  }

  /** The transformations turn a field as it can be constructed into such fields. */
  ghost predicate Yields<D(!new)>(ts: seq<Transformation<D>>) {
    forall k, t, u :: 0 <= k < |ts| && ConstructedField(t) && u in ts[k].fun(t) ==> ConstructedField(u)
  }

  /** What such transformations leave of a record makes a record again, unless nothing is left. */
  lemma {:induction false} RewriteConstructed<D(!new)>(layer: seq<Tree<D>>, i: nat, p: Offset, ts: seq<Transformation<D>>)
    requires Constructed(layer) && Yields(ts)
    ensures forall t :: t in RewriteFrom(layer, i, p, ts) ==> ConstructedField(t)
    ensures RewriteFrom(layer, i, p, ts) != [] ==> Constructed(RewriteFrom(layer, i, p, ts))
    decreases layer, |layer| - i
  {
    if i < |layer| {
      RewriteConstructed(layer, i + 1, p, ts);
      assert ConstructedField(layer[i]);
      if layer[i].Branch? {
        RewriteConstructed(layer[i].children, 0, p + [i], ts);
      }
    }
  }

  // The transformations that record types come with.

  function Drop<D>(): Tree<D> -> seq<Tree<D>> { t => [] }

  function Assign<D>(fields: seq<Tree<D>>): Tree<D> -> seq<Tree<D>> { t => fields }

  function InsertBefore<D>(fields: seq<Tree<D>>): Tree<D> -> seq<Tree<D>> { t => fields + [t] }

  function InsertAfter<D>(fields: seq<Tree<D>>): Tree<D> -> seq<Tree<D>> { t => [t] + fields }

  /** With fields as they can be constructed, all of them yield such fields. */
  lemma StandardYields<D(!new)>(ts: seq<Transformation<D>>, fields: seq<seq<Tree<D>>>)
    requires |fields| == |ts| && forall k, u :: 0 <= k < |ts| && u in fields[k] ==> ConstructedField(u)
    requires forall k :: 0 <= k < |ts| ==>
               ts[k].fun in {Drop(), Assign(fields[k]), InsertBefore(fields[k]), InsertAfter(fields[k])}
    ensures Yields(ts)
  {
    forall k, t, u | 0 <= k < |ts| && ConstructedField(t) && u in ts[k].fun(t)
      ensures ConstructedField(u)
    {
      assert u == t || u in fields[k];
    }
  }

  /** Rewriting a record type; nothing is left when every field was dropped. */
  method Transform<D(!new)>(layer: seq<Tree<D>>, ts: seq<Transformation<D>>)
    returns (result: Option<seq<Tree<D>>>, used: nat)
    requires Admissible(Indices(ts))
    requires forall k :: 0 <= k < |ts| ==> ValidIn(layer, ts[k].index)
    ensures ts == [] ==> result == Some(layer)
    ensures ts != [] && RewriteFrom(layer, 0, [], ts) == [] ==> result == None
    ensures RewriteFrom(layer, 0, [], ts) != [] ==> result == Some(RewriteFrom(layer, 0, [], ts))
    ensures Constructed(layer) && Yields(ts) && result.Some? ==> Constructed(result.value)
    ensures used == |ts|
  {
    if ts == [] {
      Untouched(layer, 0, [], ts);
      assert layer[0..] == layer;
      return Some(layer), 0;
    }
    SortedThroughout(Indices(ts));
    ValidAtTop(layer, Indices(ts));
    assert [] + [0] == [0] && [] + [|layer|] == [|layer|];
    var fields;
    fields, used := TransformLayer(layer, [], ts, 0);
    if Constructed(layer) && Yields(ts) {
      RewriteConstructed(layer, 0, [], ts);
    }
    result := if fields == [] then None else Some(fields);
  }

  lemma {:induction false} Untouched<D>(layer: seq<Tree<D>>, i: nat, p: Offset, ts: seq<Transformation<D>>)
    requires i <= |layer| && forall k :: 0 <= k < |ts| ==> !(p <= ts[k].index)
    ensures RewriteFrom(layer, i, p, ts) == layer[i..]
    decreases |layer| - i
  {
    if i < |layer| {
      Untouched(layer, i + 1, p, ts);
      assert layer[i..] == [layer[i]] + layer[i + 1..];
    }
  }

  // -- selecting ------------------------------------------------------------------------------

  ghost function SelectField<D>(t: Tree<D>, o: Offset, os: seq<Offset>): seq<Tree<D>>
    decreases t
  {
    if Named(os, o) then [t]
    else if Passed(os, o) && t.Branch? then [Branch(t.name, t.meta, SelectFrom(t.children, 0, o, os))]
    else []
  }

  ghost function SelectFrom<D>(layer: seq<Tree<D>>, i: nat, p: Offset, os: seq<Offset>): seq<Tree<D>>
    decreases layer, |layer| - i
  {
    if i >= |layer| then [] else SelectField(layer[i], p + [i], os) + SelectFrom(layer, i + 1, p, os)
  }

  /** The leaf's offset is a selected one or lies below a selected one. */
  ghost predicate Kept(os: seq<Offset>, index: Offset) {
    exists k :: 0 <= k < |os| && os[k] <= index
  }

  /** The leaves for which being kept is this, in their order. */
  ghost function KeptLeaves<D>(views: seq<LeafView<D>>, os: seq<Offset>, keep: bool): seq<Tree<D>> {
    if views == [] then []
    else (if Kept(os, views[0].index) == keep then [views[0].leaf] else []) + KeptLeaves(views[1..], os, keep)
  }

  ghost function LeafFields<D>(views: seq<LeafView<D>>): seq<Tree<D>> {
    if views == [] then [] else [views[0].leaf] + LeafFields(views[1..])
  }

  lemma {:induction false} KeptConcat<D>(a: seq<LeafView<D>>, b: seq<LeafView<D>>, os: seq<Offset>, keep: bool)
    ensures KeptLeaves(a + b, os, keep) == KeptLeaves(a, os, keep) + KeptLeaves(b, os, keep)
  {
    if a == [] {
      assert a + b == b;
    } else {
      assert (a + b)[0] == a[0] && (a + b)[1..] == a[1..] + b;
      hide Kept;
      KeptConcat(a[1..], b, os, keep);
      var head := if Kept(os, a[0].index) == keep then [a[0].leaf] else [];
      AppendAssociative(head, KeptLeaves(a[1..], os, keep), KeptLeaves(b, os, keep));
    }
  }

  lemma {:induction false} FieldsConcat<D>(a: seq<LeafView<D>>, b: seq<LeafView<D>>)
    ensures LeafFields(a + b) == LeafFields(a) + LeafFields(b)
  {
    if a == [] {
      assert a + b == b;
    } else {
      assert (a + b)[0] == a[0] && (a + b)[1..] == a[1..] + b;
      FieldsConcat(a[1..], b);
      AppendAssociative([a[0].leaf], LeafFields(a[1..]), LeafFields(b));
    }
  }

  lemma {:induction false} KeptAll<D>(views: seq<LeafView<D>>, os: seq<Offset>, keep: bool)
    requires forall v :: v in views ==> Kept(os, v.index) == keep
    ensures KeptLeaves(views, os, keep) == LeafFields(views)
    ensures KeptLeaves(views, os, !keep) == []
  {
    if views != [] {
      assert views[0] in views;
      KeptAll(views[1..], os, keep);
    }
  }

  /** Where a leaf ends up does not matter for which leaves there are. */
  lemma {:induction false} SameFields<D>(t: Tree<D>, o: Offset, o': Offset)
    ensures LeafFields(LeavesOf(t, o)) == LeafFields(LeavesOf(t, o'))
    decreases t
  {
    if t.Branch? {
      SameFieldsFrom(t.children, 0, o, o');
    }
  }

  lemma {:induction false} SameFieldsFrom<D>(layer: seq<Tree<D>>, i: nat, p: Offset, p': Offset)
    ensures LeafFields(LeavesFrom(layer, i, p)) == LeafFields(LeavesFrom(layer, i, p'))
    decreases layer, |layer| - i
  {
    if i < |layer| {
      SameFields(layer[i], p + [i], p' + [i]);
      SameFieldsFrom(layer, i + 1, p, p');
      FieldsConcat(LeavesOf(layer[i], p + [i]), LeavesFrom(layer, i + 1, p));
      FieldsConcat(LeavesOf(layer[i], p' + [i]), LeavesFrom(layer, i + 1, p'));
    }
  }

  /** The leaves of a layer, wherever it is placed. */
  ghost function LeafColumns<D>(layer: seq<Tree<D>>): seq<Tree<D>> {
    LeafFields(Leaves(layer))
  }

  lemma {:induction false} ColumnsConcat<D>(a: seq<Tree<D>>, b: seq<Tree<D>>)
    ensures LeafColumns(a + b) == LeafColumns(a) + LeafColumns(b)
    decreases |a|
  {
    if a == [] {
      assert a + b == b;
    } else {
      hide LeafColumns, LeafFields, LeavesOf;
      ColumnsHead(a);
      ColumnsHead(a + b);
      assert (a + b)[0] == a[0] && (a + b)[1..] == a[1..] + b;
      ColumnsConcat(a[1..], b);
      AppendAssociative(LeafFields(LeavesOf(a[0], [0])), LeafColumns(a[1..]), LeafColumns(b));
    }
  }

  lemma ColumnsHead<D>(a: seq<Tree<D>>)
    requires a != []
    ensures LeafColumns(a) == LeafFields(LeavesOf(a[0], [0])) + LeafColumns(a[1..])
  {
    assert [] + [0] == [0];
    FieldsConcat(LeavesOf(a[0], [0]), LeavesFrom(a, 1, []));
    ColumnsShift(a, 1);
  }

  lemma {:induction false} ColumnsShift<D>(a: seq<Tree<D>>, i: nat)
    requires 1 <= i <= |a|
    ensures LeafFields(LeavesFrom(a, i, [])) == LeafFields(LeavesFrom(a[1..], i - 1, []))
    decreases |a| - i
  {
    if i < |a| {
      ColumnsShift(a, i + 1);
      SameFields(a[i], [] + [i], [] + [i - 1]);
      FieldsConcat(LeavesOf(a[i], [] + [i]), LeavesFrom(a, i + 1, []));
      FieldsConcat(LeavesOf(a[i], [] + [i - 1]), LeavesFrom(a[1..], i, []));
    }
  }

  lemma ColumnsOne<D>(t: Tree<D>, o: Offset)
    ensures LeafColumns([t]) == LeafFields(LeavesOf(t, o))
  {
    var layer := [t];
    ColumnsHead(layer);
    SameFields(t, [0], o);
    assert layer[1..] == [];
  }

  /** The selected columns are the leaves at or below a selected offset, in their order. */
  lemma {:induction false} SelectFieldColumns<D>(t: Tree<D>, o: Offset, os: seq<Offset>)
    requires forall k :: 0 <= k < |os| && os[k] <= o ==> os[k] == o
    ensures LeafColumns(SelectField(t, o, os)) == KeptLeaves(LeavesOf(t, o), os, true)
    decreases t
  {
    var views := LeavesOf(t, o);
    if Named(os, o) {
      forall v | v in views
        ensures Kept(os, v.index)
      {
        LeavesOfExtend(t, o, v);
      }
      KeptAll(views, os, true);
      ColumnsOne(t, o);
    } else if Passed(os, o) && t.Branch? {
      SelectedLeaves(t.children, 0, o, os);
      var inside := SelectFrom(t.children, 0, o, os);
      ColumnsOne(Branch(t.name, t.meta, inside), []);
    } else {
      forall v | v in views
        ensures !Kept(os, v.index)
      {
        LeavesOfExtend(t, o, v);
        NotKept(t, o, os, v);
      }
      KeptAll(views, os, false);
    }
  }

  lemma NotKept<D>(t: Tree<D>, o: Offset, os: seq<Offset>, v: LeafView<D>)
    requires o <= v.index && !Named(os, o) && v in LeavesOf(t, o)
    requires forall k :: 0 <= k < |os| && os[k] <= o ==> os[k] == o
    requires !Passed(os, o) || t.Leaf?
    ensures !Kept(os, v.index)
  {
    forall k | 0 <= k < |os|
      ensures !(os[k] <= v.index)
    {
      Comparable(os[k], o, v.index);
    }
  }

  lemma NoAncestor(os: seq<Offset>, p: Offset, i: nat)
    requires forall k :: 0 <= k < |os| ==> !(os[k] <= p)
    ensures forall k :: 0 <= k < |os| && os[k] <= p + [i] ==> os[k] == p + [i]
  {
    forall k | 0 <= k < |os| && os[k] <= p + [i]
      ensures os[k] == p + [i]
    {
      Comparable(os[k], p, p + [i]);
    }
  }

  lemma {:induction false} SelectedLeaves<D>(layer: seq<Tree<D>>, i: nat, p: Offset, os: seq<Offset>)
    requires forall k :: 0 <= k < |os| ==> !(os[k] <= p)
    ensures LeafColumns(SelectFrom(layer, i, p, os)) == KeptLeaves(LeavesFrom(layer, i, p), os, true)
    decreases layer, |layer| - i
  {
    if i < |layer| {
      NoAncestor(os, p, i);
      SelectFieldColumns(layer[i], p + [i], os);
      SelectedLeaves(layer, i + 1, p, os);
      ColumnsConcat(SelectField(layer[i], p + [i], os), SelectFrom(layer, i + 1, p, os));
      KeptConcat(LeavesOf(layer[i], p + [i]), LeavesFrom(layer, i + 1, p), os, true);
    }
  }

  lemma SelectNested<D>(t: Tree<D>, o: Offset, os: seq<Offset>)
    requires t.Branch? && Passed(os, o) && !Named(os, o)
    ensures SelectField(t, o, os) == [Branch(t.name, t.meta, SelectFrom(t.children, 0, o, os))]
  {
  }

  lemma SelectWhole<D>(t: Tree<D>, o: Offset, os: seq<Offset>)
    ensures Named(os, o) ==> SelectField(t, o, os) == [t]
    ensures !Passed(os, o) && !Named(os, o) ==> SelectField(t, o, os) == []
  {
  }

  /** Something strictly below p is selected. */
  ghost predicate Below(os: seq<Offset>, p: Offset) {
    exists k :: 0 <= k < |os| && p < os[k]
  }

  lemma {:induction false} SelectAt<D>(layer: seq<Tree<D>>, i: nat, j: nat, p: Offset, os: seq<Offset>)
    requires i <= j < |layer| && SelectField(layer[j], p + [j], os) != []
    ensures SelectFrom(layer, i, p, os) != []
    decreases j - i
  {
    if i < j {
      SelectAt(layer, i + 1, j, p, os);
    }
  }

  /** A valid selection keeps something, in every record that it enters. */
  lemma SelectSome<D>(layer: seq<Tree<D>>, p: Offset, os: seq<Offset>)
    requires ValidBelow(layer, p, os) && Below(os, p)
    ensures SelectFrom(layer, 0, p, os) != []
  {
    var k :| 0 <= k < |os| && p < os[k];
    var o := os[k];
    var j := o[|p|];
    assert ValidIn(layer, o[|p|..]) && o[|p|..][0] == j;
    assert p + [j] <= o;
    assert Passed(os, p + [j]);
    if !Named(os, p + [j]) {
      ValidChild(layer, p, j, os);
    }
    SelectAt(layer, 0, j, p, os);
  }

  lemma BelowChild(os: seq<Offset>, o: Offset)
    requires Passed(os, o) && !Named(os, o)
    ensures Below(os, o)
  {
    var k :| 0 <= k < |os| && o <= os[k];
    assert os[k] != o;
  }

  /** Whatever is selected from a record makes a record again. */
  lemma {:induction false} SelectConstructed<D>(layer: seq<Tree<D>>, i: nat, p: Offset, os: seq<Offset>)
    requires Constructed(layer) && ValidBelow(layer, p, os) && Below(os, p)
    ensures forall t :: t in SelectFrom(layer, i, p, os) ==> ConstructedField(t)
    ensures i == 0 ==> Constructed(SelectFrom(layer, i, p, os))
    decreases layer, |layer| - i
  {
    if i < |layer| {
      SelectConstructed(layer, i + 1, p, os);
      var o := p + [i];
      assert ConstructedField(layer[i]);
      if !Named(os, o) && Passed(os, o) && layer[i].Branch? {
        ValidChild(layer, p, i, os);
        BelowChild(os, o);
        SelectConstructed(layer[i].children, 0, o, os);
      }
    }
    SelectSome(layer, p, os);
  }

  // -- dropping -------------------------------------------------------------------------------

  ghost predicate Drops<D(!new)>(ts: seq<Transformation<D>>) {
    forall k, t :: 0 <= k < |ts| ==> ts[k].fun(t) == []
  }

  lemma {:induction false} DropFieldColumns<D(!new)>(t: Tree<D>, o: Offset, ts: seq<Transformation<D>>)
    requires Drops(ts)
    requires forall k :: 0 <= k < |ts| && Indices(ts)[k] <= o ==> Indices(ts)[k] == o
    ensures LeafColumns(RewriteField(t, o, ts)) == KeptLeaves(LeavesOf(t, o), Indices(ts), false)
    decreases t
  {
    var views, os := LeavesOf(t, o), Indices(ts);
    if Named(os, o) {
      forall v | v in views
        ensures Kept(os, v.index)
      {
        LeavesOfExtend(t, o, v);
      }
      KeptAll(views, os, true);
    } else if Passed(os, o) && t.Branch? {
      DroppedLeaves(t.children, 0, o, ts);
      var inside := RewriteFrom(t.children, 0, o, ts);
      if inside != [] {
        ColumnsOne(Branch(t.name, t.meta, inside), []);
      }
    } else {
      forall v | v in views
        ensures !Kept(os, v.index)
      {
        LeavesOfExtend(t, o, v);
        NotKept(t, o, os, v);
      }
      KeptAll(views, os, false);
      ColumnsOne(t, o);
    }
  }

  /** Dropping at the offsets leaves exactly the columns that selecting them would not keep. */
  lemma {:induction false} DroppedLeaves<D(!new)>(layer: seq<Tree<D>>, i: nat, p: Offset, ts: seq<Transformation<D>>)
    requires Drops(ts) && forall k :: 0 <= k < |ts| ==> !(Indices(ts)[k] <= p)
    ensures LeafColumns(RewriteFrom(layer, i, p, ts)) == KeptLeaves(LeavesFrom(layer, i, p), Indices(ts), false)
    decreases layer, |layer| - i
  {
    if i < |layer| {
      var os := Indices(ts);
      NoAncestor(os, p, i);
      DropFieldColumns(layer[i], p + [i], ts);
      DroppedLeaves(layer, i + 1, p, ts);
      ColumnsConcat(RewriteField(layer[i], p + [i], ts), RewriteFrom(layer, i + 1, p, ts));
      KeptConcat(LeavesOf(layer[i], p + [i]), LeavesFrom(layer, i + 1, p), os, false);
    }
  }
}
