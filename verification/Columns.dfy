// Transforming and selecting the columns of a record batch. The fields of a layer and its
// arrays are kept in two lists of equal length.
module Columns {
  import opened Options
  import opened Offsets
  import opened Schemas
  import opened Transforming
  import opened Words

  type Field = Tree<()>

  datatype Array<D> = Flat(data: D) | Struct(fields: seq<Array<D>>)

  /** The array has the shape that the field's type asks for. */
  predicate Conforms<D>(f: Field, a: Array<D>)
    decreases f
  {
    if f.Leaf? then a.Flat? else a.Struct? && ConformAll(f.children, a.fields)
  }

  predicate ConformAll<D>(fields: seq<Field>, arrays: seq<Array<D>>)
    decreases fields
  {
    |fields| == |arrays| && forall i :: 0 <= i < |fields| ==> Conforms(fields[i], arrays[i])
  }

  /** A field together with its array. */
  function Zip<D>(f: Field, a: Array<D>): Tree<D>
    requires Conforms(f, a)
    decreases f
  {
    if f.Leaf? then Leaf(f.name, f.kind, a.data) else Branch(f.name, f.meta, ZipAll(f.children, a.fields))
  }

  function ZipAll<D>(fields: seq<Field>, arrays: seq<Array<D>>): (ts: seq<Tree<D>>)
    requires ConformAll(fields, arrays)
    ensures |ts| == |fields|
    decreases fields
  {
    seq(|fields|, i requires 0 <= i < |fields| => Zip(fields[i], arrays[i]))
  }

  function FieldOf<D>(t: Tree<D>): Field {
    if t.Leaf? then Leaf(t.name, t.kind, ()) else Branch(t.name, t.meta, FieldsOf(t.children))
  }

  function FieldsOf<D>(ts: seq<Tree<D>>): seq<Field> {
    seq(|ts|, i requires 0 <= i < |ts| => FieldOf(ts[i]))
  }

  function ArrayOf<D>(t: Tree<D>): Array<D> {
    if t.Leaf? then Flat(t.data) else Struct(ArraysOf(t.children))
  }

  function ArraysOf<D>(ts: seq<Tree<D>>): seq<Array<D>> {
    seq(|ts|, i requires 0 <= i < |ts| => ArrayOf(ts[i]))
  }

  lemma {:induction false} ZipParts<D>(t: Tree<D>)
    ensures Conforms(FieldOf(t), ArrayOf(t)) && Zip(FieldOf(t), ArrayOf(t)) == t
  {
    if t.Branch? {
      ZipAllParts(t.children);
    }
  }

  lemma {:induction false} ZipAllParts<D>(ts: seq<Tree<D>>)
    ensures ConformAll(FieldsOf(ts), ArraysOf(ts)) && ZipAll(FieldsOf(ts), ArraysOf(ts)) == ts
  {
    forall i | 0 <= i < |ts|
      ensures Conforms(FieldOf(ts[i]), ArrayOf(ts[i])) && Zip(FieldOf(ts[i]), ArrayOf(ts[i])) == ts[i]
    {
      ZipParts(ts[i]);
    }
  }

  lemma ZipConcat<D>(fs: seq<Field>, xs: seq<Array<D>>, gs: seq<Field>, ys: seq<Array<D>>)
    requires ConformAll(fs, xs) && ConformAll(gs, ys)
    ensures ConformAll(fs + gs, xs + ys) && ZipAll(fs + gs, xs + ys) == ZipAll(fs, xs) + ZipAll(gs, ys)
  {
  }

  lemma ZipOne<D>(f: Field, a: Array<D>)
    requires Conforms(f, a)
    ensures ConformAll([f], [a]) && ZipAll([f], [a]) == [Zip(f, a)]
  {
  }

  lemma ZipAt<D>(fields: seq<Field>, arrays: seq<Array<D>>, i: nat)
    requires ConformAll(fields, arrays) && i < |fields|
    ensures ZipAll(fields, arrays)[i] == Zip(fields[i], arrays[i])
  {
  }

  /** One column appended to both lists. */
  lemma ZipPush<D>(fs: seq<Field>, xs: seq<Array<D>>, f: Field, a: Array<D>)
    requires ConformAll(fs, xs) && Conforms(f, a)
    ensures ConformAll(fs + [f], xs + [a]) && ZipAll(fs + [f], xs + [a]) == ZipAll(fs, xs) + [Zip(f, a)]
  {
    ZipOne(f, a);
    ZipConcat(fs, xs, [f], [a]);
  }

  method TransformColumnLayer<D>(fields: seq<Field>, arrays: seq<Array<D>>, p: Offset, ts: seq<Transformation<D>>, start: nat)
    returns (newFields: seq<Field>, newArrays: seq<Array<D>>, current: nat)
    requires ConformAll(fields, arrays)
    requires SortedOffsets(Indices(ts)) && AdjacentPrefixFree(Indices(ts))
    requires ValidBelow(ZipAll(fields, arrays), p, Indices(ts)) && At(Indices(ts), p + [0], start)
    ensures ConformAll(newFields, newArrays)
    ensures ZipAll(newFields, newArrays) == RewriteFrom(ZipAll(fields, arrays), 0, p, ts)
    ensures At(Indices(ts), p + [|fields|], current)
    decreases fields
  {
    hide At, ValidBelow, RewriteField, Passed, Named, SortedOffsets, AdjacentPrefixFree, ZipAll;
    ghost var os, layer := Indices(ts), ZipAll(fields, arrays);
    newFields, newArrays, current := [], [], start;
    Bounded(os, p + [0], start);
    ZipAllParts<D>([]);
    var i := 0;
    while i < |fields|
      invariant 0 <= i <= |fields| == |layer| && 0 <= current <= |ts| && At(os, p + [i], current)
      invariant ConformAll(newFields, newArrays)
      invariant ZipAll(newFields, newArrays) + RewriteFrom(layer, i, p, ts) == RewriteFrom(layer, 0, p, ts)
    {
      var o, field, column := p + [i], fields[i], arrays[i];
      ZipAt(fields, arrays, i);
      CursorSees(os, o, current);
      ghost var before := ZipAll(newFields, newArrays);
      if current < |ts| && ts[current].index == o {
        RewriteNamed(layer[i], o, ts, current);
        PassSibling(os, p, i, current);
        var columns := ts[current].fun(Zip(field, column));
        ZipAllParts(columns);
        ZipConcat(newFields, newArrays, FieldsOf(columns), ArraysOf(columns));
        newFields, newArrays := newFields + FieldsOf(columns), newArrays + ArraysOf(columns);
        current := current + 1;
      } else if current < |ts| && o <= ts[current].index {
        ValidChild(layer, p, i, os);
        EnterChild(os, o, current);
        var nestedFields, nestedArrays;
        nestedFields, nestedArrays, current := TransformColumnLayer(field.children, column.fields, o, ts, current);
        assert |field.children| == |layer[i].children|;
        LeaveChild(os, p, i, |field.children|, current);
        RewriteNested(layer[i], o, ts);
        if nestedFields != [] {
          ZipPush(newFields, newArrays, Branch(field.name, field.meta, nestedFields), Struct(nestedArrays));
          newFields := newFields + [Branch(field.name, field.meta, nestedFields)];
          newArrays := newArrays + [Struct(nestedArrays)];
        }
      } else {
        SkipSibling(os, p, i, current);
        RewriteUntouched(layer[i], o, ts);
        ZipPush(newFields, newArrays, field, column);
        newFields, newArrays := newFields + [field], newArrays + [column];
      }
      assert ZipAll(newFields, newArrays) == before + RewriteField(layer[i], o, ts);
      AppendAssociative(before, RewriteField(layer[i], o, ts), RewriteFrom(layer, i + 1, p, ts));
      Bounded(os, p + [i + 1], current);
      i := i + 1;
    }
  }

  /** Transforming a batch: what the lookup at every column yields, with every transformation
      used up; nothing when no column is left. */
  method TransformColumns<D(!new)>(fields: seq<Field>, arrays: seq<Array<D>>, ts: seq<Transformation<D>>)
    returns (batch: Option<(seq<Field>, seq<Array<D>>)>, used: nat)
    requires ConformAll(fields, arrays) && Admissible(Indices(ts))
    requires forall k :: 0 <= k < |ts| ==> ValidIn(ZipAll(fields, arrays), ts[k].index)
    ensures used == |ts|
    ensures ts == [] ==> batch == Some((fields, arrays))
    ensures batch.None? ==> RewriteFrom(ZipAll(fields, arrays), 0, [], ts) == []
    ensures batch.Some? ==> ConformAll(batch.value.0, batch.value.1)
    ensures batch.Some? ==> ZipAll(batch.value.0, batch.value.1) == RewriteFrom(ZipAll(fields, arrays), 0, [], ts)
    ensures batch.Some? && ts != [] ==> batch.value.0 != []
    ensures batch.Some? && Constructed(ZipAll(fields, arrays)) && Yields(ts) ==>
              Constructed(ZipAll(batch.value.0, batch.value.1))
  {
    ghost var layer := ZipAll(fields, arrays);
    if ts == [] {
      Untouched(layer, 0, [], ts);
      assert layer[0..] == layer;
      return Some((fields, arrays)), 0;
    }
    SortedThroughout(Indices(ts));
    ValidAtTop(layer, Indices(ts));
    assert [] + [0] == [0] && [] + [|layer|] == [|layer|];
    var newFields, newArrays;
    newFields, newArrays, used := TransformColumnLayer(fields, arrays, [], ts, 0);
    if Constructed(layer) && Yields(ts) {
      RewriteConstructed(layer, 0, [], ts);
    }
    batch := if newFields == [] then None else Some((newFields, newArrays));
  }

  method SelectLayer<D>(fields: seq<Field>, arrays: seq<Array<D>>, p: Offset, os: seq<Offset>, start: nat)
    returns (newFields: seq<Field>, newArrays: seq<Array<D>>, current: nat)
    requires ConformAll(fields, arrays) && SortedOffsets(os) && AdjacentPrefixFree(os)
    requires ValidBelow(ZipAll(fields, arrays), p, os) && At(os, p + [0], start)
    ensures ConformAll(newFields, newArrays)
    ensures ZipAll(newFields, newArrays) == SelectFrom(ZipAll(fields, arrays), 0, p, os)
    ensures Below(os, p) ==> newFields != []
    ensures At(os, p + [|fields|], current)
    decreases fields
  {
    hide At, ValidBelow, SelectField, Passed, Named, SortedOffsets, AdjacentPrefixFree, ZipAll, Below;
    ghost var layer := ZipAll(fields, arrays);
    newFields, newArrays, current := [], [], start;
    Bounded(os, p + [0], start);
    ZipAllParts<D>([]);
    var i := 0;
    while i < |fields|
      invariant 0 <= i <= |fields| == |layer| && 0 <= current <= |os| && At(os, p + [i], current)
      invariant ConformAll(newFields, newArrays)
      invariant ZipAll(newFields, newArrays) + SelectFrom(layer, i, p, os) == SelectFrom(layer, 0, p, os)
    {
      var o, field, column := p + [i], fields[i], arrays[i];
      ZipAt(fields, arrays, i);
      CursorSees(os, o, current);
      SelectWhole(layer[i], o, os);
      ghost var before := ZipAll(newFields, newArrays);
      if current < |os| && os[current] == o {
        PassSibling(os, p, i, current);
        ZipPush(newFields, newArrays, field, column);
        newFields, newArrays := newFields + [field], newArrays + [column];
        current := current + 1;
      } else if current < |os| && o <= os[current] {
        ValidChild(layer, p, i, os);
        EnterChild(os, o, current);
        BelowChild(os, o);
        var nestedFields, nestedArrays;
        nestedFields, nestedArrays, current := SelectLayer(field.children, column.fields, o, os, current);
        assert |field.children| == |layer[i].children|;
        LeaveChild(os, p, i, |field.children|, current);
        assert nestedFields != [];
        SelectNested(layer[i], o, os);
        ZipPush(newFields, newArrays, Branch(field.name, field.meta, nestedFields), Struct(nestedArrays));
        newFields := newFields + [Branch(field.name, field.meta, nestedFields)];
        newArrays := newArrays + [Struct(nestedArrays)];
      } else {
        SkipSibling(os, p, i, current);
      }
      assert ZipAll(newFields, newArrays) == before + SelectField(layer[i], o, os);
      AppendAssociative(before, SelectField(layer[i], o, os), SelectFrom(layer, i + 1, p, os));
      Bounded(os, p + [i + 1], current);
      i := i + 1;
    }
    if Below(os, p) {
      SelectSome(layer, p, os);
    }
  }

  /** Selecting columns of a batch: the columns at or below a selected offset, in their order,
      still nested in the same records, with every offset used up. */
  method SelectColumns<D>(fields: seq<Field>, arrays: seq<Array<D>>, os: seq<Offset>)
    returns (batch: Option<(seq<Field>, seq<Array<D>>)>, used: nat)
    requires ConformAll(fields, arrays) && Admissible(os)
    requires forall k :: 0 <= k < |os| ==> ValidIn(ZipAll(fields, arrays), os[k])
    ensures used == |os| && (batch.None? <==> os == [])
    ensures batch.Some? ==> ConformAll(batch.value.0, batch.value.1)
    ensures batch.Some? ==> ZipAll(batch.value.0, batch.value.1) == SelectFrom(ZipAll(fields, arrays), 0, [], os)
    ensures batch.Some? ==>
              LeafColumns(ZipAll(batch.value.0, batch.value.1)) == KeptLeaves(Leaves(ZipAll(fields, arrays)), os, true)
    ensures batch.Some? && Constructed(ZipAll(fields, arrays)) ==> Constructed(ZipAll(batch.value.0, batch.value.1))
  {
    if os == [] {
      return None, 0;
    }
    ghost var layer := ZipAll(fields, arrays);
    SortedThroughout(os);
    ValidAtTop(layer, os);
    assert [] + [0] == [0] && [] + [|layer|] == [|layer|];
    var newFields, newArrays;
    newFields, newArrays, used := SelectLayer(fields, arrays, [], os, 0);
    assert [] < os[0];
    assert Below(os, []);
    if Constructed(layer) {
      SelectConstructed(layer, 0, [], os);
    }
    SelectedLeaves(layer, 0, [], os);
    batch := if newFields == [] then None else Some((newFields, newArrays));
  }
}
