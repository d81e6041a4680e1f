// Dotted keys: the key of an offset, and the search for the offset of a key. A name may itself
// hold dots, so a key can belong to several offsets.
module Keys {
  import opened Options
  import opened Offsets
  import opened Schemas
  import opened Walks

  /** The names along an offset, joined with dots. */
  function KeyOf<D>(layer: seq<Tree<D>>, o: Offset): string
    requires ValidIn(layer, o)
    decreases |o|
  {
    var t := layer[o[0]];
    if |o| == 1 then t.name else t.name + "." + KeyOf(t.children, o[1..])
  }

  method Key<D>(layer: seq<Tree<D>>, o: Offset) returns (result: string)
    requires ValidIn(layer, o)
    ensures result == KeyOf(layer, o)
  {
    result := "";
    var record := layer;
    var i := 0;
    while i < |o| - 1
      invariant 0 <= i < |o| && ValidIn(record, o[i..])
      invariant result + KeyOf(record, o[i..]) == KeyOf(layer, o)
    {
      var field := record[o[i]];
      assert o[i..][1..] == o[i + 1..];
      assert result + (field.name + "." + KeyOf(field.children, o[i + 1..]))
          == (result + field.name + ".") + KeyOf(field.children, o[i + 1..]);
      result := result + field.name + ".";
      record := field.children;
      i := i + 1;
    }
    result := result + record[o[i]].name;
  }

  // -- all fields, in depth-first order -------------------------------------------------------

  datatype Node = Node(index: Offset, key: string, name: string)

  ghost function NodesOf<D>(t: Tree<D>, o: Offset, prefix: string): seq<Node>
    decreases t
  {
    [Node(o, prefix + t.name, t.name)]
    + if t.Leaf? then [] else NodesFrom(t.children, 0, o, prefix + t.name + ".")
  }

  ghost function NodesFrom<D>(layer: seq<Tree<D>>, i: nat, p: Offset, prefix: string): seq<Node>
    decreases layer, |layer| - i
  {
    if i >= |layer| then [] else NodesOf(layer[i], p + [i], prefix) + NodesFrom(layer, i + 1, p, prefix)
  }

  /** The search passes over fields without a name. */
  ghost predicate Found(n: Node, key: string) {
    n.key == key && n.name != ""
  }

  ghost function First(nodes: seq<Node>, key: string): Option<Offset> {
    if nodes == [] then None
    else if Found(nodes[0], key) then Some(nodes[0].index)
    else First(nodes[1..], key)
  }

  lemma {:induction false} FirstConcat(a: seq<Node>, b: seq<Node>, key: string)
    ensures First(a + b, key) == if First(a, key).Some? then First(a, key) else First(b, key)
  {
    if a == [] {
      assert a + b == b;
    } else {
      assert (a + b)[0] == a[0] && (a + b)[1..] == a[1..] + b;
      FirstConcat(a[1..], b, key);
    }
  }

  lemma {:induction false} FirstNone(nodes: seq<Node>, key: string)
    requires forall n :: n in nodes ==> !Found(n, key)
    ensures First(nodes, key) == None
  {
    if nodes != [] {
      assert nodes[0] in nodes;
      FirstNone(nodes[1..], key);
    }
  }

  /** Below a field, every key goes on from the field's key with a dot. */
  lemma {:induction false} NodesOfKeys<D>(t: Tree<D>, o: Offset, prefix: string, n: Node)
    requires n in NodesOf(t, o, prefix)
    ensures n == Node(o, prefix + t.name, t.name)
            || (t.Branch? && n in NodesFrom(t.children, 0, o, prefix + t.name + ".") && prefix + t.name + "." <= n.key)
    decreases t
  {
    if t.Branch? && n in NodesFrom(t.children, 0, o, prefix + t.name + ".") {
      NodesFromKeys(t.children, 0, o, prefix + t.name + ".", n);
    }
  }

  lemma {:induction false} NodesFromKeys<D>(layer: seq<Tree<D>>, i: nat, p: Offset, prefix: string, n: Node)
    requires n in NodesFrom(layer, i, p, prefix)
    ensures prefix <= n.key && (n.key == prefix ==> n.name == "")
    decreases layer, |layer| - i
  {
    if n in NodesOf(layer[i], p + [i], prefix) {
      NodesOfKeys(layer[i], p + [i], prefix, n);
    } else {
      NodesFromKeys(layer, i + 1, p, prefix, n);
    }
  }

  // -- the search -----------------------------------------------------------------------------

  datatype Frame<D> = Frame(layer: seq<Tree<D>>, remaining: string)

  ghost function Ahead<D>(history: seq<Frame<D>>, prefixes: seq<string>, index: Offset): seq<Node>
    requires |history| == |prefixes| == |index|
    decreases |index|
  {
    if index == [] then []
    else
      var k := |index| - 1;
      NodesFrom(history[k].layer, index[k], index[..k], prefixes[k])
      + Ahead(history[..k], prefixes[..k], Advance(index[..k]))
  }

  ghost function Work<D>(history: seq<Frame<D>>, index: Offset): nat
    requires |history| == |index|
    decreases |index|
  {
    if index == [] then 0
    else
      var k := |index| - 1;
      EffortFrom(history[k].layer, index[k]) + Work(history[..k], Advance(index[..k]))
  }

  lemma TopFrame<D>(up: seq<Frame<D>>, f: Frame<D>, prefixes: seq<string>, prefix: string, p: Offset, i: nat)
    requires |up| == |p| == |prefixes|
    ensures Ahead(up + [f], prefixes + [prefix], p + [i])
         == NodesFrom(f.layer, i, p, prefix) + Ahead(up, prefixes, Advance(p))
    ensures Advance(p + [i]) == p + [i + 1]
  {
    hide NodesFrom;
    var history, index, ps := up + [f], p + [i], prefixes + [prefix];
    assert history[..|p|] == up && index[..|p|] == p && ps[..|p|] == prefixes;
    assert Ahead(history, ps, index)
        == NodesFrom(history[|p|].layer, index[|p|], index[..|p|], ps[|p|])
           + Ahead(history[..|p|], ps[..|p|], Advance(index[..|p|]));
  }

  lemma TopWork<D>(up: seq<Frame<D>>, f: Frame<D>, p: Offset, i: nat)
    requires |up| == |p|
    ensures Work(up + [f], p + [i]) == EffortFrom(f.layer, i) + Work(up, Advance(p))
  {
    hide EffortFrom;
    var history, index := up + [f], p + [i];
    assert history[..|p|] == up && index[..|p|] == p;
  }

  /** Nothing of the layer can match any more. */
  lemma Exhausted<D>(layer: seq<Tree<D>>, i: nat, p: Offset, prefix: string, remaining: string, rest: seq<Node>)
    requires i >= |layer| || remaining == ""
    ensures First(NodesFrom(layer, i, p, prefix) + rest, prefix + remaining) == First(rest, prefix + remaining)
  {
    var nodes := NodesFrom(layer, i, p, prefix);
    forall n | n in nodes
      ensures !Found(n, prefix + remaining)
    {
      NodesFromKeys(layer, i, p, prefix, n);
    }
    FirstNone(nodes, prefix + remaining);
    FirstConcat(nodes, rest, prefix + remaining);
  }

  /** The name and all of the remaining key agree: the search ends here. */
  lemma Hit<D>(layer: seq<Tree<D>>, i: nat, p: Offset, prefix: string, remaining: string, rest: seq<Node>)
    requires i < |layer| && remaining != "" && layer[i].name == remaining
    ensures First(NodesFrom(layer, i, p, prefix) + rest, prefix + remaining) == Some(p + [i])
  {
    var self := Node(p + [i], prefix + remaining, remaining);
    assert NodesOf(layer[i], p + [i], prefix)[0] == self;
    assert (NodesFrom(layer, i, p, prefix) + rest)[0] == self;
  }

  /** A field whose name does not lead on to the key hides no match. */
  lemma Miss<D>(layer: seq<Tree<D>>, i: nat, p: Offset, prefix: string, remaining: string, rest: seq<Node>)
    requires i < |layer| && layer[i].name != remaining
    requires layer[i].Leaf? || !(layer[i].name + "." <= remaining)
    ensures First(NodesFrom(layer, i, p, prefix) + rest, prefix + remaining)
         == First(NodesFrom(layer, i + 1, p, prefix) + rest, prefix + remaining)
  {
    var t, key := layer[i], prefix + remaining;
    var here := NodesOf(t, p + [i], prefix);
    forall n | n in here
      ensures !Found(n, key)
    {
      NodesOfKeys(t, p + [i], prefix, n);
      assert key[|prefix|..] == remaining;
      assert (prefix + t.name)[|prefix|..] == t.name;
      if prefix + t.name + "." <= key {
        assert t.name + "." <= key[|prefix|..];
      }
    }
    FirstNone(here, key);
    var later := NodesFrom(layer, i + 1, p, prefix);
    assert here + later + rest == here + (later + rest);
    FirstConcat(here, later + rest, key);
  }

  /** Stepping into a record skips the record itself only. */
  lemma Enter<D>(layer: seq<Tree<D>>, i: nat, p: Offset, prefix: string, remaining: string, rest: seq<Node>)
    requires i < |layer| && layer[i].Branch? && layer[i].name + "." <= remaining
    ensures First(NodesFrom(layer, i, p, prefix) + rest, prefix + remaining)
         == First(NodesFrom(layer[i].children, 0, p + [i], prefix + layer[i].name + ".")
                  + (NodesFrom(layer, i + 1, p, prefix) + rest), prefix + remaining)
  {
    var t := layer[i];
    var below, later := NodesFrom(t.children, 0, p + [i], prefix + t.name + "."), NodesFrom(layer, i + 1, p, prefix);
    var self := Node(p + [i], prefix + t.name, t.name);
    assert |self.key| < |prefix + remaining|;
    var nodes := [self] + below + later + rest;
    assert nodes[1..] == below + (later + rest);
    assert NodesFrom(layer, i, p, prefix) + rest == nodes;
  }

  // Each turn of the loop keeps the first match among the fields ahead, and gets nearer the end.

  lemma StepOut<D>(up: seq<Frame<D>>, f: Frame<D>, ps: seq<string>, prefix: string, p: Offset, i: nat, key: string)
    requires |up| == |p| == |ps| && prefix + f.remaining == key && (i >= |f.layer| || f.remaining == "")
    ensures First(Ahead(up + [f], ps + [prefix], p + [i]), key) == First(Ahead(up, ps, Advance(p)), key)
    ensures Work(up, Advance(p)) < Work(up + [f], p + [i])
  {
    hide Ahead, Work, NodesFrom, First, EffortFrom;
    TopFrame(up, f, ps, prefix, p, i);
    TopWork(up, f, p, i);
    Exhausted(f.layer, i, p, prefix, f.remaining, Ahead(up, ps, Advance(p)));
  }

  lemma StepOnto<D>(up: seq<Frame<D>>, f: Frame<D>, ps: seq<string>, prefix: string, p: Offset, i: nat, key: string)
    requires |up| == |p| == |ps| && prefix + f.remaining == key
    requires i < |f.layer| && f.remaining != "" && f.layer[i].name == f.remaining
    ensures First(Ahead(up + [f], ps + [prefix], p + [i]), key) == Some(p + [i])
  {
    hide Ahead, NodesFrom, First;
    TopFrame(up, f, ps, prefix, p, i);
    Hit(f.layer, i, p, prefix, f.remaining, Ahead(up, ps, Advance(p)));
  }

  lemma StepOver<D>(up: seq<Frame<D>>, f: Frame<D>, ps: seq<string>, prefix: string, p: Offset, i: nat, key: string)
    requires |up| == |p| == |ps| && prefix + f.remaining == key
    requires i < |f.layer| && f.layer[i].name != f.remaining
    requires f.layer[i].Leaf? || !(f.layer[i].name + "." <= f.remaining)
    ensures First(Ahead(up + [f], ps + [prefix], p + [i + 1]), key) == First(Ahead(up + [f], ps + [prefix], p + [i]), key)
    ensures Work(up + [f], p + [i + 1]) < Work(up + [f], p + [i])
    ensures Advance(p + [i]) == p + [i + 1]
  {
    hide Ahead, Work, NodesFrom, First;
    TopFrame(up, f, ps, prefix, p, i);
    TopFrame(up, f, ps, prefix, p, i + 1);
    TopWork(up, f, p, i);
    TopWork(up, f, p, i + 1);
    Miss(f.layer, i, p, prefix, f.remaining, Ahead(up, ps, Advance(p)));
  }

  lemma StepInto<D>(
    up: seq<Frame<D>>, f: Frame<D>, ps: seq<string>, prefix: string, p: Offset, i: nat, key: string, shorter: string)
    requires |up| == |p| == |ps| && prefix + f.remaining == key && i < |f.layer| && f.layer[i].Branch?
    requires f.remaining == f.layer[i].name + "." + shorter
    ensures var t := f.layer[i];
            && First(Ahead(up + [f] + [Frame(t.children, shorter)], ps + [prefix] + [prefix + t.name + "."],
                           p + [i] + [0]), key)
               == First(Ahead(up + [f], ps + [prefix], p + [i]), key)
            && Work(up + [f] + [Frame(t.children, shorter)], p + [i] + [0]) < Work(up + [f], p + [i])
            && prefix + t.name + "." + shorter == key
  {
    hide Ahead, Work, NodesFrom, First;
    var t := f.layer[i];
    TopFrame(up, f, ps, prefix, p, i);
    TopFrame(up, f, ps, prefix, p, i + 1);
    TopFrame(up + [f], Frame(t.children, shorter), ps + [prefix], prefix + t.name + ".", p + [i], 0);
    TopWork(up, f, p, i);
    TopWork(up, f, p, i + 1);
    TopWork(up + [f], Frame(t.children, shorter), p + [i], 0);
    assert prefix + t.name + "." + shorter == prefix + (t.name + "." + shorter);
    Enter(f.layer, i, p, prefix, f.remaining, Ahead(up, ps, Advance(p)));
  }

  method ResolveKey<D>(layer: seq<Tree<D>>, key: string) returns (r: Option<Offset>)
    ensures r == Resolve(layer, key)
  {
    hide Ahead, Work, NodesFrom, First;
    var index: Offset, history: seq<Frame<D>> := [0], [Frame(layer, key)];
    ghost var prefixes: seq<string> := [""];
    StartFrames(layer, key);
    while index != []
      invariant |history| == |prefixes| == |index|
      invariant forall k :: 0 <= k < |index| ==> prefixes[k] + history[k].remaining == key
      invariant First(Ahead(history, prefixes, index), key) == Resolve(layer, key)
      decreases Work(history, index)
    {
      var k := |index| - 1;
      ghost var up, p, ps := history[..k], index[..k], prefixes[..k];
      var frame, i := history[k], index[k];
      ghost var prefix := prefixes[k];
      assert up + [frame] == history && p + [i] == index && ps + [prefix] == prefixes;
      if i >= |frame.layer| || frame.remaining == "" {
        StepOut(up, frame, ps, prefix, p, i, key);
        history, index, prefixes := history[..k], Advance(index[..k]), ps;
        continue;
      }
      var field := frame.layer[i];
      if frame.remaining == field.name {
        StepOnto(up, frame, ps, prefix, p, i, key);
        return Some(index);
      } else if field.Branch? && field.name + "." <= frame.remaining {
        var shorter := frame.remaining[|field.name| + 1..];
        StepInto(up, frame, ps, prefix, p, i, key, shorter);
        history := history + [Frame(field.children, shorter)];
        prefixes := prefixes + [prefix + field.name + "."];
        index := index + [0];
      } else {
        StepOver(up, frame, ps, prefix, p, i, key);
        index := Advance(index);
      }
    }
    EndFrames(history, prefixes, key);
    return None;
  }

  lemma StartFrames<D>(layer: seq<Tree<D>>, key: string)
    ensures Ahead([Frame(layer, key)], [""], [0]) == NodesFrom(layer, 0, [], "")
    ensures "" + key == key
  {
    TopFrame([], Frame(layer, key), [], "", [], 0);
    assert [] + [Frame(layer, key)] == [Frame(layer, key)];
  }

  lemma EndFrames<D>(history: seq<Frame<D>>, prefixes: seq<string>, key: string)
    requires |history| == |prefixes| == 0
    ensures First(Ahead(history, prefixes, []), key) == None
  {
  }

  // -- what the search finds ------------------------------------------------------------------

  ghost predicate Matches<D>(layer: seq<Tree<D>>, o: Offset, key: string) {
    ValidIn(layer, o) && KeyOf(layer, o) == key && FieldAt(layer, o).name != ""
  }

  ghost function NodeAt<D>(layer: seq<Tree<D>>, p: Offset, o: Offset, prefix: string): Node
    requires ValidIn(layer, o)
  {
    Node(p + o, prefix + KeyOf(layer, o), FieldAt(layer, o).name)
  }

  lemma {:induction false} NodesValid<D>(layer: seq<Tree<D>>, i: nat, p: Offset, prefix: string, n: Node)
    returns (o: Offset)
    requires n in NodesFrom(layer, i, p, prefix)
    ensures ValidIn(layer, o) && o[0] >= i && n == NodeAt(layer, p, o, prefix)
    decreases layer, |layer| - i
  {
    var t := layer[i];
    if n in NodesOf(t, p + [i], prefix) {
      NodesOfKeys(t, p + [i], prefix, n);
      if n == Node(p + [i], prefix + t.name, t.name) {
        o := [i];
      } else {
        var o' := NodesValid(t.children, 0, p + [i], prefix + t.name + ".", n);
        o := [i] + o';
        assert o[1..] == o' && p + [i] + o' == p + o;
        assert prefix + t.name + "." + KeyOf(t.children, o') == prefix + (t.name + "." + KeyOf(t.children, o'));
      }
    } else {
      o := NodesValid(layer, i + 1, p, prefix, n);
    }
  }

  lemma {:induction false} ValidNodes<D>(layer: seq<Tree<D>>, i: nat, p: Offset, prefix: string, o: Offset)
    requires ValidIn(layer, o) && i <= o[0]
    ensures NodeAt(layer, p, o, prefix) in NodesFrom(layer, i, p, prefix)
    decreases layer, |layer| - i
  {
    var t := layer[i];
    if o[0] > i {
      ValidNodes(layer, i + 1, p, prefix, o);
    } else if |o| == 1 {
      assert o == [i];
      assert NodesOf(t, p + [i], prefix)[0] == NodeAt(layer, p, o, prefix);
    } else {
      ValidNodes(t.children, 0, p + [i], prefix + t.name + ".", o[1..]);
      assert p + [i] + o[1..] == p + o;
      assert prefix + t.name + "." + KeyOf(t.children, o[1..]) == prefix + (t.name + "." + KeyOf(t.children, o[1..]));
    }
  }

  ghost predicate Ascending(nodes: seq<Node>) {
    forall j, k :: 0 <= j < k < |nodes| ==> Less(nodes[j].index, nodes[k].index)
  }

  lemma {:induction false} NodesOfAscend<D>(t: Tree<D>, o: Offset, prefix: string)
    ensures Ascending(NodesOf(t, o, prefix))
    decreases t
  {
    if t.Branch? {
      var below := NodesFrom(t.children, 0, o, prefix + t.name + ".");
      NodesFromAscend(t.children, 0, o, prefix + t.name + ".");
      forall n | n in below
        ensures Less(o, n.index)
      {
        var x := NodesValid(t.children, 0, o, prefix + t.name + ".", n);
        PrefixNotAfter(o, o + x);
        LessTotal(o, o + x);
      }
    }
  }

  lemma {:induction false} NodesFromAscend<D>(layer: seq<Tree<D>>, i: nat, p: Offset, prefix: string)
    ensures Ascending(NodesFrom(layer, i, p, prefix))
    decreases layer, |layer| - i
  {
    if i < |layer| {
      NodesOfAscend(layer[i], p + [i], prefix);
      NodesFromAscend(layer, i + 1, p, prefix);
      var a, b := NodesOf(layer[i], p + [i], prefix), NodesFrom(layer, i + 1, p, prefix);
      forall x, y | x in a && y in b
        ensures Less(x.index, y.index)
      {
        NodesOfBelow(layer[i], p + [i], prefix, x);
        var o := NodesValid(layer, i + 1, p, prefix, y);
        Between(p, i, x.index);
        LaterChild(p, i + 1, y.index);
        if !Less(x.index, y.index) {
          LessTransitive(x.index, y.index, p + [i + 1]);
        }
      }
    }
  }

  lemma NodesOfBelow<D>(t: Tree<D>, o: Offset, prefix: string, n: Node)
    requires n in NodesOf(t, o, prefix)
    ensures o <= n.index
  {
    NodesOfKeys(t, o, prefix, n);
    if n != Node(o, prefix + t.name, t.name) {
      var x := NodesValid(t.children, 0, o, prefix + t.name + ".", n);
    }
  }

  lemma {:induction false} FirstLeast(nodes: seq<Node>, key: string)
    requires Ascending(nodes)
    ensures First(nodes, key) == None ==> forall n :: n in nodes ==> !Found(n, key)
    ensures First(nodes, key).Some? ==> exists n :: n in nodes && Found(n, key) && n.index == First(nodes, key).value
    ensures First(nodes, key).Some? ==>
              forall n :: n in nodes && Found(n, key) ==> !Less(n.index, First(nodes, key).value)
  {
    if nodes != [] {
      FirstLeast(nodes[1..], key);
      forall n | n in nodes
        ensures n == nodes[0] || (n in nodes[1..] && Less(nodes[0].index, n.index))
      {
        var k :| 0 <= k < |nodes| && nodes[k] == n;
        if k > 0 {
          assert nodes[1..][k - 1] == n;
        }
      }
      forall n | n in nodes
        ensures !Less(n.index, nodes[0].index)
      {
        LessTotal(n.index, nodes[0].index);
      }
    }
  }

  /** What resolving a key yields. */
  ghost function Resolve<D>(layer: seq<Tree<D>>, key: string): Option<Offset> {
    First(NodesFrom(layer, 0, [], ""), key)
  }

  /** The search finds the first of all fields with that key and a name of their own. */
  lemma ResolveLeast<D>(layer: seq<Tree<D>>, key: string)
    ensures Resolve(layer, key) == None ==> forall o :: !Matches(layer, o, key)
    ensures Resolve(layer, key).Some? ==> Matches(layer, Resolve(layer, key).value, key)
    ensures Resolve(layer, key).Some? ==>
              forall o :: Matches(layer, o, key) ==> !Less(o, Resolve(layer, key).value)
  {
    var nodes := NodesFrom(layer, 0, [], "");
    NodesFromAscend(layer, 0, [], "");
    FirstLeast(nodes, key);
    forall o | Matches(layer, o, key)
      ensures exists n :: n in nodes && Found(n, key) && n.index == o
    {
      ValidNodes(layer, 0, [], "", o);
      assert NodeAt(layer, [], o, "") == Node(o, key, FieldAt(layer, o).name);
    }
    forall n | n in nodes && Found(n, key)
      ensures Matches(layer, n.index, key)
    {
      var o := NodesValid(layer, 0, [], "", n);
      assert NodeAt(layer, [], o, "") == Node(o, KeyOf(layer, o), FieldAt(layer, o).name);
    }
  }

  /** In a record as it can be constructed, every key that belongs to a field is found, at the
      first field in depth-first order that it belongs to. */
  lemma RoundTrip<D>(layer: seq<Tree<D>>, o: Offset)
    requires Constructed(layer) && ValidIn(layer, o)
    ensures var r := Resolve(layer, KeyOf(layer, o));
            && r.Some? && ValidIn(layer, r.value) && KeyOf(layer, r.value) == KeyOf(layer, o)
            && forall x :: ValidIn(layer, x) && KeyOf(layer, x) == KeyOf(layer, o) ==> !Less(x, r.value)
  {
    var key := KeyOf(layer, o);
    ResolveLeast(layer, key);
    forall x | ValidIn(layer, x) && KeyOf(layer, x) == key
      ensures Matches(layer, x, key)
    {
      FieldsNamed(layer, x);
    }
    assert Matches(layer, o, key);
  }

  /** And a key that belongs to no field is not found. */
  lemma NotFound<D>(layer: seq<Tree<D>>, key: string)
    requires Constructed(layer)
    ensures Resolve(layer, key) == None <==> forall o :: ValidIn(layer, o) ==> KeyOf(layer, o) != key
  {
    ResolveLeast(layer, key);
    forall o | ValidIn(layer, o) && KeyOf(layer, o) == key
      ensures Matches(layer, o, key)
    {
      FieldsNamed(layer, o);
    }
    hide Resolve;
    if Resolve(layer, key).Some? {
      var r := Resolve(layer, key).value;
      assert Matches(layer, r, key);
      assert ValidIn(layer, r) && KeyOf(layer, r) == key;
    }
  }

  // -- plain names ----------------------------------------------------------------------------

  /** Names hold no dot, and the fields of a record have different names. */
  ghost predicate WellNamed<D>(layer: seq<Tree<D>>) {
    && (forall i :: 0 <= i < |layer| ==> '.' !in layer[i].name)
    && (forall i :: 0 <= i < |layer| && layer[i].Branch? ==> WellNamed(layer[i].children))
    && (forall i, j :: 0 <= i < j < |layer| ==> layer[i].name != layer[j].name)
  }

  lemma {:induction false} KeyInjective<D>(layer: seq<Tree<D>>, a: Offset, b: Offset)
    requires WellNamed(layer) && ValidIn(layer, a) && ValidIn(layer, b)
    requires KeyOf(layer, a) == KeyOf(layer, b)
    ensures a == b
    decreases |a|
  {
    var x, y, key := layer[a[0]].name, layer[b[0]].name, KeyOf(layer, a);
    assert key[..|x|] == x && (|a| > 1 ==> key[|x|] == '.');
    assert key[..|y|] == y && (|b| > 1 ==> key[|y|] == '.');
    assert |x| == |y|;
    if |a| > 1 {
      var inner := layer[a[0]].children;
      assert KeyOf(inner, a[1..]) == key[|x| + 1..] == KeyOf(inner, b[1..]);
      KeyInjective(inner, a[1..], b[1..]);
    }
    assert a == [a[0]] + a[1..] && b == [b[0]] + b[1..];
  }

  /** With plain names, every field is what its key resolves to. */
  lemma PlainRoundTrip<D>(layer: seq<Tree<D>>, o: Offset)
    requires Constructed(layer) && WellNamed(layer) && ValidIn(layer, o)
    ensures Resolve(layer, KeyOf(layer, o)) == Some(o)
  {
    RoundTrip(layer, o);
    KeyInjective(layer, Resolve(layer, KeyOf(layer, o)).value, o);
  }

  // -- flattening -----------------------------------------------------------------------------

  /** One record of all leaves, each named by its key. */
  function Flattened<D>(layer: seq<Tree<D>>): (flat: seq<Tree<D>>)
    ensures |flat| == |Leaves(layer)|
    ensures forall n :: 0 <= n < |flat| ==> flat[n].Leaf?
  {
    LeavesExact(layer);
    var views := Leaves(layer);
    seq(|views|, n requires 0 <= n < |views| => FlatField(layer, views[n]))
  }

  function FlatField<D>(layer: seq<Tree<D>>, v: LeafView<D>): Tree<D>
    requires ValidIn(layer, v.index) && v.leaf.Leaf?
  {
    Leaf(KeyOf(layer, v.index), v.leaf.kind, v.leaf.data)
  }

  /** The flattened field of a leaf: its type and data under the dotted name. */
  ghost predicate FlattenedFrom<D>(layer: seq<Tree<D>>, o: Offset, field: Tree<D>) {
    && ValidIn(layer, o) && FieldAt(layer, o).Leaf? && field.Leaf?
    && field.name == KeyOf(layer, o)
    && field.kind == FieldAt(layer, o).kind && field.data == FieldAt(layer, o).data
  }

  lemma FlattenedFields<D>(layer: seq<Tree<D>>)
    ensures forall n :: 0 <= n < |Leaves(layer)| ==>
              FlattenedFrom(layer, Leaves(layer)[n].index, Flattened(layer)[n])
  {
    LeavesExact(layer);
    forall n | 0 <= n < |Leaves(layer)|
      ensures FlattenedFrom(layer, Leaves(layer)[n].index, Flattened(layer)[n])
    {
      assert Leaves(layer)[n] in Leaves(layer);
    }
  }

  method Flatten<D>(layer: seq<Tree<D>>) returns (fields: seq<Tree<D>>)
    ensures fields == Flattened(layer)
    ensures forall n :: 0 <= n < |fields| ==> FlattenedFrom(layer, Leaves(layer)[n].index, fields[n])
  {
    LeavesExact(layer);
    var views := AllLeaves(layer);
    fields := [];
    for n := 0 to |views|
      invariant fields == Flattened(layer)[..n]
    {
      assert views[n] in Leaves(layer);
      var key := Key(layer, views[n].index);
      fields := fields + [Leaf(key, views[n].leaf.kind, views[n].leaf.data)];
    }
    FlattenedFields(layer);
  }

  lemma {:induction false} KeyNamed<D>(layer: seq<Tree<D>>, o: Offset)
    requires Constructed(layer) && ValidIn(layer, o)
    ensures KeyOf(layer, o) != ""
  {
    assert ConstructedField(layer[o[0]]);
  }

  /** A flattened record can be constructed. */
  lemma FlattenedConstructed<D>(layer: seq<Tree<D>>)
    requires Constructed(layer)
    ensures Constructed(Flattened(layer))
  {
    LeavesExact(layer);
    SomeLeaf(layer, []);
    forall n | 0 <= n < |Flattened(layer)|
      ensures ConstructedField(Flattened(layer)[n])
    {
      assert Leaves(layer)[n] in Leaves(layer);
      KeyNamed(layer, Leaves(layer)[n].index);
    }
  }

  /** In a flattened record with plain names, a key resolves to the flat index of its leaf. */
  lemma FlattenedKeys<D>(layer: seq<Tree<D>>, n: nat)
    requires Constructed(layer) && WellNamed(layer)
    requires n < |Leaves(layer)| && ValidIn(layer, Leaves(layer)[n].index)
    ensures Resolve(Flattened(layer), KeyOf(layer, Leaves(layer)[n].index)) == Some([n])
  {
    LeavesExact(layer);
    var flat, views: seq<LeafView<D>> := Flattened(layer), Leaves(layer);
    var o: Offset := [n];
    assert ValidIn(flat, o) && KeyOf(flat, o) == KeyOf(layer, views[n].index);
    FlattenedConstructed(layer);
    RoundTrip(flat, o);
    hide Resolve, Leaves, Flattened;
    var x := Resolve(flat, KeyOf(flat, o)).value;
    assert |x| == 1 && views[x[0]] in views && views[n] in views;
    KeyInjective(layer, views[x[0]].index, views[n].index);
    LessTotal(views[n].index, views[n].index);
    assert x == [n];
  }
}
