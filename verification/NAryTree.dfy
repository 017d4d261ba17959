/**
 `NAryTree` and its traversals. Trees are values here; a `Node*` is the path of child indices that
 leads to the node, which stays good because children are only ever appended.
 */
module NAryTrees {
  import opened Sequences
  import opened Wrappers

  datatype Tree<!T> = Node(data: T, children: seq<Tree<T>>, combine: Option<seq<T> -> T>)

  type Path = seq<nat>

  predicate OnTree<T>(t: Tree<T>, p: Path)
    decreases |p|
  {
    p == [] || (p[0] < |t.children| && OnTree(t.children[p[0]], p[1..]))
  }

  function At<T>(t: Tree<T>, p: Path): Tree<T>
    requires OnTree(t, p)
    decreases |p|
  {
    if p == [] then t else At(t.children[p[0]], p[1..])
  }

  /** The tree with the subtree at `p` replaced by `s`. */
  function Graft<T>(t: Tree<T>, p: Path, s: Tree<T>): Tree<T>
    requires OnTree(t, p)
    decreases |p|
  {
    if p == [] then s
    else t.(children := t.children[p[0] := Graft(t.children[p[0]], p[1..], s)])
  }

  function Leaf<T>(v: T): Tree<T>
  {
    Node(v, [], None)
  }

  function WithChild<T>(t: Tree<T>, v: T): Tree<T>
  {
    t.(children := t.children + [Leaf(v)])
  }

  function AddChild<T>(t: Tree<T>, p: Path, v: T): Tree<T>
    requires OnTree(t, p)
  {
    Graft(t, p, WithChild(At(t, p), v))
  }

  // ---------- Paths are good for ever ----------

  /** The place of a node that is appended to the children at `p`. */
  function NewPath<T>(t: Tree<T>, p: Path): Path
    requires OnTree(t, p)
  {
    p + [|At(t, p).children|]
  }

  lemma PathOfLeaf<T>(t: Tree<T>, v: T, q: Path)
    ensures OnTree(WithChild(t, v), q) <==> OnTree(t, q) || q == [|t.children|]
    ensures OnTree(t, q) ==>
              && At(WithChild(t, v), q).data == At(t, q).data
              && At(WithChild(t, v), q).combine == At(t, q).combine
  {
    var t' := WithChild(t, v);
    if q != [] && q[0] < |t'.children| {
      var child := t'.children[q[0]];
      assert q[0] < |t.children| ==> child == t.children[q[0]];
      assert q[0] == |t.children| ==> child == Leaf(v) && (OnTree(child, q[1..]) <==> q[1..] == []);
      assert q == [q[0]] + q[1..];
    }
  }

  lemma AddChildUnfolds<T>(t: Tree<T>, p: Path, v: T)
    requires OnTree(t, p) && p != []
    ensures AddChild(t, p, v) == t.(children := t.children[p[0] := AddChild(t.children[p[0]], p[1..], v)])
    ensures NewPath(t, p) == [p[0]] + NewPath(t.children[p[0]], p[1..])
  {
    assert p == [p[0]] + p[1..];
    SeqAssoc([p[0]], p[1..], [|At(t, p).children|]);
  }

  /**
   A `Node*` handed out earlier stays good: `addChild` adds exactly one place, and every place there was
   keeps its value and its function.
   */
  lemma {:induction false} AddChildKeepsPaths<T>(t: Tree<T>, p: Path, v: T, q: Path)
    requires OnTree(t, p)
    ensures OnTree(AddChild(t, p, v), q) <==> OnTree(t, q) || q == NewPath(t, p)
    ensures OnTree(t, q) ==>
              && At(AddChild(t, p, v), q).data == At(t, q).data
              && At(AddChild(t, p, v), q).combine == At(t, q).combine
    decreases |p|
  {
    if p == [] {
      assert [] + [|t.children|] == [|t.children|];
      PathOfLeaf(t, v, q);
    } else {
      AddChildUnfolds(t, p, v);
      if q != [] && q[0] == p[0] {
        AddChildKeepsPaths(t.children[p[0]], p[1..], v, q[1..]);
        assert q == [q[0]] + q[1..];
      }
    }
  }

  /** The place returned for the new node is where the new value is. */
  lemma {:induction false} NewPathLeadsToLeaf<T>(t: Tree<T>, p: Path, v: T)
    requires OnTree(t, p)
    ensures !OnTree(t, NewPath(t, p)) && OnTree(AddChild(t, p, v), NewPath(t, p))
    ensures At(AddChild(t, p, v), NewPath(t, p)) == Leaf(v)
    decreases |p|
  {
    if p == [] {
      assert [] + [|t.children|] == [|t.children|];
    } else {
      AddChildUnfolds(t, p, v);
      NewPathLeadsToLeaf(t.children[p[0]], p[1..], v);
    }
  }

  /** Any calls of `addChild`, of which those with a null parent are refused. */
  function AddAll<T>(t: Tree<T>, calls: seq<(Path, T)>): Tree<T>
    decreases |calls|
  {
    if calls == [] then t
    else AddAll(if OnTree(t, calls[0].0) then AddChild(t, calls[0].0, calls[0].1) else t, calls[1..])
  }

  lemma {:induction false} PathsStayGood<T>(t: Tree<T>, calls: seq<(Path, T)>, q: Path)
    requires OnTree(t, q)
    ensures OnTree(AddAll(t, calls), q) && At(AddAll(t, calls), q).data == At(t, q).data
    decreases |calls|
  {
    if calls != [] {
      if OnTree(t, calls[0].0) {
        AddChildKeepsPaths(t, calls[0].0, calls[0].1, q);
        PathsStayGood(AddChild(t, calls[0].0, calls[0].1), calls[1..], q);
      } else {
        PathsStayGood(t, calls[1..], q);
      }
    }
  }

  // ---------- Traversals ----------

  function Preorder<T>(t: Tree<T>): seq<T>
    decreases t, 1
  {
    [t.data] + PreorderAll(t.children)
  }

  function PreorderAll<T>(ts: seq<Tree<T>>): seq<T>
    decreases ts, 0
  {
    if ts == [] then [] else Preorder(ts[0]) + PreorderAll(ts[1..])
  }

  function Postorder<T>(t: Tree<T>): seq<T>
    decreases t, 1
  {
    PostorderAll(t.children) + [t.data]
  }

  function PostorderAll<T>(ts: seq<Tree<T>>): seq<T>
    decreases ts, 0
  {
    if ts == [] then [] else Postorder(ts[0]) + PostorderAll(ts[1..])
  }

  lemma {:induction false} PreorderAllAppend<T>(a: seq<Tree<T>>, b: seq<Tree<T>>)
    ensures PreorderAll(a + b) == PreorderAll(a) + PreorderAll(b)
  {
    if a == [] {
      assert a + b == b;
    } else {
      PreorderAllAppend(a[1..], b);
      assert (a + b)[0] == a[0] && (a + b)[1..] == a[1..] + b;
      SeqAssoc(Preorder(a[0]), PreorderAll(a[1..]), PreorderAll(b));
    }
  }

  lemma {:induction false} PostorderAllAppend<T>(a: seq<Tree<T>>, b: seq<Tree<T>>)
    ensures PostorderAll(a + b) == PostorderAll(a) + PostorderAll(b)
  {
    if a == [] {
      assert a + b == b;
    } else {
      PostorderAllAppend(a[1..], b);
      assert (a + b)[0] == a[0] && (a + b)[1..] == a[1..] + b;
      SeqAssoc(Postorder(a[0]), PostorderAll(a[1..]), PostorderAll(b));
    }
  }

  lemma PreorderAllSingle<T>(t: Tree<T>)
    ensures PreorderAll([t]) == Preorder(t)
  {
    assert [t][1..] == [];
    assert Preorder(t) + [] == Preorder(t);
  }

  lemma PostorderAllSingle<T>(t: Tree<T>)
    ensures PostorderAll([t]) == Postorder(t)
  {
    assert [t][1..] == [];
    assert Postorder(t) + [] == Postorder(t);
  }

  /** The traversal of a list of siblings, cut around one of them. */
  lemma PreorderAround<T>(ts: seq<Tree<T>>, k: nat, s: Tree<T>)
    requires k < |ts|
    ensures PreorderAll(ts[k := s]) == PreorderAll(ts[..k]) + Preorder(s) + PreorderAll(ts[k + 1..])
  {
    assert ts[k := s] == ts[..k] + [s] + ts[k + 1..];
    PreorderAllAppend(ts[..k] + [s], ts[k + 1..]);
    PreorderAllAppend(ts[..k], [s]);
    PreorderAllSingle(s);
  }

  lemma PostorderAround<T>(ts: seq<Tree<T>>, k: nat, s: Tree<T>)
    requires k < |ts|
    ensures PostorderAll(ts[k := s]) == PostorderAll(ts[..k]) + Postorder(s) + PostorderAll(ts[k + 1..])
  {
    assert ts[k := s] == ts[..k] + [s] + ts[k + 1..];
    PostorderAllAppend(ts[..k] + [s], ts[k + 1..]);
    PostorderAllAppend(ts[..k], [s]);
    PostorderAllSingle(s);
  }

  // ---------- What surrounds a subtree ----------

  /** Values visited before the subtree at `p`, and after it. */
  function PreBefore<T>(t: Tree<T>, p: Path): seq<T>
    requires OnTree(t, p)
    decreases |p|
  {
    if p == [] then []
    else [t.data] + PreorderAll(t.children[..p[0]]) + PreBefore(t.children[p[0]], p[1..])
  }

  function PreAfter<T>(t: Tree<T>, p: Path): seq<T>
    requires OnTree(t, p)
    decreases |p|
  {
    if p == [] then []
    else PreAfter(t.children[p[0]], p[1..]) + PreorderAll(t.children[p[0] + 1..])
  }

  function PostBefore<T>(t: Tree<T>, p: Path): seq<T>
    requires OnTree(t, p)
    decreases |p|
  {
    if p == [] then []
    else PostorderAll(t.children[..p[0]]) + PostBefore(t.children[p[0]], p[1..])
  }

  function PostAfter<T>(t: Tree<T>, p: Path): seq<T>
    requires OnTree(t, p)
    decreases |p|
  {
    if p == [] then []
    else PostAfter(t.children[p[0]], p[1..]) + (PostorderAll(t.children[p[0] + 1..]) + [t.data])
  }

  lemma Wrap<T>(a: seq<T>, b: seq<T>, x: seq<T>, c: seq<T>, d: seq<T>)
    ensures a + ((b + x) + c) + d == (a + b) + x + (c + d)
  {
  }

  /** A subtree is a contiguous block of the preorder, and only that block changes when it does. */
  lemma {:induction false} PreorderGraft<T>(t: Tree<T>, p: Path, s: Tree<T>)
    requires OnTree(t, p)
    ensures Preorder(Graft(t, p, s)) == PreBefore(t, p) + Preorder(s) + PreAfter(t, p)
    decreases |p|
  {
    if p == [] {
      assert [] + Preorder(s) + [] == Preorder(s);
    } else {
      var k := p[0];
      var c := t.children[k];
      PreorderGraft(c, p[1..], s);
      PreorderAround(t.children, k, Graft(c, p[1..], s));
      var l, r := [t.data] + PreorderAll(t.children[..k]), PreorderAll(t.children[k + 1..]);
      assert Preorder(Graft(t, p, s)) == l + Preorder(Graft(c, p[1..], s)) + r;
      Wrap(l, PreBefore(c, p[1..]), Preorder(s), PreAfter(c, p[1..]), r);
    }
  }

  lemma {:induction false} PostorderGraft<T>(t: Tree<T>, p: Path, s: Tree<T>)
    requires OnTree(t, p)
    ensures Postorder(Graft(t, p, s)) == PostBefore(t, p) + Postorder(s) + PostAfter(t, p)
    decreases |p|
  {
    if p == [] {
      assert [] + Postorder(s) + [] == Postorder(s);
    } else {
      var k := p[0];
      var c := t.children[k];
      PostorderGraft(c, p[1..], s);
      PostorderAround(t.children, k, Graft(c, p[1..], s));
      var l, r := PostorderAll(t.children[..k]), PostorderAll(t.children[k + 1..]) + [t.data];
      assert Postorder(Graft(t, p, s)) == l + Postorder(Graft(c, p[1..], s)) + r;
      Wrap(l, PostBefore(c, p[1..]), Postorder(s), PostAfter(c, p[1..]), r);
    }
  }

  lemma {:induction false} GraftSelf<T>(t: Tree<T>, p: Path)
    requires OnTree(t, p)
    ensures Graft(t, p, At(t, p)) == t
    decreases |p|
  {
    if p != [] {
      GraftSelf(t.children[p[0]], p[1..]);
    }
  }

  /** In preorder the new value comes right behind the last descendant of its parent. */
  lemma AddChildPreorder<T>(t: Tree<T>, p: Path, v: T)
    requires OnTree(t, p)
    ensures Preorder(t) == PreBefore(t, p) + Preorder(At(t, p)) + PreAfter(t, p)
    ensures Preorder(AddChild(t, p, v)) == PreBefore(t, p) + Preorder(At(t, p)) + [v] + PreAfter(t, p)
  {
    GraftSelf(t, p);
    PreorderGraft(t, p, At(t, p));
    PreorderGraft(t, p, WithChild(At(t, p), v));
    PreorderAllAppend(At(t, p).children, [Leaf(v)]);
    PreorderAllSingle(Leaf(v));
    assert Preorder(Leaf(v)) == [v] + PreorderAll<T>([]) == [v];
    var block, kids := [At(t, p).data], PreorderAll(At(t, p).children);
    SeqAssoc(block, kids, [v]);
    SeqAssoc(PreBefore(t, p), Preorder(At(t, p)), [v]);
  }

  /** In postorder the new value comes right in front of its parent. */
  lemma AddChildPostorder<T>(t: Tree<T>, p: Path, v: T)
    requires OnTree(t, p)
    ensures var q := At(t, p);
            && Postorder(t) == PostBefore(t, p) + (PostorderAll(q.children) + [q.data]) + PostAfter(t, p)
            && Postorder(AddChild(t, p, v))
               == PostBefore(t, p) + (PostorderAll(q.children) + [v, q.data]) + PostAfter(t, p)
  {
    GraftSelf(t, p);
    PostorderGraft(t, p, At(t, p));
    PostorderGraft(t, p, WithChild(At(t, p), v));
    PostorderAllAppend(At(t, p).children, [Leaf(v)]);
    PostorderAllSingle(Leaf(v));
    assert Postorder(Leaf(v)) == PostorderAll<T>([]) + [v] == [v];
    SeqAssoc(PostorderAll(At(t, p).children), [v], [At(t, p).data]);
    assert [v] + [At(t, p).data] == [v, At(t, p).data];
  }

  // ---------- Mirror ----------

  function Reverse<T>(s: seq<T>): seq<T>
  {
    if s == [] then [] else Reverse(s[1..]) + [s[0]]
  }

  lemma {:induction false} ReverseAppend<T>(a: seq<T>, b: seq<T>)
    ensures Reverse(a + b) == Reverse(b) + Reverse(a)
  {
    if a == [] {
      assert a + b == b;
      assert Reverse(b) + [] == Reverse(b);
    } else {
      ReverseAppend(a[1..], b);
      assert (a + b)[0] == a[0] && (a + b)[1..] == a[1..] + b;
      SeqAssoc(Reverse(b), Reverse(a[1..]), [a[0]]);
    }
  }

  function Mirror<T>(t: Tree<T>): Tree<T>
    decreases t, 1
  {
    t.(children := MirrorAll(t.children))
  }

  function MirrorAll<T>(ts: seq<Tree<T>>): seq<Tree<T>>
    decreases ts, 0
  {
    if ts == [] then [] else MirrorAll(ts[1..]) + [Mirror(ts[0])]
  }

  /** Postorder is the reverse of the preorder of the mirror image. */
  lemma {:induction false} PostorderIsMirroredPreorder<T>(t: Tree<T>)
    ensures Postorder(t) == Reverse(Preorder(Mirror(t)))
    decreases t, 1
  {
    PostorderAllIsMirrored(t.children);
    var kids := PreorderAll(MirrorAll(t.children));
    assert ([t.data] + kids)[1..] == kids;
  }

  lemma {:induction false} PostorderAllIsMirrored<T>(ts: seq<Tree<T>>)
    ensures PostorderAll(ts) == Reverse(PreorderAll(MirrorAll(ts)))
    decreases ts, 0
  {
    if ts != [] {
      PostorderIsMirroredPreorder(ts[0]);
      PostorderAllIsMirrored(ts[1..]);
      PreorderAllAppend(MirrorAll(ts[1..]), [Mirror(ts[0])]);
      PreorderAllSingle(Mirror(ts[0]));
      ReverseAppend(PreorderAll(MirrorAll(ts[1..])), Preorder(Mirror(ts[0])));
    }
  }

  // ---------- postorderCompute ----------

  function Compute<T>(t: Tree<T>): T
    decreases t, 1
  {
    if t.combine.Some? then t.combine.value(ComputeAll(t.children)) else t.data
  }

  function ComputeAll<T>(ts: seq<Tree<T>>): seq<T>
    decreases ts, 0
  {
    if ts == [] then [] else [Compute(ts[0])] + ComputeAll(ts[1..])
  }

  /** The tree with everything below nodes without a function cut off. */
  function Prune<T>(t: Tree<T>): Tree<T>
    decreases t, 1
  {
    t.(children := if t.combine.Some? then PruneAll(t.children) else [])
  }

  function PruneAll<T>(ts: seq<Tree<T>>): seq<Tree<T>>
    decreases ts, 0
  {
    if ts == [] then [] else [Prune(ts[0])] + PruneAll(ts[1..])
  }

  lemma {:induction false} ComputePruned<T>(t: Tree<T>)
    ensures Compute(Prune(t)) == Compute(t)
    decreases t, 1
  {
    if t.combine.Some? {
      ComputeAllPruned(t.children);
    }
  }

  lemma {:induction false} ComputeAllPruned<T>(ts: seq<Tree<T>>)
    ensures ComputeAll(PruneAll(ts)) == ComputeAll(ts)
    decreases ts, 0
  {
    if ts != [] {
      ComputePruned(ts[0]);
      ComputeAllPruned(ts[1..]);
      assert PruneAll(ts)[0] == Prune(ts[0]) && PruneAll(ts)[1..] == PruneAll(ts[1..]);
    }
  }

  /** Trees that differ only below nodes without a function compute the same result. */
  lemma ComputeIgnoresBelowPlainNodes<T>(s: Tree<T>, t: Tree<T>)
    requires Prune(s) == Prune(t)
    ensures Compute(s) == Compute(t)
  {
    ComputePruned(s);
    ComputePruned(t);
  }

  lemma {:induction false} ComputeAllAt<T>(ts: seq<Tree<T>>)
    ensures |ComputeAll(ts)| == |ts|
    ensures forall i :: 0 <= i < |ts| ==> ComputeAll(ts)[i] == Compute(ts[i])
  {
    if ts != [] {
      ComputeAllAt(ts[1..]);
      assert forall i :: 0 < i < |ts| ==> ts[i] == ts[1..][i - 1];
    }
  }

  /**
   A node without a function gives its own value. One whose function is `f` gives `f` of its children's
   values, in child order, when the children have no functions; its own value is not looked at.
   */
  lemma ComputeOneLevel<T>(t: Tree<T>, vs: seq<T>)
    requires |vs| == |t.children|
    requires forall i :: 0 <= i < |vs| ==> t.children[i].combine.None? && t.children[i].data == vs[i]
    ensures Compute(t) == if t.combine.Some? then t.combine.value(vs) else t.data
  {
    ComputeAllAt(t.children);
    assert ComputeAll(t.children) == vs;
  }

  lemma ComputeAllUpdate<T>(ts: seq<Tree<T>>, k: nat, s: Tree<T>)
    requires k < |ts| && Compute(s) == Compute(ts[k])
    ensures ComputeAll(ts[k := s]) == ComputeAll(ts)
  {
    ComputeAllAt(ts);
    ComputeAllAt(ts[k := s]);
  }

  /** A subtree may be replaced by any other with the same result, anywhere in the tree. */
  lemma {:induction false} SameResultSameWhole<T>(t: Tree<T>, p: Path, s: Tree<T>)
    requires OnTree(t, p) && Compute(s) == Compute(At(t, p))
    ensures Compute(Graft(t, p, s)) == Compute(t)
    decreases |p|
  {
    if p != [] {
      SameResultSameWhole(t.children[p[0]], p[1..], s);
      ComputeAllUpdate(t.children, p[0], Graft(t.children[p[0]], p[1..], s));
    }
  }

  /** Collapsing: a subtree may be replaced by a single node that holds its result. */
  lemma CollapseKeepsResult<T>(t: Tree<T>, p: Path)
    requires OnTree(t, p)
    ensures Compute(Graft(t, p, Leaf(Compute(At(t, p))))) == Compute(t)
  {
    SameResultSameWhole(t, p, Leaf(Compute(At(t, p))));
  }

  function Total(vs: seq<int>): int
  {
    if vs == [] then 0 else vs[0] + Total(vs[1..])
  }

  lemma {:induction false} TotalAppend(a: seq<int>, b: seq<int>)
    ensures Total(a + b) == Total(a) + Total(b)
  {
    if a == [] {
      assert a + b == b;
    } else {
      TotalAppend(a[1..], b);
      assert (a + b)[0] == a[0] && (a + b)[1..] == a[1..] + b;
    }
  }

  /** Every node with a function sums, and every other one has no children. */
  ghost predicate Summing(t: Tree<int>)
    decreases t, 1
  {
    && (t.combine.Some? ==> forall vs :: t.combine.value(vs) == Total(vs))
    && (t.combine.None? ==> t.children == [])
    && AllSumming(t.children)
  }

  ghost predicate AllSumming(ts: seq<Tree<int>>)
    decreases ts, 0
  {
    ts == [] || (Summing(ts[0]) && AllSumming(ts[1..]))
  }

  /** The values of the nodes without a function, from left to right. */
  function PlainValues<T>(t: Tree<T>): seq<T>
    decreases t, 1
  {
    if t.combine.None? then [t.data] else PlainValuesAll(t.children)
  }

  function PlainValuesAll<T>(ts: seq<Tree<T>>): seq<T>
    decreases ts, 0
  {
    if ts == [] then [] else PlainValues(ts[0]) + PlainValuesAll(ts[1..])
  }

  /** In a tree whose inner nodes all sum, the result is the total of the leaves, whatever its shape. */
  lemma {:induction false} SumsAreTotals(t: Tree<int>)
    requires Summing(t)
    ensures Compute(t) == Total(PlainValues(t))
    decreases t, 1
  {
    if t.combine.Some? {
      SumsAreTotalsAll(t.children);
    } else {
      assert [t.data][1..] == [];
    }
  }

  lemma {:induction false} SumsAreTotalsAll(ts: seq<Tree<int>>)
    requires AllSumming(ts)
    ensures Total(ComputeAll(ts)) == Total(PlainValuesAll(ts))
    decreases ts, 0
  {
    if ts != [] {
      SumsAreTotals(ts[0]);
      SumsAreTotalsAll(ts[1..]);
      TotalAppend(PlainValues(ts[0]), PlainValuesAll(ts[1..]));
      TotalAppend([Compute(ts[0])], ComputeAll(ts[1..]));
    }
  }

  // ---------- The recursive procedures ----------

  method PreorderInto<T>(t: Tree<T>, result: seq<T>) returns (r: seq<T>)
    ensures r == result + Preorder(t)
    decreases t
  {
    r := result + [t.data];
    var i := 0;
    while i < |t.children|
      invariant 0 <= i <= |t.children|
      invariant r + PreorderAll(t.children[i..]) == result + Preorder(t)
    {
      ghost var before, rest := r, t.children[i..];
      assert rest[0] == t.children[i] && rest[1..] == t.children[i + 1..];
      r := PreorderInto(t.children[i], r);
      SeqAssoc(before, Preorder(rest[0]), PreorderAll(rest[1..]));
      i := i + 1;
    }
    assert t.children[i..] == [];
  }

  method PostorderInto<T>(t: Tree<T>, result: seq<T>) returns (r: seq<T>)
    ensures r == result + Postorder(t)
    decreases t
  {
    r := result;
    var i := 0;
    while i < |t.children|
      invariant 0 <= i <= |t.children|
      invariant r + PostorderAll(t.children[i..]) == result + PostorderAll(t.children)
    {
      ghost var before, rest := r, t.children[i..];
      assert rest[0] == t.children[i] && rest[1..] == t.children[i + 1..];
      r := PostorderInto(t.children[i], r);
      SeqAssoc(before, Postorder(rest[0]), PostorderAll(rest[1..]));
      i := i + 1;
    }
    assert t.children[i..] == [];
    r := r + [t.data];
    SeqAssoc(result, PostorderAll(t.children), [t.data]);
  }

  method PostorderCompute<T>(t: Tree<T>) returns (r: T)
    ensures r == Compute(t)
    decreases t
  {
    var childResults: seq<T> := [];
    if t.combine.Some? {
      var i := 0;
      while i < |t.children|
        invariant 0 <= i <= |t.children|
        invariant childResults + ComputeAll(t.children[i..]) == ComputeAll(t.children)
      {
        ghost var before, rest := childResults, t.children[i..];
        assert rest[0] == t.children[i] && rest[1..] == t.children[i + 1..];
        var c := PostorderCompute(t.children[i]);
        childResults := childResults + [c];
        SeqAssoc(before, [c], ComputeAll(rest[1..]));
        i := i + 1;
      }
      assert t.children[i..] == [] && childResults + [] == childResults;
      r := t.combine.value(childResults);
    } else {
      r := t.data;
    }
  }

  class NAryTree<T> {
    var root: Option<Tree<T>>

    constructor ()
      ensures root == None
    {
      root := None;
    }

    /** Creates the root once; a second call keeps the first root. */
    method SetRoot(value: T)
      modifies this
      ensures root == (if old(root).None? then Some(Leaf(value)) else old(root))
    {
      if root.None? {
        root := Some(Leaf(value));
      }
    }

    /** `addChild(parent, value)`; a null parent (no node there) is refused. */
    method AddChildAt(p: Path, value: T) returns (child: Option<Path>)
      modifies this
      ensures old(root).None? || !OnTree(old(root).value, p) ==> root == old(root) && child == None
      ensures old(root).Some? && OnTree(old(root).value, p) ==>
                && root == Some(AddChild(old(root).value, p, value))
                && child == Some(NewPath(old(root).value, p))
    {
      if root.None? || !OnTree(root.value, p) {
        return None;
      }
      child := Some(NewPath(root.value, p));
      root := Some(AddChild(root.value, p, value));
    }

    method PreorderValues() returns (r: seq<T>)
      ensures r == (if root.Some? then Preorder(root.value) else [])
    {
      r := [];
      if root.Some? {
        r := PreorderInto(root.value, r);
        assert [] + Preorder(root.value) == Preorder(root.value);
      }
    }

    method PostorderValues() returns (r: seq<T>)
      ensures r == (if root.Some? then Postorder(root.value) else [])
    {
      r := [];
      if root.Some? {
        r := PostorderInto(root.value, r);
        assert [] + Postorder(root.value) == Postorder(root.value);
      }
    }
  }
}
