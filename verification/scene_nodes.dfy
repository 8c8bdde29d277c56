/**
 * The node hierarchy of a glTF scene: the depth-first traversal list built
 * from the scene roots, the propagation of global transforms along it, the
 * skin-transform query and the local setters.
 *
 * Matrices are a type parameter `M` with the product and the
 * scale-rotation-translation composition passed in as `Ops`; the float
 * matrix arithmetic itself is not modelled.  Acyclicity of the node graph
 * is the `rank` witness: every child has a smaller rank than its parent.
 */
module SceneNodes {
  import opened Wrappers
  import Aabb

  type Vec3 = Aabb.Vec3
  datatype Quat = Quat(x: real, y: real, z: real, w: real)

  /** The matrix operations a transform needs. */
  datatype Ops<!M> = Ops(mul: (M, M) -> M, fromSrt: (Vec3, Quat, Vec3) -> M)

  /** Everything a node holds apart from its global matrix. */
  datatype NodeData = NodeData(
    name: Option<nat>,
    localPosition: Vec3,
    localScale: Vec3,
    localRotation: Quat,
    mesh: Option<nat>,
    skin: Option<nat>,
    light: Option<nat>,
    children: seq<nat>)

  datatype Node<M> = Node(data: NodeData, global: M)

  /** One traversal entry: a node and the node it was reached from. */
  datatype Entry = Entry(index: nat, parent: Option<nat>)

  /** Every child index is a node, and ranks strictly decrease from parent to child. */
  predicate Ranked<M>(nodes: seq<Node<M>>, rank: seq<nat>)
  {
    |rank| == |nodes|
    && forall i, k :: 0 <= i < |nodes| && 0 <= k < |nodes[i].data.children| ==>
         nodes[i].data.children[k] < |nodes| && rank[nodes[i].data.children[k]] < rank[i]
  }

  /** Some entry before position `k` is node `x`. */
  predicate ListedBefore(t: seq<Entry>, k: int, x: nat)
  {
    exists j :: 0 <= j < k && j < |t| && t[j].index == x
  }

  /** Some entry after position `k` is `e`. */
  predicate ListedAfter(t: seq<Entry>, k: int, e: Entry)
  {
    exists j :: k < j < |t| && 0 <= j && t[j] == e
  }

  /** Entries whose parent is `Some` have that parent before them, except for `outside`. */
  predicate PreOrder(t: seq<Entry>, outside: Option<nat>)
  {
    forall k :: 0 <= k < |t| && t[k].parent.Some? && t[k].parent != outside ==>
      ListedBefore(t, k, t[k].parent.value)
  }

  /** Entry `e` names a node, and its parent really lists that node as a child. */
  predicate LinkedEntry<M>(nodes: seq<Node<M>>, e: Entry)
  {
    e.index < |nodes| && (e.parent.Some? ==> e.parent.value < |nodes| && e.index in nodes[e.parent.value].data.children)
  }

  predicate Linked<M>(nodes: seq<Node<M>>, t: seq<Entry>)
  {
    forall k :: 0 <= k < |t| ==> LinkedEntry(nodes, t[k])
  }

  /** The children of node `x`, empty for an index that is not a node. */
  function Children<M>(nodes: seq<Node<M>>, x: nat): seq<nat>
  {
    if x < |nodes| then nodes[x].data.children else []
  }

  /** Every child of every listed node is listed later, reached from that node. */
  predicate Closed<M>(nodes: seq<Node<M>>, t: seq<Entry>)
  {
    forall k, m :: 0 <= k < |t| && 0 <= m < |Children(nodes, t[k].index)| ==>
      ListedAfter(t, k, Entry(Children(nodes, t[k].index)[m], Some(t[k].index)))
  }

  lemma ListedShift(a: seq<Entry>, b: seq<Entry>)
    ensures forall k, x :: ListedBefore(a, k, x) ==> ListedBefore(a + b, k, x)
    ensures forall k, x :: ListedBefore(b, k, x) ==> ListedBefore(a + b, k + |a|, x)
    ensures forall k, e :: ListedAfter(a, k, e) ==> ListedAfter(a + b, k, e)
    ensures forall k, e :: ListedAfter(b, k, e) ==> ListedAfter(a + b, k + |a|, e)
  {
    forall k, x | ListedBefore(a, k, x) ensures ListedBefore(a + b, k, x) {
      var j :| 0 <= j < k && j < |a| && a[j].index == x;
      assert (a + b)[j] == a[j];
    }
    forall k, x | ListedBefore(b, k, x) ensures ListedBefore(a + b, k + |a|, x) {
      var j :| 0 <= j < k && j < |b| && b[j].index == x;
      assert (a + b)[j + |a|] == b[j];
    }
    forall k, e | ListedAfter(a, k, e) ensures ListedAfter(a + b, k, e) {
      var j :| k < j < |a| && 0 <= j && a[j] == e;
      assert (a + b)[j] == a[j];
    }
    forall k, e | ListedAfter(b, k, e) ensures ListedAfter(a + b, k + |a|, e) {
      var j :| k < j < |b| && 0 <= j && b[j] == e;
      assert (a + b)[j + |a|] == b[j];
    }
  }

  /** The three shape properties survive concatenation. */
  lemma ShapeAppend<M>(nodes: seq<Node<M>>, a: seq<Entry>, b: seq<Entry>, outside: Option<nat>)
    requires PreOrder(a, outside) && PreOrder(b, outside)
    requires Linked(nodes, a) && Linked(nodes, b) && Closed(nodes, a) && Closed(nodes, b)
    ensures PreOrder(a + b, outside) && Linked(nodes, a + b) && Closed(nodes, a + b)
  {
    var t := a + b;
    ListedShift(a, b);
    forall k | 0 <= k < |t|
      ensures t[k] == if k < |a| then a[k] else b[k - |a|]
    {
    }
  }

  /** A node followed by the traversals of its children keeps the shape properties. */
  lemma ShapeCons<M>(nodes: seq<Node<M>>, i: nat, parent: Option<nat>, rest: seq<Entry>)
    requires LinkedEntry(nodes, Entry(i, parent))
    requires PreOrder(rest, Some(i)) && Linked(nodes, rest) && Closed(nodes, rest)
    requires forall m :: 0 <= m < |Children(nodes, i)| ==> ListedAfter(rest, -1, Entry(Children(nodes, i)[m], Some(i)))
    ensures PreOrder([Entry(i, parent)] + rest, parent)
    ensures Linked(nodes, [Entry(i, parent)] + rest) && Closed(nodes, [Entry(i, parent)] + rest)
  {
    var head := [Entry(i, parent)];
    var r := head + rest;
    ListedShift(head, rest);
    assert head[0].index == i;
    assert ListedBefore(head, 1, i);
    forall k | 0 <= k < |r|
      ensures r[k] == if k == 0 then Entry(i, parent) else rest[k - 1]
    {
    }
  }

  /**
   * `build_graph_run_indices_rec`: the node itself with its parent, then
   * the traversal of each child in child-list order.
   */
  function Visit<M>(nodes: seq<Node<M>>, rank: seq<nat>, i: nat, parent: Option<nat>): (r: seq<Entry>)
    requires Ranked(nodes, rank) && i < |nodes|
    ensures |r| >= 1 && r[0] == Entry(i, parent)
    ensures forall k :: 1 <= k < |r| ==> r[k].parent.Some?
    decreases rank[i], 1, 0
  {
    [Entry(i, parent)] + VisitList(nodes, rank, nodes[i].data.children, i)
  }

  /** The traversals of the children `cs` of node `p`, one after another. */
  function VisitList<M>(nodes: seq<Node<M>>, rank: seq<nat>, cs: seq<nat>, p: nat): (r: seq<Entry>)
    requires Ranked(nodes, rank) && p < |nodes|
    requires forall c :: c in cs ==> c in nodes[p].data.children
    ensures forall k :: 0 <= k < |r| ==> r[k].parent.Some?
    ensures |cs| > 0 ==> |r| > 0 && r[0] == Entry(cs[0], Some(p))
    decreases rank[p], 0, |cs|
  {
    if |cs| == 0 then []
    else
      assert cs[0] in nodes[p].data.children;
      Visit(nodes, rank, cs[0], Some(p)) + VisitList(nodes, rank, cs[1..], p)
  }

  /**
   * The traversal below a node is pre-ordered, every entry is a real
   * parent-child link, and every child of a listed node is listed after it.
   */
  lemma {:induction false} VisitShape<M>(nodes: seq<Node<M>>, rank: seq<nat>, i: nat, parent: Option<nat>)
    requires Ranked(nodes, rank) && i < |nodes|
    requires LinkedEntry(nodes, Entry(i, parent))
    ensures var r := Visit(nodes, rank, i, parent);
            PreOrder(r, parent) && Linked(nodes, r) && Closed(nodes, r)
    decreases rank[i], 1, 0
  {
    var cs := nodes[i].data.children;
    VisitListShape(nodes, rank, cs, i);
    ShapeCons(nodes, i, parent, VisitList(nodes, rank, cs, i));
  }

  lemma {:induction false} VisitListShape<M>(nodes: seq<Node<M>>, rank: seq<nat>, cs: seq<nat>, p: nat)
    requires Ranked(nodes, rank) && p < |nodes|
    requires forall c :: c in cs ==> c in nodes[p].data.children
    ensures var r := VisitList(nodes, rank, cs, p);
            && PreOrder(r, Some(p)) && Linked(nodes, r) && Closed(nodes, r)
            && forall m :: 0 <= m < |cs| ==> ListedAfter(r, -1, Entry(cs[m], Some(p)))
    decreases rank[p], 0, |cs|
  {
    if |cs| > 0 {
      assert cs[0] in nodes[p].data.children;
      var head := Visit(nodes, rank, cs[0], Some(p));
      var tail := VisitList(nodes, rank, cs[1..], p);
      VisitShape(nodes, rank, cs[0], Some(p));
      VisitListShape(nodes, rank, cs[1..], p);
      ShapeAppend(nodes, head, tail, Some(p));
      ListedShift(head, tail);
      var r := head + tail;
      assert r == VisitList(nodes, rank, cs, p);
      forall m | 0 <= m < |cs| ensures ListedAfter(r, -1, Entry(cs[m], Some(p))) {
        if m == 0 {
          assert r[0] == Entry(cs[0], Some(p));
        } else {
          assert cs[m] == cs[1..][m - 1];
          assert ListedAfter(tail, -1, Entry(cs[m], Some(p)));
          assert ListedAfter(r, -1 + |head|, Entry(cs[m], Some(p)));
        }
      }
    }
  }

  /** Every scene root is a node. */
  predicate RootsValid<M>(nodes: seq<Node<M>>, roots: seq<nat>)
  {
    forall k :: 0 <= k < |roots| ==> roots[k] < |nodes|
  }

  /** `build_graph_run_indices`: the traversal of each root, with no parent, in root order. */
  function Traversal<M>(nodes: seq<Node<M>>, rank: seq<nat>, roots: seq<nat>): (r: seq<Entry>)
    requires Ranked(nodes, rank) && RootsValid(nodes, roots)
  {
    if |roots| == 0 then []
    else Visit(nodes, rank, roots[0], None) + Traversal(nodes, rank, roots[1..])
  }

  /**
   * The whole traversal is pre-ordered (every parent entry comes before
   * its children), made of real parent-child links, lists every child of
   * every listed node after it, and lists every root with no parent.
   */
  lemma {:induction false} TraversalShape<M>(nodes: seq<Node<M>>, rank: seq<nat>, roots: seq<nat>)
    requires Ranked(nodes, rank) && RootsValid(nodes, roots)
    ensures var r := Traversal(nodes, rank, roots);
            && PreOrder(r, None) && Linked(nodes, r) && Closed(nodes, r)
            && forall m :: 0 <= m < |roots| ==> ListedAfter(r, -1, Entry(roots[m], None))
  {
    if |roots| > 0 {
      var head := Visit(nodes, rank, roots[0], None);
      var tail := Traversal(nodes, rank, roots[1..]);
      VisitShape(nodes, rank, roots[0], None);
      TraversalShape(nodes, rank, roots[1..]);
      ShapeAppend(nodes, head, tail, None);
      ListedShift(head, tail);
      var r := head + tail;
      forall m | 0 <= m < |roots| ensures ListedAfter(r, -1, Entry(roots[m], None)) {
        if m == 0 {
          assert r[0] == Entry(roots[0], None);
        } else {
          assert roots[m] == roots[1..][m - 1];
          assert ListedAfter(tail, -1, Entry(roots[m], None));
          assert ListedAfter(r, -1 + |head|, Entry(roots[m], None));
        }
      }
    }
  }

  /** The nodes of the entries that have no parent, in order. */
  function RootEntries(t: seq<Entry>): seq<nat>
  {
    if |t| == 0 then []
    else (if t[0].parent.None? then [t[0].index] else []) + RootEntries(t[1..])
  }

  lemma {:induction false} RootEntriesAppend(a: seq<Entry>, b: seq<Entry>)
    ensures RootEntries(a + b) == RootEntries(a) + RootEntries(b)
  {
    if |a| == 0 {
      assert a + b == b;
    } else {
      assert (a + b)[1..] == a[1..] + b;
      RootEntriesAppend(a[1..], b);
    }
  }

  lemma {:induction false} RootEntriesAllSome(t: seq<Entry>)
    requires forall k :: 0 <= k < |t| ==> t[k].parent.Some?
    ensures RootEntries(t) == []
  {
    if |t| > 0 {
      RootEntriesAllSome(t[1..]);
    }
  }

  /** The parentless entries of the traversal are exactly the roots, in root order. */
  lemma {:induction false} RootsInOrder<M>(nodes: seq<Node<M>>, rank: seq<nat>, roots: seq<nat>)
    requires Ranked(nodes, rank) && RootsValid(nodes, roots)
    ensures RootEntries(Traversal(nodes, rank, roots)) == roots
  {
    if |roots| > 0 {
      var head := Visit(nodes, rank, roots[0], None);
      var tail := Traversal(nodes, rank, roots[1..]);
      RootEntriesAppend(head, tail);
      assert head == [head[0]] + head[1..];
      RootEntriesAppend([head[0]], head[1..]);
      RootEntriesAllSome(head[1..]);
      assert RootEntries([head[0]]) == [roots[0]];
      RootsInOrder(nodes, rank, roots[1..]);
      assert roots == [roots[0]] + roots[1..];
    }
  }

  /** Node `x` is not named by any entry. */
  predicate Absent(t: seq<Entry>, x: nat)
  {
    forall k :: 0 <= k < |t| ==> t[k].index != x
  }

  /** Every node appears at most once in the traversal. */
  predicate Distinct(t: seq<Entry>)
  {
    forall j, k :: 0 <= j < k < |t| ==> t[j].index != t[k].index
  }

  /** The local transform of a node: scale, then rotation, then translation. */
  function LocalTransform<M>(ops: Ops<M>, d: NodeData): M
  {
    ops.fromSrt(d.localScale, d.localRotation, d.localPosition)
  }

  /** Every entry and every parent is below `n`. */
  predicate EntriesBelow(t: seq<Entry>, n: nat)
  {
    forall k :: 0 <= k < |t| ==> t[k].index < n && (t[k].parent.Some? ==> t[k].parent.value < n)
  }

  /**
   * One iteration of `transform`: the parent's current global matrix, or
   * the supplied global transform for a root; with a matrix the node's
   * global becomes that matrix times its local transform.
   */
  function Step<M>(ops: Ops<M>, nodes: seq<Node<M>>, e: Entry, global: Option<M>): (r: seq<Node<M>>)
    requires e.index < |nodes| && (e.parent.Some? ==> e.parent.value < |nodes|)
    ensures |r| == |nodes|
    ensures forall x :: 0 <= x < |nodes| && x != e.index ==> r[x] == nodes[x]
    ensures r[e.index].data == nodes[e.index].data
  {
    var parentTransform := if e.parent.Some? then Some(nodes[e.parent.value].global) else global;
    match parentTransform
    case None => nodes
    case Some(m) => nodes[e.index := Node(nodes[e.index].data, ops.mul(m, LocalTransform(ops, nodes[e.index].data)))]
  }

  /** `Nodes::transform`: the steps applied in traversal order. */
  function Transform<M>(ops: Ops<M>, nodes: seq<Node<M>>, t: seq<Entry>, global: Option<M>): (r: seq<Node<M>>)
    requires EntriesBelow(t, |nodes|)
    ensures |r| == |nodes|
    ensures forall x :: 0 <= x < |nodes| ==> r[x].data == nodes[x].data
    ensures forall x :: 0 <= x < |nodes| && Absent(t, x) ==> r[x] == nodes[x]
    decreases |t|
  {
    if |t| == 0 then nodes
    else
      var next := Step(ops, nodes, t[0], global);
      Transform(ops, next, t[1..], global)
  }

  lemma {:induction false} TransformSplit<M>(ops: Ops<M>, nodes: seq<Node<M>>, t: seq<Entry>, global: Option<M>, k: nat)
    requires EntriesBelow(t, |nodes|) && k <= |t|
    ensures |Transform(ops, nodes, t[..k], global)| == |nodes|
    ensures Transform(ops, nodes, t, global) == Transform(ops, Transform(ops, nodes, t[..k], global), t[k..], global)
    decreases k
  {
    if k > 0 {
      var next := Step(ops, nodes, t[0], global);
      assert t[1..][..k - 1] == t[..k][1..];
      assert t[1..][k - 1..] == t[k..];
      TransformSplit(ops, next, t[1..], global, k - 1);
    } else {
      assert t[..0] == [] && t[0..] == t;
    }
  }

  /**
   * After `transform` over a pre-ordered traversal that lists each node at
   * most once, every child's global matrix is its parent's global matrix
   * times its local transform; a root becomes the supplied global matrix
   * times its local transform, and is left alone when none is supplied.
   */
  lemma TransformFollowsParents<M>(ops: Ops<M>, nodes: seq<Node<M>>, t: seq<Entry>, global: Option<M>, k: nat)
    requires EntriesBelow(t, |nodes|) && PreOrder(t, None) && Distinct(t) && k < |t|
    ensures var r := Transform(ops, nodes, t, global);
            var x := t[k].index;
            && (t[k].parent.Some? ==> r[x].global == ops.mul(r[t[k].parent.value].global, LocalTransform(ops, r[x].data)))
            && (t[k].parent.None? && global.Some? ==> r[x].global == ops.mul(global.value, LocalTransform(ops, r[x].data)))
            && (t[k].parent.None? && global.None? ==> r[x] == nodes[x])
  {
    var x := t[k].index;
    DistinctAbsent(t, k);
    TransformKeeps(ops, nodes, t, global, k + 1, x);
    TransformSnoc(ops, nodes, t, global, k);
    if t[k].parent.Some? {
      var q := t[k].parent.value;
      var j :| 0 <= j < k && j < |t| && t[j].index == q;
      EarlierAbsentLater(t, j, k);
      TransformKeeps(ops, nodes, t, global, k, q);
    }
  }

  /** A node listed once is absent from the entries before and after its own. */
  lemma DistinctAbsent(t: seq<Entry>, k: nat)
    requires Distinct(t) && k < |t|
    ensures Absent(t[..k], t[k].index) && Absent(t[k + 1..], t[k].index)
  {
    assert forall i :: k + 1 <= i < |t| ==> t[i] == t[k + 1..][i - k - 1];
  }

  /** A node listed once, at `j`, is absent from the entries from any later `k` on. */
  lemma EarlierAbsentLater(t: seq<Entry>, j: nat, k: nat)
    requires Distinct(t) && j < k <= |t|
    ensures Absent(t[k..], t[j].index)
  {
    assert forall i :: 0 <= i < |t[k..]| ==> t[k..][i] == t[i + k];
  }

  /** Running the first `k + 1` entries is running the first `k` and then step `k`. */
  lemma TransformSnoc<M>(ops: Ops<M>, nodes: seq<Node<M>>, t: seq<Entry>, global: Option<M>, k: nat)
    requires EntriesBelow(t, |nodes|) && k < |t|
    ensures Transform(ops, nodes, t[..k + 1], global) == Step(ops, Transform(ops, nodes, t[..k], global), t[k], global)
  {
    var u := t[..k + 1];
    TransformSplit(ops, nodes, u, global, k);
    assert u[..k] == t[..k];
    assert u[k..] == [t[k]] && [t[k]][1..] == [];
  }

  /** A node no entry from `k` on names keeps the value it had after the first `k` steps. */
  lemma TransformKeeps<M>(ops: Ops<M>, nodes: seq<Node<M>>, t: seq<Entry>, global: Option<M>, k: nat, y: nat)
    requires EntriesBelow(t, |nodes|) && k <= |t| && y < |nodes| && Absent(t[k..], y)
    ensures Transform(ops, nodes, t, global)[y] == Transform(ops, nodes, t[..k], global)[y]
  {
    TransformSplit(ops, nodes, t, global, k);
  }

  /** The nodes the entries name. */
  function Ids(t: seq<Entry>): (r: set<nat>)
    ensures forall k :: 0 <= k < |t| ==> t[k].index in r
    ensures forall y :: y in r ==> exists k :: 0 <= k < |t| && t[k].index == y
  {
    set k | 0 <= k < |t| :: t[k].index
  }

  lemma IdsAppend(a: seq<Entry>, b: seq<Entry>)
    ensures Ids(a + b) == Ids(a) + Ids(b)
  {
    forall y | y in Ids(a + b) ensures y in Ids(a) + Ids(b) {
      var k :| 0 <= k < |a + b| && (a + b)[k].index == y;
      if k >= |a| {
        assert b[k - |a|].index == y;
      }
    }
    forall y | y in Ids(a) ensures y in Ids(a + b) {
      var k :| 0 <= k < |a| && a[k].index == y;
      assert (a + b)[k] == a[k];
    }
    forall y | y in Ids(b) ensures y in Ids(a + b) {
      var k :| 0 <= k < |b| && b[k].index == y;
      assert (a + b)[k + |a|] == b[k];
    }
  }

  lemma IdsSingle(e: Entry)
    ensures Ids([e]) == {e.index}
  {
    assert [e][0] == e;
  }

  lemma DistinctAppend(a: seq<Entry>, b: seq<Entry>)
    requires Distinct(a) && Distinct(b) && forall y :: y in Ids(a) ==> y !in Ids(b)
    ensures Distinct(a + b)
  {
    var t := a + b;
    forall j, k | 0 <= j < k < |t| ensures t[j].index != t[k].index {
      if j < |a| && k >= |a| {
        assert t[j] == a[j] && t[k] == b[k - |a|];
        assert t[j].index in Ids(a) && t[k].index in Ids(b);
      } else if j >= |a| {
        assert t[j] == b[j - |a|] && t[k] == b[k - |a|];
      } else {
        assert t[j] == a[j] && t[k] == a[k];
      }
    }
  }

  /** The nodes reachable from `i`, itself included. */
  function Desc<M>(nodes: seq<Node<M>>, rank: seq<nat>, i: nat): set<nat>
    requires Ranked(nodes, rank) && i < |nodes|
  {
    Ids(Visit(nodes, rank, i, None))
  }

  lemma {:induction false} DescUnfold<M>(nodes: seq<Node<M>>, rank: seq<nat>, i: nat, parent: Option<nat>)
    requires Ranked(nodes, rank) && i < |nodes|
    ensures Ids(Visit(nodes, rank, i, parent)) == Desc(nodes, rank, i)
    ensures Desc(nodes, rank, i) == {i} + Ids(VisitList(nodes, rank, nodes[i].data.children, i))
  {
    var rest := VisitList(nodes, rank, nodes[i].data.children, i);
    IdsAppend([Entry(i, parent)], rest);
    IdsAppend([Entry(i, None)], rest);
    IdsSingle(Entry(i, parent));
    IdsSingle(Entry(i, None));
  }

  /** The nodes below a list of children are those reachable from one of them. */
  lemma {:induction false} IdsVisitList<M>(nodes: seq<Node<M>>, rank: seq<nat>, cs: seq<nat>, p: nat, y: nat)
    requires Ranked(nodes, rank) && p < |nodes|
    requires forall c :: c in cs ==> c in nodes[p].data.children
    ensures y in Ids(VisitList(nodes, rank, cs, p)) <==>
              exists m :: 0 <= m < |cs| && cs[m] < |nodes| && y in Desc(nodes, rank, cs[m])
    decreases |cs|
  {
    if |cs| > 0 {
      assert cs[0] in nodes[p].data.children;
      var head := Visit(nodes, rank, cs[0], Some(p));
      var tail := VisitList(nodes, rank, cs[1..], p);
      IdsAppend(head, tail);
      DescUnfold(nodes, rank, cs[0], Some(p));
      IdsVisitList(nodes, rank, cs[1..], p, y);
      if y in Ids(tail) {
        var m :| 0 <= m < |cs[1..]| && cs[1..][m] < |nodes| && y in Desc(nodes, rank, cs[1..][m]);
        assert cs[m + 1] == cs[1..][m];
      }
      if exists m :: 0 <= m < |cs| && cs[m] < |nodes| && y in Desc(nodes, rank, cs[m]) {
        var m :| 0 <= m < |cs| && cs[m] < |nodes| && y in Desc(nodes, rank, cs[m]);
        if m > 0 {
          assert cs[1..][m - 1] == cs[m];
        }
      }
    }
  }

  /** A node other than `b` reachable from `b` is reachable from one of `b`'s children. */
  lemma DescChildOf<M>(nodes: seq<Node<M>>, rank: seq<nat>, b: nat, y: nat) returns (m: nat)
    requires Ranked(nodes, rank) && b < |nodes| && y in Desc(nodes, rank, b) && y != b
    ensures m < |nodes[b].data.children| && y in Desc(nodes, rank, nodes[b].data.children[m])
  {
    DescUnfold(nodes, rank, b, None);
    IdsVisitList(nodes, rank, nodes[b].data.children, b, y);
    m :| 0 <= m < |nodes[b].data.children| && nodes[b].data.children[m] < |nodes|
         && y in Desc(nodes, rank, nodes[b].data.children[m]);
  }

  lemma ChildInDesc<M>(nodes: seq<Node<M>>, rank: seq<nat>, b: nat, m: nat)
    requires Ranked(nodes, rank) && b < |nodes| && m < |nodes[b].data.children|
    ensures nodes[b].data.children[m] in Desc(nodes, rank, b)
  {
    var c := nodes[b].data.children[m];
    DescUnfold(nodes, rank, b, None);
    DescUnfold(nodes, rank, c, None);
    IdsVisitList(nodes, rank, nodes[b].data.children, b, c);
  }

  lemma {:induction false} DescRank<M>(nodes: seq<Node<M>>, rank: seq<nat>, b: nat, y: nat)
    requires Ranked(nodes, rank) && b < |nodes| && y in Desc(nodes, rank, b)
    ensures y < |nodes| && rank[y] <= rank[b]
    decreases rank[b]
  {
    if y != b {
      var m := DescChildOf(nodes, rank, b, y);
      DescRank(nodes, rank, nodes[b].data.children[m], y);
    } else {
      DescUnfold(nodes, rank, b, None);
    }
  }

  lemma {:induction false} DescTrans<M>(nodes: seq<Node<M>>, rank: seq<nat>, b: nat, z: nat)
    requires Ranked(nodes, rank) && b < |nodes| && z in Desc(nodes, rank, b)
    ensures z < |nodes| && Desc(nodes, rank, z) <= Desc(nodes, rank, b)
    decreases rank[b]
  {
    DescRank(nodes, rank, b, z);
    if z != b {
      var m := DescChildOf(nodes, rank, b, z);
      var c := nodes[b].data.children[m];
      DescTrans(nodes, rank, c, z);
      forall y | y in Desc(nodes, rank, c) ensures y in Desc(nodes, rank, b) {
        DescUnfold(nodes, rank, b, None);
        IdsVisitList(nodes, rank, nodes[b].data.children, b, y);
      }
    }
  }

  /** A node other than `b` reachable from `b` is the child of a node reachable from `b`. */
  lemma {:induction false} DescParent<M>(nodes: seq<Node<M>>, rank: seq<nat>, b: nat, y: nat)
      returns (z: nat, k: nat)
    requires Ranked(nodes, rank) && b < |nodes| && y in Desc(nodes, rank, b) && y != b
    ensures z < |nodes| && z in Desc(nodes, rank, b) && k < |nodes[z].data.children| && nodes[z].data.children[k] == y
    decreases rank[b]
  {
    var m := DescChildOf(nodes, rank, b, y);
    var c := nodes[b].data.children[m];
    if y == c {
      z, k := b, m;
      DescUnfold(nodes, rank, b, None);
    } else {
      z, k := DescParent(nodes, rank, c, y);
      ChildInDesc(nodes, rank, b, m);
      DescTrans(nodes, rank, b, c);
    }
  }

  /**
   * The node graph is a forest under the roots: no node is a child in two
   * places, the roots are distinct, and no root is anyone's child.
   */
  predicate Forest<M>(nodes: seq<Node<M>>, roots: seq<nat>)
  {
    && (forall a, b, ka, kb ::
          (0 <= a < |nodes| && 0 <= b < |nodes| && 0 <= ka < |Children(nodes, a)| && 0 <= kb < |Children(nodes, b)|
           && Children(nodes, a)[ka] == Children(nodes, b)[kb]) ==> a == b && ka == kb)
    && (forall j, k :: 0 <= j < k < |roots| ==> roots[j] != roots[k])
    && (forall a, ka, r :: 0 <= a < |nodes| && 0 <= ka < |Children(nodes, a)| && 0 <= r < |roots| ==>
          Children(nodes, a)[ka] != roots[r])
  }

  /** In a forest, two nodes reaching a common node lie on one branch. */
  lemma {:induction false} Comparable<M>(nodes: seq<Node<M>>, rank: seq<nat>, roots: seq<nat>, a: nat, b: nat, y: nat)
    requires Ranked(nodes, rank) && Forest(nodes, roots) && a < |nodes| && b < |nodes|
    requires y in Desc(nodes, rank, a) && y in Desc(nodes, rank, b)
    ensures a in Desc(nodes, rank, b) || b in Desc(nodes, rank, a)
    decreases rank[a] + rank[b]
  {
    DescUnfold(nodes, rank, a, None);
    DescUnfold(nodes, rank, b, None);
    if y != a && y != b {
      var ma := DescChildOf(nodes, rank, a, y);
      var mb := DescChildOf(nodes, rank, b, y);
      var ca, cb := nodes[a].data.children[ma], nodes[b].data.children[mb];
      Comparable(nodes, rank, roots, ca, cb, y);
      assert Children(nodes, a)[ma] == ca && Children(nodes, b)[mb] == cb;
      if ca == cb {
        assert a == b;
      } else if ca in Desc(nodes, rank, cb) {
        var z, k := DescParent(nodes, rank, cb, ca);
        assert Children(nodes, z)[k] == ca;
        assert z == a;
        ChildInDesc(nodes, rank, b, mb);
        DescTrans(nodes, rank, b, cb);
      } else {
        var z, k := DescParent(nodes, rank, ca, cb);
        assert Children(nodes, z)[k] == cb;
        assert z == b;
        ChildInDesc(nodes, rank, a, ma);
        DescTrans(nodes, rank, a, ca);
      }
    }
  }

  /** Two different child slots of one node reach disjoint sets of nodes. */
  lemma SiblingsDisjoint<M>(nodes: seq<Node<M>>, rank: seq<nat>, roots: seq<nat>, p: nat, m1: nat, m2: nat, y: nat)
    requires Ranked(nodes, rank) && Forest(nodes, roots) && p < |nodes|
    requires m1 < m2 < |nodes[p].data.children|
    requires y in Desc(nodes, rank, nodes[p].data.children[m1])
    ensures y !in Desc(nodes, rank, nodes[p].data.children[m2])
  {
    var c1, c2 := nodes[p].data.children[m1], nodes[p].data.children[m2];
    assert Children(nodes, p)[m1] == c1 && Children(nodes, p)[m2] == c2;
    if y in Desc(nodes, rank, c2) {
      Comparable(nodes, rank, roots, c1, c2, y);
      assert c1 != c2;
      if c1 in Desc(nodes, rank, c2) {
        var z, k := DescParent(nodes, rank, c2, c1);
        assert Children(nodes, z)[k] == c1;
        DescRank(nodes, rank, c2, z);
      } else {
        var z, k := DescParent(nodes, rank, c1, c2);
        assert Children(nodes, z)[k] == c2;
        DescRank(nodes, rank, c1, z);
      }
    }
  }

  /** In a forest the traversal below a node names each node once. */
  lemma {:induction false} VisitDistinct<M>(nodes: seq<Node<M>>, rank: seq<nat>, roots: seq<nat>, i: nat, parent: Option<nat>)
    requires Ranked(nodes, rank) && Forest(nodes, roots) && i < |nodes|
    ensures Distinct(Visit(nodes, rank, i, parent))
    decreases rank[i], 1, 0
  {
    var cs := nodes[i].data.children;
    var rest := VisitList(nodes, rank, cs, i);
    assert cs[0..] == cs;
    VisitListDistinct(nodes, rank, roots, i, 0);
    IdsAppend([Entry(i, parent)], rest);
    if i in Ids(rest) {
      IdsVisitList(nodes, rank, cs, i, i);
      var m :| 0 <= m < |cs| && cs[m] < |nodes| && i in Desc(nodes, rank, cs[m]);
      DescRank(nodes, rank, cs[m], i);
    }
    IdsSingle(Entry(i, parent));
    DistinctAppend([Entry(i, parent)], rest);
  }

  lemma {:induction false} VisitListDistinct<M>(nodes: seq<Node<M>>, rank: seq<nat>, roots: seq<nat>, p: nat, s: nat)
    requires Ranked(nodes, rank) && Forest(nodes, roots) && p < |nodes| && s <= |nodes[p].data.children|
    ensures Distinct(VisitList(nodes, rank, nodes[p].data.children[s..], p))
    decreases rank[p], 0, |nodes[p].data.children| - s
  {
    var all := nodes[p].data.children;
    var cs := all[s..];
    if |cs| > 0 {
      assert cs[0] == all[s] && cs[1..] == all[s + 1..];
      assert cs[0] in all;
      var head := Visit(nodes, rank, cs[0], Some(p));
      var tail := VisitList(nodes, rank, cs[1..], p);
      VisitDistinct(nodes, rank, roots, cs[0], Some(p));
      VisitListDistinct(nodes, rank, roots, p, s + 1);
      forall y | y in Ids(head) ensures y !in Ids(tail) {
        LaterSiblingsDisjoint(nodes, rank, roots, p, s, y);
      }
      DistinctAppend(head, tail);
    }
  }

  /** A node below the children from slot `s` on is reachable from one of those slots. */
  lemma LaterSibling<M>(nodes: seq<Node<M>>, rank: seq<nat>, p: nat, s: nat, y: nat) returns (m: nat)
    requires Ranked(nodes, rank) && p < |nodes| && s <= |nodes[p].data.children|
    requires y in Ids(VisitList(nodes, rank, nodes[p].data.children[s..], p))
    ensures s <= m < |nodes[p].data.children| && y in Desc(nodes, rank, nodes[p].data.children[m])
  {
    var all := nodes[p].data.children;
    var cs := all[s..];
    assert forall c :: c in cs ==> c in all;
    IdsVisitList(nodes, rank, cs, p, y);
    var j :| 0 <= j < |cs| && cs[j] < |nodes| && y in Desc(nodes, rank, cs[j]);
    m := s + j;
    assert cs[j] == all[m];
  }

  lemma LaterSiblingsDisjoint<M>(nodes: seq<Node<M>>, rank: seq<nat>, roots: seq<nat>, p: nat, s: nat, y: nat)
    requires Ranked(nodes, rank) && Forest(nodes, roots) && p < |nodes| && s < |nodes[p].data.children|
    requires y in Ids(Visit(nodes, rank, nodes[p].data.children[s], Some(p)))
    ensures y !in Ids(VisitList(nodes, rank, nodes[p].data.children[s + 1..], p))
  {
    var all := nodes[p].data.children;
    DescUnfold(nodes, rank, all[s], Some(p));
    if y in Ids(VisitList(nodes, rank, all[s + 1..], p)) {
      var m := LaterSibling(nodes, rank, p, s + 1, y);
      SiblingsDisjoint(nodes, rank, roots, p, s, m, y);
      assert false;
    }
  }

  lemma RootNotChild<M>(nodes: seq<Node<M>>, roots: seq<nat>, z: nat, k: nat, r: nat)
    requires Forest(nodes, roots) && z < |nodes| && k < |nodes[z].data.children| && r < |roots|
    ensures nodes[z].data.children[k] != roots[r]
  {
    assert Children(nodes, z)[k] == nodes[z].data.children[k];
  }

  /** In a forest the traversal names every reachable node exactly once. */
  lemma {:induction false} TraversalDistinct<M>(nodes: seq<Node<M>>, rank: seq<nat>, roots: seq<nat>)
    requires Ranked(nodes, rank) && RootsValid(nodes, roots) && Forest(nodes, roots)
    ensures Distinct(Traversal(nodes, rank, roots))
  {
    if |roots| > 0 {
      var head := Visit(nodes, rank, roots[0], None);
      var tail := Traversal(nodes, rank, roots[1..]);
      assert Forest(nodes, roots[1..]) by {
        assert forall j :: 0 <= j < |roots| - 1 ==> roots[1..][j] == roots[j + 1];
      }
      VisitDistinct(nodes, rank, roots, roots[0], None);
      TraversalDistinct(nodes, rank, roots[1..]);
      forall y | y in Ids(head) ensures y !in Ids(tail) {
        if y in Ids(tail) {
          var m := RootReaching(nodes, rank, roots[1..], y);
          assert roots[1..][m] == roots[m + 1];
          var r0, r1 := roots[0], roots[m + 1];
          Comparable(nodes, rank, roots, r0, r1, y);
          if r0 in Desc(nodes, rank, r1) {
            var z, k := DescParent(nodes, rank, r1, r0);
            RootNotChild(nodes, roots, z, k, 0);
            assert false;
          } else {
            var z, k := DescParent(nodes, rank, r0, r1);
            RootNotChild(nodes, roots, z, k, m + 1);
            assert false;
          }
        }
      }
      DistinctAppend(head, tail);
    }
  }

  /** Every node in the traversal is reachable from one of the roots. */
  lemma {:induction false} RootReaching<M>(nodes: seq<Node<M>>, rank: seq<nat>, roots: seq<nat>, y: nat) returns (m: nat)
    requires Ranked(nodes, rank) && RootsValid(nodes, roots) && y in Ids(Traversal(nodes, rank, roots))
    ensures m < |roots| && y in Desc(nodes, rank, roots[m])
  {
    var head := Visit(nodes, rank, roots[0], None);
    var tail := Traversal(nodes, rank, roots[1..]);
    IdsAppend(head, tail);
    if y in Ids(head) {
      m := 0;
    } else {
      var m' := RootReaching(nodes, rank, roots[1..], y);
      m := m' + 1;
      assert roots[1..][m'] == roots[m];
    }
  }

  /** `get_skins_transform`: one (skin, global matrix) pair per skinned node, in node order. */
  function SkinsTransform<M>(nodes: seq<Node<M>>): (r: seq<(nat, M)>)
    ensures |r| <= |nodes|
    ensures forall j :: 0 <= j < |r| ==> exists i :: 0 <= i < |nodes| && nodes[i].data.skin == Some(r[j].0) && nodes[i].global == r[j].1
  {
    if |nodes| == 0 then []
    else
      var rest := SkinsTransform(nodes[1..]);
      var r := (if nodes[0].data.skin.Some? then [(nodes[0].data.skin.value, nodes[0].global)] else []) + rest;
      assert forall j :: 0 <= j < |rest| ==> rest[j] in r;
      r
  }

  lemma {:induction false} SkinsTransformAppend<M>(a: seq<Node<M>>, b: seq<Node<M>>)
    ensures SkinsTransform(a + b) == SkinsTransform(a) + SkinsTransform(b)
  {
    if |a| == 0 {
      assert a + b == b;
    } else {
      assert (a + b)[1..] == a[1..] + b;
      SkinsTransformAppend(a[1..], b);
    }
  }

  /** Every skinned node contributes its pair. */
  lemma {:induction false} SkinnedNodesListed<M>(nodes: seq<Node<M>>, i: nat)
    requires i < |nodes| && nodes[i].data.skin.Some?
    ensures (nodes[i].data.skin.value, nodes[i].global) in SkinsTransform(nodes)
  {
    if i > 0 {
      SkinnedNodesListed(nodes[1..], i - 1);
    }
  }

  /** `Nodes::new` followed by `transform(None)`, as `from_gltf` does. */
  datatype Nodes<M> = Nodes(nodes: seq<Node<M>>, roots: seq<nat>, traversal: seq<Entry>)

  function New<M>(ops: Ops<M>, nodes: seq<Node<M>>, rank: seq<nat>, roots: seq<nat>): (r: Nodes<M>)
    requires Ranked(nodes, rank) && RootsValid(nodes, roots)
    ensures r.roots == roots && RootEntries(r.traversal) == roots
    ensures EntriesBelow(r.traversal, |nodes|) && PreOrder(r.traversal, None) && Closed(nodes, r.traversal)
    ensures |r.nodes| == |nodes| && forall x :: 0 <= x < |nodes| ==> r.nodes[x].data == nodes[x].data
  {
    var t := Traversal(nodes, rank, roots);
    RootsInOrder(nodes, rank, roots);
    TraversalShape(nodes, rank, roots);
    assert EntriesBelow(t, |nodes|);
    Nodes(Transform(ops, nodes, t, None), roots, t)
  }

  /**
   * For a forest, `from_gltf`'s final `transform(None)` leaves every root
   * with its own matrix and gives every other listed node its parent's
   * global matrix times its local transform; the traversal lists each node
   * once.
   */
  lemma NewPropagates<M>(ops: Ops<M>, nodes: seq<Node<M>>, rank: seq<nat>, roots: seq<nat>, k: nat)
    requires Ranked(nodes, rank) && RootsValid(nodes, roots) && Forest(nodes, roots)
    requires k < |New(ops, nodes, rank, roots).traversal|
    ensures var n := New(ops, nodes, rank, roots);
            var e := n.traversal[k];
            && Distinct(n.traversal)
            && (e.parent.None? ==> n.nodes[e.index] == nodes[e.index])
            && (e.parent.Some? ==> n.nodes[e.index].global ==
                                   ops.mul(n.nodes[e.parent.value].global, LocalTransform(ops, nodes[e.index].data)))
  {
    var t := Traversal(nodes, rank, roots);
    TraversalShape(nodes, rank, roots);
    TraversalDistinct(nodes, rank, roots);
    TransformFollowsParents(ops, nodes, t, None, k);
  }

  function SetLocalPosition<M>(n: Node<M>, v: Vec3): (r: Node<M>)
  {
    n.(data := n.data.(localPosition := v))
  }

  function SetLocalRotation<M>(n: Node<M>, q: Quat): (r: Node<M>)
  {
    n.(data := n.data.(localRotation := q))
  }

  function SetLocalScale<M>(n: Node<M>, v: Vec3): (r: Node<M>)
  {
    n.(data := n.data.(localScale := v))
  }

  /**
   * Each setter is read back by its getter, a later set of the same field
   * wins, and setters of different fields commute; the global matrix is
   * not touched until the next `transform`.
   */
  lemma SettersIndependent<M>(n: Node<M>, p: Vec3, p2: Vec3, q: Quat, s: Vec3)
    ensures SetLocalPosition(n, p).data.localPosition == p && SetLocalRotation(n, q).data.localRotation == q
            && SetLocalScale(n, s).data.localScale == s
    ensures SetLocalPosition(SetLocalPosition(n, p), p2) == SetLocalPosition(n, p2)
    ensures SetLocalPosition(SetLocalRotation(n, q), p) == SetLocalRotation(SetLocalPosition(n, p), q)
    ensures SetLocalScale(SetLocalRotation(n, q), s) == SetLocalRotation(SetLocalScale(n, s), q)
    ensures SetLocalScale(SetLocalPosition(n, p), s) == SetLocalPosition(SetLocalScale(n, s), p)
    ensures SetLocalPosition(n, p).global == n.global && SetLocalRotation(n, q).global == n.global
            && SetLocalScale(n, s).global == n.global
    ensures SetLocalPosition(n, n.data.localPosition) == n
  {
  }
}
