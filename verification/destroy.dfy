/**
 * Deferred destruction of entities: the labelling system spreads the
 * `Destroy` marker from every marked entity to all its descendants, and the
 * destroy system despawns exactly the marked entities.
 *
 * Entities are naturals; the `Children` component is a map from an entity
 * to its child list (an entity without the component is not a key).
 * Commands are deferred, so the labelling pass reads the marks as they were
 * when it started and its inserts land afterwards.  The iteration order of
 * the query is a parameter.  Acyclicity of the hierarchy is the `rank`
 * witness.
 */
module Destroy {

  datatype World = World(entities: set<nat>, children: map<nat, seq<nat>>, marked: set<nat>)

  /** Every entity with children has a rank larger than each of its children's. */
  predicate Ranked(children: map<nat, seq<nat>>, rank: map<nat, nat>)
  {
    forall e :: e in children ==>
      e in rank && forall k :: 0 <= k < |children[e]| ==> children[e][k] in rank && rank[children[e][k]] < rank[e]
  }

  /** `set` of the entities a list names. */
  function Elems(s: seq<nat>): set<nat>
  {
    set k | 0 <= k < |s| :: s[k]
  }

  /**
   * `add_destroy_recursive`: the inserts issued for the child list `cs`,
   * each child followed by the inserts for its own children.
   */
  function Descend(children: map<nat, seq<nat>>, rank: map<nat, nat>, cs: seq<nat>, bound: nat): (r: seq<nat>)
    requires Ranked(children, rank)
    requires forall k :: 0 <= k < |cs| ==> cs[k] in rank && rank[cs[k]] < bound
    ensures Elems(cs) <= Elems(r)
    decreases bound, |cs|
  {
    if |cs| == 0 then []
    else
      var c := cs[0];
      var below := if c in children then Descend(children, rank, children[c], rank[c]) else [];
      var rest := Descend(children, rank, cs[1..], bound);
      ElemsCons(cs);
      ElemsAppend([c], below);
      ElemsAppend([c] + below, rest);
      [c] + below + rest
  }

  /** `add_destroy_label_2_children_system`: the inserts for every marked entity that has children, in query order. */
  function LabelInserts(w: World, rank: map<nat, nat>, order: seq<nat>): seq<nat>
    requires Ranked(w.children, rank)
  {
    if |order| == 0 then []
    else
      var m := order[0];
      (if m in w.children then Descend(w.children, rank, w.children[m], rank[m]) else [])
      + LabelInserts(w, rank, order[1..])
  }

  /** `order` lists the marked entities, each once. */
  predicate QueryOrder(marked: set<nat>, order: seq<nat>)
  {
    Elems(order) == marked && forall i, j :: 0 <= i < j < |order| ==> order[i] != order[j]
  }

  /** The labelling system followed by the application of its deferred inserts. */
  function Label(w: World, rank: map<nat, nat>, order: seq<nat>): (r: World)
    requires Ranked(w.children, rank) && QueryOrder(w.marked, order)
    ensures r.entities == w.entities && r.children == w.children
    ensures w.marked <= r.marked
  {
    w.(marked := w.marked + Elems(LabelInserts(w, rank, order)))
  }

  /** Every child of a member of `s` is in `s`. */
  predicate ClosedUnder(children: map<nat, seq<nat>>, s: set<nat>)
  {
    forall e, k :: e in s && e in children && 0 <= k < |children[e]| ==> children[e][k] in s
  }

  lemma ElemsCons(s: seq<nat>)
    requires |s| > 0
    ensures Elems(s) == {s[0]} + Elems(s[1..]) && Elems([s[0]]) == {s[0]}
  {
    assert [s[0]][0] == s[0];
    forall x | x in Elems(s) ensures x in {s[0]} + Elems(s[1..]) {
      var k :| 0 <= k < |s| && s[k] == x;
      if k > 0 {
        assert s[1..][k - 1] == x;
      }
    }
    forall x | x in Elems(s[1..]) ensures x in Elems(s) {
      var k :| 0 <= k < |s[1..]| && s[1..][k] == x;
      assert s[k + 1] == x;
    }
  }

  lemma ElemsAppend(a: seq<nat>, b: seq<nat>)
    ensures Elems(a + b) == Elems(a) + Elems(b)
  {
    forall x | x in Elems(a + b) ensures x in Elems(a) + Elems(b) {
      var k :| 0 <= k < |a + b| && (a + b)[k] == x;
      if k >= |a| {
        assert b[k - |a|] == x;
      }
    }
    forall x | x in Elems(a) ensures x in Elems(a + b) {
      var k :| 0 <= k < |a| && a[k] == x;
      assert (a + b)[k] == x;
    }
    forall x | x in Elems(b) ensures x in Elems(a + b) {
      var k :| 0 <= k < |b| && b[k] == x;
      assert (a + b)[k + |a|] == x;
    }
  }

  /** The inserts below `cs` are closed: every child of an inserted entity is inserted too. */
  lemma {:induction false} DescendClosed(children: map<nat, seq<nat>>, rank: map<nat, nat>, cs: seq<nat>, bound: nat)
    requires Ranked(children, rank)
    requires forall k :: 0 <= k < |cs| ==> cs[k] in rank && rank[cs[k]] < bound
    ensures ClosedUnder(children, Elems(Descend(children, rank, cs, bound)))
    decreases bound, |cs|
  {
    if |cs| > 0 {
      var c := cs[0];
      var below := if c in children then Descend(children, rank, children[c], rank[c]) else [];
      var rest := Descend(children, rank, cs[1..], bound);
      if c in children {
        DescendClosed(children, rank, children[c], rank[c]);
      }
      DescendClosed(children, rank, cs[1..], bound);
      ElemsAppend([c], below);
      ElemsAppend([c] + below, rest);
      ElemsCons(cs);
      if c in children {
        assert Elems(children[c]) <= Elems(below);
      }
    }
  }

  /** Any set closed under children that contains `cs` contains every insert below `cs`. */
  lemma {:induction false} DescendLeast(children: map<nat, seq<nat>>, rank: map<nat, nat>, cs: seq<nat>, bound: nat, s: set<nat>)
    requires Ranked(children, rank)
    requires forall k :: 0 <= k < |cs| ==> cs[k] in rank && rank[cs[k]] < bound
    requires Elems(cs) <= s && ClosedUnder(children, s)
    ensures Elems(Descend(children, rank, cs, bound)) <= s
    decreases bound, |cs|
  {
    if |cs| > 0 {
      var c := cs[0];
      var below := if c in children then Descend(children, rank, children[c], rank[c]) else [];
      var rest := Descend(children, rank, cs[1..], bound);
      assert c in Elems(cs);
      if c in children {
        assert forall k :: 0 <= k < |children[c]| ==> children[c][k] in s;
        DescendLeast(children, rank, children[c], rank[c], s);
      }
      assert forall k :: 0 <= k < |cs| - 1 ==> cs[1..][k] == cs[k + 1];
      DescendLeast(children, rank, cs[1..], bound, s);
      ElemsAppend([c], below);
      ElemsAppend([c] + below, rest);
      ElemsCons(cs);
    }
  }

  lemma {:induction false} InsertsClosed(w: World, rank: map<nat, nat>, order: seq<nat>)
    requires Ranked(w.children, rank)
    ensures ClosedUnder(w.children, Elems(LabelInserts(w, rank, order)))
    ensures forall k :: 0 <= k < |order| && order[k] in w.children ==>
              Elems(w.children[order[k]]) <= Elems(LabelInserts(w, rank, order))
  {
    if |order| > 0 {
      var m := order[0];
      var head := if m in w.children then Descend(w.children, rank, w.children[m], rank[m]) else [];
      var tail := LabelInserts(w, rank, order[1..]);
      if m in w.children {
        DescendClosed(w.children, rank, w.children[m], rank[m]);
      }
      InsertsClosed(w, rank, order[1..]);
      ElemsAppend(head, tail);
      assert forall k :: 1 <= k < |order| ==> order[k] == order[1..][k - 1];
    }
  }

  lemma {:induction false} InsertsLeast(w: World, rank: map<nat, nat>, order: seq<nat>, s: set<nat>)
    requires Ranked(w.children, rank) && Elems(order) <= s && ClosedUnder(w.children, s)
    ensures Elems(LabelInserts(w, rank, order)) <= s
  {
    if |order| > 0 {
      var m := order[0];
      var head := if m in w.children then Descend(w.children, rank, w.children[m], rank[m]) else [];
      var tail := LabelInserts(w, rank, order[1..]);
      assert m in Elems(order);
      if m in w.children {
        DescendLeast(w.children, rank, w.children[m], rank[m], s);
      }
      assert forall k :: 0 <= k < |order| - 1 ==> order[1..][k] == order[k + 1];
      InsertsLeast(w, rank, order[1..], s);
      ElemsAppend(head, tail);
    }
  }

  /**
   * After labelling, the marked set is the least set that contains the
   * previously marked entities and is closed under children: every
   * descendant of a marked entity is marked, and nothing else is.
   */
  lemma LabelIsLeastClosure(w: World, rank: map<nat, nat>, order: seq<nat>, s: set<nat>)
    requires Ranked(w.children, rank) && QueryOrder(w.marked, order)
    ensures ClosedUnder(w.children, Label(w, rank, order).marked)
    ensures w.marked <= s && ClosedUnder(w.children, s) ==> Label(w, rank, order).marked <= s
  {
    InsertsClosed(w, rank, order);
    if w.marked <= s && ClosedUnder(w.children, s) {
      InsertsLeast(w, rank, order, s);
    }
  }

  /** The result does not depend on the order in which the query visits the marked entities. */
  lemma LabelOrderIndependent(w: World, rank: map<nat, nat>, order: seq<nat>, order2: seq<nat>)
    requires Ranked(w.children, rank) && QueryOrder(w.marked, order) && QueryOrder(w.marked, order2)
    ensures Label(w, rank, order) == Label(w, rank, order2)
  {
    var a, b := Label(w, rank, order), Label(w, rank, order2);
    LabelIsLeastClosure(w, rank, order, b.marked);
    LabelIsLeastClosure(w, rank, order2, a.marked);
  }

  /**
   * Labelling is idempotent: a second run re-marks only entities that are
   * already marked and so changes nothing.
   */
  lemma LabelIdempotent(w: World, rank: map<nat, nat>, order: seq<nat>, order2: seq<nat>)
    requires Ranked(w.children, rank) && QueryOrder(w.marked, order)
    requires QueryOrder(Label(w, rank, order).marked, order2)
    ensures Label(Label(w, rank, order), rank, order2) == Label(w, rank, order)
  {
    var once := Label(w, rank, order);
    LabelIsLeastClosure(w, rank, order, once.marked);
    LabelIsLeastClosure(once, rank, order2, once.marked);
  }

  /** `destroy_system`: every marked entity is despawned; children are not despawned on their own. */
  function DestroyMarked(w: World): (r: World)
    ensures r.entities == w.entities - w.marked
    ensures forall e :: e in w.entities ==> (e in r.entities <==> e !in w.marked)
  {
    World(w.entities - w.marked, w.children - w.marked, {})
  }
}
