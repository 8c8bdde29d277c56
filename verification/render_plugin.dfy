/**
 * The render plugin's per-frame systems: asset events are folded into a
 * set of models to (re)build and a set to remove, applied to the model
 * map; the draw system records the shadow pass and then the main pass over
 * the same models; and the end-of-draw system runs only when a frame was
 * begun.
 *
 * Asset handles are naturals.  Building a model renderer is a parameter
 * (`build`).  The hash sets are iterated in an order the model takes as a
 * parameter: any listing of the set, each element once.
 */
module RenderPlugin {
  import opened Wrappers
  import RenderContext

  datatype AssetEvent = Created(handle: nat) | Modified(handle: nat) | Removed(handle: nat)

  datatype Pending = Pending(changed: set<nat>, destroy: set<nat>)

  /** One event: Created marks the handle changed, Modified marks it changed and to destroy, Removed marks it to destroy and unmarks it changed. */
  function Step(p: Pending, e: AssetEvent): Pending
  {
    match e
    case Created(h) => Pending(p.changed + {h}, p.destroy)
    case Modified(h) => Pending(p.changed + {h}, p.destroy + {h})
    case Removed(h) => Pending(p.changed - {h}, p.destroy + {h})
  }

  /** The events in arrival order, from two empty sets. */
  function Collect(events: seq<AssetEvent>): Pending
  {
    if |events| == 0 then Pending({}, {})
    else Step(Collect(events[..|events| - 1]), events[|events| - 1])
  }

  /** Some Modified or Removed event names `h`. */
  predicate Invalidated(events: seq<AssetEvent>, h: nat)
  {
    exists i :: 0 <= i < |events| && events[i].handle == h && !events[i].Created?
  }

  /** The last event naming `h` exists and is not a removal. */
  predicate Live(events: seq<AssetEvent>, h: nat)
  {
    exists i :: 0 <= i < |events| && events[i].handle == h && !events[i].Removed?
                && forall j :: i < j < |events| ==> events[j].handle != h
  }

  /** A handle is to be destroyed exactly when some event modified or removed it. */
  lemma {:induction false} CollectDestroy(events: seq<AssetEvent>, h: nat)
    ensures h in Collect(events).destroy <==> Invalidated(events, h)
  {
    if |events| > 0 {
      var init := events[..|events| - 1];
      CollectDestroy(init, h);
      assert forall i :: 0 <= i < |init| ==> init[i] == events[i];
      if Invalidated(events, h) && !Invalidated(init, h) {
        assert events[|events| - 1].handle == h && !events[|events| - 1].Created?;
      }
    }
  }

  /**
   * A handle is to be (re)built exactly when the last event naming it
   * created or modified it: a removal cancels earlier events, and a later
   * creation undoes the removal.
   */
  lemma {:induction false} CollectChanged(events: seq<AssetEvent>, h: nat)
    ensures h in Collect(events).changed <==> Live(events, h)
  {
    if |events| > 0 {
      var n := |events| - 1;
      CollectChanged(events[..n], h);
      if events[n].handle == h {
        LiveLastNames(events, h);
      } else {
        LiveLastOther(events, h);
      }
    }
  }

  /** When the last event names `h`, it alone decides whether `h` is live. */
  lemma LiveLastNames(events: seq<AssetEvent>, h: nat)
    requires |events| > 0 && events[|events| - 1].handle == h
    ensures Live(events, h) <==> !events[|events| - 1].Removed?
  {
    var n := |events| - 1;
    if !events[n].Removed? {
      assert events[n].handle == h && !events[n].Removed?;
    }
  }

  /** An event naming another handle does not change whether `h` is live. */
  lemma LiveLastOther(events: seq<AssetEvent>, h: nat)
    requires |events| > 0 && events[|events| - 1].handle != h
    ensures Live(events, h) <==> Live(events[..|events| - 1], h)
  {
    var n := |events| - 1;
    var init := events[..n];
    if Live(events, h) {
      var i :| 0 <= i < |events| && events[i].handle == h && !events[i].Removed?
                && forall j :: i < j < |events| ==> events[j].handle != h;
      assert init[i] == events[i];
      assert forall j :: i < j < |init| ==> init[j] == events[j];
    }
    if Live(init, h) {
      var i :| 0 <= i < |init| && init[i].handle == h && !init[i].Removed?
                && forall j :: i < j < |init| ==> init[j].handle != h;
      assert events[i] == init[i];
      assert forall j :: i < j < n ==> events[j] == init[j];
    }
  }

  /** The order of a removal and a creation decides the outcome. */
  lemma EventOrderMatters(h: nat)
    ensures h in Collect([Removed(h), Created(h)]).changed
    ensures h !in Collect([Created(h), Removed(h)]).changed
    ensures h in Collect([Removed(h), Created(h)]).destroy && h in Collect([Created(h), Removed(h)]).destroy
  {
    assert [Removed(h), Created(h)][..1] == [Removed(h)];
    assert [Created(h), Removed(h)][..1] == [Created(h)];
  }

  /** `order` lists the set `s`, each element once. */
  ghost predicate Lists(order: seq<nat>, s: set<nat>)
  {
    (forall x :: x in order <==> x in s) && forall i, j :: 0 <= i < j < |order| ==> order[i] != order[j]
  }

  datatype Action = RemoveModel(handle: nat) | CreateModel(handle: nat)

  /** `remove_model` for each handle in turn. */
  function RemoveAll<M>(models: map<nat, M>, order: seq<nat>): (r: map<nat, M>)
    ensures forall h :: h in r <==> h in models && h !in order
    ensures forall h :: h in r ==> r[h] == models[h]
  {
    if |order| == 0 then models
    else
      var init := RemoveAll(models, order[..|order| - 1]);
      assert forall h :: h in order <==> h in order[..|order| - 1] || h == order[|order| - 1];
      init - {order[|order| - 1]}
  }

  /** Build and insert each handle's model in turn; a handle with no loaded asset panics (`None`). */
  function CreateAll<A, M>(models: map<nat, M>, assets: map<nat, A>, order: seq<nat>, build: A -> M): (r: Option<map<nat, M>>)
    ensures r.None? <==> exists h :: h in order && h !in assets
    ensures r.Some? ==> forall h :: h in r.value <==> h in models || h in order
    ensures r.Some? ==> forall h :: h in order ==> r.value[h] == build(assets[h])
    ensures r.Some? ==> forall h :: h in models && h !in order ==> r.value[h] == models[h]
  {
    if |order| == 0 then Some(models)
    else
      var last := order[|order| - 1];
      assert forall h :: h in order <==> h in order[..|order| - 1] || h == last;
      match CreateAll(models, assets, order[..|order| - 1], build)
      case None => None
      case Some(init) =>
        if last !in assets then None
        else Some(init[last := build(assets[last])])
  }

  datatype Loaded<M> = Loaded(models: map<nat, M>, actions: seq<Action>)

  /**
   * `load_gltf_2_device_system`: fold the events, remove every model to
   * destroy, and then, unless nothing changed, build and insert every
   * changed model.  A changed handle whose asset is not loaded panics
   * (`None`).
   */
  function LoadGltf<A, M>(models: map<nat, M>, assets: map<nat, A>, events: seq<AssetEvent>,
                          destroyOrder: seq<nat>, changedOrder: seq<nat>, build: A -> M): (r: Option<Loaded<M>>)
    requires Lists(destroyOrder, Collect(events).destroy) && Lists(changedOrder, Collect(events).changed)
    ensures r.None? <==> exists h :: h in Collect(events).changed && h !in assets
    ensures r.Some? ==> forall h :: h in r.value.models <==>
                          (h in models && h !in Collect(events).destroy) || h in Collect(events).changed
    ensures r.Some? ==> forall h :: h in Collect(events).changed ==> r.value.models[h] == build(assets[h])
    ensures r.Some? ==> forall h :: h in models && h !in Collect(events).destroy && h !in Collect(events).changed ==>
                          r.value.models[h] == models[h]
    ensures r.Some? ==> |r.value.actions| == |Collect(events).destroy| + |Collect(events).changed|
    ensures r.Some? ==> forall i, j ::
                          0 <= i < |r.value.actions| && 0 <= j < |r.value.actions| &&
                          r.value.actions[i].RemoveModel? && r.value.actions[j].CreateModel?
                          ==> i < j
  {
    UniqueListLength(destroyOrder, Collect(events).destroy);
    UniqueListLength(changedOrder, Collect(events).changed);
    var removes := seq(|destroyOrder|, i requires 0 <= i < |destroyOrder| => RemoveModel(destroyOrder[i]));
    var kept := RemoveAll(models, destroyOrder);
    if |changedOrder| == 0 then
      Some(Loaded(kept, removes))
    else
      var creates := seq(|changedOrder|, i requires 0 <= i < |changedOrder| => CreateModel(changedOrder[i]));
      match CreateAll(kept, assets, changedOrder, build)
      case None => None
      case Some(built) => Some(Loaded(built, removes + creates))
  }

  /** A duplicate-free listing of a set has the set's size. */
  lemma {:induction false} UniqueListLength(order: seq<nat>, s: set<nat>)
    requires Lists(order, s)
    ensures |order| == |s|
  {
    if |order| > 0 {
      var last := order[|order| - 1];
      var init := order[..|order| - 1];
      assert forall i :: 0 <= i < |init| ==> init[i] != last;
      UniqueListLength(init, s - {last});
    } else {
      assert forall x :: x !in s;
    }
  }

  /** A model that was only ever modified is rebuilt, whatever the map held before. */
  lemma ModifiedIsRebuilt<A, M>(models: map<nat, M>, assets: map<nat, A>, h: nat, build: A -> M)
    requires h in assets
    ensures LoadGltf(models, assets, [Modified(h)], [h], [h], build)
            == Some(Loaded(models[h := build(assets[h])], [RemoveModel(h), CreateModel(h)]))
  {
    assert [Modified(h)][..0] == [];
    assert Collect([Modified(h)]) == Pending({h}, {h});
    var r := LoadGltf(models, assets, [Modified(h)], [h], [h], build);
    assert r.Some?;
    var expected := models[h := build(assets[h])];
    assert r.value.models.Keys == expected.Keys;
    assert r.value.models == expected;
    assert r.value.actions == [RemoveModel(h)] + [CreateModel(h)];
    assert [RemoveModel(h)] + [CreateModel(h)] == [RemoveModel(h), CreateModel(h)];
    assert r.value == Loaded(r.value.models, r.value.actions);
    assert r == Some(r.value);
    assert r == Some(Loaded(expected, [RemoveModel(h), CreateModel(h)]));
  }

  /** One model in the draw query: its entity and its asset handle. */
  datatype Entry = Entry(entity: nat, handle: nat)

  /** The shadow pass's list: the queried models that have a renderer, in query order. */
  function WithRenderer<M>(query: seq<Entry>, models: map<nat, M>): (r: seq<Entry>)
    ensures |r| <= |query|
    ensures forall e :: e in r <==> e in query && e.handle in models
  {
    if |query| == 0 then []
    else
      var init := WithRenderer(query[..|query| - 1], models);
      var last := query[|query| - 1];
      assert forall e :: e in query <==> e in query[..|query| - 1] || e == last;
      if last.handle in models then init + [last] else init
  }

  /** Filtering the query distributes over concatenation, so it keeps the query's order. */
  lemma {:induction false} WithRendererAppend<M>(a: seq<Entry>, b: seq<Entry>, models: map<nat, M>)
    ensures WithRenderer(a + b, models) == WithRenderer(a, models) + WithRenderer(b, models)
    decreases |b|
  {
    if |b| == 0 {
      assert a + b == a;
    } else {
      assert (a + b)[..|a + b| - 1] == a + b[..|b| - 1];
      WithRendererAppend(a, b[..|b| - 1], models);
    }
  }

  /** The main pass looks each listed model up again and unwraps it; a missing one panics (`None`). */
  function MainPass<M>(list: seq<Entry>, models: map<nat, M>): (r: Option<seq<Entry>>)
    ensures r.None? <==> exists e :: e in list && e.handle !in models
    ensures r.Some? ==> r.value == list
  {
    if |list| == 0 then Some([])
    else
      var last := list[|list| - 1];
      assert forall e :: e in list <==> e in list[..|list| - 1] || e == last;
      match MainPass(list[..|list| - 1], models)
      case None => None
      case Some(init) =>
        if last.handle in models then Some(init + [last]) else None
  }

  datatype Passes = Passes(grassCompute: bool, shadow: seq<Entry>, main: seq<Entry>)

  datatype DrawResult = DrawResult(currentPresentIndex: int, passes: Option<Passes>)

  /**
   * `draw_models_system`: when `begin_draw` gives a present index, the
   * grass is computed if its drawing is enabled, the shadow pass draws the
   * queried models that have a renderer, and the main pass draws that
   * list again; when `begin_draw` fails, nothing is drawn and the current
   * present index becomes -1.
   */
  function DrawModels<M>(begin: Option<nat>, grassEnabled: bool, query: seq<Entry>, models: map<nat, M>): (r: DrawResult)
    ensures begin.None? ==> r.currentPresentIndex == -1 && r.passes.None?
    ensures begin.Some? ==> r.currentPresentIndex == begin.value && r.passes.Some?
    ensures r.passes.Some? ==> r.passes.value.grassCompute == grassEnabled
    ensures r.passes.Some? ==> forall e :: e in r.passes.value.shadow <==> e in query && e.handle in models
    ensures r.passes.Some? ==> r.passes.value.main == r.passes.value.shadow
  {
    match begin
    case None => DrawResult(-1, None)
    case Some(index) =>
      var list := WithRenderer(query, models);
      var main := MainPass(list, models);
      DrawResult(index, Some(Passes(grassEnabled, list, main.UnwrapOr([]))))
  }

  /** `end_draw_system`: the frame is ended on the current command buffer only when the present index is not negative. */
  function EndDraw(currentPresentIndex: int): (r: Option<nat>)
    ensures r.Some? <==> currentPresentIndex >= 0
    ensures r.Some? ==> r.value == currentPresentIndex
  {
    if currentPresentIndex >= 0 then Some(currentPresentIndex as nat) else None
  }

  /** A frame whose begin failed is never ended; a begun frame is ended on the buffer of its own present index. */
  lemma EndFollowsBegin<M>(begin: Option<nat>, grassEnabled: bool, query: seq<Entry>, models: map<nat, M>)
    ensures EndDraw(DrawModels(begin, grassEnabled, query, models).currentPresentIndex) == begin
  {
  }
}
