/**
 * The older device manager's choice of physical device and queue family:
 * the first device, in enumeration order, that has a family supporting
 * both graphics and presentation to the surface, and within it the lowest
 * such family.  One queue is created on that family and serves as the
 * present queue.
 */
module DeviceMgr {
  import opened Wrappers
  import RenderContext

  /** A physical device: its queue families and the surface-support query by family index. */
  datatype Device = Device(families: seq<RenderContext.QueueFamily>, surfaceAt: nat -> bool)

  predicate Usable(d: Device, i: nat)
  {
    i < |d.families| && d.families[i].graphics && d.surfaceAt(i)
  }

  /** The lowest family of `d` with graphics and surface support. */
  function FamilyOf(d: Device): (r: Option<nat>)
    ensures r.Some? ==> Usable(d, r.value) && forall j :: 0 <= j < r.value ==> !Usable(d, j)
    ensures r.None? <==> forall j :: 0 <= j < |d.families| ==> !Usable(d, j)
  {
    var p := (j: nat) => Usable(d, j);
    assert forall j :: 0 <= j < |d.families| ==> (p(j) <==> Usable(d, j));
    RenderContext.First(|d.families|, p, 0)
  }

  /** The chosen device and family; `None` is the "Couldn't find suitable device." panic. */
  datatype Selection = Selection(device: nat, family: nat, queueInfos: seq<nat>, presentQueue: (nat, nat))

  function HasFamily(devices: seq<Device>, k: nat): bool
  {
    k < |devices| && FamilyOf(devices[k]).Some?
  }

  function Select(devices: seq<Device>): (r: Option<Selection>)
    ensures r.Some? ==> r.value.device < |devices|
                        && FamilyOf(devices[r.value.device]) == Some(r.value.family)
                        && Usable(devices[r.value.device], r.value.family)
                        && forall k :: 0 <= k < r.value.device ==> FamilyOf(devices[k]).None?
    ensures r.Some? ==> r.value.queueInfos == [r.value.family] && r.value.presentQueue == (r.value.family, 0)
    ensures r.None? <==> forall k :: 0 <= k < |devices| ==> FamilyOf(devices[k]).None?
  {
    var p := (k: nat) => HasFamily(devices, k);
    assert forall k :: 0 <= k < |devices| ==> (p(k) <==> FamilyOf(devices[k]).Some?);
    match RenderContext.First(|devices|, p, 0)
    case None => None
    case Some(k) =>
      var f := FamilyOf(devices[k]).value;
      Some(Selection(k, f, [f], (f, 0)))
  }

  /**
   * On the same device, the render context's graphics and present
   * families are no later than the family the device manager picks:
   * it looks for the two capabilities separately, the manager for both in
   * one family.  Every family is assumed to have a queue.
   */
  lemma {:induction false} ContextFamiliesNoLater(d: Device)
    requires forall k :: 0 <= k < |d.families| ==> d.families[k].queueCount > 0
    requires FamilyOf(d).Some?
    ensures var fams := RenderContext.FindQueueFamiliesAsWritten(d.families, d.surfaceAt);
            fams.graphics.Some? && fams.graphics.value <= FamilyOf(d).value
            && fams.present.Some? && fams.present.value <= FamilyOf(d).value
  {
    var fs := d.families;
    var f := FamilyOf(d).value;
    var none := RenderContext.Families(None, None, None);
    RenderContext.WithQueuesAll(fs);
    RenderContext.AsWrittenAgreesOnGraphicsAndPresent(fs, d.surfaceAt, 0, none);
    RenderContext.ScanFindsFirsts(fs, d.surfaceAt, 0, none);
    var g := RenderContext.FirstGraphics(fs);
    var pr := RenderContext.First(|fs|, d.surfaceAt, 0);
    assert RenderContext.GraphicsAt(fs)(f) && d.surfaceAt(f);
  }
}
