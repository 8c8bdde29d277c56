/**
 * The decisions the render context makes about the device: memory-type
 * selection, uniform-buffer alignment, queue-family search, extension
 * support, device suitability and choice, plus its bookkeeping (the
 * staging-buffer list, the typed resource map and the model map).
 *
 * Driver queries become data: a device is its queue families, the
 * per-index surface support, its extension names, whether it has surface
 * formats and present modes, and its sampler-anisotropy feature.
 */
module RenderContext {
  import opened Wrappers
  import Util
  import GpuBuffer

  // ---------------------------------------------------------------------
  // Memory types

  /** Bit `i` of `bits`, i.e. `(1 << i) & bits != 0`. */
  predicate BitSet(bits: nat, i: nat)
  {
    (bits / Util.Pow2(i)) % 2 == 1
  }

  /** Memory type `i` is allowed by the requirement bits and has every requested property. */
  predicate Qualifies(types: seq<set<GpuBuffer.MemProp>>, bits: nat, flags: set<GpuBuffer.MemProp>, i: nat)
    requires i < |types|
  {
    BitSet(bits, i) && flags <= types[i]
  }

  /** The first qualifying memory type at or after `i` among the first `count`. */
  function FindMemoryTypeFrom(types: seq<set<GpuBuffer.MemProp>>, count: nat, bits: nat, flags: set<GpuBuffer.MemProp>, i: nat)
    : (r: Option<nat>)
    requires count <= |types| && i <= count
    ensures r.Some? ==> i <= r.value < count && Qualifies(types, bits, flags, r.value)
                        && forall j :: i <= j < r.value ==> !Qualifies(types, bits, flags, j)
    ensures r.None? <==> forall j :: i <= j < count ==> !Qualifies(types, bits, flags, j)
    decreases count - i
  {
    if i == count then None
    else if Qualifies(types, bits, flags, i) then Some(i)
    else FindMemoryTypeFrom(types, count, bits, flags, i + 1)
  }

  /**
   * `find_memory_type_index`: the least index below `memory_type_count`
   * whose bit is set and whose flags include the requested ones; `None`
   * exactly when there is none.
   */
  function FindMemoryType(types: seq<set<GpuBuffer.MemProp>>, count: nat, bits: nat, flags: set<GpuBuffer.MemProp>)
    : (r: Option<nat>)
    requires count <= |types|
    ensures r.Some? ==> r.value < count && Qualifies(types, bits, flags, r.value)
                        && forall j :: 0 <= j < r.value ==> !Qualifies(types, bits, flags, j)
    ensures r.None? <==> forall j :: 0 <= j < count ==> !Qualifies(types, bits, flags, j)
  {
    FindMemoryTypeFrom(types, count, bits, flags, 0)
  }

  /** Asking for fewer properties never moves the choice later. */
  lemma FindMemoryTypeMonotone(types: seq<set<GpuBuffer.MemProp>>, count: nat, bits: nat,
                               flags: set<GpuBuffer.MemProp>, fewer: set<GpuBuffer.MemProp>)
    requires count <= |types| && fewer <= flags
    ensures FindMemoryType(types, count, bits, flags).Some? ==>
              FindMemoryType(types, count, bits, fewer).Some?
              && FindMemoryType(types, count, bits, fewer).value <= FindMemoryType(types, count, bits, flags).value
  {
    var a := FindMemoryType(types, count, bits, flags);
    if a.Some? {
      assert Qualifies(types, bits, fewer, a.value);
    }
  }

  // ---------------------------------------------------------------------
  // Uniform-buffer alignment

  /**
   * `get_ubo_alignment`: the minimum alignment when the type fits in it,
   * else the size rounded up to a multiple of the minimum.  With a zero
   * minimum the float division gives infinity, the cast saturates and the
   * product is 0.
   */
  function UboAlignment(minAlignment: nat, size: nat): (r: nat)
    ensures minAlignment > 0 ==> r % minAlignment == 0 && r >= size && r >= minAlignment
    ensures minAlignment > 0 ==> r == minAlignment || r < size + minAlignment
    ensures minAlignment == 0 ==> r == 0
  {
    if minAlignment == 0 then 0
    else if size <= minAlignment then
      MulMod(minAlignment, 1);
      minAlignment
    else
      var q := (size + minAlignment - 1) / minAlignment;
      CeilBounds(minAlignment, size);
      MulMod(minAlignment, q);
      minAlignment * q
  }

  /** A multiple of `m` leaves no remainder. */
  lemma MulMod(m: nat, q: nat)
    requires m > 0
    ensures (m * q) % m == 0
  {
    Util.DivUnique(m * q, m, q, 0);
  }

  /** Rounding `size` up to a multiple of `m` lands in `[size, size + m)`. */
  lemma CeilBounds(m: nat, size: nat)
    requires m > 0
    ensures var q := (size + m - 1) / m; size <= m * q < size + m
  {
    var n := size + m - 1;
    var q := n / m;
    assert n == m * q + n % m;
  }

  /** The alignment is the least multiple of the minimum that is at least both the size and the minimum. */
  lemma UboAlignmentLeast(minAlignment: nat, size: nat, k: nat)
    requires minAlignment > 0 && k >= 1 && minAlignment * k >= size
    ensures UboAlignment(minAlignment, size) <= minAlignment * k
  {
    var r := UboAlignment(minAlignment, size);
    if size > minAlignment {
      var q := (size + minAlignment - 1) / minAlignment;
      CeilBounds(minAlignment, size);
      assert r == minAlignment * q;
      assert minAlignment * q == minAlignment * k + minAlignment * (q - k);
      if q > k {
        Util.MulAtLeast(minAlignment, q - k);
      }
    } else {
      Util.MulAtLeast(minAlignment, k);
    }
  }

  // ---------------------------------------------------------------------
  // Queue families

  datatype QueueFamily = QueueFamily(queueCount: nat, graphics: bool, compute: bool)

  /** The families with at least one queue, in order; the search numbers them by position in this list. */
  function WithQueues(families: seq<QueueFamily>): (r: seq<QueueFamily>)
    ensures |r| <= |families|
    ensures forall k :: 0 <= k < |r| ==> r[k].queueCount > 0
  {
    if |families| == 0 then []
    else if families[|families| - 1].queueCount > 0 then WithQueues(families[..|families| - 1]) + [families[|families| - 1]]
    else WithQueues(families[..|families| - 1])
  }

  /** When every family has a queue, the numbering is the families' own indices. */
  lemma {:induction false} WithQueuesAll(families: seq<QueueFamily>)
    requires forall k :: 0 <= k < |families| ==> families[k].queueCount > 0
    ensures WithQueues(families) == families
  {
    if |families| > 0 {
      WithQueuesAll(families[..|families| - 1]);
    }
  }

  /** The index of the first element at or after `i` satisfying `p`. */
  function First(n: nat, p: nat -> bool, i: nat): (r: Option<nat>)
    requires i <= n
    ensures r.Some? ==> i <= r.value < n && p(r.value) && forall j :: i <= j < r.value ==> !p(j)
    ensures r.None? <==> forall j :: i <= j < n ==> !p(j)
    decreases n - i
  {
    if i == n then None else if p(i) then Some(i) else First(n, p, i + 1)
  }

  datatype Families = Families(graphics: Option<nat>, present: Option<nat>, compute: Option<nat>)

  /**
   * `find_queue_families`' loop from position `i` as written: record the
   * first graphics, compute and present position, and stop as soon as
   * graphics and present are both known.  `presentAt(i)` is the surface
   * support query for index `i`.
   */
  function ScanAsWritten(fs: seq<QueueFamily>, presentAt: nat -> bool, i: nat, acc: Families): Families
    requires i <= |fs|
    decreases |fs| - i
  {
    if i == |fs| then acc
    else
      var g := if fs[i].graphics && acc.graphics.None? then Some(i) else acc.graphics;
      var c := if fs[i].compute && acc.compute.None? then Some(i) else acc.compute;
      var p := if presentAt(i) && acc.present.None? then Some(i) else acc.present;
      if g.Some? && p.Some? then Families(g, p, c) else ScanAsWritten(fs, presentAt, i + 1, Families(g, p, c))
  }

  function FindQueueFamiliesAsWritten(families: seq<QueueFamily>, presentAt: nat -> bool): Families
  {
    ScanAsWritten(WithQueues(families), presentAt, 0, Families(None, None, None))
  }

  /** The same loop scanning until all three are known, so compute is never cut off. */
  function Scan(fs: seq<QueueFamily>, presentAt: nat -> bool, i: nat, acc: Families): Families
    requires i <= |fs|
    decreases |fs| - i
  {
    if i == |fs| then acc
    else
      var g := if fs[i].graphics && acc.graphics.None? then Some(i) else acc.graphics;
      var c := if fs[i].compute && acc.compute.None? then Some(i) else acc.compute;
      var p := if presentAt(i) && acc.present.None? then Some(i) else acc.present;
      if g.Some? && p.Some? && c.Some? then Families(g, p, c) else Scan(fs, presentAt, i + 1, Families(g, p, c))
  }

  function FindQueueFamilies(families: seq<QueueFamily>, presentAt: nat -> bool): Families
  {
    Scan(WithQueues(families), presentAt, 0, Families(None, None, None))
  }

  /** The index test for a graphics family, and the first graphics family. */
  function GraphicsAt(fs: seq<QueueFamily>): nat -> bool
  {
    (j: nat) => j < |fs| && fs[j].graphics
  }

  function FirstGraphics(fs: seq<QueueFamily>): Option<nat>
  {
    First(|fs|, GraphicsAt(fs), 0)
  }

  /** The index test for a compute family, and the first compute family. */
  function ComputeAt(fs: seq<QueueFamily>): nat -> bool
  {
    (j: nat) => j < |fs| && fs[j].compute
  }

  function FirstCompute(fs: seq<QueueFamily>): Option<nat>
  {
    First(|fs|, ComputeAt(fs), 0)
  }

  /** `found` is the first position below `i` satisfying `p`, or `None` when there is none yet. */
  predicate FirstBelow(n: nat, p: nat -> bool, i: nat, found: Option<nat>)
  {
    (found.Some? ==> found == First(n, p, 0) && found.value < i)
    && (found.None? ==> forall j :: 0 <= j < i ==> !p(j))
  }

  /** The accumulator holds the first position below `i` of each kind, if any. */
  predicate FirstsBelow(fs: seq<QueueFamily>, presentAt: nat -> bool, i: nat, acc: Families)
  {
    FirstBelow(|fs|, GraphicsAt(fs), i, acc.graphics)
    && FirstBelow(|fs|, ComputeAt(fs), i, acc.compute)
    && FirstBelow(|fs|, presentAt, i, acc.present)
  }

  /** Looking at position `i` keeps the first-below property one position further. */
  lemma FirstBelowStep(n: nat, p: nat -> bool, i: nat, found: Option<nat>)
    requires i < n && FirstBelow(n, p, i, found)
    ensures FirstBelow(n, p, i + 1, if p(i) && found.None? then Some(i) else found)
  {
    if p(i) && found.None? {
      assert First(n, p, 0) == Some(i);
    }
  }

  /** At the end of the scan, a first-below value is the first position overall. */
  lemma FirstBelowEnd(n: nat, p: nat -> bool, found: Option<nat>)
    requires FirstBelow(n, p, n, found)
    ensures found == First(n, p, 0)
  {
  }

  /**
   * The corrected search finds the first graphics, the first present and
   * the first compute family; each is `None` exactly when no family of
   * that kind exists.
   */
  lemma {:induction false} ScanFindsFirsts(fs: seq<QueueFamily>, presentAt: nat -> bool, i: nat, acc: Families)
    requires i <= |fs| && FirstsBelow(fs, presentAt, i, acc)
    ensures var r := Scan(fs, presentAt, i, acc);
            r.graphics == FirstGraphics(fs)
            && r.compute == FirstCompute(fs)
            && r.present == First(|fs|, presentAt, 0)
    decreases |fs| - i
  {
    var isG := GraphicsAt(fs);
    var isC := ComputeAt(fs);
    if i == |fs| {
      FirstBelowEnd(|fs|, isG, acc.graphics);
      FirstBelowEnd(|fs|, isC, acc.compute);
      FirstBelowEnd(|fs|, presentAt, acc.present);
    } else {
      FirstBelowStep(|fs|, isG, i, acc.graphics);
      FirstBelowStep(|fs|, isC, i, acc.compute);
      FirstBelowStep(|fs|, presentAt, i, acc.present);
      var g := if fs[i].graphics && acc.graphics.None? then Some(i) else acc.graphics;
      var c := if fs[i].compute && acc.compute.None? then Some(i) else acc.compute;
      var p := if presentAt(i) && acc.present.None? then Some(i) else acc.present;
      assert isG(i) == fs[i].graphics && isC(i) == fs[i].compute;
      if !(g.Some? && p.Some? && c.Some?) {
        ScanFindsFirsts(fs, presentAt, i + 1, Families(g, p, c));
      }
    }
  }

  /**
   * The search as written finds the same graphics and present families,
   * but its compute family can be `None` although a later family
   * supports compute: with a graphics-and-present family followed by a
   * compute-only family it stops after the first.
   */
  lemma AsWrittenMissesCompute()
    ensures var fams := [QueueFamily(1, true, false), QueueFamily(1, false, true)];
            var presentAt := (j: nat) => j == 0;
            FindQueueFamiliesAsWritten(fams, presentAt) == Families(Some(0), Some(0), None)
            && FindQueueFamilies(fams, presentAt) == Families(Some(0), Some(0), Some(1))
  {
    var fams := [QueueFamily(1, true, false), QueueFamily(1, false, true)];
    WithQueuesAll(fams);
  }

  /** Up to the stop, the search as written agrees with the corrected one on graphics and present. */
  lemma {:induction false} AsWrittenAgreesOnGraphicsAndPresent(fs: seq<QueueFamily>, presentAt: nat -> bool, i: nat, acc: Families)
    requires i <= |fs|
    ensures ScanAsWritten(fs, presentAt, i, acc).graphics == Scan(fs, presentAt, i, acc).graphics
    ensures ScanAsWritten(fs, presentAt, i, acc).present == Scan(fs, presentAt, i, acc).present
    decreases |fs| - i
  {
    if i < |fs| {
      var g := if fs[i].graphics && acc.graphics.None? then Some(i) else acc.graphics;
      var c := if fs[i].compute && acc.compute.None? then Some(i) else acc.compute;
      var p := if presentAt(i) && acc.present.None? then Some(i) else acc.present;
      AsWrittenAgreesOnGraphicsAndPresent(fs, presentAt, i + 1, Families(g, p, c));
      if g.Some? && p.Some? && !c.Some? {
        ScanKeepsKnown(fs, presentAt, i + 1, Families(g, p, c));
      }
    }
  }

  /** Once known, graphics and present never change. */
  lemma {:induction false} ScanKeepsKnown(fs: seq<QueueFamily>, presentAt: nat -> bool, i: nat, acc: Families)
    requires i <= |fs|
    ensures acc.graphics.Some? ==> Scan(fs, presentAt, i, acc).graphics == acc.graphics
    ensures acc.present.Some? ==> Scan(fs, presentAt, i, acc).present == acc.present
    decreases |fs| - i
  {
    if i < |fs| {
      var g := if fs[i].graphics && acc.graphics.None? then Some(i) else acc.graphics;
      var c := if fs[i].compute && acc.compute.None? then Some(i) else acc.compute;
      var p := if presentAt(i) && acc.present.None? then Some(i) else acc.present;
      ScanKeepsKnown(fs, presentAt, i + 1, Families(g, p, c));
    }
  }

  // ---------------------------------------------------------------------
  // Extensions, suitability and device choice

  const REQUIRED_EXTENSIONS: seq<string> := ["VK_KHR_swapchain", "VK_KHR_maintenance1"]

  /** `check_device_extension_support`: returns false at the first required name the device lacks. */
  method CheckExtensionSupport(required: seq<string>, available: seq<string>) returns (ok: bool)
    ensures ok <==> forall k :: 0 <= k < |required| ==> required[k] in available
  {
    var k := 0;
    while k < |required|
      invariant 0 <= k <= |required|
      invariant forall j :: 0 <= j < k ==> required[j] in available
    {
      var found := false;
      var e := 0;
      while e < |available|
        invariant 0 <= e <= |available|
        invariant found <==> exists x :: 0 <= x < e && available[x] == required[k]
      {
        found := found || available[e] == required[k];
        e := e + 1;
      }
      if !found {
        return false;
      }
      k := k + 1;
    }
    return true;
  }

  datatype PhysicalDevice = PhysicalDevice(families: seq<QueueFamily>, presentAt: nat -> bool, extensions: seq<string>,
                                           hasFormats: bool, hasPresentModes: bool, samplerAnisotropy: bool)

  /** `is_device_suitable`, on the family search as written. */
  predicate IsDeviceSuitable(d: PhysicalDevice)
  {
    var fams := FindQueueFamiliesAsWritten(d.families, d.presentAt);
    fams.graphics.Some? && fams.present.Some?
    && (forall k :: 0 <= k < |REQUIRED_EXTENSIONS| ==> REQUIRED_EXTENSIONS[k] in d.extensions)
    && d.hasFormats && d.hasPresentModes && d.samplerAnisotropy
  }

  /** The first suitable device; the context panics when there is none. */
  function PickDevice(devices: seq<PhysicalDevice>): (r: Option<nat>)
    ensures r.Some? ==> r.value < |devices| && IsDeviceSuitable(devices[r.value])
                        && forall j :: 0 <= j < r.value ==> !IsDeviceSuitable(devices[j])
    ensures r.None? <==> forall j :: 0 <= j < |devices| ==> !IsDeviceSuitable(devices[j])
  {
    var p := (j: nat) => j < |devices| && IsDeviceSuitable(devices[j]);
    assert forall j :: 0 <= j < |devices| ==> (p(j) <==> IsDeviceSuitable(devices[j]));
    First(|devices|, p, 0)
  }

  /**
   * The chosen device is suitable, yet context creation can still panic
   * for lack of a compute family: a device with a graphics-and-present
   * family followed by a compute-only family passes the check and its
   * as-written search reports no compute family.
   */
  lemma SuitableWithoutCompute()
    ensures var d := PhysicalDevice([QueueFamily(1, true, false), QueueFamily(1, false, true)], (j: nat) => j == 0,
                                    REQUIRED_EXTENSIONS, true, true, true);
            IsDeviceSuitable(d) && FindQueueFamiliesAsWritten(d.families, d.presentAt).compute.None?
            && FindQueueFamilies(d.families, d.presentAt).compute.Some?
  {
    AsWrittenMissesCompute();
    assert REQUIRED_EXTENSIONS[0] in REQUIRED_EXTENSIONS && REQUIRED_EXTENSIONS[1] in REQUIRED_EXTENSIONS;
  }

  /** The queue-create list: graphics then present, a duplicate dropped. */
  function QueueCreateIndices(graphics: nat, present: nat): (r: seq<nat>)
    ensures graphics in r && present in r
    ensures |r| == (if graphics == present then 1 else 2)
    ensures forall a, b :: 0 <= a < b < |r| ==> r[a] != r[b]
  {
    if graphics == present then [graphics] else [graphics, present]
  }

  // ---------------------------------------------------------------------
  // Bookkeeping

  /** `push_staging_buffer`. */
  function PushStaging(staging: seq<GpuBuffer.Buffer>, b: GpuBuffer.Buffer): (r: seq<GpuBuffer.Buffer>)
    ensures |r| == |staging| + 1 && r[|staging|] == b && r[..|staging|] == staging
    ensures Handles(r) == Handles(staging) + [b.handle]
  {
    staging + [b]
  }

  /** `flush_staging_buffer`'s loop: destroy each buffer in list order. */
  function DestroyAll(bufs: seq<GpuBuffer.Buffer>, log: seq<GpuBuffer.DriverCall>): seq<GpuBuffer.DriverCall>
  {
    if |bufs| == 0 then log else DestroyAll(bufs[1..], GpuBuffer.Destroy(bufs[0], log))
  }

  /** The buffers named by the `DestroyBuffer` calls of a log, in order. */
  function Destroyed(log: seq<GpuBuffer.DriverCall>): seq<nat>
  {
    if |log| == 0 then []
    else Destroyed(log[..|log| - 1]) + (if log[|log| - 1].DestroyBuffer? then [log[|log| - 1].buffer] else [])
  }

  function Handles(bufs: seq<GpuBuffer.Buffer>): (r: seq<nat>)
    ensures |r| == |bufs| && forall k :: 0 <= k < |bufs| ==> r[k] == bufs[k].handle
  {
    seq(|bufs|, k requires 0 <= k < |bufs| => bufs[k].handle)
  }

  lemma {:induction false} DestroyedAppend(a: seq<GpuBuffer.DriverCall>, b: seq<GpuBuffer.DriverCall>)
    ensures Destroyed(a + b) == Destroyed(a) + Destroyed(b)
    decreases |b|
  {
    if |b| == 0 {
      assert a + b == a;
    } else {
      var b0 := b[..|b| - 1];
      DestroyedAppend(a, b0);
      assert (a + b)[..|a + b| - 1] == a + b0;
      assert b[..|b| - 1] == b0;
    }
  }

  /** One buffer's destruction destroys exactly that buffer. */
  lemma DestroyOne(b: GpuBuffer.Buffer, log: seq<GpuBuffer.DriverCall>)
    ensures Destroyed(GpuBuffer.Destroy(b, log)) == Destroyed(log) + [b.handle]
  {
    var r := GpuBuffer.Destroy(b, log);
    var tail := r[|log|..];
    assert r == log + tail;
    DestroyedAppend(log, tail);
    if b.mapped {
      assert tail == [GpuBuffer.UnmapMemory(b.memory), GpuBuffer.DestroyBuffer(b.handle), GpuBuffer.FreeMemory(b.memory)];
      assert tail[..2] == [GpuBuffer.UnmapMemory(b.memory), GpuBuffer.DestroyBuffer(b.handle)];
      assert tail[..2][..1] == [GpuBuffer.UnmapMemory(b.memory)];
      assert Destroyed(tail[..2][..1]) == [] by {
        assert [GpuBuffer.UnmapMemory(b.memory)][..0] == [];
      }
      assert Destroyed(tail[..2]) == [b.handle];
      assert Destroyed(tail) == [b.handle];
    } else {
      assert |tail| == 2;
      assert tail[0] == r[|r| - 2] && tail[1] == r[|r| - 1];
      assert tail == [GpuBuffer.DestroyBuffer(b.handle), GpuBuffer.FreeMemory(b.memory)];
      assert tail[..1] == [GpuBuffer.DestroyBuffer(b.handle)];
      assert Destroyed(tail[..1]) == [b.handle] by {
        assert [GpuBuffer.DestroyBuffer(b.handle)][..0] == [];
      }
      assert Destroyed(tail) == [b.handle];
    }
  }

  /**
   * `flush_staging_buffer`: every pushed buffer is destroyed exactly once,
   * in push order, and the list is left empty.
   */
  function FlushStaging(staging: seq<GpuBuffer.Buffer>, log: seq<GpuBuffer.DriverCall>): (r: (seq<GpuBuffer.Buffer>, seq<GpuBuffer.DriverCall>))
    ensures r.0 == []
    ensures Destroyed(r.1) == Destroyed(log) + Handles(staging)
  {
    FlushDestroysEach(staging, log);
    ([], DestroyAll(staging, log))
  }

  lemma {:induction false} FlushDestroysEach(bufs: seq<GpuBuffer.Buffer>, log: seq<GpuBuffer.DriverCall>)
    ensures Destroyed(DestroyAll(bufs, log)) == Destroyed(log) + Handles(bufs)
    decreases |bufs|
  {
    if |bufs| > 0 {
      DestroyOne(bufs[0], log);
      FlushDestroysEach(bufs[1..], GpuBuffer.Destroy(bufs[0], log));
      assert Handles(bufs) == [bufs[0].handle] + Handles(bufs[1..]);
    }
  }

  /**
   * The resource map, keyed by each resource's type.  `typeOf` gives a
   * resource's type id, so the downcast in `get_resource` succeeds for
   * every stored entry.
   */
  predicate KeyedByType<R>(resources: map<nat, R>, typeOf: R -> nat)
  {
    forall k :: k in resources ==> typeOf(resources[k]) == k
  }

  /** `insert_resource`: replaces the entry of the same type and keeps the others. */
  function InsertResource<R>(resources: map<nat, R>, typeOf: R -> nat, res: R): (r: map<nat, R>)
    requires KeyedByType(resources, typeOf)
    ensures KeyedByType(r, typeOf)
    ensures typeOf(res) in r && r[typeOf(res)] == res
    ensures forall k :: k != typeOf(res) ==> (k in r <==> k in resources) && (k in r ==> r[k] == resources[k])
  {
    resources[typeOf(res) := res]
  }

  /** `get_resource`: the last inserted resource of that type; an absent type panics. */
  function GetResource<R>(resources: map<nat, R>, typeOf: R -> nat, t: nat): (r: R)
    requires KeyedByType(resources, typeOf) && t in resources
    ensures typeOf(r) == t
  {
    resources[t]
  }

  /** Getting a type after inserting one of it returns the inserted resource; other types are unaffected. */
  lemma ResourceInsertGet<R>(resources: map<nat, R>, typeOf: R -> nat, res: R, t: nat)
    requires KeyedByType(resources, typeOf)
    ensures GetResource(InsertResource(resources, typeOf, res), typeOf, typeOf(res)) == res
    ensures t != typeOf(res) && t in resources ==>
              GetResource(InsertResource(resources, typeOf, res), typeOf, t) == GetResource(resources, typeOf, t)
  {
  }

  /** `insert_model` / `get_model`: an absent handle gives `None`. */
  function GetModel<M>(models: map<nat, M>, handle: nat): (r: Option<M>)
    ensures r.None? <==> handle !in models
    ensures r.Some? ==> r.value == models[handle]
  {
    if handle in models then Some(models[handle]) else None
  }

  lemma ModelInsertGet<M>(models: map<nat, M>, handle: nat, other: nat, m: M)
    ensures GetModel(models[handle := m], handle) == Some(m)
    ensures other != handle ==> GetModel(models[handle := m], other) == GetModel(models, other)
  {
  }
}
