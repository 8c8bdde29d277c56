/**
 * The GPU buffer wrapper: creation, the cached memory mapping, uploads
 * through the mapping, the staged device-local upload and destruction.
 *
 * Driver calls are recorded in a log of `DriverCall`s; handles are
 * naturals chosen by the driver and passed in.  The driver's side of the
 * mapping protocol (a memory object is mapped at most once at a time, only
 * a mapped memory is unmapped, memory is never freed while mapped) is the
 * `Replay` of that log.
 */
module GpuBuffer {
  import opened Wrappers
  import opened ProtoWire
  import Util

  datatype Usage = TransferSrc | TransferDst | VertexBuffer | IndexBuffer | UniformBuffer | StorageBuffer | IndirectBuffer

  datatype MemProp = HostVisible | HostCoherent | DeviceLocal

  /** `vk::BufferCopy`. */
  datatype CopyRegion = CopyRegion(srcOffset: nat, dstOffset: nat, size: nat)

  datatype DriverCall =
    | MapMemory(memory: nat)
    | UnmapMemory(memory: nat)
    | DestroyBuffer(buffer: nat)
    | FreeMemory(memory: nat)
    | CopyBuffer(commandBuffer: nat, src: nat, dst: nat, region: CopyRegion)

  /**
   * A buffer with its bound memory.  `mapped` is the cached mapping pointer
   * being present; `contents` is the memory as seen through the mapping.
   */
  datatype Buffer = Buffer(handle: nat, memory: nat, size: nat, usage: set<Usage>, props: set<MemProp>,
                           mapped: bool, contents: seq<byte>)

  /** The mapping state of `memory` after the calls in `log`, or `None` once the protocol is broken. */
  function Replay(log: seq<DriverCall>, memory: nat): Option<bool>
  {
    if |log| == 0 then Some(false)
    else
      var prev := Replay(log[..|log| - 1], memory);
      var c := log[|log| - 1];
      if prev.None? then None
      else match c
        case MapMemory(m) => if m != memory then prev else if prev.value then None else Some(true)
        case UnmapMemory(m) => if m != memory then prev else if prev.value then Some(false) else None
        case FreeMemory(m) => if m == memory && prev.value then None else prev
        case _ => prev
  }

  lemma ReplaySnoc(log: seq<DriverCall>, c: DriverCall, memory: nat)
    ensures (log + [c])[..|log|] == log && (log + [c])[|log|] == c
  {
  }

  /** The buffer's cached pointer agrees with the driver's mapping state. */
  predicate Consistent(b: Buffer, log: seq<DriverCall>)
  {
    Replay(log, b.memory) == Some(b.mapped) && |b.contents| == b.size
  }

  /** `Buffer::create`: a fresh buffer is unmapped. */
  function Create(handle: nat, memory: nat, size: nat, usage: set<Usage>, props: set<MemProp>, initial: seq<byte>): (r: Buffer)
    requires |initial| == size
    ensures !r.mapped && r.size == size && r.usage == usage && r.props == props
    ensures r.handle == handle && r.memory == memory
  {
    Buffer(handle, memory, size, usage, props, false, initial)
  }

  /** `log` never names `memory`. */
  predicate Untouched(log: seq<DriverCall>, memory: nat)
  {
    forall i :: 0 <= i < |log| ==> log[i] != MapMemory(memory) && log[i] != UnmapMemory(memory) && log[i] != FreeMemory(memory)
  }

  /** Freshly allocated memory that no earlier call names is unmapped, so a new buffer is consistent. */
  lemma {:induction false} CreateConsistent(log: seq<DriverCall>, handle: nat, memory: nat, size: nat,
                                            usage: set<Usage>, props: set<MemProp>, initial: seq<byte>)
    requires |initial| == size && Untouched(log, memory)
    ensures Consistent(Create(handle, memory, size, usage, props, initial), log)
  {
    if |log| > 0 {
      var init := log[..|log| - 1];
      assert Untouched(init, memory) by {
        assert forall i :: 0 <= i < |init| ==> init[i] == log[i];
      }
      CreateConsistent(init, handle, memory, size, usage, props, initial);
    }
  }

  /** `map_memory`: maps on the first call only; later calls reuse the cached pointer. */
  function Map(b: Buffer, log: seq<DriverCall>): (r: (Buffer, seq<DriverCall>))
    ensures r.0 == b.(mapped := true)
    ensures b.mapped ==> r.1 == log
    ensures !b.mapped ==> r.1 == log + [MapMemory(b.memory)]
  {
    if b.mapped then (b, log) else (b.(mapped := true), log + [MapMemory(b.memory)])
  }

  /** `unmap_memory`: unmaps only when a pointer is cached, and drops it. */
  function Unmap(b: Buffer, log: seq<DriverCall>): (r: (Buffer, seq<DriverCall>))
    ensures r.0 == b.(mapped := false)
    ensures b.mapped ==> r.1 == log + [UnmapMemory(b.memory)]
    ensures !b.mapped ==> r.1 == log
  {
    if b.mapped then (b.(mapped := false), log + [UnmapMemory(b.memory)]) else (b, log)
  }

  /** `destroy`: unmap if mapped, then destroy the buffer, then free its memory. */
  function Destroy(b: Buffer, log: seq<DriverCall>): (r: seq<DriverCall>)
    ensures |r| == |log| + (if b.mapped then 3 else 2)
    ensures r[..|log|] == log
    ensures r[|r| - 2] == DestroyBuffer(b.handle) && r[|r| - 1] == FreeMemory(b.memory)
    ensures b.mapped <==> r[|log|] == UnmapMemory(b.memory)
  {
    var (u, l) := Unmap(b, log);
    l + [DestroyBuffer(b.handle), FreeMemory(b.memory)]
  }

  /** A second map is a no-op: no remapping and the same buffer. */
  lemma MapIdempotent(b: Buffer, log: seq<DriverCall>)
    ensures Map(Map(b, log).0, Map(b, log).1) == Map(b, log)
  {
  }

  /** Mapping and unmapping keep the buffer's flag in step with the driver and never break its protocol. */
  lemma MapUnmapConsistent(b: Buffer, log: seq<DriverCall>)
    requires Consistent(b, log)
    ensures Consistent(Map(b, log).0, Map(b, log).1)
    ensures Consistent(Unmap(b, log).0, Unmap(b, log).1)
  {
    ReplaySnoc(log, MapMemory(b.memory), b.memory);
    ReplaySnoc(log, UnmapMemory(b.memory), b.memory);
  }

  /** Destroying a consistent buffer frees its memory unmapped, whether or not it was mapped. */
  lemma DestroyUnmapsBeforeFree(b: Buffer, log: seq<DriverCall>)
    requires Consistent(b, log)
    ensures Replay(Destroy(b, log), b.memory) == Some(false)
  {
    var (u, l) := Unmap(b, log);
    MapUnmapConsistent(b, log);
    var l2 := l + [DestroyBuffer(b.handle)];
    ReplaySnoc(l, DestroyBuffer(b.handle), b.memory);
    ReplaySnoc(l2, FreeMemory(b.memory), b.memory);
    assert Destroy(b, log) == l2 + [FreeMemory(b.memory)];
  }

  /** `upload_data`: map (once) and copy the elements to the start of the buffer. */
  function Upload(b: Buffer, log: seq<DriverCall>, data: seq<seq<byte>>, elemSize: nat): (r: (Buffer, seq<DriverCall>))
    requires |b.contents| == b.size && Util.Uniform(data, elemSize) && |data| * elemSize <= b.size
    ensures r.0.mapped && |r.0.contents| == b.size
    ensures r.0.contents[..|data| * elemSize] == Util.Flatten(data)
    ensures r.0.contents[|data| * elemSize..] == b.contents[|data| * elemSize..]
    ensures r.1 == Map(b, log).1
  {
    var (m, l) := Map(b, log);
    (m.(contents := Util.MemCopy(m.contents, data, elemSize)), l)
  }

  /**
   * `create_host_visible_buffer`: a HOST_VISIBLE | HOST_COHERENT buffer of
   * `|data| * elemSize` bytes, left mapped, holding exactly the data.
   */
  function CreateHostVisible(handle: nat, memory: nat, usage: set<Usage>, data: seq<seq<byte>>, elemSize: nat,
                             initial: seq<byte>, log: seq<DriverCall>): (r: (Buffer, seq<DriverCall>))
    requires Util.Uniform(data, elemSize) && |initial| == |data| * elemSize
    ensures r.0.size == |data| * elemSize && r.0.contents == Util.Flatten(data)
    ensures r.0.mapped && r.0.usage == usage && r.0.props == {HostVisible, HostCoherent}
    ensures r.0.handle == handle && r.0.memory == memory
    ensures r.1 == log + [MapMemory(memory)]
  {
    var b := Create(handle, memory, |data| * elemSize, usage, {HostVisible, HostCoherent}, initial);
    Upload(b, log, data, elemSize)
  }

  /** `cmd_copy`: one region from offset 0 to offset 0 of `size` bytes, recorded into `commandBuffer`. */
  function CmdCopy(dst: Buffer, commandBuffer: nat, src: Buffer, size: nat, log: seq<DriverCall>): seq<DriverCall>
  {
    log + [CopyBuffer(commandBuffer, src.handle, dst.handle, CopyRegion(0, 0, size))]
  }

  /** What a recorded copy does to the destination when the command buffer executes. */
  function ExecuteCopy(src: seq<byte>, dst: seq<byte>, region: CopyRegion): (r: seq<byte>)
    requires region.srcOffset + region.size <= |src| && region.dstOffset + region.size <= |dst|
    ensures |r| == |dst|
    ensures r[region.dstOffset..region.dstOffset + region.size] == src[region.srcOffset..region.srcOffset + region.size]
    ensures r[..region.dstOffset] == dst[..region.dstOffset]
    ensures r[region.dstOffset + region.size..] == dst[region.dstOffset + region.size..]
  {
    dst[..region.dstOffset] + src[region.srcOffset..region.srcOffset + region.size] + dst[region.dstOffset + region.size..]
  }

  /** The result of `create_device_local_buffer`: the device buffer, the context's staging list and the driver log. */
  datatype DeviceLocalUpload = DeviceLocalUpload(device: Buffer, staging: seq<Buffer>, log: seq<DriverCall>)

  /**
   * `create_device_local_buffer`: fill a TRANSFER_SRC host-visible staging
   * buffer, create a DEVICE_LOCAL buffer with TRANSFER_DST added to the
   * usage, record the copy, and hand the staging buffer to the context.
   */
  function CreateDeviceLocal(stagingHandle: nat, stagingMemory: nat, handle: nat, memory: nat, commandBuffer: nat,
                             usage: set<Usage>, data: seq<seq<byte>>, elemSize: nat,
                             stagingInitial: seq<byte>, initial: seq<byte>,
                             staging: seq<Buffer>, log: seq<DriverCall>): (r: DeviceLocalUpload)
    requires Util.Uniform(data, elemSize)
    requires |stagingInitial| == |data| * elemSize && |initial| == |data| * elemSize
    ensures usage <= r.device.usage && TransferDst in r.device.usage
    ensures r.device.props == {DeviceLocal} && r.device.size == |data| * elemSize && !r.device.mapped
    ensures |r.staging| == |staging| + 1 && r.staging[..|staging|] == staging
    ensures r.staging[|staging|].usage == {TransferSrc} && r.staging[|staging|].contents == Util.Flatten(data)
    ensures r.log == log + [MapMemory(stagingMemory),
                            CopyBuffer(commandBuffer, stagingHandle, handle, CopyRegion(0, 0, |data| * elemSize))]
  {
    var size := |data| * elemSize;
    var (stagingBuffer, l) := CreateHostVisible(stagingHandle, stagingMemory, {TransferSrc}, data, elemSize, stagingInitial, log);
    var device := Create(handle, memory, size, {TransferDst} + usage, {DeviceLocal}, initial);
    var l2 := CmdCopy(device, commandBuffer, stagingBuffer, size, l);
    DeviceLocalUpload(device, staging + [stagingBuffer], l2)
  }

  /**
   * Once the upload command buffer runs, the device buffer holds exactly
   * the data, and the staging buffer is still alive: the upload neither
   * destroys nor frees it.
   */
  lemma DeviceLocalReceivesData(stagingHandle: nat, stagingMemory: nat, handle: nat, memory: nat, commandBuffer: nat,
                                usage: set<Usage>, data: seq<seq<byte>>, elemSize: nat,
                                stagingInitial: seq<byte>, initial: seq<byte>,
                                staging: seq<Buffer>, log: seq<DriverCall>)
    requires Util.Uniform(data, elemSize)
    requires |stagingInitial| == |data| * elemSize && |initial| == |data| * elemSize
    ensures var r := CreateDeviceLocal(stagingHandle, stagingMemory, handle, memory, commandBuffer, usage, data,
                                       elemSize, stagingInitial, initial, staging, log);
            var copy := r.log[|r.log| - 1];
            copy.CopyBuffer? && copy.src == r.staging[|staging|].handle && copy.dst == r.device.handle
            && copy.region.size <= |r.staging[|staging|].contents| && copy.region.size <= |r.device.contents|
            && ExecuteCopy(r.staging[|staging|].contents, r.device.contents, copy.region) == Util.Flatten(data)
    ensures var r := CreateDeviceLocal(stagingHandle, stagingMemory, handle, memory, commandBuffer, usage, data,
                                       elemSize, stagingInitial, initial, staging, log);
            forall i :: |log| <= i < |r.log| ==> r.log[i] != DestroyBuffer(stagingHandle) && r.log[i] != FreeMemory(stagingMemory)
  {
    var r := CreateDeviceLocal(stagingHandle, stagingMemory, handle, memory, commandBuffer, usage, data,
                               elemSize, stagingInitial, initial, staging, log);
    Util.FlattenLayout(data, elemSize, 0, 0);
    var copy := r.log[|r.log| - 1];
    var e := ExecuteCopy(r.staging[|staging|].contents, r.device.contents, copy.region);
    assert e[0..|data| * elemSize] == Util.Flatten(data);
    assert |r.device.contents| == |data| * elemSize;
  }
}
