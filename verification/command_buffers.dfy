/**
 * The command-buffer list: one pool, `count` per-frame primary buffers and
 * one more for uploads, which is the last.  The driver's allocation is a
 * parameter: the handles it returns for a request.
 */
module CommandBuffers {
  datatype AllocateRequest = AllocateRequest(pool: nat, bufferCount: nat)

  datatype CommandBufferList = CommandBufferList(pool: nat, count: nat, commands: seq<nat>)

  /** `create` asks for `count + 1` buffers from the pool. */
  function Request(pool: nat, count: nat): (r: AllocateRequest)
    ensures r.pool == pool && r.bufferCount == count + 1
  {
    AllocateRequest(pool, count + 1)
  }

  /** Allocation hands back as many distinct handles as were requested. */
  predicate Allocated(req: AllocateRequest, handles: seq<nat>)
  {
    |handles| == req.bufferCount && forall a, b :: 0 <= a < b < |handles| ==> handles[a] != handles[b]
  }

  function Create(pool: nat, count: nat, handles: seq<nat>): (l: CommandBufferList)
    requires Allocated(Request(pool, count), handles)
    ensures |l.commands| == l.count + 1 && l.count == count && l.pool == pool
  {
    CommandBufferList(pool, count, handles)
  }

  /** `get_command_buffer`: an index past the list panics. */
  function Get(l: CommandBufferList, index: nat): (r: nat)
    requires index < |l.commands|
    ensures r == l.commands[index]
  {
    l.commands[index]
  }

  /** `get_upload_command_buffer`: the last buffer, at index `count`. */
  function Upload(l: CommandBufferList): (r: nat)
    requires |l.commands| == l.count + 1
    ensures r == l.commands[l.count]
  {
    l.commands[|l.commands| - 1]
  }

  /** Every per-frame buffer differs from the upload buffer, and from every other per-frame buffer. */
  lemma FrameBuffersDistinct(pool: nat, count: nat, handles: seq<nat>, i: nat, j: nat)
    requires Allocated(Request(pool, count), handles)
    requires i < count && j < count
    ensures Get(Create(pool, count, handles), i) != Upload(Create(pool, count, handles))
    ensures i != j ==> Get(Create(pool, count, handles), i) != Get(Create(pool, count, handles), j)
  {
  }

  datatype Call = FreeCommandBuffers(pool: nat, buffers: seq<nat>) | DestroyPool(pool: nat)

  /** `destroy`: frees every allocated buffer, the upload one included, then the pool. */
  function Destroy(l: CommandBufferList): (calls: seq<Call>)
    requires |l.commands| == l.count + 1
    ensures |calls| == 2 && calls[1] == DestroyPool(l.pool)
    ensures calls[0].FreeCommandBuffers? && calls[0].pool == l.pool
    ensures forall i :: 0 <= i <= l.count ==> Get(l, i) in calls[0].buffers
    ensures Upload(l) in calls[0].buffers
  {
    [FreeCommandBuffers(l.pool, l.commands), DestroyPool(l.pool)]
  }
}
