/**
 * The swapchain manager's decisions: how many images to ask for, which
 * extent to use, the per-image synchronisation objects, and the ring of
 * semaphore indices that advances once per acquired image.
 *
 * Semaphores and fences are named by the vector they live in and their
 * slot, which is all the index bookkeeping needs.
 */
module Swapchain {
  import Util

  const U32_MAX: nat := 0xFFFF_FFFF

  /**
   * The requested image count: one more than the surface minimum, capped
   * by the maximum when the surface has one (a maximum of 0 means none).
   */
  function DesiredImageCount(minCount: nat, maxCount: nat): (r: nat)
    ensures maxCount == 0 ==> r == minCount + 1
    ensures maxCount > 0 ==> r <= maxCount && (r == minCount + 1 || r == maxCount)
    ensures maxCount > 0 && minCount < maxCount ==> r == minCount + 1
    ensures r <= minCount + 1
  {
    var desired := minCount + 1;
    if maxCount > 0 && desired > maxCount then maxCount else desired
  }

  datatype Extent = Extent(width: nat, height: nat)

  /** The surface's current extent, unless its width is the "any size" value, in which case the window's size. */
  function ChooseExtent(current: Extent, windowWidth: nat, windowHeight: nat): (r: Extent)
    ensures current.width == U32_MAX ==> r == Extent(windowWidth, windowHeight)
    ensures current.width != U32_MAX ==> r == current
  {
    if current.width == U32_MAX then Extent(windowWidth, windowHeight) else current
  }

  datatype Sem = ImageAvailable(slot: nat) | RenderFinish(slot: nat)

  datatype Fence = Fence(slot: nat, signaled: bool)

  datatype Sync = Sync(fences: seq<Fence>, imageAvailable: seq<Sem>, renderFinish: seq<Sem>)

  /** One fence and two semaphores per present image; only the first fence starts signaled. */
  function CreateSync(imageCount: nat): (r: Sync)
    ensures |r.fences| == |r.imageAvailable| == |r.renderFinish| == imageCount
    ensures forall i :: 0 <= i < imageCount ==> (r.fences[i].signaled <==> i == 0)
    ensures forall i :: 0 <= i < imageCount ==>
              r.fences[i].slot == i && r.imageAvailable[i] == ImageAvailable(i) && r.renderFinish[i] == RenderFinish(i)
  {
    Sync(seq(imageCount, i requires 0 <= i => Fence(i, i == 0)),
         seq(imageCount, i requires 0 <= i => ImageAvailable(i)),
         seq(imageCount, i requires 0 <= i => RenderFinish(i)))
  }

  /** The ring: the current and previous semaphore index and the image index handed to present. */
  datatype Ring = Ring(count: nat, index: nat, prev: nat, imageToPresent: nat)

  predicate Valid(r: Ring)
  {
    r.count > 0 && r.index < r.count && r.prev < r.count
  }

  function Init(imageCount: nat): (r: Ring)
    ensures r.index == 0 && r.prev == 0 && r.imageToPresent == 0
    ensures imageCount > 0 ==> Valid(r)
  {
    Ring(imageCount, 0, 0, 0)
  }

  /** What one `wait_for_swap_chain` does besides acquiring. */
  datatype Acquired = Acquired(ring: Ring, signal: Sem, waitFence: nat)

  /**
   * `wait_for_swap_chain`: acquisition signals the image-available
   * semaphore of the current index, the index advances by one modulo the
   * image count, and the fence of the old index is waited on and reset.
   */
  function WaitForSwapChain(r: Ring): (a: Acquired)
    requires Valid(r)
    ensures Valid(a.ring)
    ensures a.ring.prev == r.index && a.ring.index == (r.index + 1) % r.count
    ensures a.ring.count == r.count && a.ring.imageToPresent == r.imageToPresent
    ensures a.signal == ImageAvailable(r.index) && a.waitFence == r.index
  {
    var next := if r.index + 1 >= r.count then 0 else r.index + 1;
    Acquired(Ring(r.count, next, r.index, r.imageToPresent), ImageAvailable(r.index), r.index)
  }

  datatype Handout = Handout(wait: Sem, signal: Sem, fence: nat)

  /** `get_semaphores`: wait on the previous index's image-available semaphore, signal and fence the current index. */
  function GetSemaphores(r: Ring): (h: Handout)
    requires Valid(r)
    ensures h.wait == ImageAvailable(r.prev) && h.signal == RenderFinish(r.index) && h.fence == r.index
  {
    Handout(ImageAvailable(r.prev), RenderFinish(r.index), r.index)
  }

  datatype PresentInfo = PresentInfo(wait: Sem, image: nat)

  /** `present`: waits on the current render-finish semaphore and names the stored image index. */
  function Present(r: Ring): (p: PresentInfo)
    requires Valid(r)
    ensures p.wait == RenderFinish(r.index) && p.image == r.imageToPresent
  {
    PresentInfo(RenderFinish(r.index), r.imageToPresent)
  }

  /**
   * Within a frame, submission waits on the very semaphore acquisition
   * signalled, and present waits on the semaphore submission signals.
   */
  lemma FrameSemaphoresChain(r: Ring)
    requires Valid(r)
    ensures var a := WaitForSwapChain(r);
            GetSemaphores(a.ring).wait == a.signal
            && Present(a.ring).wait == GetSemaphores(a.ring).signal
  {
  }

  /**
   * The fence waited on by an acquisition is the one handed out for the
   * previous frame's submission; on the first frame it is fence 0, the
   * only one created signaled.
   */
  lemma FenceWaitedIsLastSubmitted(r: Ring)
    requires Valid(r)
    ensures var a1 := WaitForSwapChain(r);
            var a2 := WaitForSwapChain(a1.ring);
            a2.waitFence == GetSemaphores(a1.ring).fence
  {
  }

  lemma FirstWaitIsOnSignaledFence(imageCount: nat)
    requires imageCount > 0
    ensures WaitForSwapChain(Init(imageCount)).waitFence == 0
    ensures CreateSync(imageCount).fences[0].signaled
  {
  }

  /** `n` frames in a row. */
  function Frames(r: Ring, n: nat): (s: Ring)
    requires Valid(r)
    ensures Valid(s) && s.count == r.count
    decreases n
  {
    if n == 0 then r else Frames(WaitForSwapChain(r).ring, n - 1)
  }

  /**
   * The semaphore index after `n` frames is `n` steps around the ring,
   * and the image index to present never changes from the one set at
   * creation, so every present names image 0.
   */
  lemma {:induction false} FramesAdvance(r: Ring, n: nat)
    requires Valid(r)
    ensures Frames(r, n).index == (r.index + n) % r.count
    ensures Frames(r, n).imageToPresent == r.imageToPresent
    decreases n
  {
    if n > 0 {
      var a := WaitForSwapChain(r).ring;
      FramesAdvance(a, n - 1);
      ModStep(r.index, n, r.count);
    }
  }

  lemma ModStep(i: nat, n: nat, c: nat)
    requires c > 0 && i < c && n > 0
    ensures ((i + 1) % c + (n - 1)) % c == (i + n) % c
  {
    if i + 1 == c {
      assert (i + 1) % c == 0;
      assert i + n == c + (n - 1);
      ModShift(n - 1, c);
    } else {
      assert (i + 1) % c == i + 1;
    }
  }

  lemma ModShift(x: nat, c: nat)
    requires c > 0
    ensures (c + x) % c == x % c
  {
    Util.DivUnique(c + x, c, x / c + 1, x % c);
  }

  lemma PresentAlwaysImageZero(imageCount: nat, n: nat)
    requires imageCount > 0
    ensures Present(Frames(Init(imageCount), n)).image == 0
  {
    FramesAdvance(Init(imageCount), n);
  }
}
