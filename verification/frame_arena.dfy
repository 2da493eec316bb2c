/**
 * The frame arena of the binding layer: `_copyImageToHeap` derives a luma
 * buffer from an RGBA frame with a fixed integer weighting and copies the
 * RGBA bytes into the engine's frame buffer.
 */
module FrameArena {
  import opened Base

  function Min3(a: int, b: int, c: int): int
  {
    if a <= b && a <= c then a else if b <= c then b else c
  }

  function Max3(a: int, b: int, c: int): int
  {
    if a >= b && a >= c then a else if b >= c then b else c
  }

  /**
   * Luma of one pixel: red counted three times, green four times and blue
   * once, then shifted right by three, i.e. (3R + 4G + B) / 8.  The result
   * always lies between the darkest and the brightest channel, so a grey
   * pixel keeps its value.
   */
  function PixelLuma(r: byte, g: byte, b: byte): (y: byte)
    ensures Min3(r, g, b) <= y <= Max3(r, g, b)
    ensures r == g == b ==> y == r
    ensures 8 * y <= 3 * r + 4 * g + b < 8 * y + 8
  {
    (r + r + r + b + g + g + g + g) / 8
  }

  /**
   * Luma of pixel `p` of an RGBA buffer: bytes 4p, 4p+1, 4p+2 are red, green
   * and blue, byte 4p+3 (alpha) is never read.  A read past the end of the
   * buffer yields `undefined`, the sum becomes NaN and NaN >> 3 is 0.
   */
  function LumaAt(data: seq<byte>, p: nat): byte
  {
    if 4 * p + 2 < |data| then PixelLuma(data[4 * p], data[4 * p + 1], data[4 * p + 2]) else 0
  }

  /** The arena's views: the luma array and the RGBA frame heap, either of which may not exist yet. */
  datatype Arena = Arena(videoSize: nat, videoLuma: Option<seq<byte>>, dataHeap: Option<seq<byte>>)

  /** Outcome of copying one frame: the heap took it, there is no heap, or the frame did not fit. */
  datatype CopyStatus = Copied | NoHeap | HeapRangeError

  /**
   * The luma loop: for every pixel p below videoSize, write LumaAt(data, p)
   * into luma[p]; writes past the end of the typed array are dropped.
   */
  method ConvertLuma(data: seq<byte>, videoSize: nat, luma: seq<byte>) returns (out: seq<byte>)
    ensures |out| == |luma|
    ensures forall p :: 0 <= p < |out| && p < videoSize ==> out[p] == LumaAt(data, p)
    ensures forall p :: videoSize <= p < |out| ==> out[p] == luma[p]
  {
    out := luma;
    var q := 0;
    var p := 0;
    while p < videoSize
      invariant 0 <= p <= videoSize
      invariant q == 4 * p
      invariant |out| == |luma|
      invariant forall k :: 0 <= k < |out| && k < p ==> out[k] == LumaAt(data, k)
      invariant forall k :: p <= k < |out| ==> out[k] == luma[k]
    {
      var y: byte := 0;
      if q + 2 < |data| {
        var r: int, g: int, b: int := data[q], data[q + 1], data[q + 2];
        y := (r + r + r + b + g + g + g + g) / 8;
      }
      assert y == LumaAt(data, p);
      if p < |out| {
        out := out[p := y];
      }
      q := q + 4;
      p := p + 1;
    }
  }

  /**
   * `a'` is `a` after the luma buffer was refreshed from `data`: the first
   * `videoSize` values are the frame's luma, the rest of the buffer is
   * untouched, and an arena without a luma buffer still has none.
   */
  predicate LumaRefreshed(a: Arena, data: seq<byte>, a': Arena)
  {
    && a'.videoSize == a.videoSize
    && (a'.videoLuma.Some? <==> a.videoLuma.Some?)
    && (a.videoLuma.Some? ==>
          && |a'.videoLuma.value| == |a.videoLuma.value|
          && (forall p :: 0 <= p < |a'.videoLuma.value| && p < a.videoSize ==> a'.videoLuma.value[p] == LumaAt(data, p))
          && (forall p | a.videoSize <= p < |a.videoLuma.value| :: a'.videoLuma.value[p] == a.videoLuma.value[p]))
  }

  /**
   * `a'` is `a` after the frame was written, or not, to the heap: a copied
   * frame reads back from the start of the heap, which keeps its length and
   * its bytes past the frame; a frame that was not copied leaves it as it was.
   */
  predicate HeapWritten(a: Arena, data: seq<byte>, a': Arena, copied: bool)
  {
    if copied then
      && a.dataHeap.Some? && a'.dataHeap.Some?
      && |a'.dataHeap.value| == |a.dataHeap.value|
      && |data| <= |a.dataHeap.value|
      && a'.dataHeap.value[..|data|] == data
      && a'.dataHeap.value[|data|..] == a.dataHeap.value[|data|..]
    else a'.dataHeap == a.dataHeap
  }

  /**
   * `_copyImageToHeap` on an image whose RGBA bytes are `data`: the luma
   * array (if any) is refreshed, then the bytes are copied to the start of
   * the heap (if any).  `TypedArray.set` throws a RangeError when the
   * source is longer than the heap.
   */
  method CopyImageToHeap(a: Arena, data: seq<byte>) returns (a': Arena, status: CopyStatus)
    ensures LumaRefreshed(a, data, a')
    ensures status == Copied <==> a.dataHeap.Some? && |data| <= |a.dataHeap.value|
    ensures status == NoHeap <==> a.dataHeap.None?
    ensures status == Copied ==> a'.dataHeap == Some(data + a.dataHeap.value[|data|..])
    ensures HeapWritten(a, data, a', status == Copied)
  {
    a' := a;
    if a.videoLuma.Some? {
      var luma := ConvertLuma(data, a.videoSize, a.videoLuma.value);
      a' := a'.(videoLuma := Some(luma));
    }
    if a.dataHeap.None? {
      status := NoHeap;
    } else if |data| > |a.dataHeap.value| {
      status := HeapRangeError;
    } else {
      var heap := data + a.dataHeap.value[|data|..];
      assert heap[..|data|] == data && heap[|data|..] == a.dataHeap.value[|data|..];
      a' := a'.(dataHeap := Some(heap));
      status := Copied;
    }
  }

  /** The detectMarker status code used when the frame could not be handed to the engine. */
  const NOT_COPIED: int := -99

  /**
   * `detectMarker`: the engine runs only when the frame reached the heap;
   * otherwise the status is -99.  `engineStatus` is what the engine returns.
   */
  method DetectMarker(a: Arena, data: seq<byte>, engineStatus: int) returns (a': Arena, status: Option<int>)
    ensures status == None <==> a.dataHeap.Some? && |data| > |a.dataHeap.value|
    ensures a.dataHeap.Some? && |data| <= |a.dataHeap.value| ==> status == Some(engineStatus)
    ensures a.dataHeap.None? ==> status == Some(NOT_COPIED)
    ensures LumaRefreshed(a, data, a')
    ensures HeapWritten(a, data, a', a.dataHeap.Some? && |data| <= |a.dataHeap.value|)
  {
    var copy;
    a', copy := CopyImageToHeap(a, data);
    match copy
    case Copied => status := Some(engineStatus);
    case NoHeap => status := Some(NOT_COPIED);
    case HeapRangeError => status := None;
  }

  /** Alpha bytes never influence the luma: two frames that agree on R, G and B agree on every luma value. */
  lemma LumaIgnoresAlpha(data: seq<byte>, data': seq<byte>, p: nat)
    requires |data| == |data'|
    requires forall q :: 0 <= q < |data| && q % 4 != 3 ==> data[q] == data'[q]
    ensures LumaAt(data, p) == LumaAt(data', p)
  {
    if 4 * p + 2 < |data| {
      assert (4 * p) % 4 == 0 && (4 * p + 1) % 4 == 1 && (4 * p + 2) % 4 == 2;
    }
  }
}
