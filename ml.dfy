/** The helper module src/ml.ts: `convertImageToTensor` packs an interleaved RGBA
    bitmap into a planar RGB tensor, `getTopClasses` ranks a probability vector and
    labels the best entries with title-cased class names. */
module Ml {
  import opened Pixels
  import opened Ranking
  import opened TitleCase

  /** Value of slot `k` of the planar tensor with planes of `n` values: slot
      `c * n + p` holds byte `c` of pixel `p`, divided by 255, for the planes R, G
      and B; slots of further planes stay 0. */
  function PlanarAt(data: seq<Byte>, n: nat, k: nat): Float
    requires n > 0
  {
    if k < 3 * n then Normalize(Read(data, (k % n) * 4 + k / n)) else Num(0.0)
  }

  /** The tensor `convertImageToTensor` produces for a `h` x `w` bitmap `data` and a
      buffer of `channels` planes. */
  function Planar(data: seq<Byte>, channels: nat, h: nat, w: nat): (r: seq<Float>)
    ensures |r| == channels * (h * w)
  {
    var n := h * w;
    if n == 0 then []
    else
      seq(channels * n, k requires 0 <= k < channels * n => PlanarAt(data, n, k))
  }

  /** Slot `q` of plane `c`: byte `c` of pixel `q` for the planes R, G and B, 0 in
      every further plane. */
  lemma PlanarAtSlot(data: seq<Byte>, n: nat, c: nat, q: nat)
    requires q < n
    ensures PlanarAt(data, n, c * n + q) ==
      if c < 3 then Normalize(Read(data, q * 4 + c)) else Num(0.0)
  {
    PlaneSlot(c, q, n);
    if c < 3 {
      MulMonotone(c + 1, 3, n);
    } else {
      MulMonotone(3, c, n);
    }
  }

  /** Channel `c` of pixel `(y, x)` lands in slot `c * h * w + y * w + x`, for each of
      the planes R, G and B the buffer has room for. */
  lemma PlanarLayout(data: seq<Byte>, channels: nat, h: nat, w: nat, c: nat, y: nat, x: nat)
    requires c < 3 && c < channels && y < h && x < w
    ensures c * (h * w) + y * w + x < |Planar(data, channels, h, w)|
    ensures Planar(data, channels, h, w)[c * (h * w) + y * w + x]
            == Normalize(Read(data, (y * w + x) * 4 + c))
  {
    var n := h * w;
    var p := y * w + x;
    PixelBound(y, x, h, w);
    PixelBound(c, p, channels, n);
    PlanarAtSlot(data, n, c, p);
    assert Planar(data, channels, h, w)[c * n + p] == PlanarAt(data, n, c * n + p);
  }

  /** With three channels, `(c, y, x) |-> c * h * w + y * w + x` never sends two
      pixel channels to the same slot ... */
  lemma PlaneIndexInjective(h: nat, w: nat, c: nat, y: nat, x: nat, c': nat, y': nat, x': nat)
    requires c < 3 && y < h && x < w && c' < 3 && y' < h && x' < w
    requires c * (h * w) + y * w + x == c' * (h * w) + y' * w + x'
    ensures c == c' && y == y' && x == x'
  {
    var n := h * w;
    PixelBound(y, x, h, w);
    PixelBound(y', x', h, w);
    PlaneSlot(c, y * w + x, n);
    PlaneSlot(c', y' * w + x', n);
    PlaneSlot(y, x, w);
    PlaneSlot(y', x', w);
  }

  /** ... and reaches every slot below `3 * h * w`: each slot is written exactly once. */
  lemma PlaneIndexSurjective(h: nat, w: nat, k: nat)
    requires k < 3 * (h * w)
    ensures w > 0 && k / (h * w) < 3 && (k % (h * w)) / w < h && k % (h * w) % w < w
    ensures k == (k / (h * w)) * (h * w) + ((k % (h * w)) / w) * w + k % (h * w) % w
  {
    var n := h * w;
    PlaneBound(k, n, 3);
    var p := k % n;
    PlaneBound(p, w, h);
  }

  /** Given a bitmap of (at least) `h * w` RGBA pixels, every slot of the tensor is a
      number in [0, 1]: no slot reads past the bitmap. */
  lemma PlanarInUnitRange(data: seq<Byte>, channels: nat, h: nat, w: nat)
    requires |data| >= 4 * (h * w)
    ensures forall k :: 0 <= k < |Planar(data, channels, h, w)| ==>
      Planar(data, channels, h, w)[k].Num? &&
      0.0 <= Planar(data, channels, h, w)[k].r <= 1.0
  {
    var n := h * w;
    var r := Planar(data, channels, h, w);
    forall k | 0 <= k < |r|
      ensures r[k].Num? && 0.0 <= r[k].r <= 1.0
    {
      var c, q := Decompose(k, n, channels);
      PlanarAtSlot(data, n, c, q);
      if c < 3 {
        PixelBound(q, c, n, 4);
      }
    }
  }

  /** The alpha byte at offset `4 * p + 3` of each pixel is never read: bitmaps that
      differ only in alpha pack to the same tensor. */
  lemma PlanarIgnoresAlpha(data: seq<Byte>, data': seq<Byte>, channels: nat, h: nat, w: nat)
    requires |data| == |data'|
    requires forall i :: 0 <= i < |data| && i % 4 != 3 ==> data[i] == data'[i]
    ensures Planar(data, channels, h, w) == Planar(data', channels, h, w)
  {
    var n := h * w;
    var r, r' := Planar(data, channels, h, w), Planar(data', channels, h, w);
    forall k | 0 <= k < |r|
      ensures r[k] == r'[k]
    {
      var c, q := Decompose(k, n, channels);
      PlanarAtSlot(data, n, c, q);
      PlanarAtSlot(data', n, c, q);
      if c < 3 {
        ByteOffset(q, c);
        assert Read(data, q * 4 + c) == Read(data', q * 4 + c);
      }
    }
  }

  /** The buffer of `channels` planes of `n` slots once the first `done` pixels
      (row-major) have been packed. */
  function Packed(data: seq<Byte>, channels: nat, n: nat, done: nat): (r: seq<Float>)
    ensures |r| == channels * n
  {
    if n == 0 then []
    else
      seq(channels * n, k requires 0 <= k < channels * n =>
        if k % n < done then PlanarAt(data, n, k) else Num(0.0))
  }

  /** Packing pixel `p` writes its R, G and B bytes into the three planes and
      advances the packed prefix by one pixel. */
  lemma PackPixel(data: seq<Byte>, channels: nat, n: nat, p: nat)
    requires p < n
    ensures
      Stored(Stored(Stored(Packed(data, channels, n, p),
        0 * n + p, Normalize(Read(data, p * 4))),
        1 * n + p, Normalize(Read(data, p * 4 + 1))),
        2 * n + p, Normalize(Read(data, p * 4 + 2)))
      == Packed(data, channels, n, p + 1)
  {
    var before := Packed(data, channels, n, p);
    var after := Packed(data, channels, n, p + 1);
    var s1 := Stored(before, 0 * n + p, Normalize(Read(data, p * 4)));
    var s2 := Stored(s1, 1 * n + p, Normalize(Read(data, p * 4 + 1)));
    var s3 := Stored(s2, 2 * n + p, Normalize(Read(data, p * 4 + 2)));
    forall k | 0 <= k < |s3|
      ensures s3[k] == after[k]
    {
      var c, q := Decompose(k, n, channels);
      PackSlot(data, channels, n, p, c, q);
      SlotEq(c, q, 0, p, n);
      SlotEq(c, q, 1, p, n);
      SlotEq(c, q, 2, p, n);
      assert s3[k] == if k == 2 * n + p then Normalize(Read(data, p * 4 + 2)) else s2[k];
      assert s2[k] == if k == 1 * n + p then Normalize(Read(data, p * 4 + 1)) else s1[k];
      assert s1[k] == if k == 0 * n + p then Normalize(Read(data, p * 4)) else before[k];
    }
    assert s3 == after;
  }

  /** Slot `q` of plane `c` of the buffer: packed once pixel `q` has been. */
  lemma PackedAt(data: seq<Byte>, channels: nat, n: nat, done: nat, c: nat, q: nat)
    requires c < channels && q < n
    ensures c * n + q < channels * n
    ensures Packed(data, channels, n, done)[c * n + q] ==
      if q < done then PlanarAt(data, n, c * n + q) else Num(0.0)
  {
    PixelBound(c, q, channels, n);
    PlaneSlot(c, q, n);
  }

  /** Slot `c * n + q` of the buffer across the packing of pixel `p`: it changes
      only when `q` is `p`, and then to byte `c` of pixel `p` for `c < 3`. */
  lemma PackSlot(data: seq<Byte>, channels: nat, n: nat, p: nat, c: nat, q: nat)
    requires p < n && q < n && c < channels
    ensures c * n + q < channels * n
    ensures Packed(data, channels, n, p + 1)[c * n + q] ==
      if q == p && c < 3 then Normalize(Read(data, p * 4 + c))
      else Packed(data, channels, n, p)[c * n + q]
  {
    PackedAt(data, channels, n, p, c, q);
    PackedAt(data, channels, n, p + 1, c, q);
    PlanarAtSlot(data, n, c, q);
  }

  /** Once every pixel is packed, the buffer is the planar tensor. */
  lemma PackedAll(data: seq<Byte>, channels: nat, h: nat, w: nat)
    ensures Packed(data, channels, h * w, h * w) == Planar(data, channels, h, w)
  {
    var n := h * w;
    if n > 0 {
      forall k | 0 <= k < channels * n
        ensures Packed(data, channels, n, n)[k] == Planar(data, channels, h, w)[k]
      {
        var c, q := Decompose(k, n, channels);
        PackedAt(data, channels, n, n, c, q);
      }
    }
  }

  /** The body of the column loop for pixel `p = y * imgW + x`: its R, G and B bytes
      (at `p * 4`, `p * 4 + 1` and `p * 4 + 2`) divided by 255 go to slot `p` of
      planes 0, 1 and 2. */
  method StorePixel(out: array<Float>, data: seq<Byte>, channels: nat, n: nat, p: nat)
    requires p < n && out[..] == Packed(data, channels, n, p)
    modifies out
    ensures out[..] == Packed(data, channels, n, p + 1)
  {
    var idx := p * 4;
    PackPixel(data, channels, n, p);
    Store(out, 0 * n + p, Normalize(Read(data, idx)));
    Store(out, 1 * n + p, Normalize(Read(data, idx + 1)));
    Store(out, 2 * n + p, Normalize(Read(data, idx + 2)));
  }

  /** `convertImageToTensor` on the already resized bitmap `data`: a nested row/column
      loop writes the three colour bytes of each pixel into the three planes of a
      zero-filled buffer of `channels * height * width` slots. */
  method ConvertImageToTensor(data: seq<Byte>, dims: Dims) returns (out: array<Float>)
    ensures fresh(out)
    ensures out.Length == dims.channels * dims.height * dims.width
    ensures out[..] == Planar(data, dims.channels, dims.height, dims.width)
  {
    var channels, imgH, imgW := dims.channels, dims.height, dims.width;
    var n := imgH * imgW;
    out := new Float[channels * n](_ => Num(0.0));
    assert out[..] == Packed(data, channels, n, 0);

    var pixelIndex := 0;
    var y := 0;
    while y < imgH
      invariant 0 <= y <= imgH
      invariant pixelIndex == y * imgW
      invariant out[..] == Packed(data, channels, n, pixelIndex)
    {
      var x := 0;
      while x < imgW
        invariant 0 <= x <= imgW
        invariant pixelIndex == y * imgW + x
        invariant out[..] == Packed(data, channels, n, pixelIndex)
      {
        PixelBound(y, x, imgH, imgW);
        StorePixel(out, data, channels, n, y * imgW + x);
        pixelIndex := pixelIndex + 1;
        x := x + 1;
      }
      assert y * imgW + imgW == (y + 1) * imgW;
      y := y + 1;
    }
    // every pixel has been visited exactly once
    assert pixelIndex == n;
    PackedAll(data, channels, imgH, imgW);
  }

  // ---------------------------------------------------------------------------
  // getTopClasses

  /** A ranked entry labelled with its (title-cased) class name. */
  datatype Prediction = Prediction(idx: nat, probability: real, name: string)

  /** Every kept entry's index has a class name. */
  predicate Labelled(top: seq<Ranked>, classList: seq<string>) {
    forall k :: 0 <= k < |top| ==> top[k].idx < |classList|
  }

  /** `getTopClasses(probs, n)` against the class list `classList`: the `n` most
      probable entries, best first, each with its title-cased class name. A kept
      index past the end of the class list makes title-casing `undefined` throw:
      `None`. */
  function GetTopClasses(probs: seq<real>, n: int, classList: seq<string>): (r: Option<seq<Prediction>>)
    ensures r.Some? ==> |r.value| == |TopN(probs, n)|
  {
    var top := TopN(probs, n);
    if Labelled(top, classList) then
      Some(seq(|top|, k requires 0 <= k < |top| =>
        Prediction(top[k].idx, top[k].probability, Capital(classList[top[k].idx]))))
    else None
  }

  /** What `getTopClasses` returns: it throws exactly when a kept index has no class
      name, which never happens when there is a name for every probability; otherwise
      it keeps `min(n, |probs|)` entries (for `n >= 0`), each an index with its own
      probability and its title-cased class name, no index twice, best first, ties
      in index order. */
  lemma GetTopClassesSpec(probs: seq<real>, n: int, classList: seq<string>)
    ensures GetTopClasses(probs, n, classList).Some? <==>
      forall k :: 0 <= k < |TopN(probs, n)| ==> TopN(probs, n)[k].idx < |classList|
    ensures |probs| <= |classList| ==> GetTopClasses(probs, n, classList).Some?
    ensures GetTopClasses(probs, n, classList).Some? ==>
      var ps := GetTopClasses(probs, n, classList).value;
      |ps| == SliceEnd(|probs|, n) &&
      (n >= 0 ==> |ps| == if n < |probs| then n else |probs|) &&
      (forall k :: 0 <= k < |ps| ==>
        ps[k].idx < |probs| && ps[k].idx < |classList| &&
        ps[k].probability == probs[ps[k].idx] &&
        ps[k].name == Capital(classList[ps[k].idx])) &&
      (forall i, j :: 0 <= i < j < |ps| ==> ps[i].idx != ps[j].idx) &&
      (forall i, j :: 0 <= i < j < |ps| ==> ps[i].probability >= ps[j].probability) &&
      (forall i, j :: 0 <= i < j < |ps| && ps[i].probability == ps[j].probability ==>
        ps[i].idx < ps[j].idx)
  {
    TopNSpec(probs, n);
  }

  /** Every class index left out of the result scores no higher than any kept one,
      and on a tie it has the higher index. */
  lemma GetTopClassesIsTop(probs: seq<real>, n: int, classList: seq<string>, k: nat, j: nat)
    requires GetTopClasses(probs, n, classList).Some?
    requires k < |GetTopClasses(probs, n, classList).value| && j < |probs|
    requires forall m :: 0 <= m < |GetTopClasses(probs, n, classList).value| ==>
      GetTopClasses(probs, n, classList).value[m].idx != j
    ensures probs[j] <= GetTopClasses(probs, n, classList).value[k].probability
    ensures probs[j] == GetTopClasses(probs, n, classList).value[k].probability ==>
      GetTopClasses(probs, n, classList).value[k].idx < j
  {
    var top := TopN(probs, n);
    var ps := GetTopClasses(probs, n, classList).value;
    forall m | 0 <= m < |top|
      ensures top[m].idx != j
    {
      assert ps[m].idx == top[m].idx;
    }
    TopNIsTop(probs, n, k, j);
  }

  /** `formatOutput`: the five best predictions for the logits, with the softmax
      given as a parameter. */
  function FormatOutput(logits: seq<real>, softmax: seq<real> -> seq<real>, classList: seq<string>)
    : (r: Option<seq<Prediction>>)
    ensures r.Some? ==> |r.value| <= 5
    ensures |softmax(logits)| <= |classList| ==> r.Some?
  {
    GetTopClassesSpec(softmax(logits), 5, classList);
    GetTopClasses(softmax(logits), 5, classList)
  }
}
