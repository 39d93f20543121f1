/** The component file src/App.tsx: `processImageML` packs an interleaved RGBA bitmap
    into a planar tensor by splitting it into colour arrays and concatenating them,
    `getTopClasses` ranks a probability vector and attaches the raw class names, and
    the prediction list title-cases each name when it is rendered. */
module App {
  import opened Pixels
  import opened Ranking
  import opened TitleCase
  import Ml

  // ---------------------------------------------------------------------------
  // processImageML

  /** Number of passes of the colour-splitting loop, which steps through the bitmap
      four bytes at a time. */
  function PixelCount(len: nat): nat {
    (len + 3) / 4
  }

  /** The colour array for channel `c` (0 red, 1 green, 2 blue): `data[i + c]` for
      every `i` the loop visits, `undefined` where `i + c` is past the end. */
  function Channel(data: seq<Byte>, c: nat): (r: seq<Option<Byte>>)
    ensures |r| == PixelCount(|data|)
  {
    seq(PixelCount(|data|), k requires 0 <= k < PixelCount(|data|) => Read(data, 4 * k + c))
  }

  /** The three colour arrays joined: red, then green, then blue. */
  function Transposed(data: seq<Byte>): (t: seq<Option<Byte>>)
    ensures |t| == 3 * PixelCount(|data|)
  {
    Channel(data, 0) + Channel(data, 1) + Channel(data, 2)
  }

  /** A zero-filled buffer of `len` slots after slot `i` has been set to the `i`-th
      value divided by 255, for every `i < |t|`: writes past the end are dropped, slots past `|t|` stay 0. */
  function Copied(t: seq<Option<Byte>>, len: nat): (r: seq<Float>)
    ensures |r| == len
  {
    seq(len, i requires 0 <= i < len => if i < |t| then Normalize(t[i]) else Num(0.0))
  }

  /** The loop count of the colour split is the number of pixels, rounded up. */
  lemma PixelCountBound(len: nat, count: nat)
    requires 4 * count >= len && (count == 0 || 4 * (count - 1) < len)
    ensures count == PixelCount(len)
  {
    DivModUnique(len + 3, 4, count, len + 3 - 4 * count);
  }

  /** For a bitmap of `N` whole pixels, each colour array has one defined entry per
      pixel: entry `k` is byte `c` of pixel `k`. */
  lemma ChannelOfBitmap(data: seq<Byte>, c: nat, pixels: nat)
    requires |data| == 4 * pixels && c < 3
    ensures |Channel(data, c)| == pixels
    ensures forall k :: 0 <= k < pixels ==> Channel(data, c)[k] == Some(data[4 * k + c])
  {
    DivModUnique(|data| + 3, 4, pixels, 3);
  }

  /** One step of the conversion loop: setting slot `j` to the `j`-th value divided
      by 255 extends the converted prefix by one slot. */
  lemma CopiedStep(t: seq<Option<Byte>>, j: nat, len: nat)
    requires j < |t|
    ensures Stored(Copied(t[..j], len), j, Normalize(t[j])) == Copied(t[..j + 1], len)
  {
    var before, after := Copied(t[..j], len), Copied(t[..j + 1], len);
    var s := Stored(before, j, Normalize(t[j]));
    forall i | 0 <= i < len
      ensures s[i] == after[i]
    {
      if i < j {
        assert t[..j][i] == t[i] == t[..j + 1][i];
      }
    }
  }

  /** `processImageML` on the already resized bitmap `data`: one pass splits the
      bitmap into red, green and blue arrays, the arrays are concatenated, and a
      second pass converts them into a zero-filled buffer of
      `channels * height * width` slots. */
  method ProcessImageML(data: seq<Byte>, dims: Dims) returns (out: array<Float>)
    ensures fresh(out)
    ensures out.Length == dims.channels * dims.height * dims.width
    ensures out[..] == Copied(Transposed(data), dims.channels * dims.height * dims.width)
  {
    var red: seq<Option<Byte>> := [];
    var green: seq<Option<Byte>> := [];
    var blue: seq<Option<Byte>> := [];
    var i := 0;
    while i < |data|
      invariant i == 4 * |red| && |green| == |red| && |blue| == |red|
      invariant |red| == 0 || 4 * (|red| - 1) < |data|
      invariant forall k :: 0 <= k < |red| ==> red[k] == Read(data, 4 * k)
      invariant forall k :: 0 <= k < |green| ==> green[k] == Read(data, 4 * k + 1)
      invariant forall k :: 0 <= k < |blue| ==> blue[k] == Read(data, 4 * k + 2)
      decreases |data| - i
    {
      red := red + [Read(data, i)];
      green := green + [Read(data, i + 1)];
      blue := blue + [Read(data, i + 2)];
      // data[i + 3] is the alpha channel and is skipped
      i := i + 4;
    }
    PixelCountBound(|data|, |red|);
    assert red == Channel(data, 0);
    assert green == Channel(data, 1);
    assert blue == Channel(data, 2);
    var transposed := red + green + blue;

    var len := dims.channels * dims.height * dims.width;
    out := new Float[len](_ => Num(0.0));
    var l := |transposed|;
    var j := 0;
    while j < l
      invariant 0 <= j <= l
      invariant out.Length == len
      invariant out[..] == Copied(transposed[..j], len)
    {
      CopiedStep(transposed, j, len);
      Store(out, j, Normalize(transposed[j]));
      j := j + 1;
    }
    assert transposed[..j] == transposed;
  }

  /** Where each byte lands: slot `c * P + k` of the concatenation, for `P` the pixel
      count, is byte `c` of pixel `k`. */
  lemma TransposedLayout(data: seq<Byte>, c: nat, k: nat)
    requires c < 3 && k < PixelCount(|data|)
    ensures c * PixelCount(|data|) + k < |Transposed(data)|
    ensures Transposed(data)[c * PixelCount(|data|) + k] == Read(data, 4 * k + c)
    ensures (4 * k + c) % 4 == c
  {
    ByteOffset(k, c);
    var p := PixelCount(|data|);
    var t := Transposed(data);
    if c == 0 {
      assert t[k] == Channel(data, 0)[k];
    } else if c == 1 {
      assert c * p + k == p + k;
      assert t[p + k] == Channel(data, 1)[k];
    } else {
      assert c * p + k == 2 * p + k;
      assert t[2 * p + k] == Channel(data, 2)[k];
    }
  }

  /** The tensor does not depend on the alpha bytes. */
  lemma ProcessIgnoresAlpha(data: seq<Byte>, data': seq<Byte>, len: nat)
    requires |data| == |data'|
    requires forall o :: 0 <= o < |data| && o % 4 != 3 ==> data[o] == data'[o]
    ensures Copied(Transposed(data), len) == Copied(Transposed(data'), len)
  {
    var t, t' := Transposed(data), Transposed(data');
    forall i | 0 <= i < |t|
      ensures t[i] == t'[i]
    {
      var c, k := Decompose(i, PixelCount(|data|), 3);
      TransposedLayout(data, c, k);
      TransposedLayout(data', c, k);
      ByteOffset(k, c);
    }
    assert t == t';
  }

  /** For a whole RGBA bitmap every slot is a number in [0, 1]. */
  lemma ProcessInUnitRange(data: seq<Byte>, len: nat)
    requires |data| % 4 == 0
    ensures forall i :: 0 <= i < len ==>
      Copied(Transposed(data), len)[i].Num? &&
      0.0 <= Copied(Transposed(data), len)[i].r <= 1.0
  {
    var t := Transposed(data);
    DivModUnique(|data| + 3, 4, |data| / 4, 3);
    forall i | 0 <= i < |t|
      ensures t[i].Some?
    {
      var c, k := Decompose(i, PixelCount(|data|), 3);
      TransposedLayout(data, c, k);
    }
  }

  /** One slot of the agreement between the two packers. */
  lemma AgreesAt(data: seq<Byte>, n: nat, c: nat, k: nat)
    requires |data| == 4 * n && c < 3 && k < n
    ensures c * n + k < |Transposed(data)|
    ensures Normalize(Transposed(data)[c * n + k]) == Ml.PlanarAt(data, n, c * n + k)
  {
    DivModUnique(|data| + 3, 4, n, 3);
    TransposedLayout(data, c, k);
    PlaneSlot(c, k, n);
    PixelBound(c, k, 3, n);
  }

  /** Both packers build the same tensor from an `h` x `w` RGBA bitmap, whatever the
      number of channel planes: `processImageML` and `convertImageToTensor` are
      interchangeable. */
  lemma AgreesWithConvert(data: seq<Byte>, channels: nat, h: nat, w: nat)
    requires |data| == 4 * (h * w)
    ensures Copied(Transposed(data), channels * h * w) == Ml.Planar(data, channels, h, w)
  {
    var n := h * w;
    var len := channels * h * w;
    assert len == channels * n;
    DivModUnique(|data| + 3, 4, n, 3);
    var r := Copied(Transposed(data), len);
    var planar := Ml.Planar(data, channels, h, w);
    forall i | 0 <= i < len
      ensures r[i] == planar[i]
    {
      assert planar[i] == Ml.PlanarAt(data, n, i);
      if i < 3 * n {
        var c, k := Decompose(i, PixelCount(|data|), 3);
        AgreesAt(data, n, c, k);
      }
    }
  }

  // ---------------------------------------------------------------------------
  // getTopClasses and the rendered prediction list

  /** A ranked entry with its raw class name, `undefined` past the end of the list. */
  datatype Prediction = Prediction(idx: nat, probability: real, name: Option<string>)

  /** `getTopClasses(probs, n)` of App.tsx: the `n` most probable entries, best first,
      each with its class name as it is. */
  function GetTopClasses(probs: seq<real>, n: int, classList: seq<string>): (r: seq<Prediction>)
    ensures |r| == |TopN(probs, n)|
  {
    var top := TopN(probs, n);
    seq(|top|, k requires 0 <= k < |top| =>
      Prediction(top[k].idx, top[k].probability,
        if top[k].idx < |classList| then Some(classList[top[k].idx]) else None))
  }

  /** What App's `getTopClasses` returns: `min(n, |probs|)` entries (for `n >= 0`),
      each an index with its own probability, its class name exactly when the list
      has one, no index twice, best first, ties in index order. */
  lemma GetTopClassesSpec(probs: seq<real>, n: int, classList: seq<string>)
    ensures var ps := GetTopClasses(probs, n, classList);
      |ps| == SliceEnd(|probs|, n) &&
      (n >= 0 ==> |ps| == if n < |probs| then n else |probs|) &&
      (forall k :: 0 <= k < |ps| ==>
        ps[k].idx < |probs| && ps[k].probability == probs[ps[k].idx] &&
        (ps[k].name.Some? <==> ps[k].idx < |classList|) &&
        (ps[k].name.Some? ==> ps[k].name.value == classList[ps[k].idx])) &&
      (forall i, j :: 0 <= i < j < |ps| ==> ps[i].idx != ps[j].idx) &&
      (forall i, j :: 0 <= i < j < |ps| ==> ps[i].probability >= ps[j].probability) &&
      (forall i, j :: 0 <= i < j < |ps| && ps[i].probability == ps[j].probability ==>
        ps[i].idx < ps[j].idx)
    ensures |probs| <= |classList| ==>
      forall k :: 0 <= k < |GetTopClasses(probs, n, classList)| ==>
        GetTopClasses(probs, n, classList)[k].name.Some?
  {
    TopNSpec(probs, n);
  }

  /** The prediction list as rendered: each entry's class name title-cased, which
      throws (`None`) on an entry without a class name. */
  function Rendered(ps: seq<Prediction>): Option<seq<Ml.Prediction>>
  {
    if forall k :: 0 <= k < |ps| ==> ps[k].name.Some? then
      Some(seq(|ps|, k requires 0 <= k < |ps| =>
        Ml.Prediction(ps[k].idx, ps[k].probability, Capital(ps[k].name.value))))
    else None
  }

  /** Rendering throws exactly when an entry has no class name; otherwise it shows
      every entry in order, with its index and probability, and a name that is the
      reference title-casing of the raw name. */
  lemma RenderedTitled(ps: seq<Prediction>)
    ensures Rendered(ps).Some? <==> forall k :: 0 <= k < |ps| ==> ps[k].name.Some?
    ensures Rendered(ps).Some? ==> |Rendered(ps).value| == |ps|
    ensures Rendered(ps).Some? ==> forall k :: 0 <= k < |ps| ==>
      Rendered(ps).value[k].idx == ps[k].idx &&
      Rendered(ps).value[k].probability == ps[k].probability &&
      Rendered(ps).value[k].name == Titled(ps[k].name.value)
  {
    if Rendered(ps).Some? {
      forall k | 0 <= k < |ps|
        ensures Rendered(ps).value[k].name == Titled(ps[k].name.value)
      {
        var raw := ps[k].name.value;
        CapitalAt(raw);
        assert Capital(raw) == Titled(raw);
      }
    }
  }

  /** App.tsx ranks without title-casing and title-cases while rendering; src/ml.ts
      title-cases while ranking. Both show the same list, and both throw on the same
      inputs. */
  lemma RenderedMatchesMl(probs: seq<real>, n: int, classList: seq<string>)
    ensures Rendered(GetTopClasses(probs, n, classList)) == Ml.GetTopClasses(probs, n, classList)
  {
    var top := TopN(probs, n);
    var ps := GetTopClasses(probs, n, classList);
    assert forall k :: 0 <= k < |ps| ==> (ps[k].name.Some? <==> top[k].idx < |classList|);
    if Ml.Labelled(top, classList) {
      assert Rendered(ps).Some?;
      var mine := Rendered(ps).value;
      var theirs := Ml.GetTopClasses(probs, n, classList).value;
      assert |mine| == |theirs|;
      forall k | 0 <= k < |mine|
        ensures mine[k] == theirs[k]
      {
      }
      assert mine == theirs;
    }
  }

  /** Title-casing the labels `src/ml.ts` already title-cased, as a render of them
      through `capital` would, changes nothing. */
  lemma RenderTwiceUnchanged(probs: seq<real>, n: int, classList: seq<string>, k: nat)
    requires Ml.GetTopClasses(probs, n, classList).Some?
    requires k < |Ml.GetTopClasses(probs, n, classList).value|
    ensures Capital(Ml.GetTopClasses(probs, n, classList).value[k].name) ==
      Ml.GetTopClasses(probs, n, classList).value[k].name
  {
    var top := TopN(probs, n);
    CapitalIdempotent(classList[top[k].idx]);
  }
}
