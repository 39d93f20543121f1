/** Values shared by the two tensor packers: the bytes of a decoded RGBA bitmap,
    the JavaScript `undefined` that an out-of-range read of that bitmap yields,
    and the 32-bit float slots of the packed tensor (kept as exact reals). */
module Pixels {

  /** One channel of a Uint8ClampedArray bitmap. */
  type Byte = b: int | 0 <= b < 256

  datatype Option<T> = None | Some(value: T)

  /** A Float32Array slot: a number, or NaN (what `undefined / 255.0` yields).
      Float32 rounding is not modelled: a number is an exact real. */
  datatype Float = Num(r: real) | NaN

  /** The `dims` argument `[batch, channels, height, width]` of both packers. */
  datatype Dims = Dims(batch: nat, channels: nat, height: nat, width: nat)

  /** The contents of a typed array after `a[k] = v`: a write past the end is
      silently dropped. */
  function Stored(s: seq<Float>, k: nat, v: Float): seq<Float>
  {
    if k < |s| then s[k := v] else s
  }

  /** `a[k] = v` on a typed array. */
  method Store(a: array<Float>, k: nat, v: Float)
    modifies a
    ensures a[..] == Stored(old(a[..]), k, v)
  {
    if k < a.Length {
      a[k] := v;
    }
  }

  /** `data[i]` on a typed array: `undefined` outside `0 <= i < data.length`. */
  function Read(data: seq<Byte>, i: int): Option<Byte>
  {
    if 0 <= i < |data| then Some(data[i]) else None
  }

  /** `v / 255.0`: a byte maps into [0, 1], `undefined` to NaN. */
  function Normalize(v: Option<Byte>): (f: Float)
    ensures v.Some? <==> f.Num?
    ensures f.Num? ==> 0.0 <= f.r <= 1.0 && f.r * 255.0 == v.value as real
  {
    match v
    case Some(b) => Num(b as real / 255.0)
    case None => NaN
  }

  /** Normalizing is injective on bytes: the packed tensor loses no information. */
  lemma NormalizeInjective(a: Option<Byte>, b: Option<Byte>)
    requires Normalize(a) == Normalize(b)
    ensures a == b
  {
    if a.Some? {
      assert Normalize(a).r * 255.0 == a.value as real;
    }
  }

  /** Euclidean division is determined by quotient and remainder. */
  lemma DivModUnique(k: int, n: int, q: int, r: int)
    requires n > 0 && 0 <= r < n && k == q * n + r
    ensures k / n == q && k % n == r
  {
    var q', r' := k / n, k % n;
    assert k == q' * n + r';
    assert (q - q') * n == r' - r;
    if q - q' >= 1 {
      assert false;
    } else if q - q' <= -1 {
      assert false;
    }
  }

  /** Slot `c * n + p` of a planar buffer with planes of `n` values lies in plane `c`
      at position `p`. */
  lemma PlaneSlot(c: nat, p: nat, n: nat)
    requires p < n
    ensures (c * n + p) / n == c && (c * n + p) % n == p
  {
    DivModUnique(c * n + p, n, c, p);
  }

  /** Every slot below `planes * n` lies in a plane below `planes`. */
  lemma PlaneBound(k: nat, n: nat, planes: nat)
    requires k < planes * n
    ensures n > 0 && k / n < planes && k == (k / n) * n + k % n
  {
    if k / n >= planes {
      MulMonotone(planes, k / n, n);
      assert false;
    }
  }

  /** Two planar slots coincide exactly when plane and position do. */
  lemma SlotEq(c: nat, q: nat, c': nat, q': nat, n: nat)
    requires q < n && q' < n
    ensures c * n + q == c' * n + q' <==> c == c' && q == q'
  {
    PlaneSlot(c, q, n);
    PlaneSlot(c', q', n);
  }

  /** Every slot below `planes * n` is slot `q` of plane `c`, for some `c < planes`
      and `q < n`. */
  lemma Decompose(k: nat, n: nat, planes: nat) returns (c: nat, q: nat)
    requires k < planes * n
    ensures c < planes && q < n && k == c * n + q
  {
    PlaneBound(k, n, planes);
    c, q := k / n, k % n;
  }

  /** Byte `c < 4` of pixel `p` sits at offset `p * 4 + c`, so it is the alpha byte
      only for `c == 3`. */
  lemma ByteOffset(p: nat, c: nat)
    requires c < 4
    ensures (p * 4 + c) % 4 == c && (p * 4 + c) / 4 == p
  {
    DivModUnique(p * 4 + c, 4, p, c);
  }

  /** Multiplying by the same natural keeps `<=`. */
  lemma MulMonotone(a: nat, b: nat, n: nat)
    requires a <= b
    ensures a * n <= b * n
  {
  }

  /** Row-major pixel `y * w + x` of an `h` x `w` image lies below `h * w`. */
  lemma PixelBound(y: nat, x: nat, h: nat, w: nat)
    requires y < h && x < w
    ensures y * w + x < h * w
  {
    MulMonotone(y + 1, h, w);
    assert (y + 1) * w == y * w + w;
  }
}
