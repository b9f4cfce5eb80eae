/** Day 14's bit conversions (`Day14Extensions`). A `BitArray` is modelled as
    a `seq<bool>` whose index 0 is the most significant bit, which is how the
    conversions below lay it out: `long.ToBitArray` writes the binary digits
    left to right, padded with zeros to 36 places, and `ToLong` reads them
    back through a reversed copy. */
module Day14Extensions {
  import opened Wrappers

  type Bits = seq<bool>

  function Pow2(n: nat): (p: nat)
    ensures p >= 1
  {
    if n == 0 then 1 else 2 * Pow2(n - 1)
  }

  /** `ToLong`: the bits read as a binary number, most significant first. */
  function FromBits(b: Bits): (v: nat)
    ensures v < Pow2(|b|)
  {
    if |b| == 0 then 0 else 2 * FromBits(b[..|b| - 1]) + (if b[|b| - 1] then 1 else 0)
  }

  /** `Convert.ToString(n, 2)`: the shortest binary rendering, `0` for zero. */
  function Binary(n: nat): (b: Bits)
    ensures |b| >= 1 && FromBits(b) == n
    ensures n >= 1 ==> b[0]
    decreases n
  {
    if n < 2 then [n == 1]
    else
      var b := Binary(n / 2) + [n % 2 == 1];
      assert b[..|b| - 1] == Binary(n / 2);
      b
  }

  function Falses(k: nat): (r: Bits)
    ensures |r| == k && forall i :: 0 <= i < k ==> !r[i]
  {
    seq(k, _ => false)
  }

  lemma {:induction false} FalsesAreZero(k: nat)
    ensures FromBits(Falses(k)) == 0
  {
    if k > 0 {
      assert Falses(k)[..k - 1] == Falses(k - 1);
      FalsesAreZero(k - 1);
    }
  }

  /** Leading zeros do not change the value. */
  lemma {:induction false} LeadingFalses(k: nat, b: Bits)
    ensures FromBits(Falses(k) + b) == FromBits(b)
    decreases |b|
  {
    if |b| == 0 {
      assert Falses(k) + b == Falses(k);
      FalsesAreZero(k);
    } else {
      var c := Falses(k) + b;
      assert c[..|c| - 1] == Falses(k) + b[..|b| - 1];
      LeadingFalses(k, b[..|b| - 1]);
    }
  }

  /** `PadLeft(width, '0')`: zeros in front up to `width` places; a longer
      rendering is left as it is. */
  function PadLeft(b: Bits, width: nat): (r: Bits)
    ensures |r| == if |b| >= width then |b| else width
    ensures FromBits(r) == FromBits(b)
    ensures |b| <= width ==> r[width - |b|..] == b
  {
    if |b| >= width then b
    else
      LeadingFalses(width - |b|, b);
      Falses(width - |b|) + b
  }

  /** A number below `2^w` needs at most `w` binary digits. */
  lemma {:induction false} BinaryFits(n: nat, w: nat)
    requires w >= 1 && n < Pow2(w)
    ensures |Binary(n)| <= w
    decreases n
  {
    if n >= 2 {
      BinaryFits(n / 2, w - 1);
    }
  }

  /** Equal lengths and equal values mean equal bits. */
  lemma {:induction false} FromBitsInjective(a: Bits, b: Bits)
    requires |a| == |b| && FromBits(a) == FromBits(b)
    ensures a == b
  {
    if |a| > 0 {
      var n := |a| - 1;
      FromBitsInjective(a[..n], b[..n]);
      assert a == a[..n] + [a[n]] && b == b[..n] + [b[n]];
    }
  }

  /** The bit width of the machine: every mask and value has 36 bits. */
  const Width: nat := 36

  /** `2^36`, `2^63` and `2^64`. */
  const Limit: nat := 0x10_0000_0000
  const LongLimit: nat := 0x8000_0000_0000_0000
  const TwoTo64: nat := 0x1_0000_0000_0000_0000

  lemma {:induction false} Pow2Add(a: nat, b: nat)
    ensures Pow2(a + b) == Pow2(a) * Pow2(b)
    decreases a
  {
    if a > 0 {
      Pow2Add(a - 1, b);
    }
  }

  lemma LimitIsPow2()
    ensures Pow2(Width) == Limit
  {
    assert Pow2(4) == 16 && Pow2(8) == 256;
    Pow2Add(8, 8);
    Pow2Add(16, 16);
    Pow2Add(32, 4);
  }

  /** `long.ToBitArray`: the binary rendering padded to 36 places. A negative
      `long` renders as its 64-bit two's complement. */
  function ToBits(v: int): (r: Bits)
    requires -(LongLimit as int) <= v < LongLimit
    ensures 0 <= v < Limit ==> |r| == Width && FromBits(r) == v
    ensures v >= Limit || v < 0 ==> |r| > Width
  {
    LimitIsPow2();
    var n: nat := if v >= 0 then v else v + TwoTo64;
    if n < Limit then
      BinaryFits(n, Width);
      PadLeft(Binary(n), Width)
    else
      BinaryLong(n, Width);
      PadLeft(Binary(n), Width)
  }

  /** A number of at least `2^w` needs more than `w` binary digits. */
  lemma {:induction false} BinaryLong(n: nat, w: nat)
    requires n >= Pow2(w)
    ensures |Binary(n)| > w
    decreases n
  {
    if w > 0 {
      BinaryLong(n / 2, w - 1);
    }
  }

  /** Reading back what `ToBits` wrote gives the value: the round trip
      `ToLong(ToBitArray(v)) == v` on the 36-bit range. */
  lemma RoundTrip(v: int)
    requires 0 <= v < Limit
    ensures FromBits(ToBits(v)) == v && |ToBits(v)| == Width
  {
  }

  /** `string.ToBitArray`: `true` exactly where the character is `1`. */
  function StringBits(s: string): (r: Bits)
    ensures |r| == |s| && forall k :: 0 <= k < |s| ==> (r[k] <==> s[k] == '1')
  {
    seq(|s|, k requires 0 <= k < |s| => s[k] == '1')
  }

  /** `string.Replace(char, char)`. */
  function ReplaceChar(s: string, from: char, to: char): (r: string)
    ensures |r| == |s|
    ensures forall k :: 0 <= k < |s| ==> r[k] == if s[k] == from then to else s[k]
  {
    seq(|s|, k requires 0 <= k < |s| => if s[k] == from then to else s[k])
  }

  /** `BitArray.And`; arrays of different lengths throw. */
  function And(a: Bits, b: Bits): (r: Option<Bits>)
    ensures r.Some? <==> |a| == |b|
    ensures r.Some? ==> |r.value| == |a| && forall k :: 0 <= k < |a| ==> (r.value[k] <==> a[k] && b[k])
  {
    if |a| != |b| then None else Some(seq(|a|, k requires 0 <= k < |a| => a[k] && b[k]))
  }

  /** `BitArray.Or`; arrays of different lengths throw. */
  function Or(a: Bits, b: Bits): (r: Option<Bits>)
    ensures r.Some? <==> |a| == |b|
    ensures r.Some? ==> |r.value| == |a| && forall k :: 0 <= k < |a| ==> (r.value[k] <==> a[k] || b[k])
  {
    if |a| != |b| then None else Some(seq(|a|, k requires 0 <= k < |a| => a[k] || b[k]))
  }
}
