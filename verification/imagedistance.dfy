/** The pixel distance of `compareImages`: the L1 (Manhattan) distance between two raw,
    already decoded pixel buffers, unbounded (`Infinity`) when their lengths differ. */
module ImageDistance {

  /** One channel value of a raw pixel buffer, as a Node `Buffer` element holds it. */
  type Byte = x: int | 0 <= x < 256

  /** A raw pixel buffer. */
  type Pixels = seq<Byte>

  /** A distance score: a finite sum, or JavaScript's `Infinity`. */
  datatype Dist = Finite(value: nat) | Unbounded

  /** The JavaScript comparison `x < y` on scores; `Infinity < Infinity` is false. */
  predicate Less(x: Dist, y: Dist)
  {
    match (x, y)
    case (Finite(a), Finite(b)) => a < b
    case (Finite(_), Unbounded) => true
    case (Unbounded, _) => false
  }

  function AbsDiff(a: Byte, b: Byte): nat
  {
    if a >= b then a - b else b - a
  }

  /** Sum of the per-position absolute differences, accumulated front to back. */
  function L1(a: Pixels, b: Pixels): nat
    requires |a| == |b|
  {
    if |a| == 0 then 0
    else L1(a[..|a| - 1], b[..|b| - 1]) + AbsDiff(a[|a| - 1], b[|b| - 1])
  }

  /** Each position contributes at most 255. */
  lemma {:induction false} L1Bound(a: Pixels, b: Pixels)
    requires |a| == |b|
    ensures L1(a, b) <= 255 * |a|
  {
    if |a| > 0 {
      L1Bound(a[..|a| - 1], b[..|b| - 1]);
    }
  }

  /** The score `compareImages` returns for two decoded buffers. The sum never exceeds
      255 per byte, so a JavaScript double holds it exactly for any buffer shorter than
      2^53 / 255 bytes. */
  function Distance(a: Pixels, b: Pixels): (d: Dist)
    ensures d.Unbounded? <==> |a| != |b|
    ensures d.Finite? ==> d.value <= 255 * |a|
  {
    if |a| != |b| then Unbounded
    else
      L1Bound(a, b);
      Finite(L1(a, b))
  }

  /** The loop of `compareImages`: returns `Infinity` on a length mismatch, otherwise
      adds up the absolute difference of the two buffers at every position. */
  method CompareImages(image1: Pixels, image2: Pixels) returns (d: Dist)
    ensures d == Distance(image1, image2)
  {
    if |image1| != |image2| {
      return Unbounded;
    }
    var diff := 0;
    var i := 0;
    while i < |image1|
      invariant 0 <= i <= |image1|
      invariant diff == L1(image1[..i], image2[..i])
    {
      assert image1[..i + 1][..i] == image1[..i];
      assert image2[..i + 1][..i] == image2[..i];
      diff := diff + AbsDiff(image1[i], image2[i]);
      i := i + 1;
    }
    assert image1[..i] == image1 && image2[..i] == image2;
    return Finite(diff);
  }

  lemma {:induction false} L1Symmetric(a: Pixels, b: Pixels)
    requires |a| == |b|
    ensures L1(a, b) == L1(b, a)
  {
    if |a| > 0 {
      L1Symmetric(a[..|a| - 1], b[..|b| - 1]);
    }
  }

  lemma {:induction false} L1ZeroIffEqual(a: Pixels, b: Pixels)
    requires |a| == |b|
    ensures L1(a, b) == 0 <==> a == b
  {
    if |a| > 0 {
      var n := |a| - 1;
      L1ZeroIffEqual(a[..n], b[..n]);
      assert a == a[..n] + [a[n]] && b == b[..n] + [b[n]];
    }
  }

  lemma {:induction false} L1Triangle(a: Pixels, b: Pixels, c: Pixels)
    requires |a| == |b| == |c|
    ensures L1(a, c) <= L1(a, b) + L1(b, c)
  {
    if |a| > 0 {
      var n := |a| - 1;
      L1Triangle(a[..n], b[..n], c[..n]);
    }
  }

  /** Any buffer with a different length scores `Infinity`, whatever the contents. */
  lemma DistanceMismatch(a: Pixels, b: Pixels)
    requires |a| != |b|
    ensures Distance(a, b) == Unbounded
  {
  }

  /** The score is symmetric in its two buffers. */
  lemma DistanceSymmetric(a: Pixels, b: Pixels)
    ensures Distance(a, b) == Distance(b, a)
  {
    if |a| == |b| {
      L1Symmetric(a, b);
    }
  }

  /** A buffer is at distance 0 from itself and from nothing else. */
  lemma DistanceZeroIffEqual(a: Pixels, b: Pixels)
    ensures Distance(a, b) == Finite(0) <==> a == b
  {
    if |a| == |b| {
      L1ZeroIffEqual(a, b);
    }
  }

  /** Among buffers of one length the score is a metric: the triangle inequality holds. */
  lemma DistanceTriangle(a: Pixels, b: Pixels, c: Pixels)
    requires |a| == |b| == |c|
    ensures Distance(a, c).value <= Distance(a, b).value + Distance(b, c).value
  {
    L1Triangle(a, b, c);
  }
}
