/**
 * Conversion between the two six-number box representations of the
 * visualisation utilities.
 *   centre rep: centre x, y, z, then size along x, y, z;
 *   side rep:   lower x, y, z, then upper x, y, z.
 * Both converters read the first six entries of a longer list and ignore the rest.
 */
module BoxTransform {

  function Min(a: real, b: real): real { if a <= b then a else b }
  function Max(a: real, b: real): real { if a <= b then b else a }
  function Abs(a: real): real { if a < 0.0 then -a else a }

  /** blocktrans_cen2side: each axis becomes [centre - size/2, centre + size/2]. */
  function CenToSide(centerSize: seq<real>): (side: seq<real>)
    requires |centerSize| >= 6
    ensures |side| == 6
    // the upper corner lies one size beyond the lower corner ...
    ensures forall i :: 0 <= i < 3 ==> side[i + 3] - side[i] == centerSize[i + 3]
    // ... and the two corners are symmetric about the centre
    ensures forall i :: 0 <= i < 3 ==> (side[i] + side[i + 3]) / 2.0 == centerSize[i]
  {
    var cx, cy, cz := centerSize[0], centerSize[1], centerSize[2];
    var sx, sy, sz := centerSize[3], centerSize[4], centerSize[5];
    [cx - sx / 2.0, cy - sy / 2.0, cz - sz / 2.0, cx + sx / 2.0, cy + sy / 2.0, cz + sz / 2.0]
  }

  /**
   * blocktrans_side2cen6: the centre is the midpoint of the two corners and the
   * size their absolute distance, so the corners may be given in either order.
   */
  function SideToCen6(sideSize: seq<real>): (centerSize: seq<real>)
    requires |sideSize| >= 6
    ensures |centerSize| == 6
    ensures forall i :: 3 <= i < 6 ==> 0.0 <= centerSize[i]
    // the box described by the result spans exactly the interval between the two corners
    ensures forall i :: 0 <= i < 3 ==>
      && centerSize[i] - centerSize[i + 3] / 2.0 == Min(sideSize[i], sideSize[i + 3])
      && centerSize[i] + centerSize[i + 3] / 2.0 == Max(sideSize[i], sideSize[i + 3])
  {
    var lx, ly, lz := sideSize[0], sideSize[1], sideSize[2];
    var hx, hy, hz := sideSize[3], sideSize[4], sideSize[5];
    [(lx + hx) * 0.5, (ly + hy) * 0.5, (lz + hz) * 0.5, Abs(hx - lx), Abs(hy - ly), Abs(hz - lz)]
  }

  /**
   * Converting to corners and back keeps the centre and turns each size into its
   * absolute value; hence the round trip is the identity on the six entries
   * exactly when no size is negative.
   */
  lemma CenterRoundTrip(b: seq<real>)
    requires |b| >= 6
    ensures forall i :: 0 <= i < 3 ==> SideToCen6(CenToSide(b))[i] == b[i]
    ensures forall i :: 3 <= i < 6 ==> SideToCen6(CenToSide(b))[i] == Abs(b[i])
    ensures SideToCen6(CenToSide(b)) == b[..6] <==> forall i :: 3 <= i < 6 ==> 0.0 <= b[i]
  {
    var r := SideToCen6(CenToSide(b));
    if forall i :: 3 <= i < 6 ==> 0.0 <= b[i] {
      assert forall i :: 0 <= i < 6 ==> r[i] == b[i];
    }
    if r == b[..6] {
      assert forall i :: 3 <= i < 6 ==> r[i] == b[i];
    }
  }

  /**
   * Converting to centre rep and back restores the corners exactly when each
   * lower entry does not exceed its upper entry; otherwise the corners come
   * back sorted.
   */
  lemma SideRoundTrip(s: seq<real>)
    requires |s| >= 6
    ensures forall i :: 0 <= i < 3 ==>
      CenToSide(SideToCen6(s))[i] == Min(s[i], s[i + 3]) && CenToSide(SideToCen6(s))[i + 3] == Max(s[i], s[i + 3])
    ensures CenToSide(SideToCen6(s)) == s[..6] <==> forall i :: 0 <= i < 3 ==> s[i] <= s[i + 3]
  {
    var r := CenToSide(SideToCen6(s));
    if forall i :: 0 <= i < 3 ==> s[i] <= s[i + 3] {
      assert forall i :: 0 <= i < 6 ==> r[i] == s[i];
    }
    if r == s[..6] {
      assert forall i :: 0 <= i < 6 ==> r[i] == s[i];
    }
  }

  /** The worked conversions the unit tests compare against. */
  lemma ConversionExamples()
    ensures CenToSide([0.0, 1.0, 2.0, 3.0, 4.0, 5.0]) == [-1.5, -1.0, -0.5, 1.5, 3.0, 4.5]
    ensures SideToCen6([0.0, 1.0, 2.0, 3.0, 3.0, 7.0, 5.0, 9.0]) == [1.5, 2.0, 4.5, 3.0, 2.0, 5.0]
  {
  }
}
