/** The coordinate helpers of the sky chart. A point of the local sky is given by its
    azimuth and its altitude in degrees; the chart is a polar plot whose angle is the
    azimuth in radians and whose radius is the zenith distance `90 - altitude`, so the
    zenith sits at the centre and the horizon on the rim. Star magnitudes become
    marker sizes by clamped piecewise-linear interpolation over a six-point table. */
module SkyPlot {
  import opened Interpolation
  import opened Results

  type PositiveReal = x: real | 0.0 < x witness 1.0

  /** `numpy.pi`. The model relies on nothing about it but its being positive. */
  const Pi: PositiveReal

  // ---------------------------------------------------------------------------
  // `_mapr`: the radius axis runs from 90 at the centre to 0 on the rim

  /** `_mapr` on a single value. */
  function MapR(r: real): real {
    90.0 - r
  }

  /** `_mapr` on a sequence: element by element, same length, same order. */
  function MapRSeq(rs: seq<real>): (ms: seq<real>)
    ensures |ms| == |rs|
    ensures forall i :: 0 <= i < |rs| ==> ms[i] == MapR(rs[i])
  {
    if rs == [] then [] else [MapR(rs[0])] + MapRSeq(rs[1..])
  }

  /** The zenith goes to the centre, the horizon to the rim, and nothing is clamped:
      an altitude below the horizon lands outside the rim. */
  lemma MapRExamples()
    ensures MapR(90.0) == 0.0 && MapR(0.0) == 90.0 && MapR(-5.0) == 95.0
  {
  }

  /** Mapping twice gives back the altitude. */
  lemma MapRInvolution(r: real)
    ensures MapR(MapR(r)) == r
  {
  }

  /** The mapping reverses order: a higher altitude is a smaller radius. */
  lemma MapRReversesOrder(a: real, b: real)
    ensures a <= b <==> MapR(b) <= MapR(a)
  {
  }

  /** Mapping a sequence twice gives back the sequence. */
  lemma MapRSeqInvolution(rs: seq<real>)
    ensures MapRSeq(MapRSeq(rs)) == rs
  {
    var back := MapRSeq(MapRSeq(rs));
    assert forall i :: 0 <= i < |rs| ==> back[i] == MapR(MapR(rs[i])) == rs[i];
  }

  // ---------------------------------------------------------------------------
  // `_d2r`: degrees to radians

  /** `_d2r` on a single value, multiplied before it is divided as the source does. */
  function D2R(theta: real): real {
    theta * Pi / 180.0
  }

  /** `_d2r` on a sequence: element by element, same length, same order. */
  function D2RSeq(thetas: seq<real>): (rs: seq<real>)
    ensures |rs| == |thetas|
    ensures forall i :: 0 <= i < |thetas| ==> rs[i] == D2R(thetas[i])
  {
    if thetas == [] then [] else [D2R(thetas[0])] + D2RSeq(thetas[1..])
  }

  /** North is 0, east a quarter turn, south half a turn, a full circle two pi. */
  lemma D2RExamples()
    ensures D2R(0.0) == 0.0
    ensures D2R(90.0) == Pi / 2.0
    ensures D2R(180.0) == Pi
    ensures D2R(360.0) == 2.0 * Pi
  {
  }

  /** Converting back with 180 / pi gives the angle in degrees again. */
  lemma D2RInverse(theta: real)
    ensures D2R(theta) * 180.0 / Pi == theta
  {
    assert D2R(theta) * 180.0 == theta * Pi;
  }

  /** The conversion is strictly increasing, so it keeps the order of azimuths. */
  lemma D2RStrictlyIncreasing(a: real, b: real)
    ensures a < b <==> D2R(a) < D2R(b)
  {
    assert D2R(b) - D2R(a) == (b - a) * (Pi / 180.0);
    ProductSign(b - a, Pi / 180.0);
  }

  lemma ProductSign(t: real, p: real)
    requires 0.0 < p
    ensures 0.0 < t <==> 0.0 < t * p
  {
    if t <= 0.0 {
      assert t * p <= 0.0 * p;
    }
  }

  /** The conversion is linear: a sum of angles converts to the sum of conversions. */
  lemma D2RAdditive(a: real, b: real)
    ensures D2R(a + b) == D2R(a) + D2R(b)
  {
  }

  // ---------------------------------------------------------------------------
  // `_mag2size`: star magnitude to marker size

  /** Magnitudes of the table, brightest first. */
  const StarMag: seq<real> := [-1.0, 0.0, 1.0, 2.0, 3.0, 4.0]

  /** Marker size at each magnitude of `StarMag`. */
  const StarSize: seq<real> := [20.0, 15.0, 10.0, 7.0, 4.0, 1.5]

  /** The table is a valid interpolation table whose sizes fall from 20 to 1.5. */
  lemma TableShape()
    ensures |StarMag| == |StarSize| == 6
    ensures StrictlyIncreasing(StarMag)
    ensures NonIncreasing(StarSize)
    ensures Within(StarSize, 1.5, 20.0)
  {
  }

  /** `_mag2size` on a single magnitude: a size between the smallest and the largest
      marker of the table. */
  function Mag2Size(mag: real): (size: real)
    ensures 1.5 <= size <= 20.0
  {
    TableShape();
    InterpWithin(mag, StarMag, StarSize, 1.5, 20.0);
    Interp(mag, StarMag, StarSize)
  }

  /** `_mag2size` on a sequence of magnitudes: element by element. */
  function Mag2SizeSeq(mags: seq<real>): (sizes: seq<real>)
    ensures |sizes| == |mags|
    ensures forall i :: 0 <= i < |mags| ==> sizes[i] == Mag2Size(mags[i]) && 1.5 <= sizes[i] <= 20.0
  {
    if mags == [] then [] else [Mag2Size(mags[0])] + Mag2SizeSeq(mags[1..])
  }

  /** At each magnitude of the table the size is the table's size. */
  lemma Mag2SizeAtTable(i: nat)
    requires i < |StarMag|
    ensures Mag2Size(StarMag[i]) == StarSize[i]
  {
    TableShape();
    InterpAtKnot(StarMag, StarSize, i);
  }

  /** The six control points written out. */
  lemma Mag2SizeControlPoints()
    ensures Mag2Size(-1.0) == 20.0 && Mag2Size(0.0) == 15.0 && Mag2Size(1.0) == 10.0
    ensures Mag2Size(2.0) == 7.0 && Mag2Size(3.0) == 4.0 && Mag2Size(4.0) == 1.5
  {
    Mag2SizeAtTable(0);
    Mag2SizeAtTable(1);
    Mag2SizeAtTable(2);
    Mag2SizeAtTable(3);
    Mag2SizeAtTable(4);
    Mag2SizeAtTable(5);
  }

  /** Brighter than magnitude -1 the size stays 20; fainter than 4 it stays 1.5. */
  lemma Mag2SizeClamped(mag: real)
    ensures mag <= -1.0 ==> Mag2Size(mag) == 20.0
    ensures mag >= 4.0 ==> Mag2Size(mag) == 1.5
  {
    TableShape();
    if mag >= 4.0 {
      InterpAbove(mag, StarMag, StarSize);
    }
  }

  /** Between two neighbouring magnitudes of the table the size is on the straight
      line between their sizes. */
  lemma Mag2SizeOnSegment(mag: real, i: nat)
    requires i + 1 < |StarMag| && StarMag[i] <= mag <= StarMag[i + 1]
    ensures Mag2Size(mag) == Lerp(StarMag[i], StarSize[i], StarMag[i + 1], StarSize[i + 1], mag)
  {
    TableShape();
    InterpOnSegment(mag, StarMag, StarSize, i);
  }

  /** Halfway between magnitudes 0 and 1 the size is halfway between 15 and 10. */
  lemma Mag2SizeHalfway()
    ensures Mag2Size(0.5) == 12.5
  {
    Mag2SizeOnSegment(0.5, 1);
  }

  /** A fainter star never gets a larger marker. */
  lemma Mag2SizeNonIncreasing(a: real, b: real)
    requires a <= b
    ensures Mag2Size(b) <= Mag2Size(a)
  {
    TableShape();
    InterpAntitone(a, b, StarMag, StarSize);
  }

  // ---------------------------------------------------------------------------
  // `add_points`: the conversions applied before plotting

  /** The two coordinate sequences handed to the polar plot. */
  datatype PolarTrace = PolarTrace(theta: seq<real>, radius: seq<real>)

  /** Converts azimuths to plot angles and altitudes to plot radii; the plot call
      refuses sequences of different lengths, which is `None` here. */
  function AddPoints(az: seq<real>, alt: seq<real>): (t: Option<PolarTrace>)
    ensures t.Some? <==> |az| == |alt|
    ensures t.Some? ==> |t.value.theta| == |t.value.radius| == |az|
    ensures t.Some? ==> forall i :: 0 <= i < |az| ==>
              t.value.theta[i] == D2R(az[i]) && t.value.radius[i] == MapR(alt[i])
  {
    var theta := D2RSeq(az);
    var radius := MapRSeq(alt);
    if |theta| != |radius| then None else Some(PolarTrace(theta, radius))
  }

  /** The plotted trace determines the observations: mapping the radii back gives the
      altitudes and converting the angles back gives the azimuths. */
  lemma AddPointsRecovers(az: seq<real>, alt: seq<real>)
    requires |az| == |alt|
    ensures AddPoints(az, alt).Some?
    ensures MapRSeq(AddPoints(az, alt).value.radius) == alt
    ensures forall i :: 0 <= i < |az| ==> AddPoints(az, alt).value.theta[i] * 180.0 / Pi == az[i]
  {
    var t := AddPoints(az, alt).value;
    MapRSeqInvolution(alt);
    forall i | 0 <= i < |az|
      ensures t.theta[i] * 180.0 / Pi == az[i]
    {
      D2RInverse(az[i]);
    }
  }

  /** The zenith due east goes to a quarter turn at the centre, the horizon due north
      to angle 0 on the rim; mismatched lengths are refused. */
  lemma AddPointsExamples()
    ensures AddPoints([90.0, 0.0], [90.0, 0.0]) == Some(PolarTrace([Pi / 2.0, 0.0], [0.0, 90.0]))
    ensures AddPoints([0.0], [0.0, 1.0]) == None
  {
    var t := AddPoints([90.0, 0.0], [90.0, 0.0]).value;
    D2RExamples();
    MapRExamples();
    assert t.theta == [Pi / 2.0, 0.0];
    assert t.radius == [0.0, 90.0];
  }
}
