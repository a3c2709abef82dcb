/** The movement test of the vibration sampler (`VibrationLooper` in
    shaker.py): a three-axis accelerometer reading counts as movement when
    some axis leaves the band [-t, t], where t is one g plus the configured
    sensitivity. Readings are real numbers in units of standard gravity;
    the test only compares them, so no floating-point arithmetic is
    involved beyond the single addition that builds the threshold. */
module Movement {

  /** One reading of the sensor, one value per axis. */
  datatype Sample = Sample(x: real, y: real, z: real)

  /** The axes in the order the sampler lists them. */
  function Axes(s: Sample): seq<real>
  {
    [s.x, s.y, s.z]
  }

  /** The movement threshold the sampler derives from its sensitivity. */
  function Threshold(sensitivity: real): real
  {
    1.0 + sensitivity
  }

  function Abs(v: real): (r: real)
    ensures r >= 0.0
    ensures r == v || r == -v
  {
    if v < 0.0 then -v else v
  }

  /** The per-axis test exactly as the sampler writes it: strictly above t
      or strictly below -t. */
  predicate Beyond(v: real, t: real)
  {
    v > t || v < -t
  }

  /** The two strict comparisons say the same as a strict comparison of the
      magnitude, whatever the sign of t. */
  lemma BeyondIsMagnitude(v: real, t: real)
    ensures Beyond(v, t) <==> Abs(v) > t
  {
  }

  /** The sampler's `any(...)` over the list of axis values, scanned from
      the first value. Its contract is the reference reading: some value's
      magnitude is strictly above t. */
  function AnyBeyond(vals: seq<real>, t: real): (r: bool)
    ensures r <==> exists i :: 0 <= i < |vals| && Abs(vals[i]) > t
  {
    if |vals| == 0 then
      false
    else
      BeyondIsMagnitude(vals[0], t);
      Beyond(vals[0], t) || AnyBeyond(vals[1..], t)
  }

  /** Whether one sample marks the activity meter: exactly when one of its
      three axes has magnitude strictly above one g plus the sensitivity. */
  function Marks(s: Sample, sensitivity: real): (r: bool)
    ensures r <==>
      Abs(s.x) > 1.0 + sensitivity || Abs(s.y) > 1.0 + sensitivity || Abs(s.z) > 1.0 + sensitivity
  {
    var a := Axes(s);
    assert a[0] == s.x && a[1] == s.y && a[2] == s.z;
    AnyBeyond(a, Threshold(sensitivity))
  }

  /** The scan only depends on which values are present, not on their
      order: any permutation of the values gives the same verdict. */
  lemma AnyBeyondPermutation(a: seq<real>, b: seq<real>, t: real)
    requires multiset(a) == multiset(b)
    ensures AnyBeyond(a, t) == AnyBeyond(b, t)
  {
    if AnyBeyond(a, t) {
      var i :| 0 <= i < |a| && Abs(a[i]) > t;
      assert a[i] in multiset(b);
      var j :| 0 <= j < |b| && b[j] == a[i];
    }
    if AnyBeyond(b, t) {
      var j :| 0 <= j < |b| && Abs(b[j]) > t;
      assert b[j] in multiset(a);
      var i :| 0 <= i < |a| && a[i] == b[j];
    }
  }

  /** Listing the axes in any order gives the same verdict. */
  lemma MarksAxisOrderIrrelevant(s: Sample, sensitivity: real)
    ensures Marks(Sample(s.x, s.z, s.y), sensitivity) == Marks(s, sensitivity)
    ensures Marks(Sample(s.y, s.x, s.z), sensitivity) == Marks(s, sensitivity)
    ensures Marks(Sample(s.y, s.z, s.x), sensitivity) == Marks(s, sensitivity)
    ensures Marks(Sample(s.z, s.x, s.y), sensitivity) == Marks(s, sensitivity)
    ensures Marks(Sample(s.z, s.y, s.x), sensitivity) == Marks(s, sensitivity)
  {
  }

  /** Flipping the sign of any axis does not change the verdict: the test
      is symmetric about zero. */
  lemma MarksNegationInvariant(s: Sample, sensitivity: real)
    ensures Marks(Sample(-s.x, s.y, s.z), sensitivity) == Marks(s, sensitivity)
    ensures Marks(Sample(s.x, -s.y, s.z), sensitivity) == Marks(s, sensitivity)
    ensures Marks(Sample(s.x, s.y, -s.z), sensitivity) == Marks(s, sensitivity)
  {
  }

  /** A reading that sits exactly on the threshold on every axis is not
      movement: both comparisons are strict. */
  lemma NoMarkOnBoundary(s: Sample, sensitivity: real)
    requires Abs(s.x) == Threshold(sensitivity)
    requires Abs(s.y) == Threshold(sensitivity)
    requires Abs(s.z) == Threshold(sensitivity)
    ensures !Marks(s, sensitivity)
  {
  }

  /** Raising the sensitivity widens the band, so it never turns a sample
      that does not mark into one that does. */
  lemma MarksMonotone(s: Sample, lower: real, higher: real)
    requires lower <= higher
    ensures Marks(s, higher) ==> Marks(s, lower)
  {
  }

  /** The number of marks the sampler records over a sequence of readings:
      one per reading that passes the test. */
  function MarkCount(samples: seq<Sample>, sensitivity: real): (n: nat)
    ensures n <= |samples|
  {
    if |samples| == 0 then 0
    else (if Marks(samples[0], sensitivity) then 1 else 0) + MarkCount(samples[1..], sensitivity)
  }

  /** Over any sequence of readings, a higher sensitivity records at most
      as many marks as a lower one. */
  lemma {:induction false} MarkCountMonotone(samples: seq<Sample>, lower: real, higher: real)
    requires lower <= higher
    ensures MarkCount(samples, higher) <= MarkCount(samples, lower)
    decreases |samples|
  {
    if |samples| > 0 {
      MarksMonotone(samples[0], lower, higher);
      MarkCountMonotone(samples[1..], lower, higher);
    }
  }

  /** With the default sensitivity 0.1 the threshold is 1.1: a reading of
      1.05 g on one axis is not movement and 1.2 g is. */
  lemma DefaultSensitivityExample()
    ensures Threshold(0.1) == 1.1
    ensures !Marks(Sample(1.05, 0.0, 0.0), 0.1)
    ensures Marks(Sample(1.2, 0.0, 0.0), 0.1)
    ensures !Marks(Sample(0.0, 0.0, -1.0), 0.1)
  {
  }
}
