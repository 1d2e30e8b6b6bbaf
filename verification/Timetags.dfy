/** Timetags and the difference behind the order of the event queue. */
module Timetags {
  import opened Bytes

  datatype Tag = Timetag(sec: nat, frac: nat)

  // Two uint32_t.
  type Timetag = t: Tag | t.sec < TWO_TO_THE_32 && t.frac < TWO_TO_THE_32 witness Timetag(0, 0)

  // The factor lo_timetag_diff applies to fractions; fractions are documented as units of 2^-32 s.
  const SCALE: real := 0.00000000093132257461

  const FLT_EPSILON: real := 0.00000011920928955078125

  function DiffAt(scale: real, a: Timetag, b: Timetag): real {
    a.sec as real - b.sec as real + (a.frac as real - b.frac as real) * scale
  }

  // lo_timetag_diff, in exact arithmetic.
  function Diff(a: Timetag, b: Timetag): real {
    DiffAt(SCALE, a, b)
  }

  // A timetag as a number of seconds on the scale the code uses.
  function Key(t: Timetag): real {
    t.sec as real + t.frac as real * SCALE
  }

  lemma DiffsAreKeyDifferences()
    ensures forall a, b :: Diff(a, b) == Key(a) - Key(b)
  {
  }

  predicate Later(a: Timetag, b: Timetag) {
    a.sec > b.sec || (a.sec == b.sec && a.frac > b.frac)
  }

  ghost predicate OrdersChronologically(scale: real) {
    forall a: Timetag, b: Timetag :: DiffAt(scale, a, b) > 0.0 <==> Later(a, b)
  }

  lemma ProductNonNegative(u: real, v: real)
    requires u >= 0.0 && v >= 0.0
    ensures u * v >= 0.0
  {
  }

  lemma FractionStaysBelow(scale: real, f: int)
    requires scale > 0.0 && scale * 4294967295.0 < 1.0
    requires -4294967295 <= f <= 4294967295
    ensures -1.0 < f as real * scale < 1.0
  {
    var g := f as real;
    ProductNonNegative(4294967295.0 - g, scale);
    ProductNonNegative(4294967295.0 + g, scale);
  }

  /** A difference with a given fraction scale orders timetags as instants exactly when the largest
      fraction stays below one second. */
  lemma ChronologicalScales(scale: real)
    requires scale > 0.0
    ensures OrdersChronologically(scale) <==> scale * 4294967295.0 < 1.0
  {
    if scale * 4294967295.0 < 1.0 {
      forall a: Timetag, b: Timetag ensures DiffAt(scale, a, b) > 0.0 <==> Later(a, b) {
        FractionStaysBelow(scale, a.frac - b.frac);
      }
    } else {
      var a, b := Timetag(1, 0), Timetag(0, 4294967295);
      assert Later(a, b) && DiffAt(scale, a, b) == 1.0 - 4294967295.0 * scale;
    }
  }

  // The documented unit would order instants; the factor in the code does not.
  lemma CodeScaleIsNotChronological()
    ensures OrdersChronologically(1.0 / 4294967296.0)
    ensures !OrdersChronologically(SCALE)
    ensures Later(Timetag(1, 0), Timetag(0, 4294967295)) && Diff(Timetag(1, 0), Timetag(0, 4294967295)) < 0.0
  {
    ChronologicalScales(1.0 / 4294967296.0);
    ChronologicalScales(SCALE);
  }

  // ---- Instants ----

  // A timetag as a point in time, in the documented unit of fractions.
  function Instant(t: Timetag): real {
    t.sec as real + t.frac as real / 4294967296.0
  }

  lemma LaterIsLater(a: Timetag, b: Timetag)
    ensures Instant(a) > Instant(b) <==> Later(a, b)
    ensures Instant(a) == Instant(b) <==> a == b
  {
  }

  // All pairs of tags that are d seconds apart are put in the order of their instants.
  ghost predicate OrderedApart(d: int) {
    forall a: Timetag, b: Timetag | a.sec == b.sec + d ::
      (Diff(a, b) > 0.0 <==> Instant(a) > Instant(b)) && (Diff(a, b) == 0.0 <==> a == b)
  }

  /** Which tags the code orders as instants: all those whose seconds are equal or at least four apart, and for
      every other distance it gets some pair wrong. */
  lemma OrderedExactlyWhenFarApart(d: int)
    requires -0x1_0000_0000 < d < 0x1_0000_0000
    ensures OrderedApart(d) <==> d == 0 || d >= 4 || d <= -4
  {
    if d == 0 || d >= 4 || d <= -4 {
      forall a: Timetag, b: Timetag | a.sec == b.sec + d
        ensures (Diff(a, b) > 0.0 <==> Instant(a) > Instant(b)) && (Diff(a, b) == 0.0 <==> a == b)
      {
        FarApart(a, b);
      }
    } else if d > 0 {
      var a, b := Timetag(d, 0), Timetag(0, 4294967295);
      assert a.sec == b.sec + d && Diff(a, b) < 0.0 && Instant(a) > Instant(b);
    } else {
      var a, b := Timetag(0, 4294967295), Timetag(-d, 0);
      assert a.sec == b.sec + d && Diff(a, b) > 0.0 && Instant(a) < Instant(b);
    }
  }

  predicate FarEnough(a: Timetag, b: Timetag) {
    a.sec == b.sec || a.sec >= b.sec + 4 || b.sec >= a.sec + 4
  }

  lemma FarApart(a: Timetag, b: Timetag)
    requires FarEnough(a, b)
    ensures (Key(a) > Key(b) <==> Instant(a) > Instant(b)) && (Key(a) == Key(b) <==> a == b)
    ensures Diff(a, b) == Key(a) - Key(b)
  {
  }

  // Whatever is due within a margin by the code's measure, d seconds from the clock, is due within it as an instant.
  ghost predicate DueApart(d: int, margin: real) {
    forall ts: Timetag, now: Timetag | ts.sec - now.sec == d && Diff(ts, now) <= margin :: Instant(ts) - Instant(now) <= margin
  }

  /** When the code's "due" can be trusted: exactly when the tag's seconds are not one to four ahead of the clock's. */
  lemma DueExactlyWhenNotNear(d: int)
    requires -0x1_0000_0000 < d < 0x1_0000_0000
    ensures DueApart(d, 0.01) <==> !(1 <= d <= 4)
  {
    if 1 <= d <= 4 {
      var ts, now := Timetag(d, 0), Timetag(0, if d == 4 then 4294967295 else 1073741825 * d);
      assert ts.sec - now.sec == d && Diff(ts, now) <= 0.01 && Instant(ts) - Instant(now) > 0.01;
    }
  }

  // How early, as an instant, a tag can be that the code takes to be due within 0.01 s and FLT_EPSILON.
  const EARLIEST: real := 3.0025001

  lemma EarlyByInstants(ts: Timetag, now: Timetag)
    requires Key(ts) - Key(now) < 0.01 + FLT_EPSILON
    ensures Instant(ts) - Instant(now) < EARLIEST
    ensures !(1 <= ts.sec - now.sec <= 4) ==> Instant(ts) - Instant(now) < 0.01 + FLT_EPSILON
  {
  }

  // No bound of 3.0025 would do.
  lemma EarliestIsSharp()
    ensures exists ts: Timetag, now: Timetag ::
      Key(ts) - Key(now) < 0.01 + FLT_EPSILON && Instant(ts) - Instant(now) > 3.0025
  {
    var ts, now := Timetag(4, 0), Timetag(0, 4284229750);
    assert Key(ts) - Key(now) < 0.01 + FLT_EPSILON && Instant(ts) - Instant(now) > 3.0025;
  }
}
