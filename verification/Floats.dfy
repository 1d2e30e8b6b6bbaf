/** Floating-point numbers without their rounding: a finite value is exact, and everything that is not finite, the
    infinities and NaN, is one value that no operation of the cell rule leads back from. */
module Floats {
  import opened Options
  import opened Automaton

  // None: not a finite number.
  type Float = Option<real>

  function Plus(a: Float, b: Float): Float {
    if a.Some? && b.Some? then Some(a.value + b.value) else None
  }

  function Minus(a: Float, b: Float): Float {
    if a.Some? && b.Some? then Some(a.value - b.value) else None
  }

  function Times(a: Float, w: real): Float {
    if a.Some? then Some(a.value * w) else None
  }

  function Over(a: Float, d: real): Float {
    if a.Some? && d != 0.0 then Some(a.value / d) else None
  }

  // The test against 1.0 that follows an addition; an infinity stays one, NaN fails the test.
  function Fold(a: Float): Float {
    if a.Some? then Some(Folded(a.value)) else None
  }

  predicate Finite(vals: seq<Float>) {
    forall i | 0 <= i < |vals| :: vals[i].Some?
  }

  // A weighted sum of finite values, from the first to the last.
  function Weighted(vals: seq<Float>, ws: seq<real>): real
    requires |vals| == |ws| && Finite(vals)
  {
    if vals == [] then 0.0
    else
      var q := |vals| - 1;
      Weighted(vals[..q], ws[..q]) + vals[q].value * ws[q]
  }

  // The sum that the loops accumulate.
  function Sum(vals: seq<Float>, ws: seq<real>): Float
    requires |vals| == |ws|
  {
    if Finite(vals) then Some(Weighted(vals, ws)) else None
  }

  lemma NothingSummed()
    ensures Sum([], []) == Some(0.0) && Weight([]) == 0.0
  {
  }

  // Dividing by no weight leaves nothing finite, and nothing finite comes of it.
  lemma OverNothing(avg: Float, last: Float, add: real, d: real)
    ensures Fold(Plus(Over(avg, 0.0), Some(add))) == None && Over(Minus(None, last), d) == None
  {
  }

  lemma SumSnoc(vals: seq<Float>, ws: seq<real>, i: nat)
    requires i < |vals| == |ws|
    ensures Sum(vals[..i + 1], ws[..i + 1]) == Plus(Sum(vals[..i], ws[..i]), Times(vals[i], ws[i]))
    ensures Weight(ws[..i + 1]) == Weight(ws[..i]) + ws[i]
  {
    var v, w := vals[..i + 1], ws[..i + 1];
    assert v[..i] == vals[..i] && w[..i] == ws[..i] && v[i] == vals[i] && w[i] == ws[i];
    FinitePrefix(vals, i);
    if Finite(v) {
      assert Weighted(v, w) == Weighted(v[..i], w[..i]) + v[i].value * w[i];
      assert v[i].value * w[i] == vals[i].value * ws[i];
    }
  }

  lemma FinitePrefix(vals: seq<Float>, i: nat)
    requires i < |vals|
    ensures Finite(vals[..i + 1]) <==> Finite(vals[..i]) && vals[i].Some?
  {
    var v := vals[..i + 1];
    assert forall k | 0 <= k < i :: v[k] == vals[..i][k];
    assert v[i] == vals[i];
  }

  lemma {:induction false} OnesWeight(k: nat)
    ensures Weight(Ones(k)) == k as real
  {
    if k > 0 {
      OnesWeight(k - 1);
      assert Ones(k)[..k - 1] == Ones(k - 1);
    }
  }

  // What a cell becomes, from the last states of its habitat: a finite value exactly when all of them are finite and
  // the weights in force do not cancel.
  function NewState(vals: seq<Float>, ws: seq<real>, add: real): Float {
    var e := Effective(ws, |vals|);
    if Finite(vals) && Weight(e) != 0.0 then Some(Folded(Weighted(vals, e) / Weight(e) + add)) else None
  }

  // The last steps of the weighted rule, from what the loop has accumulated.
  lemma NewStateOfSum(vals: seq<Float>, ws: seq<real>, add: real)
    requires |vals| == |ws|
    ensures NewState(vals, ws, add) == Fold(Plus(Over(Sum(vals, ws), Weight(ws)), Some(add)))
  {
    hide Weighted, Folded;
  }

  // A speed that leads from one value to another in so many frames; there is none when a value is not finite, or there
  // are no frames.
  predicate Leads(speed: Float, was: Float, now: Float, frames: int) {
    if was.Some? && now.Some? && frames != 0
    then speed.Some? && was.value + frames as real * speed.value == now.value
    else speed == None
  }

  lemma SpeedLeads(was: Float, now: Float, frames: int)
    ensures Leads(Over(Minus(now, was), frames as real), was, now, frames)
  {
    if was.Some? && now.Some? && frames != 0 {
      Quotient(now.value - was.value, frames as real);
    }
  }

  lemma Quotient(d: real, r: real)
    requires r != 0.0
    ensures r * (d / r) == d
  {
  }
}
