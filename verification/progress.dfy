/** The loading overlay's fake progress bar (static/js/main.js): every tick adds
    a random amount and clamps the total at 90, so the bar never reaches the
    end. The random amount (`Math.random() * 15`) is abstracted as an arbitrary
    non-negative real; values are exact reals, not floating point. */
module Progress {

  const Cap: real := 90.0

  /** One tick: `progress += step; if (progress > 90) progress = 90;`. */
  function Tick(progress: real, step: real): (r: real)
    requires 0.0 <= step
    ensures progress <= Cap ==> progress <= r <= Cap
    ensures r == progress + step || (r == Cap && progress + step > Cap)
  {
    var next := progress + step;
    if next > Cap then Cap else next
  }

  /** The widths the interval writes to the bar, one per tick, starting from
      `progress` and consuming the random steps in order. */
  function Run(progress: real, steps: seq<real>): (widths: seq<real>)
    requires 0.0 <= progress <= Cap
    requires forall i :: 0 <= i < |steps| ==> 0.0 <= steps[i]
    ensures |widths| == |steps|
    ensures forall i :: 0 <= i < |widths| ==> progress <= widths[i] <= Cap
    ensures forall i, j :: 0 <= i <= j < |widths| ==> widths[i] <= widths[j]
    ensures |steps| > 0 ==> widths[0] == Tick(progress, steps[0])
    decreases |steps|
  {
    if |steps| == 0 then []
    else
      var next := Tick(progress, steps[0]);
      [next] + Run(next, steps[1..])
  }

  /** Each later width is the tick applied to the one before it. */
  lemma {:induction false} RunSteps(progress: real, steps: seq<real>, i: nat)
    requires 0.0 <= progress <= Cap
    requires forall k :: 0 <= k < |steps| ==> 0.0 <= steps[k]
    requires 0 < i < |steps|
    ensures Run(progress, steps)[i] == Tick(Run(progress, steps)[i - 1], steps[i])
    decreases |steps|
  {
    var next := Tick(progress, steps[0]);
    var rest := Run(next, steps[1..]);
    assert Run(progress, steps) == [next] + rest;
    if i == 1 {
      assert rest[0] == Tick(next, steps[1..][0]);
    } else {
      RunSteps(next, steps[1..], i - 1);
    }
  }
}
