/**
 * The timeout helpers of src/iqrf/util/io.py: `to_iotime` and the
 * budgeted polling loop `wait`.
 *
 * Wall-clock readings become costs: every probe, condition evaluation and
 * sleep of one iteration comes from an oracle `Probe` with the value the
 * probe returned and the time each of the three steps took, as
 * non-negative integers.  Running past the end of the oracle is the
 * outcome `Exhausted`, which the source cannot produce (its clock keeps
 * running); every property below is stated for oracles long enough not to
 * reach it, or says what happens when they are not.
 */
module IoUtil {
  import opened Wrappers

  /** `sys.maxsize` on a 64-bit interpreter, the budget of `timeout=None`. */
  const MAX_SIZE: int := 0x7FFF_FFFF_FFFF_FFFF

  /** `to_iotime(t)`: None means "as long as the platform allows". */
  function ToIoTime(t: Option<int>): (r: int)
    ensures t.None? ==> r == MAX_SIZE
    ensures t.Some? ==> r == t.value
  {
    match t
    case None => MAX_SIZE
    case Some(v) => v
  }

  /** One iteration's worth of the outside world. */
  datatype Probe<R> = Probe(result: R, probeCost: nat, conditionCost: nat, sleepCost: nat)

  /**
   * How `wait` ends: it returns `(delta, result)`, or it raises
   * `IoTimeoutError`; `probes` counts the oracle items consumed.
   */
  datatype WaitOutcome<R> =
    | Satisfied(delta: int, result: R, probes: nat)
    | TimedOut(probes: nat)
    | Exhausted(probes: nat)

  /** The time spent by the first `n` complete iterations (probe, condition and sleep). */
  function Elapsed<R>(probes: seq<Probe<R>>, n: nat): (t: nat)
    requires n <= |probes|
  {
    if n == 0 then 0
    else
      var p := probes[n - 1];
      Elapsed(probes, n - 1) + p.probeCost + p.conditionCost + p.sleepCost
  }

  /**
   * The loop of `wait` from iteration `i` on, `delta` having been spent:
   * while `delta < timeout`, probe and charge the probe, raise if over
   * budget, evaluate the condition and charge it, raise if over budget,
   * return if the condition held, else sleep and charge the sleep.  Leaving
   * the loop raises.
   */
  function WaitFrom<R>(probes: seq<Probe<R>>, condition: R -> bool, timeout: int, i: nat, delta: int)
    : (o: WaitOutcome<R>)
    requires i <= |probes|
    ensures i <= o.probes <= |probes|
    ensures delta < timeout && i < |probes| ==> i < o.probes
    decreases |probes| - i
  {
    if delta >= timeout then TimedOut(i)
    else if i == |probes| then Exhausted(i)
    else
      var p := probes[i];
      var afterProbe := delta + p.probeCost;
      if afterProbe > timeout then TimedOut(i + 1)
      else
        var afterCondition := afterProbe + p.conditionCost;
        if afterCondition > timeout then TimedOut(i + 1)
        else if condition(p.result) then Satisfied(afterCondition, p.result, i + 1)
        else WaitFrom(probes, condition, timeout, i + 1, afterCondition + p.sleepCost)
  }

  /** `wait(expression, condition, timeout)` over the oracle `probes`. */
  function WaitSpec<R>(probes: seq<Probe<R>>, condition: R -> bool, timeout: int): WaitOutcome<R> {
    WaitFrom(probes, condition, timeout, 0, 0)
  }

  /** `wait`, as the loop it is. */
  method Wait<R>(probes: seq<Probe<R>>, condition: R -> bool, timeout: int) returns (outcome: WaitOutcome<R>)
    ensures outcome == WaitSpec(probes, condition, timeout)
  {
    var delta := 0;
    var i := 0;
    while delta < timeout
      invariant i <= |probes|
      invariant WaitFrom(probes, condition, timeout, i, delta) == WaitSpec(probes, condition, timeout)
      decreases |probes| - i
    {
      if i == |probes| {
        return Exhausted(i);
      }
      var p := probes[i];
      i := i + 1;
      delta := delta + p.probeCost;
      if delta > timeout {
        return TimedOut(i);
      }
      var evaluation := condition(p.result);
      delta := delta + p.conditionCost;
      if delta > timeout {
        return TimedOut(i);
      }
      if evaluation {
        return Satisfied(delta, p.result, i);
      }
      delta := delta + p.sleepCost;
    }
    return TimedOut(i);
  }

  /** `Elapsed` never decreases as iterations are added. */
  lemma {:induction false} ElapsedMonotone<R>(probes: seq<Probe<R>>, m: nat, n: nat)
    requires m <= n <= |probes|
    ensures Elapsed(probes, m) <= Elapsed(probes, n)
    decreases n - m
  {
    if m < n {
      ElapsedMonotone(probes, m, n - 1);
    }
  }

  /**
   * What a successful `wait` from iteration `i` means: the result is the
   * value of the last probe consumed, the condition holds on it and on no
   * probe before it, the budget was not exceeded, and `delta` is exactly the
   * time of the earlier iterations plus this probe and condition.
   */
  lemma {:induction false} WaitFromSatisfied<R>(probes: seq<Probe<R>>, condition: R -> bool, timeout: int, i: nat)
    requires i <= |probes|
    requires WaitFrom(probes, condition, timeout, i, Elapsed(probes, i)).Satisfied?
    ensures
      var o := WaitFrom(probes, condition, timeout, i, Elapsed(probes, i));
      var j := o.probes - 1;
      i <= j < |probes| && o.result == probes[j].result && condition(o.result)
      && (forall k :: i <= k < j ==> !condition(probes[k].result))
      && Elapsed(probes, j) < timeout
      && o.delta == Elapsed(probes, j) + probes[j].probeCost + probes[j].conditionCost
      && o.delta <= timeout
    decreases |probes| - i
  {
    var p := probes[i];
    var d := Elapsed(probes, i) + p.probeCost + p.conditionCost;
    if !condition(p.result) {
      assert Elapsed(probes, i + 1) == d + p.sleepCost;
      WaitFromSatisfied(probes, condition, timeout, i + 1);
    }
  }

  /** The same for a whole `wait`: `wait` returns only a result that satisfies the condition. */
  lemma WaitSatisfied<R>(probes: seq<Probe<R>>, condition: R -> bool, timeout: int)
    requires WaitSpec(probes, condition, timeout).Satisfied?
    ensures
      var o := WaitSpec(probes, condition, timeout);
      var j := o.probes - 1;
      0 <= j < |probes| && o.result == probes[j].result && condition(o.result)
      && (forall k :: 0 <= k < j ==> !condition(probes[k].result))
      && o.delta <= timeout
  {
    WaitFromSatisfied(probes, condition, timeout, 0);
  }

  /**
   * The converse: if probe `j` is the first whose result satisfies the
   * condition, the loop reaches it with budget left, and its probe and
   * condition fit in the budget, `wait` returns that result.
   */
  lemma {:induction false} WaitFromReaches<R>(probes: seq<Probe<R>>, condition: R -> bool, timeout: int, i: nat, j: nat)
    requires i <= j < |probes|
    requires forall k :: i <= k < j ==> !condition(probes[k].result)
    requires condition(probes[j].result)
    requires Elapsed(probes, j) < timeout
    requires Elapsed(probes, j) + probes[j].probeCost + probes[j].conditionCost <= timeout
    ensures WaitFrom(probes, condition, timeout, i, Elapsed(probes, i))
      == Satisfied(Elapsed(probes, j) + probes[j].probeCost + probes[j].conditionCost, probes[j].result, j + 1)
    decreases j - i
  {
    if i < j {
      ElapsedMonotone(probes, i + 1, j);
      WaitFromReaches(probes, condition, timeout, i + 1, j);
    }
  }

  lemma WaitReaches<R>(probes: seq<Probe<R>>, condition: R -> bool, timeout: int, j: nat)
    requires j < |probes|
    requires forall k :: 0 <= k < j ==> !condition(probes[k].result)
    requires condition(probes[j].result)
    requires Elapsed(probes, j) < timeout
    requires Elapsed(probes, j) + probes[j].probeCost + probes[j].conditionCost <= timeout
    ensures WaitSpec(probes, condition, timeout)
      == Satisfied(Elapsed(probes, j) + probes[j].probeCost + probes[j].conditionCost, probes[j].result, j + 1)
  {
    WaitFromReaches(probes, condition, timeout, 0, j);
  }

  /** With no budget the loop is never entered: the probe is not called. */
  lemma WaitNoBudget<R>(probes: seq<Probe<R>>, condition: R -> bool, timeout: int)
    requires timeout <= 0
    ensures WaitSpec(probes, condition, timeout) == TimedOut(0)
  {
  }

  /**
   * A wait that raises IoTimeoutError never saw a satisfying result within
   * budget: every probe before the last one consumed failed the condition,
   * and the last one either overran the budget with its probe or condition,
   * or failed the condition and its sleep used up the budget.
   */
  lemma {:induction false} WaitFromTimedOut<R>(probes: seq<Probe<R>>, condition: R -> bool, timeout: int, i: nat)
    requires i <= |probes|
    requires WaitFrom(probes, condition, timeout, i, Elapsed(probes, i)).TimedOut?
    ensures
      var n := WaitFrom(probes, condition, timeout, i, Elapsed(probes, i)).probes;
      i <= n <= |probes|
      && (forall k :: i <= k < n - 1 ==> !condition(probes[k].result))
      && (n == i ==> Elapsed(probes, i) >= timeout)
      && (n > i ==>
            Elapsed(probes, n - 1) + probes[n - 1].probeCost + probes[n - 1].conditionCost > timeout
            || (!condition(probes[n - 1].result) && Elapsed(probes, n) >= timeout))
    decreases |probes| - i
  {
    if Elapsed(probes, i) < timeout && i < |probes| {
      var p := probes[i];
      var d := Elapsed(probes, i) + p.probeCost + p.conditionCost;
      if d <= timeout && !condition(p.result) {
        assert Elapsed(probes, i + 1) == d + p.sleepCost;
        WaitFromTimedOut(probes, condition, timeout, i + 1);
      }
    }
  }
}
