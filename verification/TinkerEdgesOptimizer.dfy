/** The TinkerGraph step optimizer that folds filter steps into a preceding
    edges step: a has, interval or identity step placed after a `TinkerEdgesStep`
    (with only foldable steps between) hands its containers to that step and is
    dropped from the traversal. */
module TinkerEdges {
  import opened Wrappers

  /** The steps the optimizer distinguishes; `C` is the type of has-containers. */
  datatype Step<C> =
    | IdentityStep
    | HasStep(hasContainer: C)
    | IntervalStep(startContainer: C, endContainer: C)
    | TinkerEdgesStep(hasContainers: seq<C>)
    | OtherStep(name: string)

  /** The kinds the optimizer may fold away. */
  predicate Foldable<C>(s: Step<C>) {
    s.IdentityStep? || s.HasStep? || s.IntervalStep?
  }

  /** Step `t` is the target for a scan of `steps[..n]`: an edges step with only
      foldable steps after it, up to `n`. */
  predicate IsTarget<C>(steps: seq<Step<C>>, n: nat, t: nat)
    requires n <= |steps|
  {
    t < n && steps[t].TinkerEdgesStep? && forall j | t < j < n :: Foldable(steps[j])
  }

  /** The backward scan from position `n - 1`: it stops at the first edges step
      (found) or at the first step that cannot be folded (not found). */
  function FindTarget<C>(steps: seq<Step<C>>, n: nat): (r: Option<nat>)
    requires n <= |steps|
    ensures r.Some? ==> r.value < n && steps[r.value].TinkerEdgesStep?
  {
    if n == 0 then None
    else if steps[n - 1].TinkerEdgesStep? then Some(n - 1)
    else if !Foldable(steps[n - 1]) then None
    else FindTarget(steps, n - 1)
  }

  /** The scan finds `t` exactly when `t` is the target. */
  lemma {:induction false} FindTargetIsTarget<C>(steps: seq<Step<C>>, n: nat, t: nat)
    requires n <= |steps|
    ensures FindTarget(steps, n) == Some(t) <==> IsTarget(steps, n, t)
    decreases n
  {
    if n > 0 && !steps[n - 1].TinkerEdgesStep? && Foldable(steps[n - 1]) {
      FindTargetIsTarget(steps, n - 1, t);
      if IsTarget(steps, n, t) {
        assert t != n - 1;
        assert IsTarget(steps, n - 1, t);
      }
    }
  }

  /** So the scan reports nothing exactly when there is no target. */
  lemma FindTargetNone<C>(steps: seq<Step<C>>, n: nat)
    requires n <= |steps|
    ensures FindTarget(steps, n).None? <==> forall t | 0 <= t < n :: !IsTarget(steps, n, t)
  {
    if FindTarget(steps, n).Some? {
      FindTargetIsTarget(steps, n, FindTarget(steps, n).value);
    } else {
      forall t | 0 <= t < n
        ensures !IsTarget(steps, n, t)
      {
        FindTargetIsTarget(steps, n, t);
      }
    }
  }

  /** An edges step is not foldable, so there is at most one target. */
  lemma TargetUnique<C>(steps: seq<Step<C>>, n: nat, t: nat, u: nat)
    requires n <= |steps| && IsTarget(steps, n, t) && IsTarget(steps, n, u)
    ensures t == u
  {
  }

  /** The containers a folded step hands over: a has step its one container, an
      interval step its start then its end, an identity step none. */
  function Appended<C>(step: Step<C>): (cs: seq<C>)
    requires Foldable(step)
    ensures |cs| <= 2
  {
    match step
    case HasStep(c) => [c]
    case IntervalStep(s, e) => [s, e]
    case IdentityStep => []
  }

  /** The steps after `step` is folded into the edges step at `t`. */
  function Fold<C>(steps: seq<Step<C>>, t: nat, step: Step<C>): (r: seq<Step<C>>)
    requires t < |steps| && steps[t].TinkerEdgesStep? && Foldable(step)
    ensures |r| == |steps| && r[t].TinkerEdgesStep?
    ensures |r[t].hasContainers| == |steps[t].hasContainers| + |Appended(step)|
    ensures r[t].hasContainers[..|steps[t].hasContainers|] == steps[t].hasContainers
    ensures forall j | 0 <= j < |steps| && j != t :: r[j] == steps[j]
  {
    var before := steps[t].hasContainers;
    var r := steps[t := TinkerEdgesStep(before + Appended(step))];
    assert r[t].hasContainers[..|before|] == before;
    r
  }

  /** The containers each kind of step adds, in order, after the existing ones. */
  lemma FoldAppends<C>(steps: seq<Step<C>>, t: nat, step: Step<C>)
    requires t < |steps| && steps[t].TinkerEdgesStep? && Foldable(step)
    ensures step.HasStep? ==> Fold(steps, t, step)[t].hasContainers == steps[t].hasContainers + [step.hasContainer]
    ensures step.IntervalStep? ==>
      Fold(steps, t, step)[t].hasContainers == steps[t].hasContainers + [step.startContainer, step.endContainer]
    ensures step.IdentityStep? ==> Fold(steps, t, step) == steps
  {
    if step.IdentityStep? {
      assert steps[t].hasContainers + [] == steps[t].hasContainers;
      assert steps[t := TinkerEdgesStep(steps[t].hasContainers)] == steps;
    }
  }

  /** `optimize(traversal, step)`: `false` when the step was folded into an edges
      step (and may be removed), `true` when it must stay. */
  method Optimize<C>(steps: seq<Step<C>>, step: Step<C>) returns (keep: bool, steps': seq<Step<C>>)
    ensures !Foldable(step) ==> keep
    ensures keep ==> steps' == steps
    ensures !keep <==> Foldable(step) && exists t | 0 <= t < |steps| :: IsTarget(steps, |steps|, t)
    ensures !keep ==> exists t | 0 <= t < |steps| :: IsTarget(steps, |steps|, t) && steps' == Fold(steps, t, step)
  {
    if !Foldable(step) {
      return true, steps;
    }
    var target: Option<nat> := None;
    var i := |steps|;
    while i > 0
      invariant 0 <= i <= |steps|
      invariant FindTarget(steps, i) == FindTarget(steps, |steps|)
    {
      if steps[i - 1].TinkerEdgesStep? {
        target := Some(i - 1);
        break;
      } else if !Foldable(steps[i - 1]) {
        break;
      }
      i := i - 1;
    }
    assert target == FindTarget(steps, |steps|);
    FindTargetNone(steps, |steps|);
    if target.Some? {
      FindTargetIsTarget(steps, |steps|, target.value);
      return false, Fold(steps, target.value, step);
    }
    return true, steps;
  }
}
