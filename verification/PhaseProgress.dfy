/**
 The share of the progress track each phase of an operation owns. Fractions are real numbers: the
 program's floating-point rounding is not modelled.
 */
module PhaseProgress {
  import opened Wrappers

  datatype PhaseKind =
    | Flash | Root | Unroot | SysUpdateDisable | SysUpdateEnable | BootRecovery | ChangeCountry | DetectArb
    | SimpleFlash | FlashPartitions | DumpPartitions | FlashPhysical | DumpPhysical | OfflineConvertXml
    | RegionConversion | PatchArb | RebuildVbmeta | KonaBess

  /** How many phases a plan has. */
  function Phases(kind: PhaseKind): nat {
    match kind
    case Flash => 9
    case Root => 8
    case Unroot => 6
    case SysUpdateDisable | SysUpdateEnable => 3
    case BootRecovery | KonaBess => 7
    case ChangeCountry | DetectArb | SimpleFlash | DumpPhysical => 5
    case FlashPartitions => 3
    case DumpPartitions | FlashPhysical => 4
    case OfflineConvertXml | RebuildVbmeta => 3
    case RegionConversion | PatchArb => 4
  }

  /** One-based phases doing the device work, and their share of the track. */
  datatype Policy = Policy(work: seq<nat>, share: real)

  function PolicyOf(kind: PhaseKind): Option<Policy> {
    match kind
    case Flash => Some(Policy([7, 8], 0.9))
    case SimpleFlash => Some(Policy([3], 0.9))
    case Root => Some(Policy([4, 5, 6], 0.8))
    case Unroot => Some(Policy([4, 5], 0.8))
    case BootRecovery => Some(Policy([4, 5, 6], 0.8))
    case ChangeCountry => Some(Policy([3, 4], 0.8))
    case DetectArb => Some(Policy([2, 4], 0.8))
    case FlashPartitions | DumpPartitions => Some(Policy([2], 0.8))
    case FlashPhysical | DumpPhysical => Some(Policy([3], 0.8))
    case KonaBess => Some(Policy([2, 3, 4, 5, 6], 0.8))
    case _ => None
  }

  /** A nonempty proper set of the plan's phases, and a share that is one. */
  ghost predicate Planned(p: Policy, total: nat) {
    && 0 < |p.work| < total
    && 0.0 <= p.share <= 1.0
    && (forall i :: 0 <= i < |p.work| ==> 1 <= p.work[i] <= total)
    && (forall i, j :: 0 <= i < j < |p.work| ==> p.work[i] != p.work[j])
  }

  function Clamp(x: real): real { if x < 0.0 then 0.0 else if x > 1.0 then 1.0 else x }

  function Within(percent: Option<nat>): real {
    (if percent.None? then 0 else if percent.value < 100 then percent.value else 100) as real / 100.0
  }

  /** Equal shares: the plan without a policy. */
  function EvenFraction(step: nat, total: nat, percent: Option<nat>, complete: bool): real {
    if complete then 1.0
    else if total == 0 then 0.0
    else
      var current := if step < total - 1 then step else total - 1;
      Clamp((current as real + Within(percent)) / total as real)
  }

  function Weight(p: Policy, total: nat, index: nat): real
    requires 0 < |p.work| < total
  {
    if index + 1 in p.work then p.share / |p.work| as real else (1.0 - p.share) / (total - |p.work|) as real
  }

  /** The track before phase `k`. */
  function TrackBefore(p: Policy, total: nat, k: nat): real
    requires 0 < |p.work| < total
  {
    if k == 0 then 0.0 else TrackBefore(p, total, k - 1) + Weight(p, total, k - 1)
  }

  function WeightedFraction(p: Policy, total: nat, step: nat, percent: Option<nat>, complete: bool): real
    requires 0 < |p.work| < total
  {
    if complete then 1.0
    else
      var current := if step < total - 1 then step else total - 1;
      Clamp(TrackBefore(p, total, current) + Weight(p, total, current) * Within(percent))
  }

  /** Every policy of the program is a proper plan of its operation. */
  lemma PoliciesArePlanned(kind: PhaseKind)
    ensures PolicyOf(kind).Some? ==> Planned(PolicyOf(kind).value, Phases(kind))
    ensures Phases(kind) > 0
  {
  }

  // ---------------------------------------------------------------- counting work phases

  /** How many of the first `k` phases are work. */
  function WorkCount(work: seq<nat>, k: nat): nat {
    if k == 0 then 0 else WorkCount(work, k - 1) + (if k in work then 1 else 0)
  }

  lemma {:induction false} WorkCountOne(work: seq<nat>, x: nat, k: nat)
    requires x !in work && x >= 1
    ensures WorkCount(work + [x], k) == WorkCount(work, k) + (if x <= k then 1 else 0)
  {
    if k > 0 { WorkCountOne(work, x, k - 1); }
  }

  lemma {:induction false} WorkCountAll(work: seq<nat>, total: nat)
    requires forall i :: 0 <= i < |work| ==> 1 <= work[i] <= total
    requires forall i, j :: 0 <= i < j < |work| ==> work[i] != work[j]
    ensures WorkCount(work, total) == |work|
  {
    if work == [] {
      WorkCountNone(total);
    } else {
      var n := |work| - 1;
      var rest := work[..n];
      WorkCountAll(rest, total);
      WorkCountOne(rest, work[n], total);
      assert work == rest + [work[n]];
    }
  }

  lemma {:induction false} WorkCountNone(k: nat)
    ensures WorkCount([], k) == 0
  {
    if k > 0 { WorkCountNone(k - 1); }
  }

  lemma {:induction false} TrackCounts(p: Policy, total: nat, k: nat)
    requires 0 < |p.work| < total
    ensures WorkCount(p.work, k) <= k
    ensures TrackBefore(p, total, k)
         == Times(WorkCount(p.work, k), p.share / |p.work| as real)
            + Times(k - WorkCount(p.work, k), (1.0 - p.share) / (total - |p.work|) as real)
  {
    hide Times;
    if k > 0 {
      TrackCounts(p, total, k - 1);
      var w, a, b := WorkCount(p.work, k - 1), p.share / |p.work| as real, (1.0 - p.share) / (total - |p.work|) as real;
      OneMore(w, a);
      OneMore(k - 1 - w, b);
    } else {
      NoneOf(p.share / |p.work| as real);
      NoneOf((1.0 - p.share) / (total - |p.work|) as real);
    }
  }

  function Times(n: nat, x: real): real { n as real * x }

  lemma OneMore(n: nat, x: real)
    ensures Times(n + 1, x) == Times(n, x) + x
  {
    assert (n + 1) as real == n as real + 1.0;
  }

  lemma NoneOf(x: real)
    ensures Times(0, x) == 0.0
  {
  }

  lemma ScaleBack(n: nat, x: real)
    requires n > 0
    ensures Times(n, x / n as real) == x
  {
  }

  /** The weights add up to the whole track. */
  lemma WeightsSumToOne(p: Policy, total: nat)
    requires Planned(p, total)
    ensures TrackBefore(p, total, total) == 1.0
  {
    hide Times, TrackBefore, WorkCount;
    TrackCounts(p, total, total);
    WorkCountAll(p.work, total);
    ScaleBack(|p.work|, p.share);
    ScaleBack(total - |p.work|, 1.0 - p.share);
  }

  lemma WeightNonNegative(p: Policy, total: nat, index: nat)
    requires Planned(p, total)
    ensures Weight(p, total, index) >= 0.0
  {
    Quotient(p.share, |p.work|);
    Quotient(1.0 - p.share, total - |p.work|);
  }

  lemma Quotient(x: real, n: nat)
    requires x >= 0.0 && n > 0
    ensures x / n as real >= 0.0
  {
  }

  lemma {:induction false} TrackIncreases(p: Policy, total: nat, j: nat, k: nat)
    requires Planned(p, total) && j <= k
    ensures 0.0 <= TrackBefore(p, total, j) <= TrackBefore(p, total, k)
    decreases k
  {
    if j < k {
      TrackIncreases(p, total, j, k - 1);
      WeightNonNegative(p, total, k - 1);
    } else if k > 0 {
      TrackIncreases(p, total, k - 1, k - 1);
      WeightNonNegative(p, total, k - 1);
    }
  }

  lemma WithinBounds(percent: Option<nat>)
    ensures 0.0 <= Within(percent) <= 1.0
    ensures Within(Some(100)) == 1.0 && Within(Some(0)) == 0.0 && Within(None) == 0.0
  {
  }

  lemma Units(w: real)
    ensures w * 1.0 == w && w * 0.0 == 0.0
  {
  }

  /** Inside phase `i` the track lies between its start and its end, which is the next phase's start. */
  lemma InsidePhase(p: Policy, total: nat, i: nat, percent: Option<nat>)
    requires Planned(p, total) && i < total
    ensures var f := WeightedFraction(p, total, i, percent, false);
            && f == TrackBefore(p, total, i) + Weight(p, total, i) * Within(percent)
            && TrackBefore(p, total, i) <= f <= TrackBefore(p, total, i + 1) <= 1.0
  {
    hide Weight, Within;
    WithinBounds(percent);
    WeightNonNegative(p, total, i);
    WeightsSumToOne(p, total);
    TrackIncreases(p, total, 0, i);
    TrackIncreases(p, total, i + 1, total);
    assert TrackBefore(p, total, i + 1) == TrackBefore(p, total, i) + Weight(p, total, i);
    assert (if i < total - 1 then i else total - 1) == i;
    var before, inside := TrackBefore(p, total, i), TrackBefore(p, total, i) + Weight(p, total, i) * Within(percent);
    Portion(before, Weight(p, total, i), Within(percent), inside);
    assert WeightedFraction(p, total, i, percent, false) == Clamp(inside);
  }

  lemma Portion(before: real, w: real, t: real, inside: real)
    requires w >= 0.0 && 0.0 <= t <= 1.0 && inside == before + w * t
    ensures before <= inside <= before + w
  {
    assert w * (1.0 - t) >= 0.0;
    assert w * t >= 0.0;
  }

  /** The fraction never leaves [0, 1] and completion fills the track. */
  lemma FractionInRange(p: Policy, total: nat, step: nat, percent: Option<nat>, complete: bool)
    requires Planned(p, total)
    ensures 0.0 <= WeightedFraction(p, total, step, percent, complete) <= 1.0
    ensures complete ==> WeightedFraction(p, total, step, percent, complete) == 1.0
    ensures WeightedFraction(p, total, total - 1, Some(100), false) == 1.0
    ensures WeightedFraction(p, total, 0, None, false) == 0.0
  {
    hide Weight, Within;
    WithinBounds(None);
    WeightsSumToOne(p, total);
    InsidePhase(p, total, total - 1, Some(100));
    InsidePhase(p, total, 0, None);
    InsidePhase(p, total, if step < total - 1 then step else total - 1, percent);
    Units(Weight(p, total, total - 1));
    Units(Weight(p, total, 0));
  }

  /** No jump at a boundary: the end of each phase is the start of the next. */
  lemma BoundariesMeet(p: Policy, total: nat, i: nat)
    requires Planned(p, total) && i + 1 < total
    ensures WeightedFraction(p, total, i, Some(100), false) == WeightedFraction(p, total, i + 1, Some(0), false)
    ensures WeightedFraction(p, total, i + 1, None, false) == WeightedFraction(p, total, i + 1, Some(0), false)
  {
    hide Weight, Within, WeightedFraction;
    WithinBounds(None);
    Units(Weight(p, total, i));
    InsidePhase(p, total, i, Some(100));
    InsidePhase(p, total, i + 1, Some(0));
    InsidePhase(p, total, i + 1, None);
  }

  /** Progress never goes back, in phase or in percent. */
  lemma FractionMonotone(p: Policy, total: nat, s: nat, a: Option<nat>, t: nat, b: Option<nat>)
    requires Planned(p, total)
    requires s < t || (s == t && Within(a) <= Within(b))
    requires t < total
    ensures WeightedFraction(p, total, s, a, false) <= WeightedFraction(p, total, t, b, false)
  {
    hide Weight, Within, WeightedFraction, TrackBefore;
    InsidePhase(p, total, s, a);
    InsidePhase(p, total, t, b);
    if s < t {
      TrackIncreases(p, total, s + 1, t);
    } else {
      WeightNonNegative(p, total, s);
      Scaled(Weight(p, total, s), Within(a), Within(b));
    }
  }

  lemma Scaled(w: real, x: real, y: real)
    requires w >= 0.0 && x <= y
    ensures w * x <= w * y
  {
  }

  /** What the work phases among the first `k` advance the track by. */
  function WorkAdvance(p: Policy, total: nat, k: nat): real
    requires 0 < |p.work| < total && k <= total
  {
    if k == 0 then 0.0
    else
      WorkAdvance(p, total, k - 1)
      + (if k in p.work then WeightedFraction(p, total, k - 1, Some(100), false) - WeightedFraction(p, total, k - 1,
          Some(0), false) else 0.0)
  }

  /** A phase advances the track by its weight. */
  lemma PhaseAdvance(p: Policy, total: nat, i: nat)
    requires Planned(p, total) && i < total
    ensures WeightedFraction(p, total, i, Some(100), false) - WeightedFraction(p, total, i, Some(0), false)
              == Weight(p, total, i)
  {
    hide Weight, Within, WeightedFraction, TrackBefore;
    WithinBounds(None);
    Units(Weight(p, total, i));
    InsidePhase(p, total, i, Some(100));
    InsidePhase(p, total, i, Some(0));
  }

  lemma {:induction false} WorkAdvanceCounts(p: Policy, total: nat, k: nat)
    requires Planned(p, total) && k <= total
    ensures WorkAdvance(p, total, k) == Times(WorkCount(p.work, k), p.share / |p.work| as real)
  {
    hide WeightedFraction, Times;
    if k > 0 {
      WorkAdvanceCounts(p, total, k - 1);
      var w, a := WorkCount(p.work, k - 1), p.share / |p.work| as real;
      if k in p.work {
        PhaseAdvance(p, total, k - 1);
        OneMore(w, a);
      }
    } else {
      NoneOf(p.share / |p.work| as real);
    }
  }

  /** Together the work phases advance exactly their share. */
  lemma WorkAdvancesShare(p: Policy, total: nat)
    requires Planned(p, total)
    ensures WorkAdvance(p, total, total) == p.share
  {
    hide Times, WorkAdvance, WorkCount;
    WorkAdvanceCounts(p, total, total);
    WorkCountAll(p.work, total);
    ScaleBack(|p.work|, p.share);
  }

  // ---------------------------------------------------------------- plans without a policy

  /** Equal shares: in range, continuous at every boundary, and never going back. */
  lemma EvenFractionLaws(total: nat, s: nat, a: Option<nat>, t: nat, b: Option<nat>)
    requires s < total && t < total
    requires s < t || (s == t && Within(a) <= Within(b))
    ensures 0.0 <= EvenFraction(s, total, a, false) <= EvenFraction(t, total, b, false) <= 1.0
    ensures s + 1 < total ==> EvenFraction(s, total, Some(100), false) == EvenFraction(s + 1, total, Some(0), false)
    ensures EvenFraction(total - 1, total, Some(100), false) == 1.0
  {
    hide Within, EvenFraction;
    WithinBounds(a);
    WithinBounds(b);
    EvenValue(s, total, a);
    EvenValue(t, total, b);
    EvenValue(s, total, Some(100));
    EvenValue(total - 1, total, Some(100));
    Ordered(s as real + Within(a), t as real + Within(b), total);
    if s + 1 < total { EvenValue(s + 1, total, Some(0)); }
  }

  lemma EvenValue(step: nat, total: nat, percent: Option<nat>)
    requires step < total
    ensures EvenFraction(step, total, percent, false) == (step as real + Within(percent)) / total as real
    ensures 0.0 <= EvenFraction(step, total, percent, false) <= 1.0
  {
    hide Within;
    WithinBounds(percent);
    Ordered(0.0, step as real + Within(percent), total);
    Ordered(step as real + Within(percent), total as real, total);
  }

  lemma Ordered(x: real, y: real, n: nat)
    requires x <= y && n > 0
    ensures x / n as real <= y / n as real
  {
  }
}
