/**
 Ownership of the foreground operation: one run at a time, identified by a generation number, whose
 worker reports phases through a cell it shares with the run.
 */
module OperationExecution {
  import opened Wrappers

  /** The atomics a reporter and all its clones share. */
  class ProgressCell {
    var step: nat
    var writesStarted: bool

    constructor ()
      ensures step == 0 && !writesStarted
    {
      step, writesStarted := 0, false;
    }
  }

  /** A clonable handle: copies share the cell. */
  datatype PhaseReporter = PhaseReporter(labels: seq<string>, cell: ProgressCell) {

    ghost predicate Valid()
      reads cell
    {
      cell.step < |labels|
    }

    static method FromLabels(labels: seq<string>) returns (r: PhaseReporter)
      requires labels != []
      ensures r.labels == labels && fresh(r.cell) && r.Valid() && r.cell.step == 0 && !r.cell.writesStarted
    {
      var cell := new ProgressCell();
      r := PhaseReporter(labels, cell);
    }

    /** Report a one-based phase of the plan; the write latch is untouched. */
    method Marker(oneBased: nat)
      requires 1 <= oneBased <= |labels|
      modifies cell
      ensures Valid() && cell.step == oneBased - 1 && cell.writesStarted == old(cell.writesStarted)
    {
      cell.step := oneBased - 1;
    }

    /** Latch that a device write was attempted; the phase is untouched. */
    method MarkWritesStarted()
      modifies cell
      ensures cell.writesStarted && cell.step == old(cell.step)
    {
      cell.writesStarted := true;
    }
  }

  datatype Kind = Unphased | Phased(plan: nat) | Cleanup | SelfUpdate

  datatype Active = Active(id: nat, kind: Kind, reporter: Option<PhaseReporter>, completionBound: bool)

  ghost predicate Increasing(s: seq<nat>) {
    forall i, j :: 0 <= i < j < |s| ==> s[i] < s[j]
  }

  class OperationExecution {
    var generation: nat
    var active: Option<Active>
    var steps: seq<string>
    var completedStep: nat
    var writes: bool
    /** Every id issued and every id a completion was bound to, in order; the cells of earlier runs. */
    ghost var issued: seq<nat>
    ghost var bound: seq<nat>
    ghost var retired: set<ProgressCell>

    ghost function Cells(): set<ProgressCell>
      reads this
    {
      if active.Some? && active.value.reporter.Some? then {active.value.reporter.value.cell} else {}
    }

    /** Over every run: ids only grow, a completion is bound at most once for each, the current run has the newest id,
        its reporter is no earlier run's, and every step shown is one of the plan's. */
    ghost predicate Valid()
      reads this, Cells()
    {
      && Increasing(issued) && (forall i :: 0 <= i < |issued| ==> 1 <= issued[i] <= generation)
      && generation <= U64_MAX
      && Increasing(bound) && (forall i :: 0 <= i < |bound| ==> bound[i] in issued)
      && (steps != [] ==> completedStep < |steps|)
      && (steps == [] ==> completedStep == 0)
      && (active.Some? ==>
            && issued != [] && active.value.id == issued[|issued| - 1] == generation
            && (active.value.completionBound <==> active.value.id in bound)
            && (active.value.reporter.Some? ==>
                  && active.value.reporter.value.Valid()
                  && active.value.reporter.value.labels == steps
                  && active.value.reporter.value.cell !in retired)
            && (active.value.reporter.None? ==> steps == []))
    }

    constructor ()
      ensures Valid() && active.None? && issued == [] && retired == {}
    {
      generation, active, steps, completedStep, writes := 0, None, [], 0, false;
      issued, bound, retired := [], [], {};
    }

    function Id(): Option<nat>
      reads this
    {
      if active.Some? then Some(active.value.id) else None
    }

    predicate IsRunning()
      reads this
    {
      active.Some? && active.value.kind != SelfUpdate
    }

    function CurrentStep(): (step: nat)
      reads this, Cells()
      ensures Valid() && steps != [] ==> step < |steps|
    {
      if active.Some? && active.value.reporter.Some? then active.value.reporter.value.cell.step else completedStep
    }

    predicate WritesStarted()
      reads this, Cells()
    {
      writes || (active.Some? && active.value.reporter.Some? && active.value.reporter.value.cell.writesStarted)
    }

    /** Reserve execution under an id no earlier run had. */
    method Start(kind: Kind, reporter: Option<PhaseReporter>)
      requires Valid() && active.None? && generation < U64_MAX
      requires reporter.Some? ==> reporter.value.Valid() && reporter.value.cell !in retired
      modifies this
      ensures Valid() && active == Some(Active(generation, kind, reporter, false))
      ensures generation == old(generation) + 1 && generation !in old(issued)
      ensures issued == old(issued) + [generation] && bound == old(bound) && retired == old(retired)
      ensures steps == if reporter.Some? then reporter.value.labels else []
      ensures reporter.Some? ==>
                CurrentStep() == reporter.value.cell.step && WritesStarted() == reporter.value.cell.writesStarted
      ensures reporter.None? ==> CurrentStep() == 0 && !WritesStarted()
    {
      generation := generation + 1;
      steps := if reporter.Some? then reporter.value.labels else [];
      completedStep, writes := 0, false;
      active := Some(Active(generation, kind, reporter, false));
      assert generation !in bound by {
        assert forall i :: 0 <= i < |bound| ==> bound[i] in issued;
      }
      issued := issued + [generation];
    }

    /** Begin a phased run with a reporter of its own. */
    method BeginPhased(plan: nat, labels: seq<string>) returns (reporter: PhaseReporter)
      requires Valid() && active.None? && generation < U64_MAX && labels != []
      modifies this
      ensures Valid() && fresh(reporter.cell) && reporter.labels == labels
      ensures active == Some(Active(old(generation) + 1, Phased(plan), Some(reporter), false))
      ensures issued == old(issued) + [old(generation) + 1] && retired == old(retired)
      ensures CurrentStep() == 0 && !WritesStarted()
    {
      reporter := PhaseReporter.FromLabels(labels);
      Start(Phased(plan), Some(reporter));
    }

    /** Bind the completion of the current run: once, and never again for the same id. */
    method BindCompletion() returns (id: Option<nat>)
      requires Valid()
      modifies this
      ensures Valid() && Id() == old(Id()) && issued == old(issued) && retired == old(retired)
      ensures CurrentStep() == old(CurrentStep()) && WritesStarted() == old(WritesStarted())
      ensures id.Some? ==> id == Id() && id.value !in old(bound) && bound == old(bound) + [id.value]
      ensures id.None? ==> bound == old(bound) && (active.Some? ==> active.value.id in bound)
    {
      if active.None? || active.value.completionBound {
        return None;
      }
      var run := active.value;
      forall i | 0 <= i < |bound| ensures bound[i] < run.id {
        assert bound[i] in issued && bound[i] != run.id;
        var k :| 0 <= k < |issued| && issued[k] == bound[i];
        assert k != |issued| - 1;
      }
      active := Some(run.(completionBound := true));
      bound := bound + [run.id];
      return Some(run.id);
    }

    /** Release execution, keeping the step and the write latch that were last shown. */
    method Finish(success: bool)
      requires Valid()
      modifies this
      ensures Valid() && active.None? && issued == old(issued) && bound == old(bound)
      ensures retired == old(retired) + old(Cells())
      ensures steps == old(steps)
      ensures CurrentStep() == if success && steps != [] then |steps| - 1 else old(CurrentStep())
      ensures WritesStarted() == old(WritesStarted())
    {
      var shown, wrote := CurrentStep(), WritesStarted();
      completedStep := if success && steps != [] then |steps| - 1 else shown;
      writes := wrote;
      retired := retired + Cells();
      active := None;
    }

    /** A completion carries the id of the run it was bound to; any other id is ignored. */
    method DeliverCompletion(id: nat, success: bool) returns (accepted: bool)
      requires Valid()
      modifies this
      ensures Valid() && issued == old(issued)
      ensures accepted <==> old(Id()) == Some(id)
      ensures accepted ==>
                active.None? && CurrentStep() == if success && steps != [] then |steps| - 1 else old(CurrentStep())
      ensures !accepted ==> active == old(active) && CurrentStep() == old(CurrentStep()) && steps == old(steps)
      ensures WritesStarted() == old(WritesStarted())
      // A completion of any run but the newest is refused.
      ensures id != old(generation) ==> !accepted
    {
      if Id() != Some(id) {
        return false;
      }
      Finish(success);
      return true;
    }

    method SetCompletedStep(step: nat)
      requires Valid() && !IsRunning()
      modifies `completedStep
      ensures Valid()
      ensures step < |steps| ==> completedStep == step
      ensures step >= |steps| > 0 ==> completedStep == |steps| - 1
      ensures steps == [] ==> completedStep == 0
    {
      var limit := SaturatingSub(|steps|, 1);
      completedStep := if step < limit then step else limit;
    }
  }

  /** Marks on an earlier run's reporter, however late, change neither the step nor the write latch shown, whether
      another run is active or none is. */
  method LateMarks(execution: OperationExecution, earlier: PhaseReporter, oneBased: nat)
    requires execution.Valid() && earlier.cell in execution.retired
    requires 1 <= oneBased <= |earlier.labels|
    modifies earlier.cell
    ensures execution.Valid()
    ensures execution.CurrentStep() == old(execution.CurrentStep())
    ensures execution.WritesStarted() == old(execution.WritesStarted())
    ensures execution.Id() == old(execution.Id())
  {
    earlier.Marker(oneBased);
    earlier.MarkWritesStarted();
  }

  /** Marks of the current run are shown at once, and a write latch already up stays up. */
  method CurrentMarks(execution: OperationExecution, current: PhaseReporter, oneBased: nat, write: bool)
    requires execution.Valid() && execution.active.Some? && execution.active.value.reporter == Some(current)
    requires 1 <= oneBased <= |current.labels|
    modifies current.cell
    ensures execution.Valid() && execution.CurrentStep() == oneBased - 1
    ensures execution.WritesStarted() <==> old(execution.WritesStarted()) || write
  {
    current.Marker(oneBased);
    if write {
      current.MarkWritesStarted();
    }
  }
}
