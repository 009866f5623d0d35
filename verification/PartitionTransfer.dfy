/**
 The partition wizards over one session: write or erase the rows of an earlier scan, and dump rows back.
 */
module PartitionTransfer {
  import opened Wrappers
  import opened PartitionStorage
  import opened EdlSession

  datatype Action = Skip | Wipe | Write(source: Source)

  datatype Request = Request(row: Row, action: Action)

  function RowsOf(requests: seq<Request>): (rows: seq<Row>)
    ensures |rows| == |requests| && forall i :: 0 <= i < |requests| ==> rows[i] == requests[i].row
  {
    seq(|requests|, i requires 0 <= i < |requests| => requests[i].row)
  }

  function OperationOf(r: Request): Operation
    requires !r.action.Skip?
  {
    Operation(r.row.name, if r.action.Wipe? then Erase else r.action.source, r.row.lun)
  }

  /** The operations asked for, in order. */
  function Selected(requests: seq<Request>): seq<Operation> {
    if requests == [] then []
    else
      var n := |requests| - 1;
      Selected(requests[..n]) + (if requests[n].action.Skip? then [] else [OperationOf(requests[n])])
  }

  lemma {:induction false} SelectedAre(requests: seq<Request>)
    ensures forall op :: op in Selected(requests) <==>
              exists i :: 0 <= i < |requests| && !requests[i].action.Skip? && OperationOf(requests[i]) == op
  {
    if requests != [] {
      var n := |requests| - 1;
      SelectedAre(requests[..n]);
      assert forall i :: 0 <= i < n ==> requests[..n][i] == requests[i];
      forall op ensures op in Selected(requests) <==>
                          exists i :: 0 <= i < |requests| && !requests[i].action.Skip? && OperationOf(requests[i]) == op
      {
        if op in Selected(requests[..n]) {
          var i :| 0 <= i < n && !requests[..n][i].action.Skip? && OperationOf(requests[..n][i]) == op;
          assert OperationOf(requests[i]) == op;
        }
      }
    }
  }

  /** An accepted row is the target of its own operation. */
  lemma TargetIsRow(format: GptFormat, storage: Storage, size: nat, row: Row, op: Operation)
    requires RowMatches(format, storage, size, row)
    requires op.name == row.name && op.lun == row.lun
    ensures FindPartition(format, storage, op.name, op.lun).Ok?
    ensures SpanSectors(FindPartition(format, storage, op.name, op.lun).value).Ok?
    ensures Target(format, storage, op) == (row.start, row.sectors)
  {
  }

  /** A row no operation names keeps its content through anything confined to the operations' targets. */
  lemma UnlistedRowKept(format: GptFormat, size: nat, before: Storage, after: Storage, ops: seq<Operation>, row: Row)
    requires WellFormed(format, before) && RowMatches(format, before, size, row)
    requires forall k :: 0 <= k < |ops| ==> Admissible(format, before, size, ops[k])
    requires forall k :: 0 <= k < |ops| ==> (ops[k].lun, ops[k].name) != (row.lun, row.name)
    requires OnlyTargets(format, size, before, after, ops)
    ensures RowContent(after, row) == RowContent(before, row)
  {
    RowInside(format, before, size, row);
    forall s | row.start <= s < row.start + row.sectors ensures after[row.lun][s] == before[row.lun][s] {
      if after[row.lun][s] != before[row.lun][s] {
        var k :| 0 <= k < |ops| && ops[k].lun == row.lun && InTarget(format, size, before, ops[k], s);
        NamedApart(format, size, before, row, ops[k], s);
      }
    }
  }

  lemma NamedApart(format: GptFormat, size: nat, storage: Storage, row: Row, op: Operation, s: nat)
    requires WellFormed(format, storage) && RowMatches(format, storage, size, row)
              && Admissible(format, storage, size, op)
    requires op.lun == row.lun && op.name != row.name
    requires row.start <= s < row.start + row.sectors
    ensures !InTarget(format, size, storage, op, s)
  {
    var entries := ReadGpt(format, storage[row.lun]).value;
    var p, q := FirstNamed(entries, row.name).value, FirstNamed(entries, op.name).value;
    assert p != q;
  }

  /** What a finished batch leaves in an accepted row. */
  lemma DoneInRow(format: GptFormat, size: nat, before: Storage, after: Storage, row: Row, op: Operation)
    requires WellFormed(format, before) && RowMatches(format, before, size, row)
    requires op.name == row.name && op.lun == row.lun
    requires Done(format, size, before, after, op)
    ensures Leaves(op, size, RowContent(before, row), RowContent(after, row))
  {
    TargetIsRow(format, before, size, row, op);
    RowInside(format, before, size, row);
  }

  /** What the finished wizard left in one row. */
  ghost predicate Applied(size: nat, before: Storage, after: Storage, r: Request)
    requires size > 0
  {
    if r.action.Skip? then RowContent(after, r.row) == RowContent(before, r.row)
    else Leaves(OperationOf(r), size, RowContent(before, r.row), RowContent(after, r.row))
  }

  /** Check the whole scan again, then apply everything that is not skipped as one batch. */
  method FlashRows(session: Session, requests: seq<Request>) returns (r: Outcome<EdlError>)
    requires session.Valid()
    modifies session`storage
    ensures session.Valid()
    // A scan that no longer describes the device writes nothing.
    ensures !SnapshotMatches(session.format, old(session.storage), session.sectorSize, RowsOf(requests)) ==>
              r.Fail? && session.storage == old(session.storage)
    ensures r.Pass? ==> SnapshotMatches(session.format, old(session.storage), session.sectorSize, RowsOf(requests))
    // On a sound GPT every row holds what was asked of it, and the scan still describes the device.
    ensures r.Pass? && WellFormed(session.format, old(session.storage)) && requests != [] ==>
              session.sectorSize > 0
              && forall i :: 0 <= i < |requests| ==>
                  Applied(session.sectorSize, old(session.storage), session.storage, requests[i])
    ensures WellFormed(session.format, old(session.storage)) ==>
              WellFormed(session.format, session.storage)
              && (SnapshotMatches(session.format, old(session.storage), session.sectorSize, RowsOf(requests)) ==>
                    SnapshotMatches(session.format, session.storage, session.sectorSize, RowsOf(requests)))
  {
    var rows := RowsOf(requests);
    r := session.ValidatePartitionSnapshot(rows);
    if r.Fail? {
      return;
    }
    ghost var before := session.storage;
    r := session.ApplyPartitionBatch(Selected(requests));
    if WellFormed(session.format, before) {
      SnapshotKept(session.format, session.sectorSize, before, session.storage, rows);
      if r.Pass? { AllApplied(session.format, session.sectorSize, before, session.storage, requests); }
    }
  }

  lemma {:induction false} SnapshotKept(format: GptFormat, size: nat, before: Storage, after: Storage, rows: seq<Row>)
    requires SnapshotMatches(format, before, size, rows)
    requires forall name, l :: FindPartition(format, after, name, l) == FindPartition(format, before, name, l)
    ensures SnapshotMatches(format, after, size, rows)
  {
    forall i | 0 <= i < |rows| ensures RowMatches(format, after, size, rows[i]) {
      assert RowMatches(format, before, size, rows[i]);
    }
  }

  lemma {:induction false} AllApplied(
      format: GptFormat, size: nat, before: Storage, after: Storage, requests: seq<Request>)
    requires WellFormed(format, before) && SnapshotMatches(format, before, size, RowsOf(requests))
    requires var ops := Selected(requests);
             && AllAdmissible(format, before, size, ops) && OnlyTargets(format, size, before, after, ops)
             && forall k :: 0 <= k < |ops| ==> Done(format, size, before, after, ops[k])
    ensures requests != [] ==> size > 0
    ensures forall i :: 0 <= i < |requests| ==> size > 0 && Applied(size, before, after, requests[i])
  {
    hide FindPartition, WellFormed, OnlyTargets, Done, Leaves, RowContent, Selected;
    if requests != [] { assert RowMatches(format, before, size, RowsOf(requests)[0]); }
    forall i | 0 <= i < |requests| ensures size > 0 && Applied(size, before, after, requests[i]) {
      assert RowMatches(format, before, size, RowsOf(requests)[i]);
      if requests[i].action.Skip? {
        SkippedKept(format, size, before, after, requests, i);
      } else {
        var op := OperationOf(requests[i]);
        SelectedAre(requests);
        assert op in Selected(requests);
        DoneInRow(format, size, before, after, requests[i].row, op);
      }
    }
  }

  lemma {:induction false} SkippedKept(
      format: GptFormat, size: nat, before: Storage, after: Storage, requests: seq<Request>, i: nat)
    requires WellFormed(format, before) && SnapshotMatches(format, before, size, RowsOf(requests))
    requires i < |requests| && requests[i].action.Skip?
    requires AllAdmissible(format, before, size, Selected(requests))
    requires OnlyTargets(format, size, before, after, Selected(requests))
    ensures RowContent(after, requests[i].row) == RowContent(before, requests[i].row)
  {
    hide FindPartition, WellFormed, OnlyTargets, RowContent, Selected;
    var ops, rows := Selected(requests), RowsOf(requests);
    SelectedAre(requests);
    assert RowMatches(format, before, size, rows[i]);
    forall k | 0 <= k < |ops| ensures (ops[k].lun, ops[k].name) != (rows[i].lun, rows[i].name) {
      assert ops[k] in ops;
      var j :| 0 <= j < |requests| && !requests[j].action.Skip? && OperationOf(requests[j]) == ops[k];
      assert (rows[i].lun, rows[i].name) != (rows[j].lun, rows[j].name);
    }
    UnlistedRowKept(format, size, before, after, ops, rows[i]);
  }

  /** Check the scan again, then dump its rows one by one; a row that fails does not stop the others. */
  method DumpRows(session: Session, rows: seq<Row>) returns (r: Outcome<EdlError>, dumps: seq<Option<seq<Byte>>>)
    requires session.Valid()
    ensures r.Pass? <==> SnapshotMatches(session.format, session.storage, session.sectorSize, rows)
    ensures r.Pass? ==> |dumps| == |rows|
    ensures r.Pass? ==> forall i :: 0 <= i < |rows| && dumps[i].Some? ==>
              dumps[i].value == Flatten(RowContent(session.storage, rows[i]))
  {
    dumps := [];
    r := session.ValidatePartitionSnapshot(rows);
    if r.Fail? {
      return;
    }
    for i := 0 to |rows|
      invariant |dumps| == i
      invariant forall k :: 0 <= k < i && dumps[k].Some? ==>
                dumps[k].value == Flatten(RowContent(session.storage, rows[k]))
    {
      var read := session.DumpPartitionAt(rows[i].lun, rows[i].start, rows[i].sectors);
      dumps := dumps + [if read.Ok? then Some(read.value) else None];
    }
  }

  /** What a dump of a row must be once the wizard passed. */
  ghost predicate DumpIs(size: nat, before: Storage, r: Request, dump: seq<Byte>)
    requires size > 0
  {
    match r.action
    case Skip => dump == Flatten(RowContent(before, r.row))
    case Write(Image(image)) =>
      && CeilDiv(|image|, size) <= |RowContent(before, r.row)|
      && dump == image + Zeros(Padding(|image|, size)) + Flatten(RowContent(before, r.row)[CeilDiv(|image|, size)..])
    case Wipe | Write(Erase) =>
      // A wipe writes zeros to the EFI partition; what it leaves anywhere else is unspecified.
      r.row.name == "efisp" ==> dump == Zeros(|RowContent(before, r.row)| * size)
    case _ => false
  }

  lemma {:induction false} ZerosFlatten(n: nat, size: nat)
    ensures Flatten(seq(n, _ => Zeros(size))) == Zeros(n * size)
  {
    if n > 0 {
      var blank := seq(n, _ => Zeros(size));
      assert blank[1..] == seq(n - 1, _ => Zeros(size));
      ZerosFlatten(n - 1, size);
      assert n * size == size + (n - 1) * size;
    }
  }

  /** Flash, then dump: a written row comes back as its image, zero padding to the sector and the old tail; a skipped
      row comes back as it was. */
  method FlashThenDump(
      session: Session, requests: seq<Request>)
      returns (flashed: Outcome<EdlError>, dumped: Outcome<EdlError>, dumps: seq<Option<seq<Byte>>>)
    requires session.Valid()
    modifies session`storage
    ensures session.Valid()
    ensures flashed.Pass? && WellFormed(session.format, old(session.storage)) ==> dumped.Pass? && |dumps| == |requests|
    ensures flashed.Pass? && WellFormed(session.format, old(session.storage)) ==>
              forall i :: 0 <= i < |requests| && dumps[i].Some? ==>
              session.sectorSize > 0 && DumpIs(session.sectorSize, old(session.storage), requests[i], dumps[i].value)
  {
    dumped, dumps := Pass, [];
    flashed := FlashRows(session, requests);
    if flashed.Fail? {
      return;
    }
    ghost var size, sound := session.sectorSize, WellFormed(session.format, old(session.storage));
    dumped, dumps := DumpRows(session, RowsOf(requests));
    forall i | sound && 0 <= i < |requests| && dumps[i].Some?
        ensures size > 0 && DumpIs(size, old(session.storage), requests[i], dumps[i].value) {
      assert Applied(size, old(session.storage), session.storage, requests[i]);
      AppliedDump(size, old(session.storage), session.storage, requests[i]);
    }
  }

  lemma AppliedDump(size: nat, before: Storage, after: Storage, r: Request)
    requires size > 0 && Applied(size, before, after, r)
    ensures DumpIs(size, before, r, Flatten(RowContent(after, r.row)))
  {
    match r.action
    case Write(Image(image)) =>
      FlashReadsBack(OperationOf(r), size, RowContent(before, r.row), RowContent(after, r.row));
    case Wipe | Write(Erase) =>
      ZerosFlatten(|RowContent(before, r.row)|, size);
    case _ =>
  }

  // ---------------------------------------------------------------- any sequence of calls

  /** One call on row `row` of a selection. */
  datatype Call = Call(row: nat, source: Source)

  ghost function CalledRows(rows: seq<Row>, calls: seq<Call>): (called: seq<Row>)
    requires forall k :: 0 <= k < |calls| ==> calls[k].row < |rows|
    ensures |called| == |calls| && forall k :: 0 <= k < |calls| ==> called[k] == rows[calls[k].row]
  {
    seq(|calls|, k requires 0 <= k < |calls| => rows[calls[k].row])
  }

  /** The request a call answers. */
  function CallRequest(rows: seq<Row>, call: Call): (r: Request)
    requires call.row < |rows|
    ensures !r.action.Skip? && r.row == rows[call.row]
  {
    Request(rows[call.row], if call.source.Erase? then Wipe else Write(call.source))
  }

  /** One flash or erase of an accepted row, which may fail part-way. */
  method RunCall(session: Session, rows: seq<Row>, call: Call) returns (r: Outcome<EdlError>)
    requires session.Valid() && WellFormed(session.format, session.storage)
    requires SnapshotMatches(session.format, session.storage, session.sectorSize, rows) && call.row < |rows|
    modifies session`storage
    ensures session.Valid()
    ensures RowCall(old(session.storage), session.storage, rows[call.row])
    ensures r.Pass? ==>
              session.sectorSize > 0
              && Applied(session.sectorSize, old(session.storage), session.storage, CallRequest(rows, call))
  {
    var row := rows[call.row];
    assert RowMatches(session.format, session.storage, session.sectorSize, row);
    RowInside(session.format, session.storage, session.sectorSize, row);
    if call.source.Erase? {
      r := session.ErasePartitionAt(row.name, row.lun, row.start, row.sectors);
    } else {
      r := session.FlashPartitionAt(OperationOf(CallRequest(rows, call)), row.start, row.sectors);
    }
  }

  /** What call `k` of a run did to its row, if it passed. */
  ghost predicate Passed(size: nat, states: seq<Storage>, rows: seq<Row>, call: Call, k: nat)
    requires call.row < |rows| && k + 1 < |states|
  {
    size > 0 && Applied(size, states[k], states[k + 1], CallRequest(rows, call))
  }

  /** Any calls on accepted rows, failed ones included. */
  method RunCalls(session: Session, rows: seq<Row>, calls: seq<Call>)
    returns (outcomes: seq<Outcome<EdlError>>, ghost states: seq<Storage>)
    requires session.Valid() && WellFormed(session.format, session.storage)
    requires SnapshotMatches(session.format, session.storage, session.sectorSize, rows)
    requires forall i :: 0 <= i < |calls| ==> calls[i].row < |rows|
    modifies session`storage
    ensures session.Valid() && |outcomes| == |calls| && |states| == |calls| + 1
    ensures states[0] == old(session.storage) && states[|calls|] == session.storage
    ensures Run(states, CalledRows(rows, calls), rows)
    ensures forall k :: 0 <= k < |calls| && outcomes[k].Pass? ==> Passed(session.sectorSize, states, rows, calls[k], k)
  {
    hide SnapshotMatches, WellFormed, Applied, FindPartition, Sized, RowCall;
    ghost var called := CalledRows(rows, calls);
    states, outcomes := [session.storage], [];
    for i := 0 to |calls|
      invariant session.Valid() && |outcomes| == i && |states| == i + 1
      invariant states[0] == old(session.storage) && states[i] == session.storage
      invariant Run(states, called[..i], rows)
      invariant forall k :: 0 <= k < i && outcomes[k].Pass? ==> Passed(session.sectorSize, states, rows, calls[k], k)
    {
      RunConfinedToSelection(session.format, states, called[..i], rows, session.sectorSize);
      var r := RunCall(session, rows, calls[i]);
      RunExtended(states, called, rows, i, session.storage);
      outcomes, states := outcomes + [r], states + [session.storage];
    }
    assert called[..|calls|] == called;
  }

  /** Call `k` is the last on its row. */
  ghost predicate LastOnRow(calls: seq<Call>, k: nat, row: nat)
  {
    k < |calls| && calls[k].row == row && forall i :: k < i < |calls| ==> calls[i].row != row
  }

  ghost predicate FirstOnRow(calls: seq<Call>, k: nat)
    requires k < |calls|
  {
    forall i :: 0 <= i < k ==> calls[i].row != calls[k].row
  }

  /** Any calls on accepted rows, failed and repeated ones included, and then a dump of any of the rows by name. If
      the last call on it passed, the dump is what that call leaves: for a flash its image, zero padding, and the tail
      the row held before that call. A row without calls comes back as it was. */
  method RunThenDump(session: Session, rows: seq<Row>, calls: seq<Call>, row: nat)
    returns (outcomes: seq<Outcome<EdlError>>, dump: Result<seq<Byte>, EdlError>, ghost states: seq<Storage>)
    requires session.Valid() && WellFormed(session.format, session.storage)
    requires SnapshotMatches(session.format, session.storage, session.sectorSize, rows)
    requires row < |rows| && forall i :: 0 <= i < |calls| ==> calls[i].row < |rows|
    modifies session`storage
    ensures session.Valid() && |outcomes| == |calls| && |states| == |calls| + 1
    ensures states[0] == old(session.storage) && states[|calls|] == session.storage
    ensures Run(states, CalledRows(rows, calls), rows)
    ensures dump.Ok? ==> forall k: nat :: LastOnRow(calls, k, row) && outcomes[k].Pass? ==>
              session.sectorSize > 0 && DumpIs(session.sectorSize, states[k], CallRequest(rows, calls[k]), dump.value)
    // When that is its only call, the tail is what the row held before the run.
    ensures dump.Ok? ==> forall k: nat :: LastOnRow(calls, k, row) && FirstOnRow(calls, k) && outcomes[k].Pass? ==>
              session.sectorSize > 0
              && DumpIs(session.sectorSize, old(session.storage), CallRequest(rows, calls[k]), dump.value)
    ensures dump.Ok? && (forall i :: 0 <= i < |calls| ==> calls[i].row != row) ==>
              dump.value == Flatten(RowContent(old(session.storage), rows[row]))
  {
    hide Applied, DumpIs, RowContent, FindPartition, Flatten, WellFormed, SnapshotMatches, Sized;
    ghost var format, size := session.format, session.sectorSize;
    outcomes, states := RunCalls(session, rows, calls);
    RunConfinedToSelection(format, states, CalledRows(rows, calls), rows, size);
    DumpIsRow(format, size, session.storage, rows, row);
    dump := session.DumpPartition(rows[row].name, rows[row].lun);
    if dump.Ok? {
      forall k: nat | LastOnRow(calls, k, row) && outcomes[k].Pass?
        ensures size > 0 && DumpIs(size, states[k], CallRequest(rows, calls[k]), dump.value)
        ensures FirstOnRow(calls, k) ==> DumpIs(size, states[0], CallRequest(rows, calls[k]), dump.value)
      {
        LastCallDumps(format, size, states, rows, calls, k);
      }
      if forall i :: 0 <= i < |calls| ==> calls[i].row != row {
        UncalledKept(format, size, states, rows, calls, row);
      }
    }
  }

  lemma {:induction false} LastCallDumps(
      format: GptFormat, size: nat, states: seq<Storage>, rows: seq<Row>, calls: seq<Call>, k: nat)
    requires forall i :: 0 <= i < |calls| ==> calls[i].row < |rows|
    requires k < |calls| && LastOnRow(calls, k, calls[k].row)
    requires Run(states, CalledRows(rows, calls), rows)
    requires WellFormed(format, states[0]) && SnapshotMatches(format, states[0], size, rows)
    requires Passed(size, states, rows, calls[k], k)
    ensures DumpIs(size, states[k], CallRequest(rows, calls[k]),
              Flatten(RowContent(states[|calls|], rows[calls[k].row])))
    ensures FirstOnRow(calls, k) ==>
              DumpIs(size, states[0], CallRequest(rows, calls[k]),
                  Flatten(RowContent(states[|calls|], rows[calls[k].row])))
  {
    hide Applied, WellFormed, RowContent, RowCall, FindPartition, Flatten, Zeros;
    var called, request := CalledRows(rows, calls), CallRequest(rows, calls[k]);
    forall i | k < i < |calls| ensures called[i] != called[k] {
      RowsDiffer(format, states[0], size, rows, calls[i].row, calls[k].row);
    }
    LastCallStays(format, states, called, rows, size, k);
    AppliedDump(size, states[k], states[k + 1], request);
    if FirstOnRow(calls, k) {
      forall i | 0 <= i < k ensures called[i] != called[k] {
        RowsDiffer(format, states[0], size, rows, calls[i].row, calls[k].row);
      }
      FirstCallFinds(format, states, called, rows, size, k);
      DumpSame(size, states[k], states[0], request, Flatten(RowContent(states[|calls|], request.row)));
    }
  }

  lemma DumpSame(size: nat, a: Storage, b: Storage, r: Request, dump: seq<Byte>)
    requires size > 0 && RowContent(a, r.row) == RowContent(b, r.row)
    ensures DumpIs(size, a, r, dump) <==> DumpIs(size, b, r, dump)
  {
    hide RowContent, Flatten, Zeros;
  }

  lemma {:induction false} UncalledKept(
      format: GptFormat, size: nat, states: seq<Storage>, rows: seq<Row>, calls: seq<Call>, row: nat)
    requires row < |rows| && forall i :: 0 <= i < |calls| ==> calls[i].row < |rows|
    requires Run(states, CalledRows(rows, calls), rows)
    requires WellFormed(format, states[0]) && SnapshotMatches(format, states[0], size, rows)
    requires forall i :: 0 <= i < |calls| ==> calls[i].row != row
    ensures RowContent(states[|calls|], rows[row]) == RowContent(states[0], rows[row])
  {
    hide WellFormed, RowContent, RowCall, FindPartition;
    var called := CalledRows(rows, calls);
    forall i | 0 <= i < |calls| ensures called[i] != rows[row] {
      RowsDiffer(format, states[0], size, rows, calls[i].row, row);
    }
    RowContentKept(format, states, called, rows, size, rows[row]);
  }

  /** An accepted selection lists no row twice. */
  lemma {:induction false} RowsDiffer(format: GptFormat, storage: Storage, size: nat, rows: seq<Row>, i: nat, j: nat)
    requires SnapshotMatches(format, storage, size, rows) && i < |rows| && j < |rows| && i != j
    ensures rows[i] != rows[j]
  {
    hide RowMatches;
    var a, b := if i < j then i else j, if i < j then j else i;
    assert (rows[a].lun, rows[a].name) != (rows[b].lun, rows[b].name);
  }

  lemma RunExtended(states: seq<Storage>, called: seq<Row>, rows: seq<Row>, i: nat, next: Storage)
    requires i < |called| && Run(states, called[..i], rows) && called[i] in rows && RowCall(states[i], next, called[i])
    ensures Run(states + [next], called[..i + 1], rows)
  {
    var longer := states + [next];
    assert forall k :: 0 <= k < i ==> called[..i][k] == called[k] && called[..i + 1][k] == called[k];
    assert forall k :: 0 <= k < |states| ==> longer[k] == states[k];
  }

  lemma {:induction false} DumpIsRow(format: GptFormat, size: nat, storage: Storage, rows: seq<Row>, i: nat)
    requires WellFormed(format, storage) && SnapshotMatches(format, storage, size, rows) && i < |rows|
    ensures FindPartition(format, storage, rows[i].name, rows[i].lun).Ok?
    ensures var e := FindPartition(format, storage, rows[i].name, rows[i].lun).value;
            rows[i].lun in storage && e.first <= e.last < |storage[rows[i].lun]|
            && RowContent(storage, rows[i]) == storage[rows[i].lun][e.first..e.last + 1]
  {
    assert RowMatches(format, storage, size, rows[i]);
    RowInside(format, storage, size, rows[i]);
  }
}
