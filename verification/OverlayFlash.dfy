/**
 Writing a built overlay set to the device: one batch over the partitions the overlays name.
 */
module OverlayFlash {
  import opened Wrappers
  import opened PartitionStorage
  import opened EdlSession
  import opened ArbOverlay
  import opened PartitionTransfer

  /** The bytes of a work file. */
  type Encoding = Staged -> seq<Byte>

  function WorkFile(files: map<string, Staged>, encode: Encoding, stem: string): Source {
    if stem in files then Source.Image(encode(files[stem])) else Unreadable
  }

  /** What the batch is asked to do with an overlay. */
  function RequestOf(o: Overlay, files: map<string, Staged>, encode: Encoding): Operation {
    Operation(o.name, WorkFile(files, encode, o.stem), o.lun)
  }

  function RequestsOf(overlays: seq<Overlay>, files: map<string, Staged>, encode: Encoding): (ops: seq<Operation>)
    ensures |ops| == |overlays|
    ensures forall i :: 0 <= i < |overlays| ==> ops[i] == RequestOf(overlays[i], files, encode)
  {
    seq(|overlays|, i requires 0 <= i < |overlays| => RequestOf(overlays[i], files, encode))
  }

  /** The batch's own check of its requests is the list's. */
  lemma {:induction false} AcceptedIsWritable(
      format: GptFormat, storage: Storage, size: nat, overlays: seq<Overlay>, files: map<string, Staged>,
      encode: Encoding)
    requires AllAdmissible(format, storage, size, RequestsOf(overlays, files, encode))
    ensures Writable(overlays)
  {
    var ops := RequestsOf(overlays, files, encode);
    forall i, j | 0 <= i < j < |overlays|
        ensures (overlays[i].lun, overlays[i].name) != (overlays[j].lun, overlays[j].name) {
      assert (ops[i].lun, ops[i].name) != (ops[j].lun, ops[j].name);
    }
  }

  /** Write every overlay, in order, once all of them have been checked. A list that names a partition twice is
      refused with nothing written. */
  method FlashOverlays(
      session: Session, overlays: seq<Overlay>, files: map<string, Staged>, encode: Encoding)
      returns (r: Outcome<EdlError>)
    requires session.Valid()
    modifies session`storage
    ensures session.Valid()
    ensures !Writable(overlays) ==> r.Fail? && session.storage == old(session.storage)
    ensures r.Pass? ==>
              AllAdmissible(session.format, old(session.storage), session.sectorSize,
              RequestsOf(overlays, files, encode))
    ensures r.Pass? ==>
              OnlyTargets(session.format, session.sectorSize, old(session.storage), session.storage,
              RequestsOf(overlays, files, encode))
    ensures r.Pass? && WellFormed(session.format, old(session.storage)) ==>
              forall i :: 0 <= i < |overlays| ==>
                Done(session.format, session.sectorSize, old(session.storage), session.storage,
                    RequestOf(overlays[i], files, encode))
  {
    hide AllAdmissible, Done, WellFormed, OnlyTargets, Writable;
    var ops := RequestsOf(overlays, files, encode);
    ghost var accepted := AllAdmissible(session.format, session.storage, session.sectorSize, ops);
    if accepted { AcceptedIsWritable(session.format, session.storage, session.sectorSize, overlays, files, encode); }
    r := session.ApplyPartitionBatch(ops);
    assert forall i :: 0 <= i < |overlays| ==> ops[i] == RequestOf(overlays[i], files, encode);
  }

  /** A partition holds this work file: its bytes, then what was there before. */
  ghost predicate HoldsFile(size: nat, before: Storage, after: Storage, row: Row, file: seq<Byte>) {
    && size > 0
    && CeilDiv(|file|, size) <= |RowContent(before, row)|
    && Flatten(RowContent(after, row)) == file + Zeros(Padding(|file|, size))
        + Flatten(RowContent(before, row)[CeilDiv(|file|, size)..])
  }

  predicate Names(o: Overlay, row: Row) { o.lun == row.lun && o.name == row.name }

  predicate Unnamed(overlays: seq<Overlay>, row: Row) {
    forall i :: 0 <= i < |overlays| ==> !Names(overlays[i], row)
  }

  /** What every partition of the GPT holds: the overlay that names it, or what it held. `Effective` reads the same
      list. */
  ghost predicate DeviceHolds(
      format: GptFormat, size: nat, before: Storage, after: Storage, overlays: seq<Overlay>,
      files: map<string, Staged>, encode: Encoding)
    requires Complete(overlays, files)
  {
    && (forall row, i :: RowMatches(format, before, size, row) && 0 <= i < |overlays| && Names(overlays[i], row) ==>
          HoldsFile(size, before, after, row, encode(files[overlays[i].stem])))
    && (forall row :: RowMatches(format, before, size, row) && Unnamed(overlays, row) ==>
          RowContent(after, row) == RowContent(before, row))
  }

  lemma {:induction false} FlashedHolds(
      format: GptFormat, size: nat, before: Storage, after: Storage, overlays: seq<Overlay>,
      files: map<string, Staged>, encode: Encoding)
    requires WellFormed(format, before) && Complete(overlays, files)
    requires AllAdmissible(format, before, size, RequestsOf(overlays, files, encode))
    requires OnlyTargets(format, size, before, after, RequestsOf(overlays, files, encode))
    requires forall i :: 0 <= i < |overlays| ==>
              Done(format, size, before, after, RequestOf(overlays[i], files, encode))
    ensures DeviceHolds(format, size, before, after, overlays, files, encode)
  {
    hide WellFormed, OnlyTargets, Done, Leaves, RowContent, Flatten, FindPartition;
    var ops := RequestsOf(overlays, files, encode);
    forall row, i | RowMatches(format, before, size, row) && 0 <= i < |overlays| && Names(overlays[i], row)
      ensures HoldsFile(size, before, after, row, encode(files[overlays[i].stem]))
    {
      var op := RequestOf(overlays[i], files, encode);
      DoneInRow(format, size, before, after, row, op);
      FlashReadsBack(op, size, RowContent(before, row), RowContent(after, row));
    }
    forall row | RowMatches(format, before, size, row) && Unnamed(overlays, row)
      ensures RowContent(after, row) == RowContent(before, row)
    {
      assert forall i :: 0 <= i < |overlays| ==> !Names(overlays[i], row);
      UnlistedRowKept(format, size, before, after, ops, row);
    }
  }

  /** Build the overlays for a package and write them. Whatever the request, a finished run leaves a device whose
      chain verifies with boot and vbmeta_system at their floors, and whose partitions hold exactly that set. */
  method Provision(
      builder: Builder, session: Session, root: Option<Root>, floors: Indices, manual: Option<Indices>, force: bool,
      encode: Encoding)
    returns (built: Result<(seq<Overlay>, bool), ArbError>, flashed: Outcome<EdlError>)
    requires session.Valid()
    modifies builder, session`storage
    ensures session.Valid()
    ensures built.Ok? ==> root.Some?
    ensures built.Err? ==> session.storage == old(session.storage)
    ensures built.Err? && IsPolicy(built.error) ==> builder.files == old(builder.files)
    // A package whose re-signed chains share a label is refused before the first write.
    ensures built.Ok? && built.value.0 != [] && !SingleLabels(builder.luns, root.value.chains) ==>
              flashed.Fail? && session.storage == old(session.storage)
    ensures built.Ok? && flashed.Pass? ==> Complete(built.value.0, builder.files)
    ensures built.Ok? && flashed.Pass? ==> AtFloors(built.value.0, builder.files, builder.package, root.value, floors)
    ensures built.Ok? && flashed.Pass? && ValidChain(root.value, builder.package) ==>
              SafeSet(built.value.0, builder.files, builder.package, root.value, floors)
    ensures built.Ok? && flashed.Pass? && WellFormed(session.format, old(session.storage)) ==>
              DeviceHolds(session.format, session.sectorSize, old(session.storage), session.storage, built.value.0,
                  builder.files, encode)
  {
    hide AllAdmissible, Done, WellFormed, OnlyTargets, Writable, SafeSet, AtFloors, SingleLabels, DeviceHolds, Built;
    flashed := Pass;
    built := builder.BuildForFloors(root, floors, manual, force);
    if built.Err? {
      return;
    }
    ghost var before := session.storage;
    flashed := FlashOverlays(session, built.value.0, builder.files, encode);
    if flashed.Pass? && WellFormed(session.format, before) {
      FlashedHolds(session.format, session.sectorSize, before, session.storage, built.value.0, builder.files, encode);
    }
  }
}
