/** The device session's storage calls, over the contracts of `PartitionStorage`. */
module EdlSession {
  import opened Wrappers
  import opened PartitionStorage

  /** A source that passed preflight, with its handle retained until the write. */
  datatype Prepared = Prepared(op: Operation, start: nat, count: nat)

  /** Some sectors, whole but otherwise arbitrary; what an erase or a failed write leaves behind. */
  method Unspecified(count: nat, size: nat) returns (junk: seq<Sector>)
    ensures |junk| == count && SizedSectors(junk, size)
  {
    var blank: seq<Sector> := seq(count, _ => Zeros(size));
    assert |blank| == count && SizedSectors(blank, size);
    junk :| |junk| == count && SizedSectors(junk, size);
  }

  class Session {
    const format: GptFormat
    const sectorSize: nat
    const sendBufferSize: nat
    var storage: Storage

    /** Sectors are whole, always. */
    ghost predicate Valid()
      reads this`storage
    {
      Sized(storage, sectorSize)
    }

    constructor (format: GptFormat, sectorSize: nat, sendBufferSize: nat, storage: Storage)
      requires Sized(storage, sectorSize)
      ensures Valid()
      ensures this.format == format && this.sectorSize == sectorSize
      ensures this.sendBufferSize == sendBufferSize && this.storage == storage
    {
      this.format, this.sectorSize, this.sendBufferSize, this.storage := format, sectorSize, sendBufferSize, storage;
    }

    /** The programmer's write command: on success exactly `sent` is stored; a failed transfer may have stored
        anything in the range, and nothing outside it. */
    method Program(lun: nat, start: nat, sent: seq<Sector>) returns (ok: bool)
      requires Valid() && SizedSectors(sent, sectorSize)
      modifies `storage
      ensures Valid()
      ensures Touches(old(storage), storage, lun, start, start + |sent|)
      ensures ok ==> lun in old(storage) && start + |sent| <= |old(storage)[lun]|
                     && storage[lun][start..start + |sent|] == sent
    {
      if lun !in storage || start + |sent| > |storage[lun]| {
        return false;
      }
      var stored: seq<Sector> := Unspecified(|sent|, sectorSize);
      ok := *;
      if ok { stored := sent; }
      var now := storage[lun];
      storage := storage[lun := now[..start] + stored + now[start + |sent|..]];
      assert storage[lun][start..start + |sent|] == stored;
    }

    /** The programmer's erase command: the content of the range is unspecified afterwards. */
    method SendErase(lun: nat, start: nat, count: nat) returns (ok: bool)
      requires Valid()
      modifies `storage
      ensures Valid()
      ensures Touches(old(storage), storage, lun, start, start + count)
      ensures ok ==> lun in old(storage) && start + count <= |old(storage)[lun]|
    {
      if lun !in storage || start + count > |storage[lun]| {
        return false;
      }
      var junk: seq<Sector> := Unspecified(count, sectorSize);
      var now := storage[lun];
      storage := storage[lun := now[..start] + junk + now[start + count..]];
      ok := *;
    }

    /** Accept a selection exactly when it lists no partition twice and every row is still the GPT's own geometry; a
        check never writes. */
    method ValidatePartitionSnapshot(expected: seq<Row>) returns (r: Outcome<EdlError>)
      ensures r.Pass? <==> SnapshotMatches(format, storage, sectorSize, expected)
    {
      var seen: set<(nat, string)> := {};
      for i := 0 to |expected|
        invariant SnapshotMatches(format, storage, sectorSize, expected[..i])
        invariant forall k :: 0 <= k < i ==> (expected[k].lun, expected[k].name) in seen
        invariant forall p :: p in seen ==> exists k :: 0 <= k < i && p == (expected[k].lun, expected[k].name)
      {
        var row := expected[i];
        assert SnapshotMatches(format, storage, sectorSize, expected) ==>
            RowMatches(format, storage, sectorSize, expected[i]);
        if (row.lun, row.name) in seen {
          return Fail(Duplicate(row.name));
        }
        seen := seen + {(row.lun, row.name)};
        var found := FindPartition(format, storage, row.name, row.lun);
        if found.Err? {
          return Fail(found.error);
        }
        var span := SpanSectors(found.value);
        if span.Err? {
          return Fail(span.error);
        }
        if found.value.first != row.start || span.value != row.sectors || sectorSize == 0
            || span.value * sectorSize != row.bytes {
          return Fail(LayoutChanged(row.name));
        }
        assert expected[..i + 1] == expected[..i] + [row];
      }
      assert expected[..|expected|] == expected;
      return Pass;
    }

    /** Flash with caller-supplied geometry. Whatever happens, only the row's own range may change; success means the
        padded image and the old tail are there; a refusal writes nothing. */
    method FlashPartitionAt(op: Operation, start: U64, partitionSectors: U64) returns (r: Outcome<EdlError>)
      requires Valid()
      modifies `storage
      ensures Valid()
      ensures Touches(old(storage), storage, op.lun, start, start + partitionSectors)
      ensures !Fits(op.source, sectorSize, partitionSectors) ==> r.Fail? && storage == old(storage)
      ensures r.Fail? && Fits(op.source, sectorSize, partitionSectors) ==> r.error == WriteFailed(op.name)
      ensures r.Pass? ==> op.lun in old(storage)
      ensures r.Pass? && start + partitionSectors <= |old(storage)[op.lun]| ==>
                Leaves(op, sectorSize, Content(old(storage), op.lun, start, partitionSectors),
                    Content(storage, op.lun, start, partitionSectors))
    {
      if op.source.Unreadable? {
        return Fail(ReadFailed);
      }
      if !op.source.Image? || op.source.bytes == [] || sectorSize == 0 {
        return Fail(BadImage(op.name));
      }
      var sent := Sectors(op.source.bytes, sectorSize);
      SectorsWhole(op.source.bytes, sectorSize);
      if |sent| > partitionSectors {
        return Fail(ImageTooLarge(op.name));
      }
      if |sent| * sectorSize > U64_MAX {
        return Fail(TransferTooLarge);
      }
      var ok := Program(op.lun, start, sent);
      if !ok {
        return Fail(WriteFailed(op.name));
      }
      if start + partitionSectors <= |old(storage)[op.lun]| {
        ProgramLeaves(op, sectorSize, old(storage)[op.lun], storage[op.lun], start, partitionSectors);
      }
      return Pass;
    }

    /** Flash a whole LUN, bounded by the capacity its own header reports. */
    method FlashPhysicalStorage(op: Operation) returns (r: Outcome<EdlError>)
      requires Valid()
      modifies `storage
      ensures Valid()
      ensures var capacity := Capacity(format, old(storage), op.lun);
              && (capacity.Err? || !Fits(op.source, sectorSize, capacity.value) ==> r.Fail? && storage == old(storage))
              && (capacity.Ok? ==>
                    && Touches(old(storage), storage, op.lun, 0, capacity.value)
                    && (r.Fail? && Fits(op.source, sectorSize, capacity.value) ==> r.error == WriteFailed(op.name))
                    && (r.Pass? && capacity.value <= |old(storage)[op.lun]| ==>
                          Leaves(op, sectorSize, Content(old(storage), op.lun, 0, capacity.value),
                              Content(storage, op.lun, 0, capacity.value))))
    {
      if op.source.Unreadable? {
        return Fail(ReadFailed);
      }
      if !op.source.Image? || op.source.bytes == [] || sectorSize == 0 {
        return Fail(BadImage(op.name));
      }
      var capacity := Capacity(format, storage, op.lun);
      if capacity.Err? {
        return Fail(capacity.error);
      }
      r := FlashPartitionAt(op, 0, capacity.value);
    }

    /** Erase a range. The EFI partition is zero-filled by a full image write instead. */
    method ErasePartitionAt(name: string, lun: nat, start: nat, count: nat) returns (r: Outcome<EdlError>)
      requires Valid()
      modifies `storage
      ensures Valid()
      ensures Touches(old(storage), storage, lun, start, start + count)
      ensures r.Pass? ==> lun in old(storage) && start + count <= |old(storage)[lun]|
      ensures r.Pass? && name == "efisp" ==>
                sectorSize > 0 && Content(storage, lun, start, count) == seq(count, _ => Zeros(sectorSize))
      ensures name == "efisp" && (count == 0 || sectorSize == 0 || sendBufferSize < sectorSize) ==>
                r.Fail? && storage == old(storage)
    {
      var ok: bool;
      if name == "efisp" {
        if count == 0 || sectorSize == 0 || sendBufferSize < sectorSize {
          return Fail(BadGeometry);
        }
        if count * sectorSize > U64_MAX {
          return Fail(TransferTooLarge);
        }
        ok := Program(lun, start, seq(count, _ => Zeros(sectorSize)));
      } else {
        ok := SendErase(lun, start, count);
      }
      return if ok then Pass else Fail(WriteFailed(name));
    }

    /** Flash by name: the GPT entry bounds the write, whatever else the GPT holds. */
    method FlashPartition(op: Operation) returns (r: Outcome<EdlError>)
      requires Valid()
      modifies `storage
      ensures Valid()
      ensures !op.source.Erase? && !Admissible(format, old(storage), sectorSize, op) ==>
                r.Fail? && storage == old(storage)
      ensures r.Fail? && op.source.Image? && Admissible(format, old(storage), sectorSize, op) ==>
                r.error == WriteFailed(op.name)
      ensures op.source.Image? && Admissible(format, old(storage), sectorSize, op) ==>
                OnlyTargets(format, sectorSize, old(storage), storage, [op])
      ensures r.Pass? && WellFormed(format, old(storage)) ==> Done(format, sectorSize, old(storage), storage, op)
    {
      var found := FindPartition(format, storage, op.name, op.lun);
      if found.Err? {
        return Fail(found.error);
      }
      var span := SpanSectors(found.value);
      if span.Err? {
        return Fail(span.error);
      }
      assert op.source.Image? && Admissible(format, storage, sectorSize, op) ==>
          OnlyTargets(format, sectorSize, storage, storage, [op]);
      if op.source.Image? && Admissible(format, storage, sectorSize, op) && WellFormed(format, storage) {
        TargetInside(format, storage, sectorSize, op);
      }
      r := FlashPartitionAt(op, found.value.first, span.value);
      if op.source.Image? && Admissible(format, old(storage), sectorSize, op) {
        FrameKept(format, sectorSize, old(storage), old(storage), storage, [op], 0);
      }
    }

    method ErasePartitionByName(name: string, lun: nat) returns (r: Outcome<EdlError>)
      requires Valid()
      modifies `storage
      ensures Valid()
      ensures FindPartition(format, old(storage), name, lun).Err? ==> r.Fail? && storage == old(storage)
      ensures Admissible(format, old(storage), sectorSize, Operation(name, Erase, lun)) ==>
                OnlyTargets(format, sectorSize, old(storage), storage, [Operation(name, Erase, lun)])
      ensures r.Pass? && sectorSize > 0 ==> Done(format, sectorSize, old(storage), storage, Operation(name, Erase, lun))
    {
      ghost var op := Operation(name, Erase, lun);
      var found := FindPartition(format, storage, name, lun);
      if found.Err? {
        return Fail(found.error);
      }
      var span := SpanSectors(found.value);
      if span.Err? {
        return Fail(span.error);
      }
      r := ErasePartitionAt(name, lun, found.value.first, span.value);
      if Admissible(format, old(storage), sectorSize, op) {
        FrameKept(format, sectorSize, old(storage), old(storage), storage, [op], 0);
      }
    }

    /** Dump by name: a published dump is exactly the partition's bytes, never a short transfer. */
    method DumpPartition(name: string, lun: nat) returns (r: Result<seq<Byte>, EdlError>)
      requires Valid()
      ensures r.Ok? ==> FindPartition(format, storage, name, lun).Ok?
                        && var e := FindPartition(format, storage, name, lun).value;
                           lun in storage && e.first <= e.last < |storage[lun]|
                           && r.value == Flatten(storage[lun][e.first..e.last + 1])
      // The only refusals are a failed lookup, a span that no transfer can carry, and a failed read.
      ensures r.Err? ==> var found := FindPartition(format, storage, name, lun);
                         || (found.Err? && r.error == found.error)
                         || (found.Ok? && SpanSectors(found.value).Err? && r.error == InvalidRange(found.value.name))
                         || (found.Ok? && SpanSectors(found.value).Ok?
                             && (r.error == TransferTooLarge <==>
                                 !(0 < SpanSectors(found.value).value * sectorSize <= U64_MAX))
                             && r.error in {TransferTooLarge, ReadFailed})
    {
      hide Flatten, ReadGpt, FirstNamed;
      var found := FindPartition(format, storage, name, lun);
      if found.Err? {
        return Err(found.error);
      }
      var span := SpanSectors(found.value);
      if span.Err? {
        return Err(span.error);
      }
      var expected := span.value * sectorSize;
      if expected > U64_MAX || expected == 0 {
        return Err(TransferTooLarge);
      }
      r := ReadWhole(lun, found.value.first, span.value);
    }

    /** Dump with caller-supplied geometry. */
    method DumpPartitionAt(lun: nat, start: nat, count: nat) returns (r: Result<seq<Byte>, EdlError>)
      requires Valid()
      ensures r.Ok? ==>
                lun in storage && start + count <= |storage[lun]|
                && r.value == Flatten(Content(storage, lun, start, count))
      ensures r.Err? ==>
                r.error in {TransferTooLarge, ReadFailed}
                && (r.error == TransferTooLarge <==> !(0 < count * sectorSize <= U64_MAX))
    {
      hide Flatten;
      if count * sectorSize > U64_MAX || count * sectorSize == 0 {
        return Err(TransferTooLarge);
      }
      r := ReadWhole(lun, start, count);
    }

    /** Read into a temporary file and publish it only when nothing is missing. */
    method ReadWhole(lun: nat, first: nat, count: nat) returns (r: Result<seq<Byte>, EdlError>)
      requires Valid()
      ensures r.Ok? ==>
                lun in storage && first + count <= |storage[lun]|
                && r.value == Flatten(storage[lun][first..first + count])
      ensures r.Err? ==> r.error == ReadFailed
    {
      hide Flatten;
      if lun !in storage || first + count > |storage[lun]| {
        return Err(ReadFailed);
      }
      var whole := Flatten(storage[lun][first..first + count]);
      // The transport may stop early; the temporary file then holds a prefix.
      var received: seq<Byte> :| received <= whole;
      FlattenLength(storage[lun][first..first + count], sectorSize);
      if |received| != count * sectorSize {
        return Err(ReadFailed);
      }
      return Ok(received);
    }

    /** Validate every target and source before the first command, then apply them in order. */
    method ApplyPartitionBatch(ops: seq<Operation>) returns (r: Outcome<EdlError>)
      requires Valid()
      modifies `storage
      ensures Valid()
      // A preflight failure performs no destructive command.
      ensures !AllAdmissible(format, old(storage), sectorSize, ops) ==> r.Fail? && storage == old(storage)
      ensures sendBufferSize < sectorSize && ops != [] ==> r.Fail? && storage == old(storage)
      ensures r.Pass? ==> AllAdmissible(format, old(storage), sectorSize, ops)
      // In every case only the selected partitions may change.
      ensures AllAdmissible(format, old(storage), sectorSize, ops) ==>
                OnlyTargets(format, sectorSize, old(storage), storage, ops)
      // Success: every partition holds what its operation leaves, and every GPT stays as it was.
      ensures r.Pass? && WellFormed(format, old(storage)) ==>
                forall i :: 0 <= i < |ops| ==> Done(format, sectorSize, old(storage), storage, ops[i])
      ensures WellFormed(format, old(storage)) ==>
                WellFormed(format, storage)
                && forall name, l :: FindPartition(format, storage, name, l)
                    == FindPartition(format, old(storage), name, l)
      // A failure stops the remaining writes: operations before it are done, later ones untouched.
      ensures r.Fail? && WellFormed(format, old(storage)) && AllAdmissible(format, old(storage), sectorSize, ops)
                && sectorSize <= sendBufferSize ==>
                exists k :: 0 <= k < |ops| && StoppedAt(format, sectorSize, old(storage), storage, ops, k)
    {
      var refused, prepared := Preflight(ops);
      if refused.Fail? {
        return refused;
      }
      ghost var before, sound := storage, WellFormed(format, storage);
      if sound { NothingTouched(format, sectorSize, before, ops); }
      hide Admissible, Done, Untouched, OnlyTargets, WellFormed, Sized;
      for i := 0 to |prepared|
        invariant Valid()
        invariant OnlyTargets(format, sectorSize, before, storage, ops)
        invariant sound ==> forall k :: i <= k < |ops| ==> Untouched(format, sectorSize, before, storage, ops[k])
        invariant sound ==> StoppedAt(format, sectorSize, before, storage, ops, i)
      {
        ghost var mid := storage;
        r := ApplyPrepared(before, prepared[i]);
        FrameKept(format, sectorSize, before, mid, storage, ops, i);
        if sound { StepStopsThere(format, sectorSize, before, mid, storage, ops, i); }
        if r.Fail? {
          if sound { BatchKeepsGpts(format, sectorSize, before, storage, ops); }
          return;
        }
      }
      if sound { BatchKeepsGpts(format, sectorSize, before, storage, ops); }
      return Pass;
    }

    method Preflight(ops: seq<Operation>) returns (refused: Outcome<EdlError>, prepared: seq<Prepared>)
      ensures refused.Pass? <==>
                AllAdmissible(format, storage, sectorSize, ops) && (ops == [] || sectorSize <= sendBufferSize)
      ensures refused.Pass? ==> |prepared| == |ops|
      ensures refused.Pass? ==> forall i :: 0 <= i < |ops| ==>
                prepared[i].op == ops[i] && (prepared[i].start, prepared[i].count) == Target(format, storage, ops[i])
    {
      prepared := [];
      var seen: set<(nat, string)> := {};
      for i := 0 to |ops|
        invariant |prepared| == i
        invariant AllAdmissible(format, storage, sectorSize, ops[..i])
        invariant i > 0 ==> sectorSize <= sendBufferSize
        invariant forall k :: 0 <= k < i ==>
                    prepared[k].op == ops[k]
                        && (prepared[k].start, prepared[k].count) == Target(format, storage, ops[k])
        invariant forall k :: 0 <= k < i ==> (ops[k].lun, ops[k].name) in seen
        invariant forall p :: p in seen ==> exists k :: 0 <= k < i && p == (ops[k].lun, ops[k].name)
      {
        var op := ops[i];
        assert AllAdmissible(format, storage, sectorSize, ops) ==> Admissible(format, storage, sectorSize, ops[i]);
        if (op.lun, op.name) in seen {
          return Fail(Duplicate(op.name)), [];
        }
        seen := seen + {(op.lun, op.name)};
        if sectorSize == 0 || sendBufferSize < sectorSize {
          return Fail(BadGeometry), [];
        }
        var found := FindPartition(format, storage, op.name, op.lun);
        if found.Err? {
          return Fail(found.error), [];
        }
        var span := SpanSectors(found.value);
        if span.Err? {
          return Fail(span.error), [];
        }
        if !op.source.Erase? {
          if op.source.Unreadable? {
            return Fail(ReadFailed), [];
          }
          if op.source.NotRegular? || op.source.bytes == [] {
            return Fail(BadImage(op.name)), [];
          }
          var imageSectors := CeilDiv(|op.source.bytes|, sectorSize);
          if imageSectors > span.value {
            return Fail(ImageTooLarge(op.name)), [];
          }
          if imageSectors * sectorSize > U64_MAX {
            return Fail(TransferTooLarge), [];
          }
        }
        assert ops[..i + 1] == ops[..i] + [op];
        prepared := prepared + [Prepared(op, found.value.first, span.value)];
      }
      assert ops[..|ops|] == ops;
      refused := Pass;
    }

    /** One destructive step of a batch, on geometry resolved before the batch began. */
    method ApplyPrepared(ghost before: Storage, p: Prepared) returns (r: Outcome<EdlError>)
      requires Valid() && Admissible(format, before, sectorSize, p.op)
      requires (p.start, p.count) == Target(format, before, p.op)
      modifies `storage
      ensures Valid()
      ensures Touches(old(storage), storage, p.op.lun, p.start, p.start + p.count)
      ensures r.Pass? && Untouched(format, sectorSize, before, old(storage), p.op) ==>
                Done(format, sectorSize, before, storage, p.op)
    {
      hide ReadGpt, FirstNamed, Sectors;
      if p.op.source.Erase? {
        r := ErasePartitionAt(p.op.name, p.op.lun, p.start, p.count);
      } else {
        SectorsWhole(p.op.source.bytes, sectorSize);
        var sent := Sectors(p.op.source.bytes, sectorSize);
        var ok := Program(p.op.lun, p.start, sent);
        if !ok {
          return Fail(WriteFailed(p.op.name));
        }
        if p.start + p.count <= |old(storage)[p.op.lun]| {
          ProgramLeaves(p.op, sectorSize, old(storage)[p.op.lun], storage[p.op.lun], p.start, p.count);
        }
        r := Pass;
      }
    }
  }

  /** Before the first step every partition of an accepted batch is untouched. */
  lemma NothingTouched(format: GptFormat, size: nat, before: Storage, ops: seq<Operation>)
    requires WellFormed(format, before) && AllAdmissible(format, before, size, ops)
    ensures forall k :: 0 <= k < |ops| ==> Untouched(format, size, before, before, ops[k])
    ensures StoppedAt(format, size, before, before, ops, 0)
  {
    forall k | 0 <= k < |ops| ensures Untouched(format, size, before, before, ops[k]) {
      TargetInside(format, before, size, ops[k]);
    }
  }

  lemma {:induction false} FlattenLength(sectors: seq<Sector>, size: nat)
    requires forall i :: 0 <= i < |sectors| ==> |sectors[i]| == size
    ensures |Flatten(sectors)| == |sectors| * size
  {
    if sectors != [] {
      FlattenLength(sectors[1..], size);
      assert |sectors| * size == (|sectors| - 1) * size + size;
    }
  }
}
