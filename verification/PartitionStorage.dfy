/**
 Writes to the physical units (LUNs) of a device in emergency-download mode.

 A LUN is a sequence of sectors whose first sectors hold the GPT; every
 operation re-reads the GPT from those sectors. Programming, erasing and
 reading are the programmer's own contracts: a successful program stores the
 given sectors, an erase leaves anything in its range, and a call that fails
 may leave anything in its range.
 */
module PartitionStorage {
  import opened Wrappers

  type Byte = x: int | 0 <= x < 256
  type Sector = seq<Byte>
  type Lun = seq<Sector>
  type Storage = map<nat, Lun>

  /** One GPT row; `last` is inclusive (UEFI Specification, section 5.3.3). */
  datatype GptEntry = GptEntry(name: string, first: U64, last: U64)

  /** One row of an earlier partition scan, as selected by the user. */
  datatype Row = Row(lun: nat, name: string, start: U64, sectors: U64, bytes: U64)

  /** The image behind an operation: a whole-partition erase, or a source path that opened as something. */
  datatype Source = Erase | Unreadable | NotRegular | Image(bytes: seq<Byte>)

  datatype Operation = Operation(name: string, source: Source, lun: nat)

  datatype EdlError =
    | ReadFailed
    | GptInvalid
    | PartitionNotFound(name: string)
    | InvalidRange(name: string)
    | Duplicate(name: string)
    | LayoutChanged(name: string)
    | BadImage(name: string)
    | ImageTooLarge(name: string)
    | TransferTooLarge
    | BadGeometry
    | WriteFailed(name: string)

  /** The GPT codec: the first usable and the backup LBA in a header sector, and the entries in the metadata sectors. */
  datatype GptFormat = GptFormat(
    firstUsable: Sector -> Option<U64>, backup: Sector -> Option<U64>, entries: seq<Sector> -> Option<seq<GptEntry>>)

  const MAX_GPT_METADATA_SECTORS: nat := 2048
  const GPT_READ_TAIL_MARGIN: nat := 2

  // ---------------------------------------------------------------- reading the GPT

  function GptReadSectors(firstUsable: nat): Option<nat> {
    if firstUsable == 0 || firstUsable > MAX_GPT_METADATA_SECTORS then None else Some(firstUsable)
  }

  /** How many leading sectors the GPT occupies; the header itself is sector 1. */
  function MetadataSectors(format: GptFormat, lun: Lun): (n: Option<nat>)
    ensures n.Some? ==> 2 <= n.value
  {
    if |lun| < 2 then None
    else
      match format.firstUsable(lun[1])
      case None => None
      case Some(first) =>
        match GptReadSectors(first)
        case None => None
        case Some(len) => Some(if len < 2 then 2 else len)
  }

  /** Read and parse a LUN's GPT. The transfer over-reads by a margin, which the parser ignores. */
  function ReadGpt(format: GptFormat, lun: Lun): Result<seq<GptEntry>, EdlError> {
    match MetadataSectors(format, lun)
    case None => Err(GptInvalid)
    case Some(n) =>
      var readLen := if n + GPT_READ_TAIL_MARGIN < MAX_GPT_METADATA_SECTORS then n
          + GPT_READ_TAIL_MARGIN else MAX_GPT_METADATA_SECTORS;
      if readLen > |lun| || n > |lun| then Err(ReadFailed)
      else
        match format.entries(lun[..n])
        case None => Err(GptInvalid)
        case Some(entries) => Ok(entries)
  }

  /** Sectors of a whole LUN: the backup header is its last. */
  function Capacity(format: GptFormat, storage: Storage, lun: nat): Result<U64, EdlError> {
    if lun !in storage || |storage[lun]| < 2 then Err(ReadFailed)
    else
      match format.backup(storage[lun][1])
      case None => Err(GptInvalid)
      case Some(backup) => if backup + 1 <= U64_MAX then Ok(backup + 1) else Err(GptInvalid)
  }

  function FirstNamed(entries: seq<GptEntry>, name: string): (r: Option<nat>)
    ensures r.Some? ==> r.value < |entries| && entries[r.value].name == name
    ensures r.Some? ==> forall i :: 0 <= i < r.value ==> entries[i].name != name
    ensures r.None? ==> forall i :: 0 <= i < |entries| ==> entries[i].name != name
  {
    if entries == [] then None
    else if entries[0].name == name then Some(0)
    else
      match FirstNamed(entries[1..], name)
      case None => None
      case Some(i) => Some(i + 1)
  }

  function FindPartition(format: GptFormat, storage: Storage, name: string, lun: nat): (r: Result<GptEntry, EdlError>)
    ensures r.Ok? ==> lun in storage && r.value.name == name
  {
    if lun !in storage then Err(ReadFailed)
    else
      match ReadGpt(format, storage[lun])
      case Err(e) => Err(e)
      case Ok(entries) =>
        match FirstNamed(entries, name)
        case None => Err(PartitionNotFound(name))
        case Some(i) => Ok(entries[i])
  }

  /** Sectors spanned by an entry, refusing an inverted range and a count that does not fit 64 bits. */
  function SpanSectors(e: GptEntry): (r: Result<nat, EdlError>)
    ensures r.Ok? ==> e.first <= e.last && r.value == e.last - e.first + 1 && r.value <= U64_MAX
  {
    if e.last < e.first || e.last - e.first + 1 > U64_MAX then Err(InvalidRange(e.name))
    else Ok(e.last - e.first + 1)
  }

  // ---------------------------------------------------------------- images and sectors

  function Zeros(n: nat): (z: seq<Byte>)
    ensures |z| == n && forall i :: 0 <= i < n ==> z[i] == 0
  {
    seq(n, _ => 0)
  }

  /** Rust's `div_ceil`: the least number of `d`-byte sectors that hold `n` bytes. */
  function CeilDiv(n: nat, d: nat): (k: nat)
    requires d > 0
    ensures n <= k * d < n + d
  {
    if n == 0 then 0 else if n <= d then 1 else CeilDiv(n - d, d) + 1
  }

  /** The sectors sent for an image: whole sectors, then a last one padded with zeros. */
  function Sectors(image: seq<Byte>, size: nat): (out: seq<Sector>)
    requires size > 0
    decreases |image|
  {
    if image == [] then []
    else if |image| <= size then [image + Zeros(size - |image|)]
    else [image[..size]] + Sectors(image[size..], size)
  }

  /** What a dump of consecutive sectors holds. */
  function Flatten(sectors: seq<Sector>): seq<Byte> {
    if sectors == [] then [] else sectors[0] + Flatten(sectors[1..])
  }

  lemma {:induction false} FlattenAppend(a: seq<Sector>, b: seq<Sector>)
    ensures Flatten(a + b) == Flatten(a) + Flatten(b)
  {
    if a == [] {
      assert a + b == b;
    } else {
      assert (a + b)[1..] == a[1..] + b;
      FlattenAppend(a[1..], b);
    }
  }

  /** Zero bytes after an image's last byte, up to the sector boundary. */
  function Padding(n: nat, size: nat): (pad: nat)
    requires size > 0
    ensures pad < size && n + pad == CeilDiv(n, size) * size
  {
    CeilDiv(n, size) * size - n
  }

  lemma {:induction false} SectorsWhole(image: seq<Byte>, size: nat)
    requires size > 0
    ensures |Sectors(image, size)| == CeilDiv(|image|, size)
    ensures forall i :: 0 <= i < |Sectors(image, size)| ==> |Sectors(image, size)[i]| == size
    decreases |image|
  {
    if |image| > size {
      SectorsWhole(image[size..], size);
    }
  }

  lemma PaddingStep(n: nat, size: nat)
    requires 0 < size < n
    ensures Padding(n, size) == Padding(n - size, size)
  {
    var k := CeilDiv(n - size, size);
    assert (k + 1) * size == k * size + size;
  }

  lemma {:induction false} SectorsFlatten(image: seq<Byte>, size: nat)
    requires size > 0
    ensures Flatten(Sectors(image, size)) == image + Zeros(Padding(|image|, size))
    decreases |image|
  {
    var out := Sectors(image, size);
    if image == [] {
    } else if |image| <= size {
      assert Padding(|image|, size) == size - |image|;
      assert out[1..] == [];
    } else {
      var rest := image[size..];
      SectorsFlatten(rest, size);
      PaddingStep(|image|, size);
      assert out[1..] == Sectors(rest, size);
      assert image == image[..size] + rest;
    }
  }

  /** Every sector of a device has the sector size, whatever a failed write or an erase left in it. */
  ghost predicate Sized(storage: Storage, size: nat) {
    forall l, s :: l in storage && 0 <= s < |storage[l]| ==> |storage[l][s]| == size
  }

  predicate SizedSectors(sectors: seq<Sector>, size: nat) {
    forall i :: 0 <= i < |sectors| ==> |sectors[i]| == size
  }

  // ---------------------------------------------------------------- frames

  /** Only sectors `lo <= s < hi` may differ. */
  ghost predicate Confined(before: Lun, after: Lun, lo: nat, hi: nat) {
    && |after| == |before|
    && forall s :: 0 <= s < |before| && !(lo <= s < hi) ==> after[s] == before[s]
  }

  ghost predicate Touches(before: Storage, after: Storage, lun: nat, lo: nat, hi: nat) {
    && after.Keys == before.Keys
    && (forall l :: l in before && l != lun ==> after[l] == before[l])
    && (lun in before ==> Confined(before[lun], after[lun], lo, hi))
  }

  /** A LUN whose GPT is laid out as the UEFI Specification requires: entries inside the usable area, none overlapping
      another. */
  ghost predicate WellFormedLun(format: GptFormat, lun: Lun) {
    ReadGpt(format, lun).Ok? ==>
      var entries := ReadGpt(format, lun).value;
      var meta := MetadataSectors(format, lun).value;
      && (forall i :: 0 <= i < |entries| ==> meta <= entries[i].first <= entries[i].last < |lun|)
      && (forall i, j :: 0 <= i < j < |entries| ==>
          entries[i].last < entries[j].first || entries[j].last < entries[i].first)
  }

  ghost predicate WellFormed(format: GptFormat, storage: Storage) {
    forall l :: l in storage ==> WellFormedLun(format, storage[l])
  }

  /** The rows an accepted snapshot describes are the GPT's own geometry. */
  ghost predicate RowMatches(format: GptFormat, storage: Storage, size: nat, row: Row) {
    && size > 0
    && FindPartition(format, storage, row.name, row.lun).Ok?
    && var e := FindPartition(format, storage, row.name, row.lun).value;
      && e.first == row.start
      && e.first <= e.last
      && row.sectors == e.last - e.first + 1
      && row.bytes == row.sectors * size
  }

  ghost predicate SnapshotMatches(format: GptFormat, storage: Storage, size: nat, rows: seq<Row>) {
    && (forall i :: 0 <= i < |rows| ==> RowMatches(format, storage, size, rows[i]))
    && (forall i, j :: 0 <= i < j < |rows| ==> (rows[i].lun, rows[i].name) != (rows[j].lun, rows[j].name))
  }

  /** Changes confined above the metadata leave the GPT readable and identical. */
  lemma GptKept(format: GptFormat, before: Lun, after: Lun, lo: nat, hi: nat)
    requires Confined(before, after, lo, hi)
    requires MetadataSectors(format, before).Some? && MetadataSectors(format, before).value <= lo
    ensures MetadataSectors(format, after) == MetadataSectors(format, before)
    ensures ReadGpt(format, after) == ReadGpt(format, before)
    ensures WellFormedLun(format, before) ==> WellFormedLun(format, after)
  {
    var n := MetadataSectors(format, before).value;
    assert before[1] == after[1];
    if n <= |before| { assert before[..n] == after[..n]; }
  }

  /** A change inside an entry of a well-formed device changes no GPT anywhere. */
  lemma LookupKept(format: GptFormat, before: Storage, after: Storage, lun: nat, e: GptEntry, lo: nat, hi: nat)
    requires WellFormed(format, before)
    requires FindPartition(format, before, e.name, lun) == Ok(e)
    requires e.first <= lo && hi <= e.last + 1
    requires Touches(before, after, lun, lo, hi)
    ensures WellFormed(format, after)
    ensures forall name, l :: FindPartition(format, after, name, l) == FindPartition(format, before, name, l)
  {
    var i := FirstNamed(ReadGpt(format, before[lun]).value, e.name).value;
    GptKept(format, before[lun], after[lun], lo, hi);
    forall l | l in after
        ensures WellFormedLun(format, after[l]) && ReadGpt(format, after[l]) == ReadGpt(format, before[l]) {
      if l != lun { assert after[l] == before[l]; }
    }
  }

  // ---------------------------------------------------------------- whole runs

  /** What one call on an accepted row may do, whether it succeeds or fails part-way. */
  ghost predicate RowCall(before: Storage, after: Storage, row: Row) {
    Touches(before, after, row.lun, row.start, row.start + row.sectors)
  }

  ghost predicate Run(states: seq<Storage>, calls: seq<Row>, rows: seq<Row>) {
    && |states| == |calls| + 1
    && (forall k :: 0 <= k < |calls| ==> calls[k] in rows)
    && (forall k :: 0 <= k < |calls| ==> RowCall(states[k], states[k + 1], calls[k]))
  }

  ghost predicate InSelection(rows: seq<Row>, lun: nat, s: nat) {
    exists r :: r in rows && r.lun == lun && r.start <= s < r.start + r.sectors
  }

  /** Safety of a whole run: over any sequence of flashes and erases of accepted rows, including ones that fail part-
      way, the snapshot stays valid, every GPT lookup is unchanged, and every sector outside the selected ranges keeps
      its content. */
  lemma {:induction false} RunConfinedToSelection(
      format: GptFormat, states: seq<Storage>, calls: seq<Row>, rows: seq<Row>, size: nat)
    requires Run(states, calls, rows)
    requires WellFormed(format, states[0])
    requires SnapshotMatches(format, states[0], size, rows)
    ensures WellFormed(format, states[|calls|])
    ensures SnapshotMatches(format, states[|calls|], size, rows)
    ensures forall name, l :: FindPartition(format, states[|calls|], name, l)
              == FindPartition(format, states[0], name, l)
    ensures states[|calls|].Keys == states[0].Keys
    ensures forall l :: l in states[0] ==> |states[|calls|][l]| == |states[0][l]|
    ensures forall l, s :: l in states[0] && 0 <= s < |states[0][l]| && !InSelection(rows, l, s) ==>
              states[|calls|][l][s] == states[0][l][s]
    decreases |calls|
  {
    hide FindPartition, WellFormed;
    if |calls| > 0 {
      var n := |calls| - 1;
      RunConfinedToSelection(format, states[..n + 1], calls[..n], rows, size);
      var before, after, row := states[n], states[n + 1], calls[n];
      assert states[..n + 1][n] == before;
      assert RowMatches(format, before, size, row);
      var e := FindPartition(format, before, row.name, row.lun).value;
      LookupKept(format, before, after, row.lun, e, row.start, row.start + row.sectors);
    }
  }

  /** Two different partitions of one well-formed LUN share no sector. */
  lemma DistinctRowsDisjoint(format: GptFormat, storage: Storage, size: nat, a: Row, b: Row)
    requires WellFormed(format, storage)
    requires RowMatches(format, storage, size, a) && RowMatches(format, storage, size, b)
    requires a.lun == b.lun && a.name != b.name
    ensures a.start + a.sectors <= b.start || b.start + b.sectors <= a.start
  {
    var entries := ReadGpt(format, storage[a.lun]).value;
    var i := FirstNamed(entries, a.name).value;
    var j := FirstNamed(entries, b.name).value;
    assert i != j;
  }

  /** In an accepted selection, a call on one row leaves every other row's sectors alone. */
  lemma OtherRowsKept(
      format: GptFormat, before: Storage, after: Storage, rows: seq<Row>, size: nat, row: Row, called: Row)
    requires WellFormed(format, before) && SnapshotMatches(format, before, size, rows)
    requires row in rows && called in rows && row != called
    requires RowCall(before, after, called)
    ensures row.lun in before && row.lun in after && row.start + row.sectors <= |before[row.lun]| == |after[row.lun]|
    ensures after[row.lun][row.start..row.start + row.sectors] == before[row.lun][row.start..row.start + row.sectors]
  {
    hide FindPartition, WellFormed;
    var p :| 0 <= p < |rows| && rows[p] == row;
    var q :| 0 <= q < |rows| && rows[q] == called;
    assert RowMatches(format, before, size, rows[p]) && RowMatches(format, before, size, rows[q]);
    RowInside(format, before, size, row);
    if called.lun == row.lun {
      DistinctRowsDisjoint(format, before, size, row, called);
    }
    assert forall s :: row.start <= s < row.start + row.sectors ==> after[row.lun][s] == before[row.lun][s];
  }

  /** A row's content survives every later call on other rows: nothing but the row itself can change it. */
  lemma {:induction false} RowKeptUntilNextCall(
      format: GptFormat, states: seq<Storage>, calls: seq<Row>, rows: seq<Row>, size: nat, row: Row)
    requires Run(states, calls, rows)
    requires WellFormed(format, states[0]) && SnapshotMatches(format, states[0], size, rows)
    requires row in rows && row !in calls
    requires row.lun in states[0] && row.start + row.sectors <= |states[0][row.lun]|
    ensures row.lun in states[|calls|] && |states[|calls|][row.lun]| == |states[0][row.lun]|
    ensures states[|calls|][row.lun][row.start..row.start + row.sectors]
              == states[0][row.lun][row.start..row.start + row.sectors]
    decreases |calls|
  {
    if |calls| > 0 {
      var n := |calls| - 1;
      assert row !in calls[..n] && row != calls[n];
      assert states[..n + 1][n] == states[n];
      RowKeptUntilNextCall(format, states[..n + 1], calls[..n], rows, size, row);
      RunConfinedToSelection(format, states[..n + 1], calls[..n], rows, size);
      OtherRowsKept(format, states[n], states[n + 1], rows, size, row, calls[n]);
    }
  }

  // ---------------------------------------------------------------- contents

  /** The sectors of an entry. */
  ghost function Content(storage: Storage, lun: nat, first: nat, count: nat): seq<Sector>
    requires lun in storage && first + count <= |storage[lun]|
  {
    storage[lun][first..first + count]
  }

  /** What an operation leaves in a partition that held `prior`: the padded image then the old tail; zeros for the EFI
      partition's erase, which is a zero-image write; anything for another erase. */
  ghost predicate Leaves(op: Operation, size: nat, prior: seq<Sector>, now: seq<Sector>)
    requires size > 0
  {
    && |now| == |prior|
    && match op.source
       case Image(bytes) =>
         var sent := Sectors(bytes, size);
         |sent| <= |prior| && now == sent + prior[|sent|..]
       case Erase => op.name == "efisp" ==> now == seq(|prior|, _ => Zeros(size))
       case _ => false
  }

  /** Storing exactly the image's sectors at the start of a range leaves the image and the old tail. */
  lemma ProgramLeaves(op: Operation, size: nat, before: Lun, after: Lun, first: nat, count: nat)
    requires op.source.Image? && Fits(op.source, size, count)
    requires first + count <= |before|
    requires var n := |Sectors(op.source.bytes, size)|;
             n <= count && Confined(before, after, first, first + n)
             && after[first..first + n] == Sectors(op.source.bytes, size)
    ensures Leaves(op, size, before[first..first + count], after[first..first + count])
  {
    var sent := Sectors(op.source.bytes, size);
    var n := |sent|;
    var now := after[first..first + count];
    assert forall i :: 0 <= i < n ==> now[i] == after[first..first + n][i];
    assert now == sent + before[first..first + count][n..];
  }

  /** Dumping a flashed partition gives its image, zero padding to the sector, then its old tail. */
  lemma FlashReadsBack(op: Operation, size: nat, prior: seq<Sector>, now: seq<Sector>)
    requires size > 0 && op.source.Image?
    requires Leaves(op, size, prior, now)
    ensures var image := op.source.bytes;
            CeilDiv(|image|, size) <= |prior|
            && Flatten(now) == image + Zeros(Padding(|image|, size)) + Flatten(prior[CeilDiv(|image|, size)..])
  {
    var image := op.source.bytes;
    SectorsWhole(image, size);
    SectorsFlatten(image, size);
    FlattenAppend(Sectors(image, size), prior[|Sectors(image, size)|..]);
  }

  lemma RowInside(format: GptFormat, storage: Storage, size: nat, row: Row)
    requires WellFormed(format, storage) && RowMatches(format, storage, size, row)
    ensures row.lun in storage && row.start + row.sectors <= |storage[row.lun]|
  {
    var i := FirstNamed(ReadGpt(format, storage[row.lun]).value, row.name).value;
  }

  ghost function RowContent(storage: Storage, row: Row): seq<Sector> {
    if row.lun in storage && row.start + row.sectors <= |storage[row.lun]|
    then Content(storage, row.lun, row.start, row.sectors) else []
  }

  /** A run cut at any point is two runs, and the second starts on a well-formed, accepted device. */
  lemma RunSplit(format: GptFormat, states: seq<Storage>, calls: seq<Row>, rows: seq<Row>, size: nat, k: nat)
    requires Run(states, calls, rows) && k <= |calls|
    requires WellFormed(format, states[0]) && SnapshotMatches(format, states[0], size, rows)
    ensures Run(states[..k + 1], calls[..k], rows) && Run(states[k..], calls[k..], rows)
    ensures WellFormed(format, states[k]) && SnapshotMatches(format, states[k], size, rows)
  {
    assert states[..k + 1][|calls[..k]|] == states[k];
    RunConfinedToSelection(format, states[..k + 1], calls[..k], rows, size);
  }

  lemma RowContentKept(format: GptFormat, states: seq<Storage>, calls: seq<Row>, rows: seq<Row>, size: nat, row: Row)
    requires Run(states, calls, rows)
    requires WellFormed(format, states[0]) && SnapshotMatches(format, states[0], size, rows)
    requires row in rows && row !in calls
    ensures RowContent(states[|calls|], row) == RowContent(states[0], row)
  {
    RowInside(format, states[0], size, row);
    RowKeptUntilNextCall(format, states, calls, rows, size, row);
  }

  /** At the end of any run, dumping a row whose last call was a successful flash gives that image, zero padding to
      the sector, then the bytes the partition held before that call, whatever earlier calls left there. */
  lemma FlashSurvivesRun(
      format: GptFormat, states: seq<Storage>, calls: seq<Row>, rows: seq<Row>, size: nat, k: nat, op: Operation)
    requires Run(states, calls, rows) && k < |calls|
    requires WellFormed(format, states[0]) && SnapshotMatches(format, states[0], size, rows)
    requires size > 0 && op.source.Image?
    requires calls[k] !in calls[k + 1..]
    requires Leaves(op, size, RowContent(states[k], calls[k]), RowContent(states[k + 1], calls[k]))
    ensures var row, image := calls[k], op.source.bytes;
            CeilDiv(|image|, size) <= |RowContent(states[k], row)|
            && Flatten(RowContent(states[|calls|], row))
               == image + Zeros(Padding(|image|, size)) + Flatten(RowContent(states[k], row)[CeilDiv(|image|, size)..])
  {
    hide WellFormed, SnapshotMatches, FindPartition, Leaves, RowContent, Flatten;
    LastCallStays(format, states, calls, rows, size, k);
    FlashReadsBack(op, size, RowContent(states[k], calls[k]), RowContent(states[k + 1], calls[k]));
  }

  /** What the last call on a row left there is there at the end. */
  lemma LastCallStays(format: GptFormat, states: seq<Storage>, calls: seq<Row>, rows: seq<Row>, size: nat, k: nat)
    requires Run(states, calls, rows) && k < |calls|
    requires WellFormed(format, states[0]) && SnapshotMatches(format, states[0], size, rows)
    requires calls[k] !in calls[k + 1..]
    ensures RowContent(states[|calls|], calls[k]) == RowContent(states[k + 1], calls[k])
  {
    hide WellFormed, SnapshotMatches, FindPartition, RowContent, RowCall;
    RunSplit(format, states, calls, rows, size, k + 1);
    RowContentKept(format, states[k + 1..], calls[k + 1..], rows, size, calls[k]);
    assert states[k + 1..][|calls[k + 1..]|] == states[|calls|];
  }

  /** When that is the only call on the row, it held before the call what it held before the run. */
  lemma FirstCallFinds(format: GptFormat, states: seq<Storage>, calls: seq<Row>, rows: seq<Row>, size: nat, k: nat)
    requires Run(states, calls, rows) && k < |calls|
    requires WellFormed(format, states[0]) && SnapshotMatches(format, states[0], size, rows)
    requires calls[k] !in calls[..k]
    ensures RowContent(states[k], calls[k]) == RowContent(states[0], calls[k])
  {
    hide WellFormed, SnapshotMatches, FindPartition, RowContent, RowCall;
    RunSplit(format, states, calls, rows, size, k);
    RowContentKept(format, states[..k + 1], calls[..k], rows, size, calls[k]);
    assert states[..k + 1][|calls[..k]|] == states[k];
  }

  /** What preflight accepts: a resolvable entry, and a source that fits it. */
  ghost predicate Admissible(format: GptFormat, storage: Storage, size: nat, op: Operation) {
    && size > 0
    && FindPartition(format, storage, op.name, op.lun).Ok?
    && var e := FindPartition(format, storage, op.name, op.lun).value;
      && SpanSectors(e).Ok?
      && (op.source == Erase || Fits(op.source, size, e.last - e.first + 1))
  }

  /** A nonempty regular image whose padded form is no longer than the range. */
  ghost predicate Fits(source: Source, size: nat, sectors: nat) {
    && size > 0
    && source.Image?
    && source.bytes != []
    && CeilDiv(|source.bytes|, size) <= sectors
    && CeilDiv(|source.bytes|, size) * size <= U64_MAX
  }

  ghost predicate AllAdmissible(format: GptFormat, storage: Storage, size: nat, ops: seq<Operation>) {
    && (forall i :: 0 <= i < |ops| ==> Admissible(format, storage, size, ops[i]))
    && (forall i, j :: 0 <= i < j < |ops| ==> (ops[i].lun, ops[i].name) != (ops[j].lun, ops[j].name))
  }

  /** The GPT range of an operation, as resolved before the batch. */
  ghost function Target(format: GptFormat, storage: Storage, op: Operation): (nat, nat)
    requires FindPartition(format, storage, op.name, op.lun).Ok?
    requires SpanSectors(FindPartition(format, storage, op.name, op.lun).value).Ok?
  {
    var e := FindPartition(format, storage, op.name, op.lun).value;
    (e.first, SpanSectors(e).value)
  }

  lemma TargetInside(format: GptFormat, storage: Storage, size: nat, op: Operation)
    requires WellFormed(format, storage) && Admissible(format, storage, size, op)
    ensures var (first, count) := Target(format, storage, op); op.lun in storage && first + count <= |storage[op.lun]|
  {
    var i := FirstNamed(ReadGpt(format, storage[op.lun]).value, op.name).value;
  }

  /** Operation `i` finished: its partition holds what it leaves. */
  ghost predicate Done(format: GptFormat, size: nat, before: Storage, after: Storage, op: Operation) {
    && Admissible(format, before, size, op)
    && var (first, count) := Target(format, before, op);
      && op.lun in before && op.lun in after
      && first + count <= |before[op.lun]| == |after[op.lun]|
      && Leaves(op, size, Content(before, op.lun, first, count), Content(after, op.lun, first, count))
  }

  /** The partition of an operation holds what it held. */
  ghost predicate Untouched(format: GptFormat, size: nat, before: Storage, after: Storage, op: Operation) {
    && Admissible(format, before, size, op)
    && var (first, count) := Target(format, before, op);
      && op.lun in before && op.lun in after
      && first + count <= |before[op.lun]| == |after[op.lun]|
      && Content(before, op.lun, first, count) == Content(after, op.lun, first, count)
  }

  /** Every sector outside the operations' partitions keeps its content. */
  ghost predicate OnlyTargets(format: GptFormat, size: nat, before: Storage, after: Storage, ops: seq<Operation>)
    requires forall i :: 0 <= i < |ops| ==> Admissible(format, before, size, ops[i])
  {
    && after.Keys == before.Keys
    && (forall l :: l in before ==> |after[l]| == |before[l]|)
    && forall l, s :: l in before && 0 <= s < |before[l]| && after[l][s] != before[l][s] ==>
         exists i :: 0 <= i < |ops| && ops[i].lun == l && InTarget(format, size, before, ops[i], s)
  }

  ghost predicate InTarget(format: GptFormat, size: nat, storage: Storage, op: Operation, s: nat)
    requires Admissible(format, storage, size, op)
  {
    var (first, count) := Target(format, storage, op);
    first <= s < first + count
  }

  /** Two operations of one batch own disjoint sectors. */
  lemma TargetsDisjoint(format: GptFormat, size: nat, storage: Storage, a: Operation, b: Operation)
    requires WellFormed(format, storage) && Admissible(format, storage, size, a) && Admissible(format, storage, size, b)
    requires a.lun == b.lun && a.name != b.name
    ensures Target(format, storage, a).0 + Target(format, storage, a).1 <= Target(format, storage, b).0
         || Target(format, storage, b).0 + Target(format, storage, b).1 <= Target(format, storage, a).0
  {
    var entries := ReadGpt(format, storage[a.lun]).value;
    var p, q := FirstNamed(entries, a.name).value, FirstNamed(entries, b.name).value;
    assert p != q;
  }

  /** A step inside one operation's partition moves no other operation's partition. */
  lemma OtherTargetKept(
      format: GptFormat, size: nat, before: Storage, mid: Storage, after: Storage, stepped: Operation, op: Operation)
    requires WellFormed(format, before) && Admissible(format, before, size, stepped)
              && Admissible(format, before, size, op)
    requires (stepped.lun, stepped.name) != (op.lun, op.name)
    requires op.lun in mid && op.lun in before && |mid[op.lun]| == |before[op.lun]|
    requires var (first, count) := Target(format, before, stepped); Touches(mid, after, stepped.lun, first, first
              + count)
    ensures var (f, c) := Target(format, before, op);
            op.lun in after && f + c <= |mid[op.lun]| == |after[op.lun]|
            && Content(after, op.lun, f, c) == Content(mid, op.lun, f, c)
  {
    TargetInside(format, before, size, op);
    var (f, c) := Target(format, before, op);
    if op.lun == stepped.lun {
      TargetsDisjoint(format, size, before, stepped, op);
    }
    assert forall s :: f <= s < f + c ==> after[op.lun][s] == mid[op.lun][s];
  }

  /** A step inside one operation's partition keeps the batch's frame. */
  lemma FrameKept(
      format: GptFormat, size: nat, before: Storage, mid: Storage, after: Storage, ops: seq<Operation>, i: nat)
    requires forall k :: 0 <= k < |ops| ==> Admissible(format, before, size, ops[k])
    requires i < |ops|
    requires OnlyTargets(format, size, before, mid, ops)
    requires var (first, count) := Target(format, before, ops[i]); Touches(mid, after, ops[i].lun, first, first + count)
    ensures OnlyTargets(format, size, before, after, ops)
  {
    forall l, s | l in before && 0 <= s < |before[l]| && after[l][s] != before[l][s]
      ensures exists k :: 0 <= k < |ops| && ops[k].lun == l && InTarget(format, size, before, ops[k], s)
    {
      if mid[l][s] == before[l][s] {
        assert after[l][s] != mid[l][s];
        assert ops[i].lun == l && InTarget(format, size, before, ops[i], s);
      }
    }
  }

  /** A batch stopped at operation `k`: those before it are done, those after it untouched. */
  ghost predicate StoppedAt(
      format: GptFormat, size: nat, before: Storage, after: Storage, ops: seq<Operation>, k: nat) {
    && (forall i :: 0 <= i < |ops| ==> Admissible(format, before, size, ops[i]))
    && (forall i :: 0 <= i < k && i < |ops| ==> Done(format, size, before, after, ops[i]))
    && (forall i :: k < i < |ops| ==> Untouched(format, size, before, after, ops[i]))
    && OnlyTargets(format, size, before, after, ops)
  }

  lemma StepStopsThere(
      format: GptFormat, size: nat, before: Storage, mid: Storage, after: Storage, ops: seq<Operation>, k: nat)
    requires WellFormed(format, before) && AllAdmissible(format, before, size, ops) && k < |ops|
    requires StoppedAt(format, size, before, mid, ops, k)
    requires var (first, count) := Target(format, before, ops[k]); Touches(mid, after, ops[k].lun, first, first + count)
    ensures StoppedAt(format, size, before, after, ops, k)
  {
    FrameKept(format, size, before, mid, after, ops, k);
    forall i | 0 <= i < k ensures Done(format, size, before, after, ops[i]) {
      assert Done(format, size, before, mid, ops[i]);
      OtherTargetKept(format, size, before, mid, after, ops[k], ops[i]);
    }
    forall i | k < i < |ops| ensures Untouched(format, size, before, after, ops[i]) {
      assert Untouched(format, size, before, mid, ops[i]);
      OtherTargetKept(format, size, before, mid, after, ops[k], ops[i]);
    }
  }

  /** A finished batch leaves every GPT as it was: the frame misses all metadata. */
  lemma BatchKeepsGpts(format: GptFormat, size: nat, before: Storage, after: Storage, ops: seq<Operation>)
    requires WellFormed(format, before)
    requires forall k :: 0 <= k < |ops| ==> Admissible(format, before, size, ops[k])
    requires OnlyTargets(format, size, before, after, ops)
    ensures WellFormed(format, after)
    ensures forall name, l :: FindPartition(format, after, name, l) == FindPartition(format, before, name, l)
  {
    forall l | l in before
      ensures ReadGpt(format, after[l]) == ReadGpt(format, before[l]) && WellFormedLun(format, after[l])
    {
      if ReadGpt(format, before[l]).Ok? {
        var meta := MetadataSectors(format, before[l]).value;
        forall k | 0 <= k < |ops| && ops[k].lun == l ensures meta <= Target(format, before, ops[k]).0 {
          var i := FirstNamed(ReadGpt(format, before[l]).value, ops[k].name).value;
        }
        assert forall s :: 0 <= s < meta && s < |before[l]| ==> after[l][s] == before[l][s];
        GptKept(format, before[l], after[l], meta, |before[l]|);
      } else {
        // Nothing resolves on an unreadable GPT, so nothing on this LUN changed.
        assert forall k :: 0 <= k < |ops| ==> ops[k].lun != l;
        assert after[l] == before[l];
      }
    }
  }
}
