/**
 The anti-rollback overlay set: re-signed images and a rebuilt root vbmeta to lay over a stock package.

 AVB's own signing is a contract: re-signing an image sets its key and, when asked, its rollback
 index; rebuilding the root keeps every descriptor and replaces the keys of the named chains.
 Partition labels resolve to LUNs through an arbitrary partial function.
 */
module ArbOverlay {
  import opened Wrappers

  datatype Key = TestKey | Vendor(id: nat)

  /** What an AVB footer or header says about an image. */
  datatype Image = Image(key: Key, index: U64)

  /** A chain partition descriptor of the root vbmeta. */
  datatype Chain = Chain(name: string, doNotUseAb: bool, key: Key)

  datatype Root = Root(key: Key, index: U64, chains: seq<Chain>)

  datatype Indices = Indices(boot: U64, vbmetaSystem: U64)

  /** A file in the work directory. */
  datatype Staged = StagedImage(image: Image) | StagedRoot(root: Root)

  /** A staged overlay: GPT label, LUN and the stem of its work file. */
  datatype Overlay = Overlay(name: string, lun: nat, stem: string)

  datatype ArbError =
    | VbmetaMissing | ManualNeedsBothChains | NonAbLayout | BelowFloor(partition: string)
    | UnsafeName(name: string) | ImageMissing(name: string) | ProtectedLunUnknown(name: string)
    | InspectFailed | StagingFailed | ChainKeyMismatch | NoLun(name: string)

  /** Refusals decided from the package alone, as opposed to work that fails while files are staged. */
  predicate IsPolicy(e: ArbError) {
    !(e.StagingFailed? || e.ChainKeyMismatch? || e.NoLun?)
  }

  type Luns = string -> Option<nat>

  // ---------------------------------------------------------------- rollback targets

  function Max(a: U64, b: U64): U64 { if a < b then b else a }

  /** Manual targets are taken exactly, or refused when one is below its floor. */
  function PlanManual(firmware: Indices, floors: Indices, requested: Indices): Result<(Indices, bool), ArbError> {
    if requested.boot < floors.boot then Err(BelowFloor("boot"))
    else if requested.vbmetaSystem < floors.vbmetaSystem then Err(BelowFloor("vbmeta_system"))
    else Ok((requested, firmware.boot != requested.boot || firmware.vbmetaSystem != requested.vbmetaSystem))
  }

  /** The indices to write, and whether they need the anti-rollback boot loader. */
  function SelectTargets(
      firmware: Indices, floors: Indices, manual: Option<Indices>): (r: Result<(Indices, bool), ArbError>)
    ensures r.Err? ==> IsPolicy(r.error)
    ensures r.Err? <==>
              manual.Some? && (manual.value.boot < floors.boot || manual.value.vbmetaSystem < floors.vbmetaSystem)
    ensures r.Ok? ==> floors.boot <= r.value.0.boot && floors.vbmetaSystem <= r.value.0.vbmetaSystem
    ensures r.Ok? && !r.value.1 ==> r.value.0 == firmware
    ensures r.Ok? && manual.Some? ==> r.value.0 == manual.value
    ensures r.Ok? && manual.None? ==> firmware.boot <= r.value.0.boot && firmware.vbmetaSystem <= r.value.0.vbmetaSystem
  {
    match manual
    case Some(requested) => PlanManual(firmware, floors, requested)
    case None =>
      Ok((Indices(Max(firmware.boot, floors.boot), Max(firmware.vbmetaSystem, floors.vbmetaSystem)),
          firmware.boot < floors.boot || firmware.vbmetaSystem < floors.vbmetaSystem))
  }

  // ---------------------------------------------------------------- names and labels

  function LabelOf(c: Chain): string {
    if c.doNotUseAb then c.name else c.name + "_a"
  }

  predicate PlainChar(ch: char) {
    '0' <= ch <= '9' || 'a' <= ch <= 'z' || 'A' <= ch <= 'Z' || ch == '_'
  }

  predicate PlainName(name: string) {
    name != "" && forall i :: 0 <= i < |name| ==> PlainChar(name[i])
  }

  function Lower(s: string): string {
    seq(|s|, i requires 0 <= i < |s| => if 'A' <= s[i] <= 'Z' then (s[i] as int + 32) as char else s[i])
  }

  predicate Handled(luns: Luns, c: Chain) { luns(LabelOf(c)).Some? }

  function FilterHandled(luns: Luns, chains: seq<Chain>): seq<Chain> {
    if chains == [] then []
    else if Handled(luns, chains[0]) then [chains[0]] + FilterHandled(luns, chains[1..])
    else FilterHandled(luns, chains[1..])
  }

  function FilterBoot(chains: seq<Chain>, boot: bool): seq<Chain> {
    if chains == [] then []
    else if (chains[0].name == "boot") == boot then [chains[0]] + FilterBoot(chains[1..], boot)
    else FilterBoot(chains[1..], boot)
  }

  /** The stable sort by "is boot": everything else keeps its order, boot comes last. */
  function BootLast(chains: seq<Chain>): seq<Chain> {
    FilterBoot(chains, false) + FilterBoot(chains, true)
  }

  function NamesAnyCase(chains: seq<Chain>): set<string> {
    set c | c in chains :: Lower(c.name)
  }

  function CountNamed(chains: seq<Chain>, names: set<string>): nat {
    if chains == [] then 0 else (if Lower(chains[0].name) in names then 1 else 0) + CountNamed(chains[1..], names)
  }

  /** Swap the key of every chain whose name is listed, ignoring case. */
  function Rekey(chains: seq<Chain>, names: set<string>): (out: seq<Chain>)
    ensures |out| == |chains|
    ensures forall i :: 0 <= i < |chains| ==>
              out[i] == (if Lower(chains[i].name) in names then chains[i].(key := TestKey) else chains[i])
  {
    if chains == [] then []
    else [if Lower(chains[0].name) in names then chains[0].(key := TestKey) else chains[0]] + Rekey(chains[1..], names)
  }

  function TargetFor(name: string, targets: Indices): Option<U64> {
    if name == "boot" then Some(targets.boot) else if name == "vbmeta_system" then Some(targets.vbmetaSystem) else None
  }

  function Resigned(image: Image, target: Option<U64>): Image {
    Image(TestKey, if target.Some? then target.value else image.index)
  }

  // ---------------------------------------------------------------- the effective set

  /** The position of the last overlay written to a label. */
  function LastWrite(overlays: seq<Overlay>, name: string): (r: Option<nat>)
    ensures r.Some? ==> r.value < |overlays| && overlays[r.value].name == name
    ensures r.Some? ==> forall i :: r.value < i < |overlays| ==> overlays[i].name != name
    ensures r.None? ==> forall i :: 0 <= i < |overlays| ==> overlays[i].name != name
  {
    if overlays == [] then None
    else if overlays[|overlays| - 1].name == name then Some(|overlays| - 1)
    else LastWrite(overlays[..|overlays| - 1], name)
  }

  ghost predicate Complete(overlays: seq<Overlay>, files: map<string, Staged>) {
    forall i :: 0 <= i < |overlays| ==> overlays[i].stem in files
  }

  /** What the device holds for a chained partition once the overlays are written over the package. */
  ghost function Effective(
      overlays: seq<Overlay>, files: map<string, Staged>, package: map<string, Image>, c: Chain): Staged
    requires Complete(overlays, files) && c.name in package
  {
    var w := LastWrite(overlays, LabelOf(c));
    if w.Some? then files[overlays[w.value].stem] else StagedImage(package[c.name])
  }

  function SigningKey(s: Staged): Key { if s.StagedImage? then s.image.key else s.root.key }

  function RollbackIndex(s: Staged): U64 { if s.StagedImage? then s.image.index else s.root.index }

  /** The root the device verifies: the rebuilt one, written last, or the base when nothing was built. */
  ghost function EffectiveRoot(overlays: seq<Overlay>, files: map<string, Staged>, base: Root): Root
    requires Complete(overlays, files)
  {
    if overlays != []
        && files[overlays[|overlays| - 1].stem].StagedRoot? then files[overlays[|overlays| - 1].stem].root else base
  }

  /** Every chained image exists and is signed by the key its descriptor names. */
  ghost predicate ValidChain(root: Root, package: map<string, Image>) {
    forall i :: 0 <= i < |root.chains| ==>
        root.chains[i].name in package && package[root.chains[i].name].key == root.chains[i].key
  }

  ghost predicate EffectiveChainVerifies(
      overlays: seq<Overlay>, files: map<string, Staged>, package: map<string, Image>, base: Root)
    requires Complete(overlays, files)
  {
    var root := EffectiveRoot(overlays, files, base);
    && |root.chains| == |base.chains|
    && forall i :: 0 <= i < |base.chains| ==>
         && root.chains[i].name == base.chains[i].name && root.chains[i].doNotUseAb == base.chains[i].doNotUseAb
         && base.chains[i].name in package
         && SigningKey(Effective(overlays, files, package, base.chains[i])) == root.chains[i].key
  }

  predicate Chained(chains: seq<Chain>, name: string) {
    exists i :: 0 <= i < |chains| && chains[i].name == name
  }

  /** The effective index of every chained descriptor of this name reaches the floor. */
  ghost predicate FloorMet(
      overlays: seq<Overlay>, files: map<string, Staged>, package: map<string, Image>, chains: seq<Chain>,
      name: string, floor: U64)
    requires Complete(overlays, files)
  {
    forall i :: 0 <= i < |chains| && chains[i].name == name ==>
      chains[i].name in package && floor <= RollbackIndex(Effective(overlays, files, package, chains[i]))
  }

  // ---------------------------------------------------------------- lemmas on selection

  lemma {:induction false} FilterHandledMembers(luns: Luns, chains: seq<Chain>)
    ensures forall c :: c in FilterHandled(luns, chains) <==> c in chains && Handled(luns, c)
  {
    if chains != [] {
      FilterHandledMembers(luns, chains[1..]);
      assert chains == [chains[0]] + chains[1..];
    }
  }

  lemma {:induction false} FilterHandledSnoc(luns: Luns, chains: seq<Chain>, c: Chain)
    ensures FilterHandled(luns, chains + [c]) == FilterHandled(luns, chains) + (if Handled(luns, c) then [c] else [])
  {
    if chains == [] {
      assert chains + [c] == [c];
    } else {
      assert (chains + [c])[1..] == chains[1..] + [c];
      FilterHandledSnoc(luns, chains[1..], c);
    }
  }

  lemma {:induction false} FilterBootMembers(chains: seq<Chain>, boot: bool)
    ensures forall c :: c in FilterBoot(chains, boot) <==> c in chains && (c.name == "boot") == boot
  {
    if chains != [] {
      FilterBootMembers(chains[1..], boot);
      assert chains == [chains[0]] + chains[1..];
    }
  }

  lemma {:induction false} FilterBootLength(chains: seq<Chain>)
    ensures |FilterBoot(chains, false)| + |FilterBoot(chains, true)| == |chains|
  {
    if chains != [] { FilterBootLength(chains[1..]); }
  }

  /** If the count check passes, a chain is re-keyed exactly when its image is re-signed. */
  lemma {:induction false} CountDecides(luns: Luns, chains: seq<Chain>, names: set<string>)
    requires forall i :: 0 <= i < |chains| && Handled(luns, chains[i]) ==> Lower(chains[i].name) in names
    ensures |FilterHandled(luns, chains)| <= CountNamed(chains, names)
    ensures |FilterHandled(luns, chains)| == CountNamed(chains, names) ==>
              forall i :: 0 <= i < |chains| ==> (Lower(chains[i].name) in names <==> Handled(luns, chains[i]))
  {
    if chains != [] {
      CountDecides(luns, chains[1..], names);
      forall i | |FilterHandled(luns, chains)| == CountNamed(chains, names) && 0 <= i < |chains|
        ensures Lower(chains[i].name) in names <==> Handled(luns, chains[i])
      {
        if i > 0 { assert chains[i] == chains[1..][i - 1]; }
      }
    }
  }

  // ---------------------------------------------------------------- what a built set is

  /** The overlay list and work files of a successful build. */
  ghost predicate Built(
      luns: Luns, package: map<string, Image>, base: Root, targets: Indices, overlays: seq<Overlay>,
      files: map<string, Staged>) {
    var ordered := BootLast(FilterHandled(luns, base.chains));
    var names := NamesAnyCase(FilterHandled(luns, base.chains));
    && |overlays| == |ordered| + 1
    && (forall i :: 0 <= i < |base.chains| ==> base.chains[i].name in package)
    && (forall j :: 0 <= j < |ordered| ==>
          && luns(LabelOf(ordered[j])).Some?
          && overlays[j] == Overlay(LabelOf(ordered[j]), luns(LabelOf(ordered[j])).value, ordered[j].name)
          && ordered[j].name in package
          && ordered[j].name in files
          && (ordered[j].name != "vbmeta" ==>
                files[ordered[j].name]
                    == StagedImage(Resigned(package[ordered[j].name], TargetFor(ordered[j].name, targets)))))
    && luns("vbmeta_a").Some?
    && overlays[|ordered|] == Overlay("vbmeta_a", luns("vbmeta_a").value, "vbmeta")
    && "vbmeta" in files
    && files["vbmeta"] == StagedRoot(Root(TestKey, base.index, Rekey(base.chains, names)))
    && CountNamed(base.chains, names) == |FilterHandled(luns, base.chains)|
  }

  ghost predicate AbProtected(chains: seq<Chain>) {
    forall c :: c in chains && (c.name == "boot" || c.name == "vbmeta_system") ==> !c.doNotUseAb
  }

  lemma OrderedMembers(luns: Luns, chains: seq<Chain>)
    ensures var ordered := BootLast(FilterHandled(luns, chains));
            && |ordered| == |FilterHandled(luns, chains)|
            && forall c :: c in ordered <==> c in chains && Handled(luns, c)
  {
    var kept := FilterHandled(luns, chains);
    FilterHandledMembers(luns, chains);
    FilterBootMembers(kept, false);
    FilterBootMembers(kept, true);
    FilterBootLength(kept);
  }

  /** What the rebuilt root is. */
  lemma BuiltRoot(
      luns: Luns, package: map<string, Image>, base: Root, targets: Indices, overlays: seq<Overlay>,
      files: map<string, Staged>)
    requires Built(luns, package, base, targets, overlays, files)
    ensures Complete(overlays, files)
    ensures var kept := FilterHandled(luns, base.chains);
            && CountNamed(base.chains, NamesAnyCase(kept)) == |kept|
            && EffectiveRoot(overlays, files, base) == Root(TestKey, base.index, Rekey(base.chains, NamesAnyCase(kept)))
  {
    hide FilterHandled, BootLast, NamesAnyCase, CountNamed, Rekey, Resigned, TargetFor;
    BuiltComplete(luns, package, base, targets, overlays, files);
  }

  lemma NameListed(chains: seq<Chain>, c: Chain)
    requires c in chains
    ensures Lower(c.name) in NamesAnyCase(chains)
  {
  }

  /** An overlay is written to a label exactly when a chain with that label is handled. */
  lemma WrittenExactly(luns: Luns, chains: seq<Chain>, overlays: seq<Overlay>, c: Chain)
    requires Labelled(luns, overlays, BootLast(FilterHandled(luns, chains))) && c in chains
    ensures LastWrite(overlays, LabelOf(c)).Some? <==> Handled(luns, c)
  {
    hide FilterHandled, BootLast, LabelOf, LastWrite;
    OrderedMembers(luns, chains);
    if Handled(luns, c) {
      var ordered := BootLast(FilterHandled(luns, chains));
      var j :| 0 <= j < |ordered| && ordered[j] == c;
      assert overlays[j].name == LabelOf(c);
    }
  }

  /** Re-keyed and re-signed together, or neither. */
  lemma RekeyedExactlyWhenResigned(
      luns: Luns, package: map<string, Image>, base: Root, targets: Indices, overlays: seq<Overlay>,
      files: map<string, Staged>)
    requires Built(luns, package, base, targets, overlays, files)
    ensures Complete(overlays, files) && |EffectiveRoot(overlays, files, base).chains| == |base.chains|
    ensures forall i :: 0 <= i < |base.chains| ==>
              var c := base.chains[i];
              var now := EffectiveRoot(overlays, files, base).chains[i];
              && (LastWrite(overlays, LabelOf(c)).Some? <==> Handled(luns, c))
              && now == (if Handled(luns, c) then c.(key := TestKey) else c)
  {
    hide Built, FilterHandled, BootLast, NamesAnyCase, CountNamed, Rekey, LastWrite, LabelOf, EffectiveRoot, Lower;
    var kept := FilterHandled(luns, base.chains);
    var names := NamesAnyCase(kept);
    BuiltRoot(luns, package, base, targets, overlays, files);
    BuiltLabels(luns, package, base, targets, overlays, files);
    FilterHandledMembers(luns, base.chains);
    forall i | 0 <= i < |base.chains| && Handled(luns, base.chains[i]) ensures Lower(base.chains[i].name) in names {
      assert base.chains[i] in base.chains;
      NameListed(kept, base.chains[i]);
    }
    CountDecides(luns, base.chains, names);
    forall i | 0 <= i < |base.chains|
        ensures LastWrite(overlays, LabelOf(base.chains[i])).Some? <==> Handled(luns, base.chains[i]) {
      assert base.chains[i] in base.chains;
      WrittenExactly(luns, base.chains, overlays, base.chains[i]);
    }
  }

  lemma BuiltComplete(
      luns: Luns, package: map<string, Image>, base: Root, targets: Indices, overlays: seq<Overlay>,
      files: map<string, Staged>)
    requires Built(luns, package, base, targets, overlays, files)
    ensures Complete(overlays, files)
  {
  }

  /** The effective set still verifies: every chained image is signed by the key its descriptor now names, whatever
      labels the descriptors share. */
  lemma BuiltChainVerifies(
      luns: Luns, package: map<string, Image>, base: Root, targets: Indices, overlays: seq<Overlay>,
      files: map<string, Staged>)
    requires Built(luns, package, base, targets, overlays, files)
    requires ValidChain(base, package)
    ensures Complete(overlays, files)
    ensures EffectiveChainVerifies(overlays, files, package, base)
  {
    hide Built, LastWrite, LabelOf, EffectiveRoot, Handled;
    BuiltComplete(luns, package, base, targets, overlays, files);
    RekeyedExactlyWhenResigned(luns, package, base, targets, overlays, files);
    BuiltKeys(luns, package, base, targets, overlays, files);
  }

  /** Every work file of a built set is signed with the test key. */
  lemma BuiltKeys(
      luns: Luns, package: map<string, Image>, base: Root, targets: Indices, overlays: seq<Overlay>,
      files: map<string, Staged>)
    requires Built(luns, package, base, targets, overlays, files)
    ensures Complete(overlays, files)
    ensures forall j :: 0 <= j < |overlays| ==> SigningKey(files[overlays[j].stem]) == TestKey
  {
    hide FilterHandled, BootLast, NamesAnyCase, CountNamed, Rekey, TargetFor;
    BuiltComplete(luns, package, base, targets, overlays, files);
    var ordered := BootLast(FilterHandled(luns, base.chains));
    forall j | 0 <= j < |overlays| ensures SigningKey(files[overlays[j].stem]) == TestKey {
      if j < |ordered| { assert overlays[j].stem == ordered[j].name; }
    }
  }

  /** The list ends with the root, and boot is the write just before it. */
  lemma BuiltOrder(
      luns: Luns, package: map<string, Image>, base: Root, targets: Indices, overlays: seq<Overlay>,
      files: map<string, Staged>)
    requires Built(luns, package, base, targets, overlays, files)
    requires AbProtected(base.chains)
    ensures overlays != [] && overlays[|overlays| - 1].name == "vbmeta_a" && overlays[|overlays| - 1].stem == "vbmeta"
    ensures Chained(base.chains, "boot") && luns("boot_a").Some? ==>
              |overlays| >= 2 && overlays[|overlays| - 2].name == "boot_a" && overlays[|overlays| - 2].stem == "boot"
  {
    var kept := FilterHandled(luns, base.chains);
    FilterHandledMembers(luns, base.chains);
    FilterBootMembers(kept, true);
    if Chained(base.chains, "boot") && luns("boot_a").Some? {
      var i :| 0 <= i < |base.chains| && base.chains[i].name == "boot";
      assert "boot" + "_a" == "boot_a";
      assert base.chains[i] in base.chains && Handled(luns, base.chains[i]);
      var boots := FilterBoot(kept, true);
      assert base.chains[i] in boots;
      var last := boots[|boots| - 1];
      assert last in boots;
      assert BootLast(kept)[|BootLast(kept)| - 1] == last;
    }
  }

  // ---------------------------------------------------------------- what the writer accepts

  /** The one writer of overlays is a batch, whose preflight refuses a repeated partition before the first write. */
  predicate Writable(overlays: seq<Overlay>) {
    forall i, j :: 0 <= i < j < |overlays| ==>
        (overlays[i].lun, overlays[i].name) != (overlays[j].lun, overlays[j].name)
  }

  /** How many descriptors resolve to a label. */
  function CountLabel(chains: seq<Chain>, name: string): nat {
    if chains == [] then 0 else (if LabelOf(chains[0]) == name then 1 else 0) + CountLabel(chains[1..], name)
  }

  /** No two descriptors to re-sign share a label, and none takes the root's. */
  ghost predicate SingleLabels(luns: Luns, chains: seq<Chain>) {
    && (forall name :: luns(name).Some? ==> CountLabel(chains, name) <= 1)
    && (luns("vbmeta_a").Some? ==> CountLabel(chains, "vbmeta_a") == 0)
  }

  lemma {:induction false} CountHandled(luns: Luns, chains: seq<Chain>, name: string)
    ensures CountLabel(FilterHandled(luns, chains), name) == if luns(name).Some? then CountLabel(chains, name) else 0
  {
    if chains != [] {
      CountHandled(luns, chains[1..], name);
      var kept := FilterHandled(luns, chains);
      if Handled(luns, chains[0]) { assert kept[1..] == FilterHandled(luns, chains[1..]); }
    }
  }

  lemma {:induction false} CountSplit(chains: seq<Chain>, name: string)
    ensures CountLabel(FilterBoot(chains, false), name) + CountLabel(FilterBoot(chains, true), name)
              == CountLabel(chains, name)
  {
    if chains != [] {
      CountSplit(chains[1..], name);
      var isBoot := chains[0].name == "boot";
      assert FilterBoot(chains, isBoot)[1..] == FilterBoot(chains[1..], isBoot);
    }
  }

  lemma {:induction false} CountAppend(a: seq<Chain>, b: seq<Chain>, name: string)
    ensures CountLabel(a + b, name) == CountLabel(a, name) + CountLabel(b, name)
  {
    if a == [] {
      assert a + b == b;
    } else {
      assert (a + b)[1..] == a[1..] + b;
      CountAppend(a[1..], b, name);
    }
  }

  /** Re-signing in another order changes no count. */
  lemma CountOrdered(luns: Luns, chains: seq<Chain>, name: string)
    ensures CountLabel(BootLast(FilterHandled(luns, chains)), name)
              == if luns(name).Some? then CountLabel(chains, name) else 0
  {
    var kept := FilterHandled(luns, chains);
    CountHandled(luns, chains, name);
    CountSplit(kept, name);
    CountAppend(FilterBoot(kept, false), FilterBoot(kept, true), name);
  }

  lemma {:induction false} CountZero(chains: seq<Chain>, name: string)
    ensures CountLabel(chains, name) == 0 <==> forall i :: 0 <= i < |chains| ==> LabelOf(chains[i]) != name
  {
    if chains != [] {
      CountZero(chains[1..], name);
      assert forall i :: 1 <= i < |chains| ==> chains[i] == chains[1..][i - 1];
    }
  }

  lemma {:induction false} CountTwo(chains: seq<Chain>, i: nat, j: nat)
    requires i < j < |chains| && LabelOf(chains[i]) == LabelOf(chains[j])
    ensures CountLabel(chains, LabelOf(chains[i])) >= 2
  {
    var name := LabelOf(chains[i]);
    if i > 0 {
      CountTwo(chains[1..], i - 1, j - 1);
    } else {
      CountZero(chains[1..], name);
      assert chains[1..][j - 1] == chains[j];
    }
  }

  lemma {:induction false} CountOne(chains: seq<Chain>, name: string)
    requires forall i, j :: 0 <= i < j < |chains| ==> LabelOf(chains[i]) != LabelOf(chains[j])
    ensures CountLabel(chains, name) <= 1
  {
    if chains != [] {
      assert forall i :: 0 <= i < |chains| - 1 ==> chains[1..][i] == chains[i + 1];
      CountOne(chains[1..], name);
      if LabelOf(chains[0]) == name { CountZero(chains[1..], name); }
    }
  }

  /** Exactly which built lists the writer accepts: those of a root whose descriptors share no label. */
  lemma WritableExactly(
      luns: Luns, package: map<string, Image>, base: Root, targets: Indices, overlays: seq<Overlay>,
      files: map<string, Staged>)
    requires Built(luns, package, base, targets, overlays, files)
    ensures Writable(overlays) <==> SingleLabels(luns, base.chains)
  {
    var ordered := BootLast(FilterHandled(luns, base.chains));
    BuiltLabels(luns, package, base, targets, overlays, files);
    LabelsWritable(overlays, ordered, luns);
    if Writable(overlays) {
      forall name | luns(name).Some? ensures CountLabel(base.chains, name) <= 1 {
        CountOrdered(luns, base.chains, name);
        CountOne(ordered, name);
      }
    } else if SingleLabels(luns, base.chains) {
      forall name ensures CountLabel(ordered, name) <= 1 { CountOrdered(luns, base.chains, name); }
    }
    CountOrdered(luns, base.chains, "vbmeta_a");
    CountZero(ordered, "vbmeta_a");
  }

  /** What the list's labels and LUNs are. */
  lemma BuiltLabels(
      luns: Luns, package: map<string, Image>, base: Root, targets: Indices, overlays: seq<Overlay>,
      files: map<string, Staged>)
    requires Built(luns, package, base, targets, overlays, files)
    ensures Labelled(luns, overlays, BootLast(FilterHandled(luns, base.chains)))
  {
    hide FilterHandled, BootLast, NamesAnyCase, CountNamed, Rekey, LabelOf, Resigned, TargetFor;
  }

  ghost predicate Labelled(luns: Luns, overlays: seq<Overlay>, ordered: seq<Chain>) {
    && |overlays| == |ordered| + 1
    && (forall j :: 0 <= j < |ordered| ==>
        overlays[j].name == LabelOf(ordered[j]) && overlays[j].stem == ordered[j].name)
    && (forall j :: 0 <= j < |overlays| ==> luns(overlays[j].name) == Some(overlays[j].lun))
    && overlays[|ordered|].name == "vbmeta_a"
  }

  lemma LabelsWritable(overlays: seq<Overlay>, ordered: seq<Chain>, luns: Luns)
    requires Labelled(luns, overlays, ordered)
    ensures Writable(overlays) ==> forall i, j :: 0 <= i < j < |ordered| ==> LabelOf(ordered[i]) != LabelOf(ordered[j])
    ensures Writable(overlays) ==> forall i :: 0 <= i < |ordered| ==> LabelOf(ordered[i]) != "vbmeta_a"
    ensures (forall name :: CountLabel(ordered, name) <= 1) && CountLabel(ordered, "vbmeta_a") == 0 ==>
              Writable(overlays)
  {
    hide LabelOf, CountLabel, Writable;
    NamesDecide(luns, overlays);
    if (forall name :: CountLabel(ordered, name) <= 1) && CountLabel(ordered, "vbmeta_a") == 0 {
      CountedNamesDiffer(luns, overlays, ordered);
    }
    if Writable(overlays) {
      forall i, j | 0 <= i < j < |ordered| ensures LabelOf(ordered[i]) != LabelOf(ordered[j]) {
        assert overlays[i].name == LabelOf(ordered[i]) && overlays[j].name == LabelOf(ordered[j]);
      }
      forall i | 0 <= i < |ordered| ensures LabelOf(ordered[i]) != "vbmeta_a" {
        assert overlays[i].name == LabelOf(ordered[i]);
      }
    }
  }

  lemma CountedNamesDiffer(luns: Luns, overlays: seq<Overlay>, ordered: seq<Chain>)
    requires Labelled(luns, overlays, ordered)
    requires (forall name :: CountLabel(ordered, name) <= 1) && CountLabel(ordered, "vbmeta_a") == 0
    ensures forall i, j :: 0 <= i < j < |overlays| ==> overlays[i].name != overlays[j].name
  {
    hide LabelOf, CountLabel;
    var n := |ordered|;
    CountZero(ordered, "vbmeta_a");
    forall i, j | 0 <= i < j < |overlays| ensures overlays[i].name != overlays[j].name {
      assert overlays[i].name == LabelOf(ordered[i]);
      if j < n {
        assert overlays[j].name == LabelOf(ordered[j]);
        if LabelOf(ordered[i]) == LabelOf(ordered[j]) { CountTwo(ordered, i, j); }
      }
    }
  }

  /** The LUN follows from the label, so repeating a partition is repeating a label. */
  lemma NamesDecide(luns: Luns, overlays: seq<Overlay>)
    requires forall j :: 0 <= j < |overlays| ==> luns(overlays[j].name) == Some(overlays[j].lun)
    ensures Writable(overlays) <==> forall i, j :: 0 <= i < j < |overlays| ==> overlays[i].name != overlays[j].name
  {
    if !Writable(overlays) {
      var i, j :| 0 <= i < j < |overlays| && (overlays[i].lun, overlays[i].name) == (overlays[j].lun, overlays[j].name);
      assert overlays[i].name == overlays[j].name;
    } else {
      forall i, j | 0 <= i < j < |overlays| ensures overlays[i].name != overlays[j].name {
        assert luns(overlays[i].name) == Some(overlays[i].lun) && luns(overlays[j].name) == Some(overlays[j].lun);
        assert (overlays[i].lun, overlays[i].name) != (overlays[j].lun, overlays[j].name);
      }
    }
  }

  /** A list the writer accepts leaves each protected image at exactly its target. */
  lemma ProtectedAtTarget(
      luns: Luns, package: map<string, Image>, base: Root, targets: Indices, overlays: seq<Overlay>,
      files: map<string, Staged>, c: Chain)
    requires Built(luns, package, base, targets, overlays, files) && Writable(overlays)
    requires c in base.chains && Handled(luns, c) && TargetFor(c.name, targets).Some?
    ensures Complete(overlays, files) && c.name in package
    ensures RollbackIndex(Effective(overlays, files, package, c)) == TargetFor(c.name, targets).value
  {
    var ordered := BootLast(FilterHandled(luns, base.chains));
    OrderedMembers(luns, base.chains);
    BuiltComplete(luns, package, base, targets, overlays, files);
    var j :| 0 <= j < |ordered| && ordered[j] == c;
    assert overlays[j].name == LabelOf(c);
    var w := LastWrite(overlays, LabelOf(c)).value;
    BuiltLabels(luns, package, base, targets, overlays, files);
    assert luns(overlays[w].name) == Some(overlays[w].lun) && luns(overlays[j].name) == Some(overlays[j].lun);
    assert w == j;
  }

  /** Every protected chain of a list the writer accepts reaches its floor, whatever the package. */
  lemma FloorsMet(
      luns: Luns, package: map<string, Image>, base: Root, targets: Indices, overlays: seq<Overlay>,
      files: map<string, Staged>, name: string, floor: U64)
    requires Built(luns, package, base, targets, overlays, files) && Writable(overlays)
    requires forall c :: c in base.chains && c.name == name ==> Handled(luns, c)
    requires TargetFor(name, targets).Some? && floor <= TargetFor(name, targets).value
    ensures Complete(overlays, files)
    ensures FloorMet(overlays, files, package, base.chains, name, floor)
  {
    BuiltComplete(luns, package, base, targets, overlays, files);
    forall i | 0 <= i < |base.chains| && base.chains[i].name == name
      ensures base.chains[i].name in package
                && floor <= RollbackIndex(Effective(overlays, files, package, base.chains[i]))
    {
      assert base.chains[i] in base.chains;
      ProtectedAtTarget(luns, package, base, targets, overlays, files, base.chains[i]);
    }
  }

  lemma {:induction false} AllHandled(luns: Luns, chains: seq<Chain>)
    requires forall name :: luns(name).Some?
    ensures FilterHandled(luns, chains) == chains
  {
    if chains != [] {
      AllHandled(luns, chains[1..]);
      assert chains == [chains[0]] + chains[1..];
    }
  }

  lemma {:induction false} NoBoot(chains: seq<Chain>)
    requires forall i :: 0 <= i < |chains| ==> chains[i].name != "boot"
    ensures FilterBoot(chains, false) == chains && FilterBoot(chains, true) == []
  {
    if chains != [] {
      NoBoot(chains[1..]);
      assert chains == [chains[0]] + chains[1..];
    }
  }

  lemma {:induction false} CountAll(chains: seq<Chain>, names: set<string>)
    requires NamesAnyCase(chains) <= names
    ensures CountNamed(chains, names) == |chains|
  {
    if chains != [] {
      assert chains[0] in chains && Lower(chains[0].name) in NamesAnyCase(chains);
      assert forall c :: c in chains[1..] ==> c in chains;
      CountAll(chains[1..], names);
    }
  }

  /** Labels can be shared: `vbmeta_system` and an un-slotted `vbmeta_system_a` resolve to one. Such a package builds,
      with its second overlay below the floor, and the writer refuses the whole list. */
  lemma SharedLabelRefused()
    returns (luns: Luns, package: map<string, Image>, base: Root, overlays: seq<Overlay>, files: map<string, Staged>)
    ensures ValidChain(base, package) && AbProtected(base.chains)
    ensures Built(luns, package, base, Indices(0, 10), overlays, files)
    ensures !SingleLabels(luns, base.chains) && !Writable(overlays)
  {
    hide Built, SingleLabels;
    luns, package, base, overlays, files := SharedLabelBuilt();
    assert (overlays[0].lun, overlays[0].name) == (overlays[1].lun, overlays[1].name);
    WritableExactly(luns, package, base, Indices(0, 10), overlays, files);
  }

  lemma SharedLabelBuilt()
    returns (luns: Luns, package: map<string, Image>, base: Root, overlays: seq<Overlay>, files: map<string, Staged>)
    ensures ValidChain(base, package) && AbProtected(base.chains)
    ensures Built(luns, package, base, Indices(0, 10), overlays, files)
    ensures |overlays| >= 2 && overlays[0].lun == overlays[1].lun && overlays[0].name == overlays[1].name
  {
    hide FilterHandled, FilterBoot, CountNamed, NamesAnyCase, Lower, LastWrite, Rekey;
    luns := _ => Some(0);
    var slotted, plain := Chain("vbmeta_system", false, Vendor(1)), Chain("vbmeta_system_a", true, Vendor(1));
    base := Root(Vendor(0), 0, [slotted, plain]);
    package := map["vbmeta_system" := Image(Vendor(1), 5), "vbmeta_system_a" := Image(Vendor(1), 0)];
    assert "vbmeta_system" + "_a" == "vbmeta_system_a";
    AllHandled(luns, base.chains);
    NoBoot(base.chains);
    var names := NamesAnyCase(base.chains);
    CountAll(base.chains, names);
    var shared := LabelOf(plain);
    overlays := [Overlay(shared, 0, slotted.name), Overlay(shared, 0, plain.name), Overlay("vbmeta_a", 0, "vbmeta")];
    files := map[slotted.name := StagedImage(Image(TestKey, 10)), plain.name := StagedImage(Image(TestKey, 0)),
                 "vbmeta" := StagedRoot(Root(TestKey, 0, Rekey(base.chains, names)))];
  }

  /** Whatever the package, both protected partitions are at their floors. */
  ghost predicate AtFloors(
      overlays: seq<Overlay>, files: map<string, Staged>, package: map<string, Image>, base: Root, floors: Indices)
    requires Complete(overlays, files)
  {
    && FloorMet(overlays, files, package, base.chains, "boot", floors.boot)
    && FloorMet(overlays, files, package, base.chains, "vbmeta_system", floors.vbmetaSystem)
  }

  /** What a set the writer accepts leaves on the device: the chain verifies, boot and vbmeta_system are at their
      floors, and the list ends with the root, with boot just before it. */
  ghost predicate SafeSet(
      overlays: seq<Overlay>, files: map<string, Staged>, package: map<string, Image>, base: Root, floors: Indices)
    requires Complete(overlays, files)
  {
    && EffectiveChainVerifies(overlays, files, package, base)
    && AtFloors(overlays, files, package, base, floors)
    && (overlays != [] ==> overlays[|overlays| - 1].name == "vbmeta_a")
    && (overlays != [] && Chained(base.chains, "boot") ==> |overlays| >= 2 && overlays[|overlays| - 2].name == "boot_a")
  }

  lemma BuiltIsSafe(
      luns: Luns, package: map<string, Image>, base: Root, targets: Indices, overlays: seq<Overlay>,
      files: map<string, Staged>, floors: Indices)
    requires Built(luns, package, base, targets, overlays, files) && AbProtected(base.chains)
    requires forall c :: c in base.chains && (c.name == "boot" || c.name == "vbmeta_system") ==> Handled(luns, c)
    requires Chained(base.chains, "boot") ==> floors.boot <= targets.boot
    requires Chained(base.chains, "vbmeta_system") ==> floors.vbmetaSystem <= targets.vbmetaSystem
    ensures Complete(overlays, files) && overlays != []
    ensures Writable(overlays) <==> SingleLabels(luns, base.chains)
    ensures Writable(overlays) ==> AtFloors(overlays, files, package, base, floors)
    ensures ValidChain(base, package) && Writable(overlays) ==> SafeSet(overlays, files, package, base, floors)
  {
    hide Built, LastWrite, SingleLabels, Handled, LabelOf;
    BuiltComplete(luns, package, base, targets, overlays, files);
    WritableExactly(luns, package, base, targets, overlays, files);
    BuiltOrder(luns, package, base, targets, overlays, files);
    if ValidChain(base, package) {
      BuiltChainVerifies(luns, package, base, targets, overlays, files);
    }
    if Writable(overlays) {
      if Chained(base.chains, "boot") {
        ChainedLabel(luns, base.chains, "boot", "boot_a");
        FloorsMet(luns, package, base, targets, overlays, files, "boot", floors.boot);
      }
      if Chained(base.chains, "vbmeta_system") {
        FloorsMet(luns, package, base, targets, overlays, files, "vbmeta_system", floors.vbmetaSystem);
      }
    }
  }

  lemma ChainedLabel(luns: Luns, chains: seq<Chain>, name: string, slotted: string)
    requires Chained(chains, name) && (name == "boot" || name == "vbmeta_system") && slotted == name + "_a"
    requires AbProtected(chains)
    requires forall c :: c in chains && (c.name == "boot" || c.name == "vbmeta_system") ==> Handled(luns, c)
    ensures luns(slotted).Some?
  {
    var i :| 0 <= i < |chains| && chains[i].name == name;
    assert chains[i] in chains;
  }

  /** Without overlays the device holds the package itself. */
  lemma SkippedIsSafe(files: map<string, Staged>, package: map<string, Image>, base: Root, floors: Indices)
    requires Chained(base.chains, "boot") ==> "boot" in package && floors.boot <= package["boot"].index
    requires Chained(base.chains, "vbmeta_system") ==>
              "vbmeta_system" in package && floors.vbmetaSystem <= package["vbmeta_system"].index
    ensures AtFloors([], files, package, base, floors)
    ensures ValidChain(base, package) ==> SafeSet([], files, package, base, floors)
  {
  }

  // ---------------------------------------------------------------- the builder

  /** The index an image carries when its partition is chained, else 0. */
  ghost function ChainedIndex(chains: seq<Chain>, package: map<string, Image>, name: string): U64 {
    if Chained(chains, name) && name in package then package[name].index else 0
  }

  /** The decision the package and the request determine: an absent chain never asks for an overlay. */
  ghost function Decision(
      chains: seq<Chain>, package: map<string, Image>, floors: Indices, manual: Option<Indices>)
    : Result<(Indices, bool), ArbError>
  {
    SelectTargets(Indices(ChainedIndex(chains, package, "boot"), ChainedIndex(chains, package, "vbmeta_system")),
                  Indices(if Chained(chains, "boot") then floors.boot else 0,
                          if Chained(chains, "vbmeta_system") then floors.vbmetaSystem else 0), manual)
  }

  /** A chain whose image can be replaced, or that may stay as it is. */
  predicate Acceptable(luns: Luns, package: map<string, Image>, c: Chain) {
    PlainName(c.name) && c.name in package && (c.name == "boot" || c.name == "vbmeta_system" ==> Handled(luns, c))
  }

  /** Why building the images may be refused: each error names a defect that is there. */
  ghost predicate ImagesJustify(luns: Luns, package: map<string, Image>, chains: seq<Chain>, e: ArbError) {
    match e
    case UnsafeName(name) => Chained(chains, name) && !PlainName(name)
    case ImageMissing(name) => Chained(chains, name) && name !in package
    case ProtectedLunUnknown(name) =>
      (name == "boot" || name == "vbmeta_system") && exists c :: c in chains && c.name == name && !Handled(luns, c)
    case NoLun(name) => name == "vbmeta_a" && luns(name).None?
    case ChainKeyMismatch =>
      CountNamed(chains, NamesAnyCase(FilterHandled(luns, chains))) != |FilterHandled(luns, chains)|
    case StagingFailed => true
    case _ => false
  }

  /** Each check of one chain refuses it for a defect that is there, and refuses nothing acceptable. */
  lemma RefusalJustified(luns: Luns, package: map<string, Image>, chains: seq<Chain>, i: nat)
    requires i < |chains|
    ensures var c := chains[i];
            && c in chains
            && (Acceptable(luns, package, c)
                <==> (&& PlainName(c.name) && c.name in package
                      && (c.name == "boot" || c.name == "vbmeta_system" ==> Handled(luns, c))))
            && (!PlainName(c.name) ==> ImagesJustify(luns, package, chains, UnsafeName(c.name)))
            && (c.name !in package ==> ImagesJustify(luns, package, chains, ImageMissing(c.name)))
            && ((c.name == "boot" || c.name == "vbmeta_system") && !Handled(luns, c) ==>
                  ImagesJustify(luns, package, chains, ProtectedLunUnknown(c.name)))
  {
    hide PlainName, LabelOf;
    assert Chained(chains, chains[i].name);
  }

  /** Why the whole build may be refused. */
  ghost predicate BuildJustifies(
      luns: Luns, package: map<string, Image>, root: Option<Root>, floors: Indices, manual: Option<Indices>,
      e: ArbError) {
    match e
    case VbmetaMissing => root.None?
    case InspectFailed => root.Some?
    case ManualNeedsBothChains =>
      root.Some? && manual.Some? && !(Chained(root.value.chains, "boot") && Chained(root.value.chains, "vbmeta_system"))
    case NonAbLayout => root.Some? && !AbProtected(root.value.chains)
    case BelowFloor(name) =>
      manual.Some? && ((name == "boot" && manual.value.boot < floors.boot)
                       || (name == "vbmeta_system" && manual.value.vbmetaSystem < floors.vbmetaSystem))
    case _ => root.Some? && ImagesJustify(luns, package, root.value.chains, e)
  }

  /** The work directory the overlays are staged in. */
  class Builder {
    const luns: Luns
    const package: map<string, Image>
    var files: map<string, Staged>

    constructor (luns: Luns, package: map<string, Image>, files: map<string, Staged>)
      ensures this.luns == luns && this.package == package && this.files == files
    {
      this.luns, this.package, this.files := luns, package, files;
    }

    /** Validate every chained name and select those to re-sign: no file is touched. */
    method SelectChains(chains: seq<Chain>) returns (r: Result<seq<Chain>, ArbError>)
      ensures r.Err? ==> IsPolicy(r.error) && ImagesJustify(luns, package, chains, r.error)
      ensures r.Ok? <==> forall c :: c in chains ==> Acceptable(luns, package, c)
      ensures r.Ok? ==> r.value == FilterHandled(luns, chains)
    {
      assert FilterHandled(luns, chains[..0]) == [];
      hide PlainName, FilterHandled, LabelOf, ImagesJustify, Acceptable;
      var toResign: seq<Chain> := [];
      for i := 0 to |chains|
        invariant toResign == FilterHandled(luns, chains[..i])
        invariant forall k :: 0 <= k < i ==> Acceptable(luns, package, chains[k])
      {
        var c := chains[i];
        RefusalJustified(luns, package, chains, i);
        if !PlainName(c.name) {
          return Err(UnsafeName(c.name));
        }
        if c.name !in package {
          return Err(ImageMissing(c.name));
        }
        FilterHandledSnoc(luns, chains[..i], c);
        assert chains[..i + 1] == chains[..i] + [c];
        if luns(LabelOf(c)).Some? {
          toResign := toResign + [c];
        } else if c.name == "boot" || c.name == "vbmeta_system" {
          return Err(ProtectedLunUnknown(c.name));
        }
      }
      assert chains[..|chains|] == chains;
      return Ok(toResign);
    }

    /** Copy and re-sign each selected image in order. */
    method StageImages(ordered: seq<Chain>, targets: Indices) returns (r: Result<seq<Overlay>, ArbError>)
      requires forall c :: c in ordered ==> Handled(luns, c) && c.name in package
      modifies this
      ensures r.Err? ==> r.error == StagingFailed
      ensures r.Ok? ==> |r.value| == |ordered|
                        && forall j :: 0 <= j < |ordered| ==>
                             && ordered[j] in ordered && luns(LabelOf(ordered[j])).Some?
                             && r.value[j]
                                 == Overlay(LabelOf(ordered[j]), luns(LabelOf(ordered[j])).value, ordered[j].name)
                             && ordered[j].name in files
                             && files[ordered[j].name]
                                 == StagedImage(Resigned(package[ordered[j].name], TargetFor(ordered[j].name, targets)))
    {
      var overlays: seq<Overlay> := [];
      for k := 0 to |ordered|
        invariant |overlays| == k
        invariant forall j :: 0 <= j < k ==>
                    overlays[j] == Overlay(LabelOf(ordered[j]), luns(LabelOf(ordered[j])).value, ordered[j].name)
        invariant forall j :: 0 <= j < k ==>
                    && ordered[j].name in files
                    && files[ordered[j].name]
                        == StagedImage(Resigned(package[ordered[j].name], TargetFor(ordered[j].name, targets)))
      {
        var c := ordered[k];
        var copied, resigned := *, *;
        if !copied {
          return Err(StagingFailed);
        }
        files := files[c.name := StagedImage(package[c.name])];
        if !resigned {
          return Err(StagingFailed);
        }
        files := files[c.name := StagedImage(Resigned(package[c.name], TargetFor(c.name, targets)))];
        overlays := overlays + [Overlay(LabelOf(c), luns(LabelOf(c)).value, c.name)];
      }
      return Ok(overlays);
    }

    /** Re-sign the handled chains, boot last, then rebuild the root over them. A policy refusal stages nothing. */
    method BuildFromImages(base: Root, targets: Indices) returns (r: Result<seq<Overlay>, ArbError>)
      modifies this
      ensures r.Ok? ==> Built(luns, package, base, targets, r.value, files)
      ensures r.Ok? ==> forall c :: c in base.chains && (c.name == "boot" || c.name == "vbmeta_system") ==>
                Handled(luns, c)
      ensures r.Err? ==> ImagesJustify(luns, package, base.chains, r.error)
      ensures r.Err? && IsPolicy(r.error) ==> files == old(files)
      ensures (exists c :: c in base.chains && !Acceptable(luns, package, c)) ==> r.Err? && IsPolicy(r.error)
    {
      hide PlainName, FilterHandled, LabelOf, CountNamed, NamesAnyCase, BootLast, Rekey, TargetFor, Resigned;
      var selected := SelectChains(base.chains);
      if selected.Err? {
        return Err(selected.error);
      }
      assert forall i :: 0 <= i < |base.chains| ==>
          base.chains[i] in base.chains && Acceptable(luns, package, base.chains[i]);
      var toResign := selected.value;
      var ordered := BootLast(toResign);
      OrderedMembers(luns, base.chains);
      var staged := StageImages(ordered, targets);
      if staged.Err? {
        return Err(staged.error);
      }
      var names := NamesAnyCase(toResign);
      var rebuilt := *;
      if CountNamed(base.chains, names) != |toResign| || !rebuilt {
        return Err(if rebuilt then ChainKeyMismatch else StagingFailed);
      }
      files := files["vbmeta" := StagedRoot(Root(TestKey, base.index, Rekey(base.chains, names)))];
      if luns("vbmeta_a").None? {
        return Err(NoLun("vbmeta_a"));
      }
      return Ok(staged.value + [Overlay("vbmeta_a", luns("vbmeta_a").value, "vbmeta")]);
    }

    method Inspect(name: string) returns (r: Result<U64, ArbError>)
      ensures r.Ok? ==> name in package && r.value == package[name].index
      ensures r.Err? ==> r.error == InspectFailed
    {
      var readable := *;
      if name in package && readable {
        return Ok(package[name].index);
      }
      return Err(InspectFailed);
    }

    /** Decide from the package and the floors whether overlays are needed, and build them. */
    method BuildForFloors(
        root: Option<Root>, floors: Indices, manual: Option<Indices>, force: bool)
        returns (r: Result<(seq<Overlay>, bool), ArbError>)
      modifies this
      // Refusals decided from the package and the request leave the work directory as it was.
      ensures r.Err? && IsPolicy(r.error) ==> files == old(files)
      ensures r.Err? ==> BuildJustifies(luns, package, root, floors, manual, r.error)
      ensures root.None? ==> r.Err?
      ensures root.Some? && manual.Some?
                && (!Chained(root.value.chains, "boot") || !Chained(root.value.chains, "vbmeta_system")) ==>
                r.Err? && IsPolicy(r.error)
      ensures root.Some? && !AbProtected(root.value.chains) ==> r.Err? && IsPolicy(r.error)
      ensures manual.Some? && (manual.value.boot < floors.boot || manual.value.vbmetaSystem < floors.vbmetaSystem) ==>
                r.Err? && IsPolicy(r.error)
      // Success on a valid package: the set, if the writer accepts it, is safe on the device.
      ensures r.Ok? ==> AbProtected(root.value.chains) && Complete(r.value.0, files)
      ensures r.Ok? && Writable(r.value.0) ==> AtFloors(r.value.0, files, package, root.value, floors)
      ensures r.Ok? && ValidChain(root.value, package) && Writable(r.value.0) ==>
                SafeSet(r.value.0, files, package, root.value, floors)
      // The writer accepts the set exactly when no two re-signed chains share a label.
      ensures r.Ok? && r.value.0 != [] ==> (Writable(r.value.0) <==> SingleLabels(luns, root.value.chains))
      // The images carry exactly the decided indices: the request's own in manual mode.
      ensures r.Ok? ==> Decision(root.value.chains, package, floors, manual).Ok?
                        && var (targets, need) := Decision(root.value.chains, package, floors, manual).value;
                           r.value.1 == need
                               && (r.value.0 != [] ==> Built(luns, package, root.value, targets, r.value.0, files))
      // Nothing is built without a reason, and a needed or forced build is never skipped.
      ensures r.Ok? ==> (r.value.0 == [] <==> !r.value.1 && !force)
    {
      hide Built, SafeSet, AtFloors, PlainName, CountNamed, NamesAnyCase, FilterHandled;
      if root.None? {
        return Err(VbmetaMissing);
      }
      var base := root.value;
      var parsed := *;
      if !parsed {
        return Err(InspectFailed);
      }
      var hasBoot, hasVbs := Chained(base.chains, "boot"), Chained(base.chains, "vbmeta_system");
      if manual.Some? && (!hasBoot || !hasVbs) {
        return Err(ManualNeedsBothChains);
      }
      if exists i :: 0 <= i < |base.chains|
          && (base.chains[i].name == "boot" || base.chains[i].name == "vbmeta_system") && base.chains[i].doNotUseAb {
        return Err(NonAbLayout);
      }
      var bootIndex: U64, vbsIndex: U64 := 0, 0;
      if hasBoot {
        var read := Inspect("boot");
        if read.Err? { return Err(read.error); }
        bootIndex := read.value;
      }
      if hasVbs {
        var read := Inspect("vbmeta_system");
        if read.Err? { return Err(read.error); }
        vbsIndex := read.value;
      }
      var selected := SelectTargets(Indices(bootIndex, vbsIndex),
                                    Indices(if hasBoot then floors.boot else 0,
                                        if hasVbs then floors.vbmetaSystem else 0), manual);
      if selected.Err? {
        return Err(selected.error);
      }
      var (targets, need) := selected.value;
      if !need && !force {
        SkippedIsSafe(files, package, base, floors);
        return Ok(([], false));
      }
      var built := BuildFromImages(base, targets);
      if built.Err? {
        return Err(built.error);
      }
      BuiltIsSafe(luns, package, base, targets, built.value, files, floors);
      return Ok((built.value, need));
    }
  }
}
