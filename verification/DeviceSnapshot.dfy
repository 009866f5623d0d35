/**
 The last-known device values, merged from partial polls.

 `History` is the specification: it reads the whole sequence of polls and says which observation each
 value must be. The snapshot object keeps only the current values and must agree with it.
 */
module DeviceSnapshot {
  import opened Wrappers

  datatype Status =
    | Disconnected | Adb | AdbRecovery | AdbUnauthorized | AdbSideload | AdbServerBlocking | Fastboot | Edl

  datatype Floors = Floors(vbmetaSystemLocation: nat, vbmetaSystemIndex: U64, bootLocation: nat, bootIndex: U64)

  datatype Field =
    | Connection | Model | AndroidVersion | Slot | Firmware | FirmwareFull | Arb | Ram | Storage
    | MarketName | Serial | FastbootUserspace | PlatformSupported | RollbackFloors

  /** The text fields kept across polls that do not report them. */
  predicate IsRetained(f: Field) {
    match f
    case Model | Slot | Firmware | FirmwareFull | Arb | Ram | Storage | MarketName | Serial => true
    case _ => false
  }

  /** The retained fields, in the order a poll is merged. */
  method RetainedFields() returns (fields: seq<Field>)
    ensures forall f :: f in fields <==> IsRetained(f)
  {
    fields := [Model, Slot, Firmware, FirmwareFull, Arb, Ram, Storage, MarketName, Serial];
    forall f | IsRetained(f) ensures f in fields {
      assert fields[0] == Model && fields[1] == Slot && fields[2] == Firmware && fields[3] == FirmwareFull
          && fields[4] == Arb;
      assert fields[5] == Ram && fields[6] == Storage && fields[7] == MarketName && fields[8] == Serial;
    }
  }

  function TakeOver(p: Poll, f: Field, known: string): string {
    if Text(p, f) != "" then Text(p, f) else known
  }

  ghost predicate HasRetained(text: map<Field, string>) {
    forall f :: f in text <==> IsRetained(f)
  }

  /** One device poll; `text` holds its text fields, empty where it reported none. */
  datatype Poll = Poll(
    status: Status, userspace: bool, text: Field -> string, androidVersion: string, floors: Option<Floors>,
        platform: Option<bool>)

  datatype Change = Change(resetIdentity: bool, contextChanged: bool, leftFastboot: bool)

  function Text(p: Poll, f: Field): string { p.text(f) }

  function SerialOf(p: Poll): string { Text(p, Serial) }

  // ---------------------------------------------------------------- the specification over a history

  /** The serial the connected device is known by: the last one reported since the last disconnection. */
  ghost function Identity(h: seq<Poll>): string {
    if h == [] then ""
    else
      var last := h[|h| - 1];
      if last.status.Disconnected? then ""
      else if SerialOf(last) != "" then SerialOf(last)
      else Identity(h[..|h| - 1])
  }

  /** Poll `i` starts a new identity: the device went away, or a different serial appeared. */
  ghost predicate Resets(h: seq<Poll>, i: nat)
    requires i < |h|
  {
    h[i].status.Disconnected? || (SerialOf(h[i]) != "" && SerialOf(h[i]) != Identity(h[..i]))
  }

  /** Poll `w` is where the current identity began. */
  ghost predicate IsWindow(h: seq<Poll>, w: nat) {
    && w <= |h|
    && (w > 0 ==> w < |h| && Resets(h, w))
    && (forall i :: w < i < |h| ==> !Resets(h, i))
  }

  ghost predicate Observed(p: Poll, f: Field) {
    !p.status.Disconnected? && Text(p, f) != ""
  }

  /** `text` is the last nonempty observation of `f` since poll `w`, or nothing was observed. */
  ghost predicate LastObservation(h: seq<Poll>, w: nat, f: Field, text: string)
    requires w <= |h|
  {
    || (text == "" && forall i :: w <= i < |h| ==> !Observed(h[i], f))
    || exists i :: w <= i < |h| && Observed(h[i], f) && Text(h[i], f) == text && NotObservedAfter(h, i, f)
  }

  ghost predicate NotObservedAfter(h: seq<Poll>, i: nat, f: Field) {
    forall j :: i < j < |h| ==> !Observed(h[j], f)
  }

  /** The floors of poll `i` still stand: only fastboot polls that report none came after it. */
  ghost predicate FloorsStandFrom(h: seq<Poll>, i: nat, floors: Option<Floors>)
    requires i < |h|
  {
    && !h[i].status.Disconnected?
    && floors.Some?
    && h[i].floors == floors
    && forall j :: i < j < |h| ==> h[j].status == Fastboot && h[j].floors.None?
  }

  ghost predicate LastFloors(h: seq<Poll>, w: nat, floors: Option<Floors>)
    requires w <= |h|
  {
    if floors.Some? then exists i :: w <= i < |h| && FloorsStandFrom(h, i, floors)
    else forall i, any :: w <= i < |h| ==> !FloorsStandFrom(h, i, any)
  }

  /** The poll itself reported this field. */
  ghost predicate Supplied(p: Poll, f: Field) {
    || f == Connection
    || (!p.status.Disconnected?
        && (|| f == FastbootUserspace
            || (f == AndroidVersion && (p.status == Adb || p.status == AdbRecovery))
            || (f == PlatformSupported && p.platform.Some?)
            || (f == RollbackFloors && p.floors.Some?)
            || (IsRetained(f) && Text(p, f) != "")))
  }

  // ---------------------------------------------------------------- lemmas on the specification

  lemma WindowStep(h: seq<Poll>, w: nat, p: Poll)
    requires IsWindow(h, w)
    ensures Resets(h + [p], |h|) ==> IsWindow(h + [p], |h|)
    ensures !Resets(h + [p], |h|) ==> IsWindow(h + [p], w)
  {
    var h' := h + [p];
    forall i | 0 <= i < |h| ensures Resets(h', i) == Resets(h, i) {
      assert h'[..i] == h[..i];
    }
    if w == |h| && w == 0 { assert h'[..0] == []; }
  }

  /** There is exactly one window: the identity a history ends with is determined by the history. */
  lemma WindowUnique(h: seq<Poll>, v: nat, w: nat)
    requires h != [] && IsWindow(h, v) && IsWindow(h, w)
    ensures v == w
  {
  }

  lemma ObservationStep(h: seq<Poll>, w: nat, p: Poll, f: Field, text: string)
    requires w <= |h| && LastObservation(h, w, f, text)
    ensures LastObservation(h + [p], w, f, if Observed(p, f) then Text(p, f) else text)
    ensures LastObservation(h + [p], |h|, f, if Observed(p, f) then Text(p, f) else "")
  {
    var h' := h + [p];
    assert h'[|h|] == p;
    if Observed(p, f) {
      assert NotObservedAfter(h', |h|, f);
    } else if exists i :: w <= i < |h| && Observed(h[i], f) && Text(h[i], f) == text && NotObservedAfter(h, i, f) {
      var i :| w <= i < |h| && Observed(h[i], f) && Text(h[i], f) == text && NotObservedAfter(h, i, f);
      assert h'[i] == h[i] && NotObservedAfter(h', i, f);
    }
  }

  lemma FloorsStep(h: seq<Poll>, w: nat, p: Poll, floors: Option<Floors>)
    requires w <= |h| && LastFloors(h, w, floors) && !p.status.Disconnected?
    ensures LastFloors(h + [p], w, if p.floors.Some? then p.floors else if p.status == Fastboot then floors else None)
    ensures LastFloors(h + [p], |h|, p.floors)
  {
    var h' := h + [p];
    assert h'[|h|] == p;
    forall i, any | 0 <= i < |h| && FloorsStandFrom(h', i, any)
        ensures FloorsStandFrom(h, i, any) && p.status == Fastboot && p.floors.None? {
      assert h'[|h|].status == Fastboot;
      assert forall j :: i < j < |h| ==> h'[j] == h[j];
    }
    if p.floors.Some? {
      assert FloorsStandFrom(h', |h|, p.floors);
    } else if floors.Some? && p.status == Fastboot {
      var i :| w <= i < |h| && FloorsStandFrom(h, i, floors);
      assert FloorsStandFrom(h', i, floors);
    }
  }

  /** The identity is the last serial observed in the window. */
  lemma IdentityStep(h: seq<Poll>, p: Poll)
    ensures Identity(h + [p])
              == if p.status.Disconnected? then "" else if SerialOf(p) != "" then SerialOf(p) else Identity(h)
    ensures Resets(h + [p], |h|) <==> p.status.Disconnected? || (SerialOf(p) != "" && SerialOf(p) != Identity(h))
  {
    assert (h + [p])[..|h|] == h;
  }

  /** No value seen under another device survives: every poll that may have contributed to the current values carried
      either no serial or the serial the snapshot now shows. */
  lemma {:induction false} WindowHasOneSerial(h: seq<Poll>, w: nat)
    requires IsWindow(h, w)
    ensures forall i :: w <= i < |h| && !h[i].status.Disconnected? && SerialOf(h[i]) != "" ==>
              SerialOf(h[i]) == Identity(h)
    decreases |h|
  {
    if h != [] {
      var n := |h| - 1;
      var earlier, p := h[..n], h[n];
      assert h == earlier + [p];
      IdentityStep(earlier, p);
      if w < n || (w == 0 && n == 0) {
        forall i | 0 <= i < n ensures Resets(earlier, i) == Resets(h, i) { assert earlier[..i] == h[..i]; }
        if w < n {
          WindowHasOneSerial(earlier, w);
        }
      }
    }
  }

  // ---------------------------------------------------------------- the snapshot

  datatype Values = Values(
    connection: Status, text: map<Field, string>, androidVersion: string, userspace: bool,
    platform: Option<bool>, floors: Option<Floors>, freshFields: set<Field>)

  /** Every value is what the polls so far determine; `w` is where the current identity began. */
  ghost predicate Determined(h: seq<Poll>, w: nat, v: Values) {
    && IsWindow(h, w)
    && HasRetained(v.text)
    && (forall f :: IsRetained(f) ==> LastObservation(h, w, f, v.text[f]))
    && v.text[Serial] == Identity(h)
    && LastFloors(h, w, v.floors)
    && (h == [] ==>
        v.connection == Disconnected && v.androidVersion == "" && !v.userspace && v.platform.None?
        && v.freshFields == {})
    && (h != [] ==> LastPollShown(h[|h| - 1], v))
  }

  /** The values that never outlive the poll that reported them, and which fields are fresh. */
  ghost predicate LastPollShown(p: Poll, v: Values) {
    && v.connection == p.status
    && v.androidVersion == (if p.status == Adb || p.status == AdbRecovery then p.androidVersion else "")
    && v.userspace == (!p.status.Disconnected? && p.userspace)
    && v.platform == (if p.status.Disconnected? then None else p.platform)
    && forall f :: f in v.freshFields <==> Supplied(p, f)
  }

  /** Nothing is known. */
  ghost predicate IsBlank(v: Values) {
    && HasRetained(v.text) && (forall f :: f in v.text ==> v.text[f] == "")
    && v.connection == Disconnected && v.androidVersion == "" && !v.userspace && v.platform.None? && v.floors.None?
  }

  lemma LastObservationUnique(h: seq<Poll>, w: nat, f: Field, a: string, b: string)
    requires w <= |h| && LastObservation(h, w, f, a) && LastObservation(h, w, f, b)
    ensures a == b
  {
  }

  lemma LastFloorsUnique(h: seq<Poll>, w: nat, a: Option<Floors>, b: Option<Floors>)
    requires w <= |h| && LastFloors(h, w, a) && LastFloors(h, w, b)
    ensures a == b
  {
    if a.Some? && b.Some? {
      var i :| w <= i < |h| && FloorsStandFrom(h, i, a);
      var j :| w <= j < |h| && FloorsStandFrom(h, j, b);
    }
  }

  /** The history determines every value: two snapshots that saw the same polls are equal. */
  lemma HistoryDeterminesValues(h: seq<Poll>, v: Values, w: nat, v': Values, w': nat)
    requires Determined(h, w, v) && Determined(h, w', v')
    ensures h != [] ==> w == w' && v == v'
  {
    if h != [] {
      WindowUnique(h, w, w');
      forall f | IsRetained(f) ensures v.text[f] == v'.text[f] {
        LastObservationUnique(h, w, f, v.text[f], v'.text[f]);
      }
      assert v.text == v'.text;
      LastFloorsUnique(h, w, v.floors, v'.floors);
      assert v.freshFields == v'.freshFields;
    }
  }

  /** A disconnection starts an identity about which nothing is known. */
  lemma DisconnectStep(h: seq<Poll>, w: nat, v: Values, p: Poll, v': Values)
    requires Determined(h, w, v) && p.status.Disconnected?
    requires IsBlank(v'.(freshFields := {})) && v'.freshFields == {Connection}
    ensures Determined(h + [p], |h|, v')
  {
    WindowStep(h, w, p);
    IdentityStep(h, p);
    forall f | IsRetained(f) ensures LastObservation(h + [p], |h|, f, v'.text[f]) {
      ObservationStep(h, w, p, f, v.text[f]);
    }
    assert (h + [p])[|h|] == p;
  }

  /** A connected poll extends the window, or starts one with what it reports itself. */
  lemma ConnectedStep(h: seq<Poll>, w: nat, v: Values, p: Poll, reset: bool, known: Values, v': Values)
    requires Determined(h, w, v) && !p.status.Disconnected?
    requires reset <==> SerialOf(p) != "" && SerialOf(p) != v.text[Serial]
    requires LastPollShown(p, v') && HasRetained(v'.text)
    requires if reset then IsBlank(known) else known.text == v.text && known.floors == v.floors
    requires && (forall f :: f in v'.text ==> v'.text[f] == TakeOver(p, f, known.text[f]))
             && v'.floors == (if p.floors.Some? then p.floors else if p.status == Fastboot then known.floors else None)
    ensures Resets(h + [p], |h|) <==> reset
    ensures Determined(h + [p], if reset then |h| else w, v')
  {
    WindowStep(h, w, p);
    IdentityStep(h, p);
    forall f | IsRetained(f) ensures LastObservation(h + [p], if reset then |h| else w, f, v'.text[f]) {
      ObservationStep(h, w, p, f, v.text[f]);
    }
    FloorsStep(h, w, p, v.floors);
    assert (h + [p])[|h|] == p;
  }

  class Snapshot {
    var connection: Status
    var text: map<Field, string>
    var androidVersion: string
    var userspace: bool
    var platform: Option<bool>
    var floors: Option<Floors>
    var freshFields: set<Field>
    ghost var history: seq<Poll>
    ghost var window: nat

    function Current(): Values
      reads this
    {
      Values(connection, text, androidVersion, userspace, platform, floors, freshFields)
    }

    ghost predicate Valid()
      reads this
    {
      Determined(history, window, Current())
    }

    constructor ()
      ensures Valid() && history == []
    {
      connection, androidVersion, userspace, platform, floors, freshFields := Disconnected, "", false, None, None, {};
      text := map f: Field | IsRetained(f) :: "";
      history, window := [], 0;
    }

    method Store(v: Values)
      modifies `connection, `text, `androidVersion, `userspace, `platform, `floors, `freshFields
      ensures Current() == v
    {
      connection, text, androidVersion := v.connection, v.text, v.androidVersion;
      userspace, platform, floors, freshFields := v.userspace, v.platform, v.floors, v.freshFields;
    }

    predicate IsFresh(f: Field)
      reads this
    {
      f in freshFields
    }

    /** Merge one poll. The change report names an identity reset exactly when the history says so. */
    method Apply(poll: Poll) returns (change: Change)
      requires Valid()
      modifies this
      ensures Valid() && history == old(history) + [poll]
      ensures change.resetIdentity <==> Resets(history, |old(history)|)
      ensures window == if change.resetIdentity then |old(history)| else old(window)
      ensures change.leftFastboot <==> old(connection) == Fastboot && poll.status != Fastboot
      ensures change.contextChanged <==> old(connection) != poll.status || Identity(history) != Identity(old(history))
      ensures forall f :: IsFresh(f) <==> Supplied(poll, f)
    {
      var v;
      v, change := Merge(poll, Current(), history, window);
      window := if change.resetIdentity then |history| else window;
      history := history + [poll];
      Store(v);
    }
  }

  /** The values after a poll: a disconnection or another serial starts from nothing. */
  method Merge(poll: Poll, before: Values, ghost h: seq<Poll>, ghost w: nat) returns (v: Values, change: Change)
    requires Determined(h, w, before)
    ensures Determined(h + [poll], if change.resetIdentity then |h| else w, v)
    ensures change.resetIdentity <==> Resets(h + [poll], |h|)
    ensures change.leftFastboot <==> before.connection == Fastboot && poll.status != Fastboot
    ensures change.contextChanged <==> before.connection != poll.status || Identity(h + [poll]) != Identity(h)
    ensures forall f :: f in v.freshFields <==> Supplied(poll, f)
  {
    v := before;
    IdentityStep(h, poll);
    var serialChanged := SerialOf(poll) != "" && SerialOf(poll) != v.text[Serial];
    var disconnected := poll.status.Disconnected?;
    change := Change(serialChanged || disconnected,
                     v.connection != poll.status || (if disconnected then v.text[Serial] != "" else serialChanged),
                     v.connection == Fastboot && poll.status != Fastboot);
    if change.resetIdentity {
      v := Values(Disconnected, map f: Field | IsRetained(f) :: "", "", false, None, None, {});
    }
    ghost var known := v;
    v := v.(freshFields := {Connection}, connection := poll.status);
    if disconnected {
      DisconnectStep(h, w, before, poll, v);
    } else {
      v := MergeConnected(poll, v);
      ConnectedStep(h, w, before, poll, serialChanged, known, v);
    }
    LastShown(h, poll, if change.resetIdentity then |h| else w, v);
  }

  lemma LastShown(h: seq<Poll>, p: Poll, w: nat, v: Values)
    requires Determined(h + [p], w, v)
    ensures forall f :: f in v.freshFields <==> Supplied(p, f)
  {
    assert (h + [p])[|h|] == p;
  }

  /** The part of a merge only a connected poll reaches. */
  method MergeConnected(poll: Poll, before: Values) returns (v: Values)
    requires HasRetained(before.text) && !poll.status.Disconnected?
    requires before.connection == poll.status && before.freshFields == {Connection}
    ensures HasRetained(v.text)
    ensures forall f :: f in v.text ==> v.text[f] == TakeOver(poll, f, before.text[f])
    ensures v.floors == if poll.floors.Some? then poll.floors else if poll.status
              == Fastboot then before.floors else None
    ensures LastPollShown(poll, v)
  {
    hide IsRetained, HasRetained, TakeOver, Text, Supplied;
    var fields := RetainedFields();
    var text, marked := MergeText(poll, fields, before.text, before.freshFields);
    v := before.(text := text, userspace := poll.userspace, platform := poll.platform);
    ghost var merged := marked;
    marked := marked + {FastbootUserspace};
    if poll.status == Adb || poll.status == AdbRecovery {
      v := v.(androidVersion := poll.androidVersion);
      marked := marked + {AndroidVersion};
    } else {
      v := v.(androidVersion := "");
    }
    if poll.platform.Some? {
      marked := marked + {PlatformSupported};
    }
    if poll.floors.Some? {
      v := v.(floors := poll.floors);
      marked := marked + {RollbackFloors};
    } else if poll.status != Fastboot {
      v := v.(floors := None);
    }
    v := v.(freshFields := marked);
    MarkedIsSupplied(poll, before.text, merged, marked);
  }

  /** The marks of a merge, field by field. */
  lemma MarkedIsSupplied(poll: Poll, known: map<Field, string>, merged: set<Field>, marked: set<Field>)
    requires HasRetained(known) && !poll.status.Disconnected?
    requires forall f :: f in merged <==> f == Connection || (f in known && Text(poll, f) != "")
    requires marked == merged + {FastbootUserspace}
                       + (if poll.status == Adb || poll.status == AdbRecovery then {AndroidVersion} else {})
                       + (if poll.platform.Some? then {PlatformSupported} else {})
                       + (if poll.floors.Some? then {RollbackFloors} else {})
    ensures forall f :: f in marked <==> Supplied(poll, f)
  {
    hide Text;
  }

  /** Take over every nonempty text of the poll and mark exactly those fields fresh. */
  method MergeText(poll: Poll, fields: seq<Field>, known: map<Field, string>, marked: set<Field>)
    returns (text: map<Field, string>, freshFields: set<Field>)
    requires HasRetained(known) && forall f :: f in fields <==> IsRetained(f)
    ensures HasRetained(text)
    ensures forall f :: f in text ==> text[f] == TakeOver(poll, f, known[f])
    ensures forall f :: f in freshFields <==> f in marked || (f in known && Text(poll, f) != "")
  {
    text, freshFields := known, marked;
    for i := 0 to |fields|
      invariant HasRetained(text)
      invariant forall f :: f in text ==> text[f] == if f in fields[..i] then TakeOver(poll, f, known[f]) else known[f]
      invariant forall f :: f in freshFields <==> f in marked || (f in fields[..i] && Text(poll, f) != "")
    {
      var field := fields[i];
      assert field in fields;
      assert forall f :: f in fields[..i + 1] <==> f in fields[..i] || f == field;
      if Text(poll, field) != "" {
        text := text[field := Text(poll, field)];
        freshFields := freshFields + {field};
      }
    }
    assert fields[..|fields|] == fields;
  }
}
