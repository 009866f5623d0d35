/**
 The session transcript: an archive that survives a failing disk, a pending progress row, and a mirror
 file that outlives clearing the log.

 The specification is over the events of a session: what was recorded, and when progress was finished.
 */
module LogHistory {
  import opened Wrappers

  datatype Kind = Info | Debug | Progress(key: string)

  datatype Event = Logged(line: string, kind: Kind, now: nat) | Finished

  const SAMPLE_INTERVAL: nat := 5

  // ---------------------------------------------------------------- text

  /** The lines of a transcript, each with its line break. */
  function Body(lines: seq<string>): string {
    if lines == [] then "" else Body(lines[..|lines| - 1]) + lines[|lines| - 1] + "\n"
  }

  lemma BodySnoc(lines: seq<string>, line: string)
    ensures Body(lines + [line]) == Body(lines) + line + "\n"
  {
    assert (lines + [line])[..|lines|] == lines;
  }

  function Notice(error: string): string { "[Log] Transcript storage error: " + error }

  function ErrorLine(error: string): string { Notice(error) + "\n" }

  /** Rust's `trim_end_matches('\n')`. */
  function TrimEnd(s: string): (t: string)
    ensures t <= s && (t == "" || t[|t| - 1] != '\n')
    ensures forall i :: |t| <= i < |s| ==> s[i] == '\n'
  {
    if s != "" && s[|s| - 1] == '\n' then TrimEnd(s[..|s| - 1]) else s
  }

  // ---------------------------------------------------------------- the archive

  /** What a transcript with `stored` lines on disk reads as: after a storage failure the torn part of the failing
      line and a notice stand between the stored lines and those kept in memory. */
  ghost function StoredText(lines: seq<string>, stored: nat, torn: string, error: Option<string>): string
    requires stored <= |lines|
  {
    if error.None? then Body(lines)
    else Body(lines[..stored]) + torn + ErrorLine(error.value) + Body(lines[stored..])
  }

  /** What appending a line does to the part in memory. */
  lemma AppendedInMemory(lines: seq<string>, stored: nat, line: string)
    requires stored <= |lines|
    ensures Body((lines + [line])[stored..]) == Body(lines[stored..]) + line + "\n"
    ensures (lines + [line])[..stored] == lines[..stored]
  {
    assert (lines + [line])[stored..] == lines[stored..] + [line];
    BodySnoc(lines[stored..], line);
  }

  /** What appending a line does when everything is on disk. */
  lemma AppendedOnDisk(lines: seq<string>, line: string)
    ensures Body((lines + [line])[..|lines| + 1]) == Body(lines[..|lines|]) + line + "\n"
    ensures (lines + [line])[|lines| + 1..] == [] == lines[|lines|..]
  {
    assert (lines + [line])[..|lines| + 1] == lines + [line];
    assert lines[..|lines|] == lines;
    BodySnoc(lines, line);
  }

  class Archive {
    var file: Option<string>
    var fallback: string
    var error: Option<string>
    var mirror: Option<string>
    ghost var lines: seq<string>
    ghost var stored: nat
    ghost var torn: string

    /** Every line is either in the file or in memory; the file is used until the first error. */
    ghost predicate Valid()
      reads this
    {
      && stored <= |lines|
      && (error.None? ==> file.Some? && stored == |lines|)
      // Only the first bytes of the entry whose write failed can be torn.
      && (torn != "" ==> error.Some? && stored < |lines| && torn <= lines[stored])
      && (file.Some? ==> file.value == Body(lines[..stored]) + torn)
      && (file.None? ==> stored == 0 && torn == "")
      && fallback == Body(lines[stored..])
    }

    constructor ()
      ensures Valid() && lines == [] && mirror.None?
    {
      var created: bool, reason: string := *, *;
      file := if created then Some("") else None;
      error := if created then None else Some(reason);
      fallback, mirror, lines, stored, torn := "", None, [], 0, "";
    }

    /** Append a line: whatever write fails, the whole line is kept, and a mirror whose write fails is dropped. */
    method Append(line: string)
      requires Valid()
      modifies this
      ensures Valid() && lines == old(lines) + [line]
      ensures mirror.Some? ==> old(mirror).Some? && mirror.value == old(mirror).value + line + "\n"
      ensures old(error).Some? ==> error == old(error) && stored == old(stored) && torn == old(torn)
      ensures old(error).None? && error.Some? ==> stored == |old(lines)| && torn <= line
    {
      AppendedInMemory(lines, stored, line);
      AppendedOnDisk(lines, line);
      var copied: bool := *;
      var mirrored := if mirror.Some? && copied then Some(mirror.value + line + "\n") else None;
      if error.None? && file.Some? {
        var written: bool := *;
        if written {
          file, mirror := Some(file.value + line + "\n"), mirrored;
          lines, stored := lines + [line], stored + 1;
          return;
        }
        // The line is written first and its break after it, so a failure leaves at most the line.
        var part: nat, reason: string := *, *;
        if part > |line| { part := 0; }
        file, error, torn := Some(file.value + line[..part]), Some(reason), line[..part];
      }
      fallback, mirror, lines := fallback + line + "\n", mirrored, lines + [line];
    }

    /** The transcript. A failing read loses only this copy of the stored part and is itself reported. */
    method Text() returns (text: string, ghost complete: bool)
      requires Valid()
      modifies this
      ensures Valid() && lines == old(lines) && mirror == old(mirror) && stored == old(stored) && torn == old(torn)
      ensures complete ==> error == old(error) && text == StoredText(lines, stored, torn, error)
      ensures !complete ==>
                error.Some? && exists part ::
                  part <= Body(lines[..stored]) + torn && text == part + ErrorLine(error.value) + Body(lines[stored..])
    {
      text, complete := "", true;
      if file.Some? {
        var read: bool, part: nat, reason: string := *, *, *;
        if read {
          text := file.value;
        } else {
          if part > |file.value| { part := 0; }
          text, complete := file.value[..part], false;
          error := Some(reason);
        }
      }
      ghost var part := text;
      if error.Some? {
        text := text + ErrorLine(error.value);
      }
      text := text + fallback;
      assert lines[..|lines|] == lines;
      if complete && error.None? { assert Body(lines[stored..]) == "" && torn == ""; }
      if !complete { assert part <= Body(lines[..stored]) + torn; }
    }
  }

  // ---------------------------------------------------------------- the lines of a text

  /** The lines a text consists of; a line break ends one, and so does the end of a text that lacks it. */
  function Lines(s: string): seq<string> {
    if s == "" then []
    else if s[0] == '\n' then [""] + Lines(s[1..])
    else
      var rest := Lines(s[1..]);
      if rest == [] || s[1..] == "" then [[s[0]]] else [[s[0]] + rest[0]] + rest[1..]
  }

  /** A text that ends a line. */
  predicate Closed(s: string) { s == "" || s[|s| - 1] == '\n' }

  lemma {:induction false} LinesSome(s: string)
    ensures Lines(s) == [] <==> s == ""
  {
  }

  /** One more character in front lengthens the first line. */
  lemma LinesFirst(c: char, s: string)
    requires c != '\n' && s != ""
    ensures Lines(s) != [] && Lines([c] + s) == [[c] + Lines(s)[0]] + Lines(s)[1..]
  {
    LinesSome(s);
    assert ([c] + s)[1..] == s;
  }

  /** A break in front adds a blank line. */
  lemma LinesBreak(s: string)
    ensures Lines(['\n'] + s) == [""] + Lines(s)
  {
    assert (['\n'] + s)[1..] == s;
  }

  lemma {:induction false} LinesAppend(a: string, b: string)
    requires Closed(a)
    ensures Lines(a + b) == Lines(a) + Lines(b)
  {
    if a == "" {
      LinesSome(a);
      assert a + b == b && Lines(a) + Lines(b) == Lines(b);
    } else {
      hide Lines;
      var c, rest := a[0], a[1..];
      assert a == [c] + rest && a + b == [c] + (rest + b);
      LinesAppend(rest, b);
      if c == '\n' {
        LinesBreak(rest);
        LinesBreak(rest + b);
        Longer("", Lines(rest), Lines(b));
      } else {
        LinesFirst(c, rest);
        LinesFirst(c, rest + b);
        FirstLonger(c, Lines(rest), Lines(b));
      }
    }
  }

  lemma Longer(x: string, a: seq<string>, b: seq<string>)
    ensures [x] + (a + b) == [x] + a + b
  {
  }

  lemma FirstLonger(c: char, a: seq<string>, b: seq<string>)
    requires a != []
    ensures [[c] + (a + b)[0]] + (a + b)[1..] == [[c] + a[0]] + a[1..] + b
  {
    assert (a + b)[0] == a[0] && (a + b)[1..] == a[1..] + b;
  }

  /** One more character in front adds a line exactly when it is a break. */
  lemma LinesLength(c: char, s: string)
    requires s != ""
    ensures |Lines([c] + s)| == |Lines(s)| + (if c == '\n' then 1 else 0)
  {
    hide Lines;
    LinesSome(s);
    if c == '\n' { LinesBreak(s); } else { LinesFirst(c, s); }
  }

  lemma {:induction false} LinesOne(l: string)
    requires '\n' !in l
    ensures Lines(l + "\n") == [l]
    ensures l != "" ==> Lines(l) == [l]
  {
    if l == "" {
      assert l + "\n" == "\n" && "\n"[1..] == "";
    } else {
      assert (l + "\n")[1..] == l[1..] + "\n";
      assert l == [l[0]] + l[1..];
      LinesOne(l[1..]);
      assert |l| == 1 ==> l[1..] == "" && l == [l[0]];
      assert |l| > 1 ==> Lines(l) == [[l[0]] + l[1..]] + [];
    }
  }

  /** The lines entries take up: an entry may hold line breaks of its own. */
  function EntryLines(lines: seq<string>): seq<string> {
    if lines == [] then [] else EntryLines(lines[..|lines| - 1]) + Lines(lines[|lines| - 1] + "\n")
  }

  lemma {:induction false} BodyLines(lines: seq<string>)
    ensures Closed(Body(lines)) && Lines(Body(lines)) == EntryLines(lines)
  {
    if lines != [] {
      var n := |lines| - 1;
      BodyLines(lines[..n]);
      assert Body(lines) == Body(lines[..n]) + (lines[n] + "\n");
      LinesAppend(Body(lines[..n]), lines[n] + "\n");
    }
  }

  lemma {:induction false} SingleEntryLines(lines: seq<string>)
    requires forall i :: 0 <= i < |lines| ==> '\n' !in lines[i]
    ensures EntryLines(lines) == lines
  {
    if lines != [] {
      var n := |lines| - 1;
      SingleEntryLines(lines[..n]);
      LinesOne(lines[n]);
      assert lines == lines[..n] + [lines[n]];
    }
  }

  /** The transcript, line by line: the lines of every entry, in order and once, and after a storage failure what it
      tore off, run into the notice. */
  lemma TranscriptLines(lines: seq<string>, stored: nat, torn: string, error: Option<string>)
    requires stored <= |lines|
    ensures Closed(StoredText(lines, stored, torn, error))
    ensures error.None? ==> Lines(StoredText(lines, stored, torn, error)) == EntryLines(lines)
    ensures error.Some? ==>
              Lines(StoredText(lines, stored, torn, error))
              == EntryLines(lines[..stored]) + Lines(torn + ErrorLine(error.value)) + EntryLines(lines[stored..])
  {
    hide Lines, Body, EntryLines, ErrorLine;
    BodyLines(lines);
    if error.Some? {
      BodyLines(lines[..stored]);
      BodyLines(lines[stored..]);
      ErrorLineCloses(error.value);
      BrokenLines(Body(lines[..stored]), torn, ErrorLine(error.value), Body(lines[stored..]));
    }
  }

  lemma ErrorLineCloses(error: string)
    ensures Closed(ErrorLine(error)) && ErrorLine(error) != ""
  {
  }

  lemma BrokenLines(head: string, torn: string, notice: string, tail: string)
    requires Closed(head) && Closed(tail) && Closed(notice) && notice != ""
    ensures Closed(head + torn + notice + tail)
    ensures Lines(head + torn + notice + tail) == Lines(head) + Lines(torn + notice) + Lines(tail)
  {
    hide Lines;
    var middle := torn + notice;
    assert middle[|middle| - 1] == notice[|notice| - 1];
    LinesAppend(middle, tail);
    LinesAppend(head, middle + tail);
    assert head + torn + notice + tail == head + (middle + tail);
    assert Lines(head) + (Lines(middle) + Lines(tail)) == Lines(head) + Lines(middle) + Lines(tail);
  }

  function Breaks(s: string): nat {
    if s == "" then 0 else (if s[0] == '\n' then 1 else 0) + Breaks(s[1..])
  }

  lemma {:induction false} BreaksSome(s: string)
    ensures '\n' in s ==> Breaks(s) > 0
  {
    if s != "" && s[0] != '\n' {
      assert s == [s[0]] + s[1..];
      BreaksSome(s[1..]);
    }
  }

  /** Text put in front of a text adds a line for each of its breaks. */
  lemma {:induction false} LinesCount(s: string, t: string)
    requires t != ""
    ensures |Lines(s + t)| == |Lines(t)| + Breaks(s)
  {
    hide Lines;
    if s == "" {
      assert s + t == t;
    } else {
      var c, rest := s[0], s[1..];
      LinesCount(rest, t);
      assert s + t == [c] + (rest + t);
      LinesLength(c, rest + t);
    }
  }

  lemma PrefixHasNoBreak(torn: string, line: string)
    requires torn <= line && '\n' !in line
    ensures '\n' !in torn
  {
    forall i | 0 <= i < |torn| ensures torn[i] != '\n' { assert torn[i] == line[i]; }
  }

  /** The lines of a notice with a torn prefix run into the first: no line of the entry is among them. */
  function RunInto(torn: string, notice: seq<string>): seq<string>
    requires notice != []
  {
    [torn + notice[0]] + notice[1..]
  }

  lemma {:induction false} TornRunsInto(torn: string, notice: string)
    requires '\n' !in torn && notice != ""
    ensures Lines(notice) != [] && Lines(torn + notice) == RunInto(torn, Lines(notice))
  {
    hide Lines;
    LinesSome(notice);
    if torn == "" {
      assert torn + notice == notice;
      assert torn + Lines(notice)[0] == Lines(notice)[0];
    } else {
      var c, rest := torn[0], torn[1..];
      assert torn == [c] + rest;
      TornRunsInto(rest, notice);
      assert torn + notice == [c] + (rest + notice);
      LinesFirst(c, rest + notice);
      assert [c] + (rest + Lines(notice)[0]) == torn + Lines(notice)[0];
    }
  }

  lemma NoticeLines(error: string)
    ensures Closed(ErrorLine(error)) && ErrorLine(error) != "" && Lines(ErrorLine(error)) != []
  {
    ErrorLineCloses(error);
    LinesSome(ErrorLine(error));
  }

  /** Exactly when no failing write can repeat a line of an entry: whatever it tore off, the transcript adds the lines
      of the notice alone. It depends on the entry only, not on the reason of the failure. */
  lemma NothingRepeatsExactly(line: string, error: string)
    ensures Lines(ErrorLine(error)) != []
    ensures (forall torn :: torn <= line ==> Lines(torn + ErrorLine(error)) == RunInto(torn, Lines(ErrorLine(error))))
            <==> '\n' !in line
  {
    hide Lines, ErrorLine;
    NoticeLines(error);
    if '\n' !in line {
      forall torn | torn <= line ensures Lines(torn + ErrorLine(error)) == RunInto(torn, Lines(ErrorLine(error))) {
        PrefixHasNoBreak(torn, line);
        TornRunsInto(torn, ErrorLine(error));
      }
    } else {
      assert line <= line;
      LinesCount(line, ErrorLine(error));
      BreaksSome(line);
      assert |RunInto(line, Lines(ErrorLine(error)))| == |Lines(ErrorLine(error))|;
    }
  }

  /** When the write of a multi-line entry fails after one of its breaks, its first line comes twice: before the
      notice here, and with the whole entry after it. */
  lemma {:induction false} TornLineRepeats(torn: string, line: string, error: string)
    requires torn <= line && '\n' in torn
    ensures Lines(torn + ErrorLine(error)) != [] && Lines(line + "\n") != []
    ensures Lines(torn + ErrorLine(error))[0] == Lines(line + "\n")[0]
  {
    hide ErrorLine;
    assert torn[0] == line[0];
    assert torn == [torn[0]] + torn[1..] && line == [line[0]] + line[1..];
    assert (torn + ErrorLine(error))[1..] == torn[1..] + ErrorLine(error) && (line + "\n")[1..] == line[1..] + "\n";
    if torn[0] != '\n' {
      TornLineRepeats(torn[1..], line[1..], error);
    }
  }

  // ---------------------------------------------------------------- the shown text

  /** Lines without the blank ones at their end. */
  function DropBlankEnd(lines: seq<string>): seq<string> {
    if lines != [] && lines[|lines| - 1] == "" then DropBlankEnd(lines[..|lines| - 1]) else lines
  }

  lemma {:induction false} LastLineOpen(s: string)
    requires s != "" && s[|s| - 1] != '\n'
    ensures Lines(s + "\n") == Lines(s) && Lines(s) != [] && Lines(s)[|Lines(s)| - 1] != ""
  {
    hide Lines;
    var c, rest := s[0], s[1..];
    assert s == [c] + rest && s + "\n" == [c] + (rest + "\n");
    if rest == "" {
      LinesOne(s);
    } else {
      LastLineOpen(rest);
      if c == '\n' {
        LinesBreak(rest);
        LinesBreak(rest + "\n");
      } else {
        LinesFirst(c, rest);
        LinesFirst(c, rest + "\n");
      }
    }
  }

  /** Trimming the breaks at the end of a text drops its blank last lines and no other. */
  lemma {:induction false} TrimmedLines(s: string)
    ensures Lines(TrimEnd(s)) == DropBlankEnd(Lines(s))
  {
    if s == "" {
    } else if s[|s| - 1] != '\n' {
      LastLineOpen(s);
    } else {
      var shorter := s[..|s| - 1];
      assert s == shorter + "\n";
      TrimmedLines(shorter);
      if Closed(shorter) {
        LinesAppend(shorter, "\n");
        LinesOne("");
        assert "" + "\n" == "\n";
        assert Lines(s)[..|Lines(s)| - 1] == Lines(shorter);
      } else {
        LastLineOpen(shorter);
      }
    }
  }

  // ---------------------------------------------------------------- what a session recorded

  function Render(e: Event): string
    requires e.Logged?
  {
    if e.kind.Debug? then "[Debug] " + e.line else e.line
  }

  predicate IsDiagnostic(e: Event) { e.Logged? && !e.kind.Progress? }

  predicate IsUpdate(e: Event) { e.Logged? && e.kind.Progress? }

  predicate IsDebug(e: Event) { e.Logged? && e.kind.Debug? }

  /** The positions of the Info and Debug events, in order. */
  function DiagnosticPositions(events: seq<Event>): seq<nat> {
    if events == [] then []
    else
      DiagnosticPositions(events[..|events| - 1])
      + (if IsDiagnostic(events[|events| - 1]) then [|events| - 1] else [])
  }

  /** The archived positions that are Info or Debug events, in archive order. */
  ghost function ArchivedDiagnostics(events: seq<Event>, items: seq<nat>): seq<nat>
    requires forall j :: 0 <= j < |items| ==> items[j] < |events|
  {
    if items == [] then []
    else
      ArchivedDiagnostics(events, items[..|items| - 1])
      + (if IsDiagnostic(events[items[|items| - 1]]) then [items[|items| - 1]] else [])
  }

  /** Events `i` to `j` are updates of one transfer, with only debug lines between them. */
  ghost predicate SameTransfer(events: seq<Event>, i: nat, j: nat) {
    && i <= j < |events|
    && IsUpdate(events[i]) && IsUpdate(events[j])
    && forall k :: i <= k <= j ==> IsDebug(events[k]) || (IsUpdate(events[k]) && events[k].kind == events[i].kind)
  }

  /** Update `i` is the newest of its transfer: no later event continues it. */
  ghost predicate Newest(events: seq<Event>, i: nat) {
    && i < |events| && IsUpdate(events[i])
    && forall j :: i < j < |events| ==> !SameTransfer(events, i, j)
  }

  /** The archive holds this update's text, from its own transfer. */
  ghost predicate Archived(events: seq<Event>, items: seq<nat>, i: nat)
    requires i < |events| && IsUpdate(events[i])
  {
    exists j :: 0 <= j < |items| && SameTransfer(events, items[j], i) && events[items[j]].line == events[i].line
  }

  datatype Pending = Pending(key: string, line: string, lastSaved: Option<string>, savedAt: nat)

  /** Only debug lines follow the pending update. */
  ghost predicate Open(events: seq<Event>, last: nat) {
    last < |events| && IsUpdate(events[last]) && forall k :: last < k < |events| ==> IsDebug(events[k])
  }

  /** What archive and pending row must hold for a session: every diagnostic exactly once and in order, no update
      twice, and the newest update of every transfer archived or pending. */
  ghost predicate Tracks(events: seq<Event>, items: seq<nat>, pending: Option<Pending>, last: nat) {
    && InOrder(events, items)
    && (forall i :: 0 <= i < |events| && Newest(events, i) ==>
        Archived(events, items, i) || (pending.Some? && i == last))
    && (pending.None? ==> forall i :: !Open(events, i))
    && (pending.Some? ==>
          && Open(events, last)
          && events[last].kind == Progress(pending.value.key) && events[last].line == pending.value.line
          && (pending.value.lastSaved.Some? ==>
                exists j :: 0 <= j < |items| && SameTransfer(events, items[j], last)
                    && events[items[j]].line == pending.value.lastSaved.value)
          && (last in items ==> pending.value.lastSaved == Some(pending.value.line)))
  }

  /** The pending row is not yet in the archive in its present form. */
  predicate Unsaved(pending: Option<Pending>) {
    pending.Some? && pending.value.lastSaved != Some(pending.value.line)
  }

  lemma {:induction false} ArchivedDiagnosticsStable(events: seq<Event>, items: seq<nat>, e: Event)
    requires forall j :: 0 <= j < |items| ==> items[j] < |events|
    ensures ArchivedDiagnostics(events + [e], items) == ArchivedDiagnostics(events, items)
  {
    if items != [] { ArchivedDiagnosticsStable(events, items[..|items| - 1], e); }
  }

  lemma ArchivedSnoc(events: seq<Event>, items: seq<nat>, n: nat)
    requires (forall j :: 0 <= j < |items| ==> items[j] < |events|) && n < |events|
    ensures ArchivedDiagnostics(events, items + [n]) == ArchivedDiagnostics(events, items)
              + (if IsDiagnostic(events[n]) then [n] else [])
  {
    assert (items + [n])[..|items|] == items;
  }

  lemma PositionsSnoc(events: seq<Event>, e: Event)
    ensures DiagnosticPositions(events + [e]) == DiagnosticPositions(events)
              + (if IsDiagnostic(e) then [|events|] else [])
  {
    assert (events + [e])[..|events|] == events;
  }

  lemma TransferStable(events: seq<Event>, e: Event, i: nat, j: nat)
    requires j < |events|
    ensures SameTransfer(events + [e], i, j) <==> SameTransfer(events, i, j)
  {
    assert forall k :: 0 <= k < |events| ==> (events + [e])[k] == events[k];
  }

  lemma NewestShrinks(events: seq<Event>, e: Event, i: nat)
    requires i < |events|
    ensures Newest(events + [e], i) ==> Newest(events, i)
    ensures Newest(events + [e], i) && Open(events, i) ==> !(IsUpdate(e) && e.kind == events[i].kind)
  {
    var events' := events + [e];
    assert forall k :: 0 <= k < |events| ==> events'[k] == events[k];
    forall j | i < j < |events| ensures SameTransfer(events', i, j) <==> SameTransfer(events, i, j) {
      TransferStable(events, e, i, j);
    }
    if Open(events, i) && IsUpdate(e) && e.kind == events[i].kind {
      assert SameTransfer(events', i, |events|);
    }
  }

  lemma ArchivedGrows(events: seq<Event>, items: seq<nat>, e: Event, more: seq<nat>, i: nat)
    requires i < |events| && IsUpdate(events[i]) && Archived(events, items, i)
    ensures Archived(events + [e], items + more, i)
    ensures Archived(events, items + more, i)
  {
    var j :| 0 <= j < |items| && SameTransfer(events, items[j], i) && events[items[j]].line == events[i].line;
    TransferStable(events, e, items[j], i);
    assert (items + more)[j] == items[j];
  }

  /** Archive positions are recorded events, every diagnostic once and in order, and updates without repetition. */
  ghost predicate InOrder(events: seq<Event>, items: seq<nat>) {
    && (forall j :: 0 <= j < |items| ==> items[j] < |events| && events[items[j]].Logged?)
    && ArchivedDiagnostics(events, items) == DiagnosticPositions(events)
    && (forall j, k :: 0 <= j < k < |items| && IsUpdate(events[items[j]]) && IsUpdate(events[items[k]]) ==>
        items[j] < items[k])
  }

  ghost predicate AllArchived(events: seq<Event>, items: seq<nat>) {
    forall i :: 0 <= i < |events| && Newest(events, i) ==> Archived(events, items, i)
  }

  function Flushed(items: seq<nat>, pending: Option<Pending>, last: nat): seq<nat> {
    if Unsaved(pending) then items + [last] else items
  }

  /** Appending the open update keeps the order. */
  lemma UpdateInOrder(events: seq<Event>, items: seq<nat>, last: nat)
    requires InOrder(events, items) && Open(events, last) && last !in items
    ensures InOrder(events, items + [last])
  {
    ArchivedSnoc(events, items, last);
    forall j | 0 <= j < |items| && IsUpdate(events[items[j]]) ensures items[j] < last {
      assert items[j] in items;
    }
  }

  /** Finishing the pending row leaves every newest update archived. */
  lemma FlushTracks(events: seq<Event>, items: seq<nat>, pending: Option<Pending>, last: nat)
    requires Tracks(events, items, pending, last)
    ensures InOrder(events, Flushed(items, pending, last))
    ensures AllArchived(events, Flushed(items, pending, last))
  {
    if Unsaved(pending) {
      UpdateInOrder(events, items, last);
    }
    forall i | 0 <= i < |events| && Newest(events, i) ensures Archived(events, Flushed(items, pending, last), i) {
      FlushArchives(events, items, pending, last, i);
    }
  }

  lemma FlushArchives(events: seq<Event>, items: seq<nat>, pending: Option<Pending>, last: nat, i: nat)
    requires Tracks(events, items, pending, last)
    requires i < |events| && Newest(events, i)
    ensures Archived(events, Flushed(items, pending, last), i)
  {
    if Unsaved(pending) {
      var items' := items + [last];
      if i == last {
        assert SameTransfer(events, last, last) && items'[|items|] == last;
      } else {
        ArchivedGrows(events, items, events[i], [last], i);
      }
    }
  }

  lemma {:induction false} PositionsAre(events: seq<Event>)
    ensures forall i :: i in DiagnosticPositions(events) <==> 0 <= i < |events| && IsDiagnostic(events[i])
    ensures forall a, b :: 0 <= a < b < |DiagnosticPositions(events)| ==>
              DiagnosticPositions(events)[a] < DiagnosticPositions(events)[b]
  {
    if events != [] {
      var n := |events| - 1;
      PositionsAre(events[..n]);
      var before := DiagnosticPositions(events[..n]);
      assert forall a :: 0 <= a < |before| ==> before[a] in before;
      assert forall i :: 0 <= i < n ==> events[..n][i] == events[i];
    }
  }

  /** The Info and Debug events among these positions stand in the order they were recorded. */
  ghost predicate DiagnosticsIncrease(events: seq<Event>, items: seq<nat>)
    requires forall j :: 0 <= j < |items| ==> items[j] < |events|
  {
    forall j, k ::
      0 <= j < k < |items| && IsDiagnostic(events[items[j]]) && IsDiagnostic(events[items[k]]) ==> items[j] < items[k]
  }

  lemma {:induction false} ArchivedDiagnosticsAre(events: seq<Event>, items: seq<nat>)
    requires forall j :: 0 <= j < |items| ==> items[j] < |events|
    ensures forall i :: i in ArchivedDiagnostics(events, items) <==> i in items && IsDiagnostic(events[i])
    ensures (forall a, b :: 0 <= a < b < |ArchivedDiagnostics(events, items)| ==>
               ArchivedDiagnostics(events, items)[a] < ArchivedDiagnostics(events, items)[b])
            ==> DiagnosticsIncrease(events, items)
  {
    if items != [] {
      var n := |items| - 1;
      var earlier := items[..n];
      var before := ArchivedDiagnostics(events, earlier);
      ArchivedDiagnosticsAre(events, earlier);
      assert items == earlier + [items[n]];
      var all := ArchivedDiagnostics(events, items);
      if forall a, b :: 0 <= a < b < |all| ==> all[a] < all[b] {
        assert forall a, b :: 0 <= a < b < |before| ==> before[a] == all[a] && before[b] == all[b];
        forall j, k | 0 <= j < k < |items| && IsDiagnostic(events[items[j]]) && IsDiagnostic(events[items[k]])
            ensures items[j] < items[k] {
          if k == n {
            assert items[j] in before;
            var a :| 0 <= a < |before| && before[a] == items[j];
            assert all[a] == before[a] && all[|before|] == items[n];
          } else {
            assert earlier[j] == items[j] && earlier[k] == items[k];
          }
        }
      }
    }
  }

  /** Each Info and Debug line is in the archive exactly once, and they are in the order they were recorded. */
  lemma DiagnosticsExactlyOnce(events: seq<Event>, items: seq<nat>, pending: Option<Pending>, last: nat)
    requires Tracks(events, items, pending, last)
    ensures forall i :: 0 <= i < |events| && IsDiagnostic(events[i]) ==> i in items
    ensures DiagnosticsIncrease(events, items)
  {
    PositionsAre(events);
    ArchivedDiagnosticsAre(events, items);
  }

  /** The lines a storage failure adds to the transcript. */
  function NoticeIn(torn: string, error: Option<string>): (notice: seq<string>)
    ensures error.None? <==> notice == []
  {
    match error
    case None => []
    case Some(reason) =>
      NoticeLines(reason);
      RunInto(torn, Lines(ErrorLine(reason)))
  }

  /** Where the entry at archive position `j` stands in the transcript. */
  function LineNumber(j: nat, stored: nat, notice: seq<string>): nat {
    if j >= stored then j + |notice| else j
  }

  /** The transcript of a session of single-line entries, after any storage failure: the archived entries in order,
      each one line, and the lines of the notice, which are no entry's. */
  lemma TranscriptIsArchive(
      events: seq<Event>, items: seq<nat>, lines: seq<string>, stored: nat, torn: string, error: Option<string>)
    requires Rendered(events, items, lines) && SingleLines(events)
    requires stored <= |lines| && (torn != "" ==> stored < |lines| && torn <= lines[stored])
    ensures var text, notice := Lines(StoredText(lines, stored, torn, error)), NoticeIn(torn, error);
            && |text| == |items| + |notice|
            && text[stored..stored + |notice|] == notice
            && forall j :: 0 <= j < |items| ==> text[LineNumber(j, stored, notice)] == Render(events[items[j]])
  {
    hide Lines, StoredText, EntryLines, Render, NoticeIn;
    forall j | 0 <= j < |lines| ensures '\n' !in lines[j] { RenderedLine(events[items[j]]); }
    TranscriptOfSingles(lines, stored, torn, error);
    var notice := NoticeIn(torn, error);
    assert (lines[..stored] + notice + lines[stored..])[stored..stored + |notice|] == notice;
  }

  /** The same for any single-line entries. */
  lemma TranscriptOfSingles(lines: seq<string>, stored: nat, torn: string, error: Option<string>)
    requires forall j :: 0 <= j < |lines| ==> '\n' !in lines[j]
    requires stored <= |lines| && (torn != "" ==> stored < |lines| && torn <= lines[stored])
    ensures Lines(StoredText(lines, stored, torn, error)) == lines[..stored] + NoticeIn(torn, error) + lines[stored..]
  {
    hide Lines, StoredText, EntryLines, ErrorLine;
    TranscriptLines(lines, stored, torn, error);
    SingleEntryLines(lines);
    if error.Some? {
      SingleEntryLines(lines[..stored]);
      SingleEntryLines(lines[stored..]);
      PrefixHasNoBreak(torn, if torn != "" then lines[stored] else "");
      NoticeLines(error.value);
      TornRunsInto(torn, ErrorLine(error.value));
    }
  }

  lemma RenderedLine(e: Event)
    requires e.Logged? && '\n' !in e.line
    ensures '\n' !in Render(e)
  {
  }

  ghost predicate SingleLines(events: seq<Event>) {
    forall i :: 0 <= i < |events| && events[i].Logged? ==> '\n' !in events[i].line
  }

  /** Each Info and Debug entry is a line of the transcript, exactly once and in the order recorded, wherever a
      storage failure struck. */
  lemma TranscriptHasEachOnce(
      events: seq<Event>, items: seq<nat>, pending: Option<Pending>, last: nat,
      lines: seq<string>, stored: nat, torn: string, error: Option<string>)
    requires Tracks(events, items, pending, last)
    requires Rendered(events, items, lines) && SingleLines(events)
    requires stored <= |lines| && (torn != "" ==> stored < |lines| && torn <= lines[stored])
    ensures var text, notice := Lines(StoredText(lines, stored, torn, error)), NoticeIn(torn, error);
            && |text| == |items| + |notice|
            && text[stored..stored + |notice|] == notice
            && (forall i :: 0 <= i < |events| && IsDiagnostic(events[i]) ==>
                  exists j :: 0 <= j < |items| && items[j] == i
                      && text[LineNumber(j, stored, notice)] == Render(events[i]))
            && DiagnosticsIncrease(events, items)
            && (forall j, k :: 0 <= j < k < |items| ==> LineNumber(j, stored, notice) < LineNumber(k, stored, notice))
  {
    hide Lines, StoredText, Tracks, Rendered, SingleLines, NoticeIn;
    var text, notice := Lines(StoredText(lines, stored, torn, error)), NoticeIn(torn, error);
    TranscriptIsArchive(events, items, lines, stored, torn, error);
    DiagnosticsExactlyOnce(events, items, pending, last);
    forall i | 0 <= i < |events| && IsDiagnostic(events[i])
      ensures exists j :: 0 <= j < |items| && items[j] == i && text[LineNumber(j, stored, notice)] == Render(events[i])
    {
      assert i in items;
      var j :| 0 <= j < |items| && items[j] == i;
      assert text[LineNumber(j, stored, notice)] == Render(events[items[j]]);
    }
  }

  // ---------------------------------------------------------------- one event

  function With(items: seq<nat>, keep: bool, n: nat): seq<nat> { if keep then items + [n] else items }

  lemma NextInOrder(events: seq<Event>, items: seq<nat>, e: Event, keep: bool)
    requires InOrder(events, items)
    requires keep ==> e.Logged?
    requires IsDiagnostic(e) ==> keep
    ensures InOrder(events + [e], With(items, keep, |events|))
  {
    var events', n := events + [e], |events|;
    assert events'[n] == e && forall k :: 0 <= k < n ==> events'[k] == events[k];
    ArchivedDiagnosticsStable(events, items, e);
    PositionsSnoc(events, e);
    if keep { ArchivedSnoc(events', items, n); }
  }

  /** Updates archived before an event stay archived after it. */
  lemma NextArchived(events: seq<Event>, items: seq<nat>, e: Event, keep: bool, i: nat)
    requires i < |events| && Newest(events + [e], i)
    requires Newest(events, i) ==> Archived(events, items, i)
    ensures Archived(events + [e], With(items, keep, |events|), i)
  {
    NewestShrinks(events, e, i);
    ArchivedGrows(events, items, e, if keep then [|events|] else [], i);
    assert items + [] == items;
  }

  lemma OpenNext(events: seq<Event>, e: Event, i: nat)
    ensures Open(events + [e], i) <==> (i == |events| && IsUpdate(e)) || (Open(events, i) && IsDebug(e))
  {
    var events', n := events + [e], |events|;
    assert events'[n] == e && forall k :: 0 <= k < n ==> events'[k] == events[k];
  }

  /** An ordinary line, or an explicit finish, ends every transfer. */
  lemma BreakStep(events: seq<Event>, items: seq<nat>, e: Event)
    requires InOrder(events, items) && AllArchived(events, items)
    requires e.Finished? || e.kind.Info?
    ensures Tracks(events + [e], With(items, e.Logged?, |events|), None, 0)
  {
    NextInOrder(events, items, e, e.Logged?);
    forall i | 0 <= i < |events| + 1 && Newest(events + [e], i)
        ensures Archived(events + [e], With(items, e.Logged?, |events|), i) {
      assert (events + [e])[|events|] == e;
      NextArchived(events, items, e, e.Logged?, i);
    }
    forall i: nat ensures !Open(events + [e], i) { OpenNext(events, e, i); }
  }

  /** The first update of a transfer, once the previous one is finished. */
  lemma StartStep(events: seq<Event>, items: seq<nat>, e: Event)
    requires InOrder(events, items) && AllArchived(events, items)
    requires IsUpdate(e)
    ensures Tracks(events + [e], items, Some(Pending(e.kind.key, e.line, None, e.now)), |events|)
  {
    NextInOrder(events, items, e, false);
    forall i | 0 <= i < |events| && Newest(events + [e], i) ensures Archived(events + [e], items, i) {
      NextArchived(events, items, e, false, i);
    }
    OpenNext(events, e, |events|);
    assert (events + [e])[|events|] == e;
    assert |events| !in items;
  }

  /** A debug line joins the archive and leaves the pending row alone. */
  lemma DebugStep(events: seq<Event>, items: seq<nat>, pending: Option<Pending>, last: nat, e: Event)
    requires Tracks(events, items, pending, last) && IsDebug(e)
    ensures Tracks(events + [e], items + [|events|], pending, last)
  {
    var events', items' := events + [e], items + [|events|];
    NextInOrder(events, items, e, true);
    assert events'[|events|] == e;
    forall i | 0 <= i < |events'| && Newest(events', i)
        ensures Archived(events', items', i) || (pending.Some? && i == last) {
      NewestShrinks(events, e, i);
      if !(pending.Some? && i == last) { NextArchived(events, items, e, true, i); }
    }
    forall i: nat ensures Open(events', i) <==> Open(events, i) { OpenNext(events, e, i); }
    if pending.Some? && pending.value.lastSaved.Some? {
      var j :| 0 <= j < |items| && SameTransfer(events, items[j], last)
          && events[items[j]].line == pending.value.lastSaved.value;
      TransferStable(events, e, items[j], last);
      assert items'[j] == items[j];
    }
  }

  /** A further update of the pending transfer replaces the row, and is archived when a sample is due. */
  lemma ContinueStep(events: seq<Event>, items: seq<nat>, p: Pending, last: nat, e: Event, sample: bool)
    requires Tracks(events, items, Some(p), last) && IsUpdate(e) && e.kind == Progress(p.key)
    ensures Tracks(events + [e], With(items, sample, |events|),
                   Some(Pending(p.key, e.line, if sample then Some(e.line) else p.lastSaved,
                       if sample then e.now else p.savedAt)), |events|)
  {
    var events', items', n := events + [e], With(items, sample, |events|), |events|;
    NextInOrder(events, items, e, sample);
    assert events'[n] == e;
    forall i | 0 <= i < n && Newest(events', i) ensures Archived(events', items', i) {
      NewestShrinks(events, e, i);
      NextArchived(events, items, e, sample, i);
    }
    OpenNext(events, e, n);
    if sample {
      assert SameTransfer(events', n, n) && items'[|items|] == n;
    } else {
      assert n !in items;
      if p.lastSaved.Some? { SampleCarries(events, items, p.lastSaved.value, last, e); }
    }
  }

  /** The last sample of a transfer is a sample of its continuation. */
  lemma SampleCarries(events: seq<Event>, items: seq<nat>, text: string, last: nat, e: Event)
    requires Open(events, last) && IsUpdate(e) && e.kind == events[last].kind
    requires exists j :: 0 <= j < |items| && SameTransfer(events, items[j], last) && events[items[j]].line == text
    ensures exists j :: 0 <= j < |items| && SameTransfer(events + [e], items[j], |events|)
              && (events + [e])[items[j]].line == text
  {
    var events', n := events + [e], |events|;
    var j :| 0 <= j < |items| && SameTransfer(events, items[j], last) && events[items[j]].line == text;
    assert events'[n] == e && forall k :: 0 <= k < n ==> events'[k] == events[k];
    assert SameTransfer(events', items[j], n);
  }

  // ---------------------------------------------------------------- the history

  /** The archived lines are the renderings of the archived positions. */
  ghost predicate Rendered(events: seq<Event>, items: seq<nat>, lines: seq<string>) {
    && |lines| == |items|
    && forall j :: 0 <= j < |items| ==>
        items[j] < |events| && events[items[j]].Logged? && lines[j] == Render(events[items[j]])
  }

  /** What a mirror is seeded with: the transcript without its trailing line breaks, and one break. */
  function Seed(text: string): string {
    if text == "" then "" else TrimEnd(text) + "\n"
  }

  /** A last line a seed keeps: not blank, and with no break of its own at the end. */
  predicate EndsInText(line: string) { line != "" && line[|line| - 1] != '\n' }

  /** Exactly when seeding a mirror with a transcript loses nothing. With storage sound: the archive is empty, one
      blank line, or ends in text. After a storage failure: the entries since it, which stand after the notice, end in
      text; or there are none, and the reason has no break at its end. */
  predicate SeedKeeps(lines: seq<string>, stored: nat, error: Option<string>)
    requires stored <= |lines|
  {
    match error
    case None => lines == [] || lines == [""] || EndsInText(lines[|lines| - 1])
    case Some(reason) => if stored < |lines| then EndsInText(lines[|lines| - 1]) else reason == "" || EndsInText(reason)
  }

  lemma SeedKeepsExactly(lines: seq<string>, stored: nat, torn: string, error: Option<string>)
    requires stored <= |lines|
    ensures Seed(StoredText(lines, stored, torn, error)) == StoredText(lines, stored, torn, error) <==>
              SeedKeeps(lines, stored, error)
  {
    match error
    case None => SeedKeepsBody(lines);
    case Some(reason) =>
      var head := Body(lines[..stored]) + torn;
      if stored < |lines| {
        var tail := lines[stored..];
        var n := |tail| - 1;
        var open := head + ErrorLine(reason) + Body(tail[..n]);
        assert Body(tail) == Body(tail[..n]) + tail[n] + "\n";
        assert StoredText(lines, stored, torn, error) == open + tail[n] + "\n";
        assert tail[n] == lines[|lines| - 1];
        NoticeBeforeCloses(head, reason, tail[..n]);
        SeedKeepsLast(open, tail[n]);
      } else {
        assert lines[stored..] == [];
        assert StoredText(lines, stored, torn, error) == head + Notice(reason) + "\n";
        SeedKeepsNotice(head, reason);
      }
  }

  lemma NoticeBeforeCloses(head: string, reason: string, tail: seq<string>)
    ensures var text := head + ErrorLine(reason) + Body(tail); Closed(text) && text != ""
  {
    BodyLines(tail);
    ErrorLineCloses(reason);
  }

  /** A closed text and one more line: the seed keeps it exactly when the line ends in text. */
  lemma SeedKeepsLast(open: string, line: string)
    requires Closed(open) && open != ""
    ensures Seed(open + line + "\n") == open + line + "\n" <==> EndsInText(line)
  {
    var body := open + line;
    var text := body + "\n";
    assert text[..|text| - 1] == body;
    assert TrimEnd(text) == TrimEnd(body);
    if line == "" {
      assert body == open;
    } else {
      assert body[|body| - 1] == line[|line| - 1];
    }
  }

  lemma SeedKeepsNotice(head: string, reason: string)
    ensures var text := head + Notice(reason) + "\n"; Seed(text) == text <==> reason == "" || EndsInText(reason)
  {
    var body := head + Notice(reason);
    var text := body + "\n";
    assert text[..|text| - 1] == body;
    assert TrimEnd(text) == TrimEnd(body);
    var prefix := "[Log] Transcript storage error: ";
    assert body[|body| - 1] == if reason == "" then prefix[|prefix| - 1] else reason[|reason| - 1];
  }

  lemma SeedKeepsBody(lines: seq<string>)
    ensures Seed(Body(lines)) == Body(lines) <==> lines == [] || lines == [""] || EndsInText(lines[|lines| - 1])
  {
    if lines != [] {
      hide Seed, EndsInText;
      var n := |lines| - 1;
      assert Body(lines) == Body(lines[..n]) + lines[n] + "\n";
      BodySome(lines[..n]);
      if n > 0 {
        SeedKeepsLast(Body(lines[..n]), lines[n]);
      } else {
        SeedKeepsOne(lines[0]);
        assert lines == [lines[0]];
      }
    }
  }

  lemma SeedKeepsOne(line: string)
    ensures Seed(Body([line])) == Body([line]) <==> line == "" || EndsInText(line)
  {
    assert [line][..0] == [];
    assert Body([line]) == line + "\n";
    OneLineSeed(line);
  }

  lemma BodySome(lines: seq<string>)
    ensures Closed(Body(lines)) && (Body(lines) == "" <==> lines == [])
  {
    BodyLines(lines);
    if lines != [] { assert |Body(lines)| > 0; }
  }

  lemma OneLineSeed(line: string)
    ensures Seed(line + "\n") == line + "\n" <==> line == "" || EndsInText(line)
  {
    var text := line + "\n";
    assert text[..|text| - 1] == line;
    assert TrimEnd(text) == TrimEnd(line);
  }

  /** A concrete archive whose blank last line a mirror loses. */
  lemma BlankLastLineLost()
    ensures Body(["a", ""]) == "a\n\n" && Seed(Body(["a", ""])) == "a\n"
  {
    assert ["a", ""][..1] == ["a"] && ["a"][..0] == [];
    assert Body(["a"]) == "a\n";
    var text := "a\n\n";
    assert text[..2] == "a\n" && "a\n"[..1] == "a";
    assert TrimEnd(text) == TrimEnd("a\n") == TrimEnd("a") == "a";
  }

  lemma RenderedNext(events: seq<Event>, items: seq<nat>, lines: seq<string>, e: Event)
    requires Rendered(events, items, lines)
    ensures Rendered(events + [e], items, lines)
    ensures e.Logged? ==> Rendered(events + [e], items + [|events|], lines + [Render(e)])
  {
    assert (events + [e])[|events|] == e;
  }

  lemma RenderedPosition(events: seq<Event>, items: seq<nat>, lines: seq<string>, n: nat)
    requires Rendered(events, items, lines) && n < |events| && events[n].Logged?
    ensures Rendered(events, items + [n], lines + [Render(events[n])])
  {
  }

  /** What a healthy mirror holds: what its file held before, the seed, and every entry archived since the seeding. */
  ghost predicate MirrorHolds(mirror: Option<string>, past: string, seed: string, mark: nat, lines: seq<string>) {
    && mark <= |lines|
    && (mirror.Some? ==> mirror.value == past + seed + Body(lines[mark..]))
  }

  lemma MirrorStarts(past: string, seed: string, lines: seq<string>)
    ensures MirrorHolds(Some(past + seed), past, seed, |lines|, lines)
  {
    assert lines[|lines|..] == [];
    assert past + seed + "" == past + seed;
  }

  lemma MirrorNext(
      mirror: Option<string>, past: string, seed: string, mark: nat, lines: seq<string>, line: string,
      mirror': Option<string>)
    requires MirrorHolds(mirror, past, seed, mark, lines)
    requires mirror'.Some? ==> mirror.Some? && mirror'.value == mirror.value + line + "\n"
    ensures MirrorHolds(mirror', past, seed, mark, lines + [line])
  {
    AppendedInMemory(lines, mark, line);
    if mirror'.Some? {
      var before := past + seed;
      assert before + Body(lines[mark..]) + line + "\n" == before + (Body(lines[mark..]) + line + "\n");
    }
  }

  lemma {:induction false} BodyAppend(a: seq<string>, b: seq<string>)
    ensures Body(a + b) == Body(a) + Body(b)
  {
    if b == [] {
      assert a + b == a;
    } else {
      var n := |b| - 1;
      assert (a + b)[..|a + b| - 1] == a + b[..n];
      BodyAppend(a, b[..n]);
    }
  }

  lemma TranscriptGrows(lines: seq<string>, mark: nat, stored: nat, torn: string, error: Option<string>)
    requires stored <= mark <= |lines|
    ensures StoredText(lines[..mark], stored, torn, error) + Body(lines[mark..])
              == StoredText(lines, stored, torn, error)
  {
    hide Body, ErrorLine;
    var earlier, later := lines[..mark], lines[mark..];
    assert earlier + later == lines;
    BodyAppend(earlier, later);
    if error.Some? {
      assert earlier[..stored] == lines[..stored] && lines[stored..] == earlier[stored..] + later;
      BodyAppend(earlier[stored..], later);
      var head := Body(lines[..stored]) + torn + ErrorLine(error.value);
      assert head + Body(earlier[stored..]) + Body(later) == head + (Body(earlier[stored..]) + Body(later));
    }
  }

  /** Exactly when a mirror, started with `mark` entries archived, repeats the whole transcript, notice included: when
      its seed lost nothing. */
  lemma MirrorIsWholeExactly(
      mirror: Option<string>, past: string, mark: nat, lines: seq<string>, stored: nat, torn: string,
      error: Option<string>)
    requires stored <= mark <= |lines| && mirror.Some?
    requires MirrorHolds(mirror, past, Seed(StoredText(lines[..mark], stored, torn, error)), mark, lines)
    ensures mirror == Some(past + StoredText(lines, stored, torn, error)) <==> SeedKeeps(lines[..mark], stored, error)
  {
    hide Body, Seed, StoredText, SeedKeeps;
    var text, tail := StoredText(lines[..mark], stored, torn, error), Body(lines[mark..]);
    SeedKeepsExactly(lines[..mark], stored, torn, error);
    TranscriptGrows(lines, mark, stored, torn, error);
    assert past + (text + tail) == past + text + tail;
    SameAfter(past, Seed(text), text, tail);
  }

  lemma SameAfter(past: string, a: string, b: string, tail: string)
    ensures past + a + tail == past + b + tail <==> a == b
  {
    var x, y := past + a + tail, past + b + tail;
    if x == y {
      assert |a| == |b|;
      assert a == x[|past|..|past| + |a|] && b == y[|past|..|past| + |b|];
    }
  }

  class History {
    const archive: Archive
    var progress: Option<Pending>
    ghost var events: seq<Event>
    ghost var items: seq<nat>
    ghost var last: nat
    ghost var past: string
    ghost var seed: string
    ghost var mark: nat

    /** `past` is what the mirror file held before it was seeded with `seed`, when the archive had `mark` lines. */
    ghost predicate Valid()
      reads this, archive
    {
      && archive.Valid()
      && Tracks(events, items, progress, last)
      && Rendered(events, items, archive.lines)
      && MirrorHolds(archive.mirror, past, seed, mark, archive.lines)
    }

    constructor ()
      ensures Valid() && fresh(archive) && events == [] && items == [] && archive.lines == [] && archive.mirror.None?
                && progress.None?
      ensures seed == "" && mark == 0
    {
      archive := new Archive();
      progress, events, items, last, past, seed, mark := None, [], [], 0, "", "", 0;
    }

    /** Append a line to the archive and its mirror. */
    method Keep(line: string)
      requires archive.Valid() && MirrorHolds(archive.mirror, past, seed, mark, archive.lines)
      modifies archive
      ensures archive.Valid() && MirrorHolds(archive.mirror, past, seed, mark, archive.lines)
      ensures archive.lines == old(archive.lines) + [line]
      ensures archive.mirror.Some? ==> old(archive.mirror).Some?
    {
      hide Body, MirrorHolds;
      ghost var mirror, lines := archive.mirror, archive.lines;
      archive.Append(line);
      MirrorNext(mirror, past, seed, mark, lines, line, archive.mirror);
    }

    /** Archive the pending row unless its present text already is. */
    method FlushPending()
      requires Valid()
      modifies archive, `items, `progress
      ensures archive.Valid() && progress.None? && MirrorHolds(archive.mirror, past, seed, mark, archive.lines)
      ensures items == Flushed(old(items), old(progress), last)
      ensures archive.lines == old(archive.lines) + (if Unsaved(old(progress)) then [old(progress).value.line] else [])
      ensures Rendered(events, items, archive.lines)
      ensures InOrder(events, items) && AllArchived(events, items)
      ensures archive.mirror.Some? ==> old(archive.mirror).Some?
    {
      hide Body, MirrorHolds, Rendered, AllArchived, InOrder, Tracks;
      FlushTracks(events, items, progress, last);
      if progress.Some? && progress.value.lastSaved != Some(progress.value.line) {
        PendingIsOpen(events, items, progress, last);
        RenderedPosition(events, items, archive.lines, last);
        Keep(progress.value.line);
        items := items + [last];
      }
      progress := None;
    }

    /** Record one entry; only an ordinary line is returned for the visible log. */
    method Record(line: string, kind: Kind, now: nat) returns (visible: Option<string>)
      requires Valid()
      modifies this, archive
      ensures Valid() && events == old(events) + [Logged(line, kind, now)]
      ensures visible == if kind.Info? then Some(line) else None
      ensures past == old(past) && seed == old(seed) && mark == old(mark)
      // A row of the same transfer is sampled exactly when the interval has passed; a new row never at once.
      ensures kind.Progress? && Continues(old(progress), kind.key) ==>
                items == With(old(items), now >= old(progress).value.savedAt + SAMPLE_INTERVAL, |old(events)|)
      ensures kind.Progress? && !Continues(old(progress), kind.key) ==>
                items == Flushed(old(items), old(progress), old(last))
    {
      hide Body, MirrorHolds, Rendered, AllArchived, InOrder, Tracks;
      match kind {
        case Progress(key) =>
          if progress.None? || progress.value.key != key {
            StartTransfer(line, key, now);
          } else {
            ContinueTransfer(line, key, now);
          }
          visible := None;
        case Debug =>
          ghost var e := Logged(line, kind, now);
          DebugStep(events, items, progress, last, e);
          RenderedNext(events, items, archive.lines, e);
          Keep("[Debug] " + line);
          events, items := events + [e], items + [|events|];
          visible := None;
        case Info =>
          ghost var e := Logged(line, kind, now);
          FlushPending();
          BreakStep(events, items, e);
          RenderedNext(events, items, archive.lines, e);
          Keep(line);
          events, items, last := events + [e], items + [|events|], 0;
          visible := Some(line);
      }
    }

    method StartTransfer(line: string, key: string, now: nat)
      requires Valid() && !Continues(progress, key)
      modifies this, archive
      ensures Valid() && events == old(events) + [Logged(line, Progress(key), now)]
      ensures items == Flushed(old(items), old(progress), old(last))
      ensures past == old(past) && seed == old(seed) && mark == old(mark)
    {
      hide Body, MirrorHolds, Rendered, AllArchived, InOrder, Tracks;
      ghost var e := Logged(line, Progress(key), now);
      FlushPending();
      StartStep(events, items, e);
      RenderedNext(events, items, archive.lines, e);
      progress := Some(Pending(key, line, None, now));
      events, last := events + [e], |events|;
    }

    method ContinueTransfer(line: string, key: string, now: nat)
      requires Valid() && Continues(progress, key)
      modifies this, archive
      ensures Valid() && events == old(events) + [Logged(line, Progress(key), now)]
      ensures items == With(old(items), now >= old(progress).value.savedAt + SAMPLE_INTERVAL, |old(events)|)
      ensures past == old(past) && seed == old(seed) && mark == old(mark)
    {
      hide Body, MirrorHolds, Rendered, AllArchived, InOrder, Tracks;
      ghost var e := Logged(line, Progress(key), now);
      var due := now >= progress.value.savedAt + SAMPLE_INTERVAL;
      ContinueStep(events, items, progress.value, last, e, due);
      RenderedNext(events, items, archive.lines, e);
      if due {
        Keep(line);
        items := items + [|events|];
        progress := Some(Pending(key, line, Some(line), now));
      } else {
        progress := Some(Pending(key, line, progress.value.lastSaved, progress.value.savedAt));
      }
      events, last := events + [e], |events|;
    }

    method FinishProgress()
      requires Valid()
      modifies this, archive
      ensures Valid() && events == old(events) + [Finished] && progress.None?
      ensures archive.lines == old(archive.lines) + (if Unsaved(old(progress)) then [old(progress).value.line] else [])
      ensures past == old(past) && seed == old(seed) && mark == old(mark)
      ensures archive.mirror.Some? ==> old(archive.mirror).Some?
    {
      hide Body, MirrorHolds, Rendered, AllArchived, InOrder, Tracks;
      FlushPending();
      BreakStep(events, items, Finished);
      RenderedNext(events, items, archive.lines, Finished);
      events, last := events + [Finished], 0;
    }

    /** The transcript for display or export: the archive and, if not yet archived, the pending row. It changes
        nothing that is recorded, so a later call shows the same. */
    method Text() returns (text: string, ghost complete: bool)
      requires Valid()
      modifies archive
      ensures Valid() && archive.lines == old(archive.lines) && archive.mirror == old(archive.mirror)
      ensures complete ==>
                archive.error == old(archive.error) && archive.stored == old(archive.stored)
                && archive.torn == old(archive.torn)
      ensures complete ==> text == Shown(archive.lines, archive.stored, archive.torn, archive.error, progress)
      // Line by line: the transcript and an unsaved row, without blank lines at the end.
      ensures complete ==>
                Lines(text) == DropBlankEnd(Lines(StoredText(archive.lines, archive.stored, archive.torn,
                archive.error))
                                                       + (if Unsaved(progress) then Lines(progress.value.line
                                                           + "\n") else []))
    {
      hide Body, MirrorHolds, Rendered, AllArchived, InOrder, Tracks, TrimEnd, StoredText, Lines, DropBlankEnd;
      text, complete := archive.Text();
      if progress.Some? && progress.value.lastSaved != Some(progress.value.line) {
        text := text + progress.value.line + "\n";
      }
      text := TrimEnd(text);
      if complete { ShownLines(archive.lines, archive.stored, archive.torn, archive.error, progress); }
    }

    /** Start mirroring into a file that holds `existing`, seeded with the transcript as it reads now: `archived`,
        which is the whole of it unless reading it failed, and then the part read and the notice. */
    method PersistTo(existing: string) returns (ok: bool, ghost archived: string, ghost complete: bool)
      requires Valid()
      modifies this, archive
      ensures Valid() && events == old(events) && archive.lines == old(archive.lines) && progress == old(progress)
      ensures !ok ==>
                archive.mirror == old(archive.mirror) && past == old(past) && seed == old(seed) && mark == old(mark)
      ensures ok ==> archive.mirror == Some(existing + Seed(archived))
                     && past == existing && seed == Seed(archived) && mark == |archive.lines|
      ensures ok && complete ==> archive.error == old(archive.error)
                                 && archived == StoredText(archive.lines, archive.stored, archive.torn, archive.error)
      ensures ok && !complete ==> archive.error.Some?
                                  && exists part :: part <= Body(archive.lines[..archive.stored]) + archive.torn
                                                    && archived == part + ErrorLine(archive.error.value)
                                                        + Body(archive.lines[archive.stored..])
    {
      hide Rendered, AllArchived, InOrder, Tracks, TrimEnd, Seed, Body, MirrorHolds, ErrorLine, StoredText;
      archived, complete := "", true;
      var created: bool, written: bool := *, *;
      if !created {
        return false, archived, complete;
      }
      var text, whole := archive.Text();
      archived, complete := text, whole;
      if text != "" && !written {
        return false, archived, complete;
      }
      archive.mirror := Some(existing + Seed(text));
      past, seed, mark := existing, Seed(text), |archive.lines|;
      MirrorStarts(existing, seed, archive.lines);
      return true, archived, complete;
    }

    /** Hand the mirror to a fresh history: clearing the log does not end the transcript on disk. */
    method Cleared() returns (next: History)
      requires Valid()
      modifies this, archive
      ensures Valid() && progress.None? && archive.mirror.None?
      ensures archive.lines == old(archive.lines) + (if Unsaved(old(progress)) then [old(progress).value.line] else [])
      ensures fresh(next) && fresh(next.archive) && next.Valid() && next.events == [] && next.progress.None?
      // What the mirror holds is what it held and was archived since; the fresh history goes on from there.
      ensures next.past == old(past) + old(seed) + Body(archive.lines[old(mark)..]) && next.seed == "" && next.mark == 0
      ensures next.archive.mirror.Some? ==> old(archive.mirror).Some? && next.archive.mirror.value == next.past
    {
      hide Body, Rendered, AllArchived, InOrder, Tracks;
      FinishProgress();
      next := new History();
      MirrorHandedOver(archive.mirror, past, seed, mark, archive.lines);
      next.past := past + seed + Body(archive.lines[mark..]);
      next.archive.mirror := archive.mirror;
      archive.mirror := None;
    }
  }

  lemma MirrorHandedOver(mirror: Option<string>, past: string, seed: string, mark: nat, lines: seq<string>)
    requires MirrorHolds(mirror, past, seed, mark, lines)
    ensures MirrorHolds(mirror, past + seed + Body(lines[mark..]), "", 0, [])
  {
    var whole := past + seed + Body(lines[mark..]);
    assert whole + "" + "" == whole;
    var none: seq<string> := [];
    assert none[0..] == [];
  }

  /** What is shown: the transcript, then the pending row if the archive lacks it, without trailing breaks. */
  ghost function Shown(
      lines: seq<string>, stored: nat, torn: string, error: Option<string>, pending: Option<Pending>): string
    requires stored <= |lines|
  {
    var text := StoredText(lines, stored, torn, error);
    TrimEnd(if Unsaved(pending) then text + pending.value.line + "\n" else text)
  }

  lemma ShownLines(lines: seq<string>, stored: nat, torn: string, error: Option<string>, pending: Option<Pending>)
    requires stored <= |lines|
    ensures Lines(Shown(lines, stored, torn, error, pending))
         == DropBlankEnd(Lines(StoredText(lines, stored, torn, error))
             + (if Unsaved(pending) then Lines(pending.value.line + "\n") else []))
  {
    hide Lines, DropBlankEnd, TrimEnd, StoredText;
    var text := StoredText(lines, stored, torn, error);
    TranscriptLines(lines, stored, torn, error);
    if Unsaved(pending) {
      assert text + pending.value.line + "\n" == text + (pending.value.line + "\n");
      LinesAppend(text, pending.value.line + "\n");
    } else {
      assert Lines(text) + [] == Lines(text);
    }
    TrimmedLines(if Unsaved(pending) then text + pending.value.line + "\n" else text);
  }

  predicate Continues(pending: Option<Pending>, key: string) {
    pending.Some? && pending.value.key == key
  }

  lemma PendingIsOpen(events: seq<Event>, items: seq<nat>, pending: Option<Pending>, last: nat)
    requires Tracks(events, items, pending, last) && pending.Some?
    ensures last < |events| && events[last].Logged? && Render(events[last]) == pending.value.line
  {
  }
}
