/**
 The bounded queue between workers and the log view.

 Adjacent updates of one transfer replace each other; when the queue is full the oldest progress update
 is dropped before any diagnostic. The specification is over everything pushed since the last drain.
 */
module LiveSink {
  datatype Kind = Info | Debug | Progress(key: string)

  datatype Entry = Entry(line: string, kind: Kind)

  const MAX_BUFFERED: nat := 4096

  // ---------------------------------------------------------------- the specification over a push history

  /** `next` replaces `last`: both are progress of the same transfer. */
  predicate Replaces(next: Entry, last: Entry) {
    next.kind.Progress? && last.kind == next.kind
  }

  /** Everything pushed, with each adjacent run of one transfer's updates reduced to its newest. */
  function Coalesced(pushed: seq<Entry>): (c: seq<Entry>)
    ensures pushed != [] ==> c != [] && c[|c| - 1] == pushed[|pushed| - 1]
    ensures |c| <= |pushed|
  {
    if pushed == [] then []
    else
      var n := |pushed| - 1;
      var c := Coalesced(pushed[..n]);
      if n > 0 && Replaces(pushed[n], pushed[n - 1]) then c[..|c| - 1] + [pushed[n]] else c + [pushed[n]]
  }

  /** The entries that are, or are not, progress, in order. */
  function Select(s: seq<Entry>, progress: bool): seq<Entry> {
    if s == [] then []
    else Select(s[..|s| - 1], progress) + (if s[|s| - 1].kind.Progress? == progress then [s[|s| - 1]] else [])
  }

  predicate IsSuffix(a: seq<Entry>, b: seq<Entry>) {
    |a| <= |b| && a == b[|b| - |a|..]
  }

  /** `a` is what remains of `b` after dropping entries: the order is kept. */
  ghost predicate Remains(a: seq<Entry>, b: seq<Entry>) {
    || a == []
    || (b != []
        && (|| (a[|a| - 1] == b[|b| - 1] && Remains(a[..|a| - 1], b[..|b| - 1]))
            || Remains(a, b[..|b| - 1])))
  }

  /** No two neighbours are updates of one transfer. */
  predicate NoAdjacentUpdates(s: seq<Entry>) {
    forall i :: 0 <= i < |s| - 1 ==> !Replaces(s[i + 1], s[i])
  }

  function Min(a: nat, b: nat): nat { if a < b then a else b }

  /** What the queue must hold after these pushes, for any capacity. */
  ghost predicate Holds(buf: seq<Entry>, pushed: seq<Entry>, max: nat)
    requires max >= 1
  {
    && |buf| == Min(|Coalesced(pushed)|, max)
    && NoAdjacentUpdates(buf)
    && (pushed != [] ==> buf != [] && buf[|buf| - 1] == pushed[|pushed| - 1])
    && Remains(buf, Coalesced(pushed))
    && IsSuffix(Select(buf, true), Select(Coalesced(pushed), true))
    && IsSuffix(Select(buf, false), Select(pushed, false))
    && |Select(buf, false)| >= Min(|Select(pushed, false)|, max - 1)
  }

  // ---------------------------------------------------------------- lemmas

  lemma SelectSnoc(s: seq<Entry>, e: Entry, progress: bool)
    ensures e.kind.Progress? == progress ==> Select(s + [e], progress) == Select(s, progress) + [e]
    ensures e.kind.Progress? != progress ==> Select(s + [e], progress) == Select(s, progress)
  {
    assert (s + [e])[..|s|] == s;
  }

  lemma SelectInit(s: seq<Entry>, progress: bool)
    requires s != []
    ensures s[|s| - 1].kind.Progress? == progress ==>
              Select(s, progress) == Select(s[..|s| - 1], progress) + [s[|s| - 1]]
    ensures s[|s| - 1].kind.Progress? != progress ==> Select(s, progress) == Select(s[..|s| - 1], progress)
  {
  }

  /** Dropping entry `i` drops it from its own selection only. */
  lemma {:induction false} SelectDrop(s: seq<Entry>, i: nat, progress: bool)
    requires i < |s|
    ensures s[i].kind.Progress? != progress ==> Select(s[..i] + s[i + 1..], progress) == Select(s, progress)
    ensures s[i].kind.Progress? == progress && Select(s[..i], progress) == [] ==>
              Select(s, progress) != [] && Select(s[..i] + s[i + 1..], progress) == Select(s, progress)[1..]
  {
    hide Select;
    var n := |s| - 1;
    var rest, shorter := s[..i] + s[i + 1..], s[..n];
    SelectInit(s, progress);
    if i == n {
      assert rest == shorter;
    } else {
      var dropped := shorter[..i] + shorter[i + 1..];
      SelectDrop(shorter, i, progress);
      assert shorter[..i] == s[..i];
      assert rest == dropped + [s[n]];
      SelectSnoc(dropped, s[n], progress);
    }
  }

  lemma {:induction false} SelectNone(s: seq<Entry>, progress: bool)
    ensures Select(s, progress) == [] <==> forall i :: 0 <= i < |s| ==> s[i].kind.Progress? != progress
    ensures |Select(s, progress)| <= |s|
    ensures |Select(s, progress)| == |s| <==> forall i :: 0 <= i < |s| ==> s[i].kind.Progress? == progress
  {
    if s != [] {
      var n := |s| - 1;
      SelectNone(s[..n], progress);
      assert forall i :: 0 <= i < n ==> s[..n][i] == s[i];
    }
  }

  lemma {:induction false} RemainsDrop(a: seq<Entry>, b: seq<Entry>, i: nat)
    requires i < |a| && Remains(a, b)
    ensures Remains(a[..i] + a[i + 1..], b)
    decreases |b|
  {
    var rest := a[..i] + a[i + 1..];
    var n, m := |a| - 1, |b| - 1;
    if a[n] == b[m] && Remains(a[..n], b[..m]) {
      if i == n {
        assert rest == a[..n];
        RemainsWeaken(rest, b);
      } else {
        RemainsDrop(a[..n], b[..m], i);
        assert rest[..|rest| - 1] == a[..n][..i] + a[..n][i + 1..];
      }
    } else {
      RemainsDrop(a, b[..m], i);
    }
  }

  lemma RemainsWeaken(a: seq<Entry>, b: seq<Entry>)
    requires b != [] && Remains(a, b[..|b| - 1])
    ensures Remains(a, b)
  {
  }

  lemma {:induction false} RemainsInit(a: seq<Entry>, b: seq<Entry>)
    requires a != [] && b != [] && Remains(a, b)
    ensures Remains(a[..|a| - 1], b[..|b| - 1])
    decreases |b|
  {
    var n, m := |a| - 1, |b| - 1;
    if !(a[n] == b[m] && Remains(a[..n], b[..m])) {
      RemainsDrop(a, b[..m], n);
      assert a[..n] + a[n + 1..] == a[..n];
    }
  }

  lemma RemainsSnoc(a: seq<Entry>, b: seq<Entry>, e: Entry)
    requires Remains(a, b)
    ensures Remains(a + [e], b + [e])
  {
    assert (a + [e])[..|a|] == a && (b + [e])[..|b|] == b;
  }

  /** Coalescing never touches anything but progress updates. */
  lemma {:induction false} CoalescedDiagnostics(pushed: seq<Entry>)
    ensures Select(Coalesced(pushed), false) == Select(pushed, false)
  {
    if pushed != [] {
      var n := |pushed| - 1;
      var c := Coalesced(pushed[..n]);
      CoalescedDiagnostics(pushed[..n]);
      if n > 0 && Replaces(pushed[n], pushed[n - 1]) {
        SelectSnoc(c[..|c| - 1], pushed[n], false);
      } else {
        SelectSnoc(c, pushed[n], false);
      }
    }
  }

  // ---------------------------------------------------------------- one push

  lemma CoalescedSnoc(pushed: seq<Entry>, e: Entry)
    ensures var c := Coalesced(pushed);
            Coalesced(pushed + [e]) == if pushed != []
                && Replaces(e, pushed[|pushed| - 1]) then c[..|c| - 1] + [e] else c + [e]
  {
    assert (pushed + [e])[..|pushed|] == pushed;
  }

  /** Replacing the newest entry of the queue is replacing the newest entry of the coalesced history. */
  lemma ReplaceKeeps(buf: seq<Entry>, pushed: seq<Entry>, max: nat, e: Entry)
    requires max >= 1 && Holds(buf, pushed, max)
    requires pushed != [] && Replaces(e, buf[|buf| - 1])
    ensures Holds(buf[|buf| - 1 := e], pushed + [e], max)
  {
    hide Coalesced, Select, Remains, IsSuffix, NoAdjacentUpdates, Replaces;
    var c, buf' := Coalesced(pushed), buf[|buf| - 1 := e];
    ReplaceOrder(buf, pushed, e);
    ReplaceSelections(buf, c, e);
    ReplaceNeighbours(buf, e);
    NotSelected(pushed, e);
  }

  lemma ReplaceOrder(buf: seq<Entry>, pushed: seq<Entry>, e: Entry)
    requires buf != [] && pushed != [] && Remains(buf, Coalesced(pushed))
    requires buf[|buf| - 1] == pushed[|pushed| - 1] && Replaces(e, buf[|buf| - 1])
    ensures var c := Coalesced(pushed);
            && Coalesced(pushed + [e]) == c[..|c| - 1] + [e]
            && Remains(buf[|buf| - 1 := e], Coalesced(pushed + [e]))
  {
    hide Coalesced, Remains, Replaces;
    var n, c := |buf| - 1, Coalesced(pushed);
    CoalescedSnoc(pushed, e);
    RemainsInit(buf, c);
    RemainsSnoc(buf[..n], c[..|c| - 1], e);
    assert buf[n := e] == buf[..n] + [e];
  }

  lemma NotSelected(pushed: seq<Entry>, e: Entry)
    requires pushed != [] && Replaces(e, pushed[|pushed| - 1])
    ensures Select(pushed + [e], false) == Select(pushed, false)
  {
    hide Select;
    SelectSnoc(pushed, e, false);
  }

  lemma ReplaceNeighbours(buf: seq<Entry>, e: Entry)
    requires buf != [] && NoAdjacentUpdates(buf) && Replaces(e, buf[|buf| - 1])
    ensures NoAdjacentUpdates(buf[|buf| - 1 := e])
  {
  }

  lemma ReplaceSelections(buf: seq<Entry>, c: seq<Entry>, e: Entry)
    requires buf != [] && c != [] && buf[|buf| - 1] == c[|c| - 1] && Replaces(e, buf[|buf| - 1])
    requires IsSuffix(Select(buf, true), Select(c, true))
    ensures var history := c[..|c| - 1];
            && IsSuffix(Select(buf[|buf| - 1 := e], true), Select(history + [e], true))
            && Select(buf[|buf| - 1 := e], false) == Select(buf, false)
  {
    assert buf[|buf| - 1 := e] == buf[..|buf| - 1] + [e];
    hide Select, IsSuffix;
    var front, history := buf[..|buf| - 1], c[..|c| - 1];
    SelectInit(buf, true);
    SelectInit(buf, false);
    SelectInit(c, true);
    SelectSnoc(front, e, true);
    SelectSnoc(front, e, false);
    SelectSnoc(history, e, true);
    SuffixInit(Select(front, true), Select(history, true), buf[|buf| - 1]);
    SuffixSnoc(Select(front, true), Select(history, true), e);
  }

  lemma SuffixInit(a: seq<Entry>, b: seq<Entry>, e: Entry)
    requires IsSuffix(a + [e], b + [e])
    ensures IsSuffix(a, b)
  {
    assert (a + [e])[..|a|] == a && (b + [e])[..|b|] == b;
  }

  lemma SuffixSnoc(a: seq<Entry>, b: seq<Entry>, e: Entry)
    requires IsSuffix(a, b)
    ensures IsSuffix(a + [e], b + [e])
  {
  }

  /** Appending to a queue with room. */
  lemma AppendKeeps(buf: seq<Entry>, pushed: seq<Entry>, max: nat, e: Entry)
    requires |buf| < max && Holds(buf, pushed, max)
    requires buf == [] || !Replaces(e, buf[|buf| - 1])
    ensures Holds(buf + [e], pushed + [e], max)
  {
    hide Coalesced, Select, Remains, IsSuffix;
    CoalescedSnoc(pushed, e);
    AppendSelections(buf, pushed, e);
  }

  lemma AppendSelections(buf: seq<Entry>, pushed: seq<Entry>, e: Entry)
    requires Remains(buf, Coalesced(pushed))
    requires IsSuffix(Select(buf, true), Select(Coalesced(pushed), true))
              && IsSuffix(Select(buf, false), Select(pushed, false))
    ensures var c := Coalesced(pushed);
            && Remains(buf + [e], c + [e])
            && IsSuffix(Select(buf + [e], true), Select(c + [e], true))
                && IsSuffix(Select(buf + [e], false), Select(pushed + [e], false))
            && |Select(buf + [e], false)| == |Select(buf, false)| + (if e.kind.Progress? then 0 else 1)
            && |Select(pushed + [e], false)| == |Select(pushed, false)| + (if e.kind.Progress? then 0 else 1)
  {
    var c := Coalesced(pushed);
    hide Coalesced, Select, Remains, IsSuffix;
    RemainsSnoc(buf, c, e);
    SelectSnoc(buf, e, true);
    SelectSnoc(buf, e, false);
    SelectSnoc(c, e, true);
    SelectSnoc(pushed, e, false);
    if e.kind.Progress? {
      SuffixSnoc(Select(buf, true), Select(c, true), e);
    } else {
      SuffixSnoc(Select(buf, false), Select(pushed, false), e);
    }
  }

  /** The evicted entry is the first of its selection and in no other. */
  lemma EvictSelection(buf: seq<Entry>, all: seq<Entry>, i: nat, progress: bool)
    requires i < |buf| && (forall j :: 0 <= j < i ==> !buf[j].kind.Progress?)
    requires buf[i].kind.Progress? || i == 0
    requires IsSuffix(Select(buf, progress), all)
    ensures var rest := buf[..i] + buf[i + 1..];
            && IsSuffix(Select(rest, progress), all)
            && |Select(rest, progress)|
                == |Select(buf, progress)| - (if buf[i].kind.Progress? == progress then 1 else 0)
  {
    hide Select;
    SelectDrop(buf, i, progress);
    SelectNone(buf[..i], progress);
  }

  /** Evicting the first progress update, or the oldest entry when there is none, and appending. */
  lemma EvictKeeps(buf: seq<Entry>, pushed: seq<Entry>, max: nat, e: Entry, i: nat)
    requires max >= 1 && |buf| == max && Holds(buf, pushed, max)
    requires !Replaces(e, buf[|buf| - 1])
    requires i < |buf| && (forall j :: 0 <= j < i ==> !buf[j].kind.Progress?)
    requires buf[i].kind.Progress? || (i == 0 && forall j :: 0 <= j < |buf| ==> !buf[j].kind.Progress?)
    ensures Holds(buf[..i] + buf[i + 1..] + [e], pushed + [e], max)
  {
    hide Coalesced, Select, Remains, IsSuffix, NoAdjacentUpdates;
    var rest := buf[..i] + buf[i + 1..];
    CoalescedSnoc(pushed, e);
    RemainsDrop(buf, Coalesced(pushed), i);
    SelectNone(buf, false);
    EvictSelection(buf, Select(Coalesced(pushed), true), i, true);
    EvictSelection(buf, Select(pushed, false), i, false);
    AppendSelections(rest, pushed, e);
    if !buf[i].kind.Progress? {
      assert |Select(buf, false)| == max;
    }
    EvictedNeighbours(buf, i, e);
  }

  /** Removing the first progress update cannot bring two updates of one transfer together. */
  lemma EvictedNeighbours(buf: seq<Entry>, i: nat, e: Entry)
    requires NoAdjacentUpdates(buf) && i < |buf|
    requires forall j :: 0 <= j < i ==> !buf[j].kind.Progress?
    requires !Replaces(e, buf[|buf| - 1])
    ensures NoAdjacentUpdates(buf[..i] + buf[i + 1..] + [e])
  {
    var rest := buf[..i] + buf[i + 1..];
    var out := rest + [e];
    forall k | 0 <= k < |out| - 1 ensures !Replaces(out[k + 1], out[k]) {
      if k + 1 < |rest| {
        if k + 1 == i {
          assert !out[k].kind.Progress?;
        } else if k >= i {
          assert out[k] == buf[k + 1] && out[k + 1] == buf[k + 2];
        } else {
          assert out[k] == buf[k] && out[k + 1] == buf[k + 1];
        }
      } else if i == |buf| - 1 {
        assert !out[k].kind.Progress?;
      }
    }
  }

  // ---------------------------------------------------------------- the queue

  /** The shared buffer; the capacity is a parameter of the model, `MAX_BUFFERED` in the program. */
  class Sink {
    const max: nat
    var buf: seq<Entry>
    ghost var pushed: seq<Entry>

    ghost predicate Valid()
      reads this
    {
      max >= 1 && Holds(buf, pushed, max)
    }

    constructor (max: nat)
      requires max >= 1
      ensures Valid() && this.max == max && buf == [] && pushed == []
    {
      this.max, buf, pushed := max, [], [];
    }

    method Push(e: Entry)
      requires Valid()
      modifies this
      ensures Valid() && pushed == old(pushed) + [e]
    {
      hide Coalesced, Select, Remains, IsSuffix, NoAdjacentUpdates;
      if e.kind.Progress? && buf != [] && buf[|buf| - 1].kind == e.kind {
        ReplaceKeeps(buf, pushed, max, e);
        buf := buf[|buf| - 1 := e];
        pushed := pushed + [e];
        return;
      }
      if |buf| >= max {
        var index := FirstProgress();
        EvictKeeps(buf, pushed, max, e, index);
        buf := buf[..index] + buf[index + 1..];
      } else {
        AppendKeeps(buf, pushed, max, e);
      }
      buf := buf + [e];
      pushed := pushed + [e];
    }

    /** The first progress update, or the oldest entry when there is none. */
    method FirstProgress() returns (index: nat)
      requires buf != []
      ensures index < |buf| && forall j :: 0 <= j < index ==> !buf[j].kind.Progress?
      ensures buf[index].kind.Progress? || (index == 0 && forall j :: 0 <= j < |buf| ==> !buf[j].kind.Progress?)
    {
      for i := 0 to |buf|
        invariant forall j :: 0 <= j < i ==> !buf[j].kind.Progress?
      {
        if buf[i].kind.Progress? {
          return i;
        }
      }
      return 0;
    }

    method Drain() returns (taken: seq<Entry>)
      requires Valid()
      modifies this
      ensures Valid() && buf == [] && pushed == []
      ensures Holds(taken, old(pushed), max)
    {
      taken := buf;
      buf, pushed := [], [];
    }
  }
}
