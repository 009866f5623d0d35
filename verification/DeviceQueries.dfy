/**
 Ownership of asynchronous requests: lookup tokens, the device-poll lease and the region probe, all
 numbered by one counter.

 The specification reads the history of calls and says which tokens are still live.
 */
module DeviceQueries {
  import opened Wrappers

  datatype LookupKind = Info | Ota | Qfil

  datatype Token = Token(kind: LookupKind, sequence: nat)

  datatype Event =
    | LookupStarted(kind: LookupKind) | LookupFinished(token: Token) | LookupCancelled(cancelled: LookupKind)
    | PollStarted | PollFinished(poll: nat)
    | RegionStarted | RegionSettled(region: nat) | RegionDropped
    | ContextInvalidated

  predicate IsStart(e: Event) { e.LookupStarted? || e.PollStarted? || e.RegionStarted? }

  // ---------------------------------------------------------------- the specification over a history

  /** How many requests the history has numbered. */
  function Issued(h: seq<Event>): nat {
    if h == [] then 0 else Issued(h[..|h| - 1]) + (if IsStart(h[|h| - 1]) then 1 else 0)
  }

  /** The number event `i` received. */
  function IdOf(h: seq<Event>, i: nat): nat
    requires i < |h|
  {
    Issued(h[..i + 1])
  }

  /** A later event that takes a lookup's reply away: a newer lookup of its kind, a cancel of its kind, a change of
      context, or the acceptance of the reply itself. */
  predicate Supersedes(e: Event, token: Token) {
    || e == LookupStarted(token.kind)
    || e == LookupCancelled(token.kind)
    || e == ContextInvalidated
    || e == LookupFinished(token)
  }

  ghost predicate LookupLive(h: seq<Event>, i: nat, token: Token) {
    && i < |h|
    && h[i] == LookupStarted(token.kind)
    && token.sequence == IdOf(h, i)
    && forall j :: i < j < |h| ==> !Supersedes(h[j], token)
  }

  /** A reply with this token would be accepted now. */
  ghost predicate Accepts(h: seq<Event>, token: Token) {
    exists i :: LookupLive(h, i, token)
  }

  ghost predicate PollLive(h: seq<Event>, i: nat, id: nat) {
    && i < |h|
    && h[i] == PollStarted
    && id == IdOf(h, i)
    && forall j :: i < j < |h| ==> h[j] != PollFinished(id)
  }

  ghost predicate LeaseHeld(h: seq<Event>, id: nat) {
    exists i :: PollLive(h, i, id)
  }

  ghost predicate RegionLive(h: seq<Event>, i: nat, id: nat) {
    && i < |h|
    && h[i] == RegionStarted
    && id == IdOf(h, i)
    && forall j :: i < j < |h| ==>
        h[j] != RegionStarted && h[j] != RegionDropped && h[j] != ContextInvalidated && h[j] != RegionSettled(id)
  }

  ghost predicate RegionAccepts(h: seq<Event>, id: nat) {
    exists i :: RegionLive(h, i, id)
  }

  /** Polls start only when none holds the lease. */
  ghost predicate PollsAlternate(h: seq<Event>) {
    forall i: nat, id: nat :: i < |h| && h[i] == PollStarted ==> !LeaseHeld(h[..i], id)
  }

  // ---------------------------------------------------------------- lemmas

  lemma IssuedSnoc(h: seq<Event>, e: Event)
    ensures Issued(h + [e]) == Issued(h) + (if IsStart(e) then 1 else 0)
  {
    assert (h + [e])[..|h|] == h;
  }

  lemma {:induction false} IssuedMonotone(h: seq<Event>, k: nat)
    requires k <= |h|
    ensures Issued(h[..k]) <= Issued(h)
    decreases |h|
  {
    if k < |h| {
      IssuedMonotone(h[..|h| - 1], k);
      assert h[..|h| - 1][..k] == h[..k];
    } else {
      assert h[..k] == h;
    }
  }

  /** A later request always has a larger number. */
  lemma IdsIncrease(h: seq<Event>, i: nat, j: nat)
    requires i < j < |h| && IsStart(h[j])
    ensures IdOf(h, i) < IdOf(h, j)
  {
    var before := h[..j];
    assert h[..j + 1] == before + [h[j]];
    IssuedSnoc(before, h[j]);
    IssuedMonotone(before, i + 1);
    assert before[..i + 1] == h[..i + 1];
  }

  lemma IdStable(h: seq<Event>, e: Event, i: nat)
    requires i < |h|
    ensures IdOf(h + [e], i) == IdOf(h, i)
  {
    assert (h + [e])[..i + 1] == h[..i + 1];
  }

  lemma NewId(h: seq<Event>, e: Event)
    ensures IdOf(h + [e], |h|) == Issued(h) + (if IsStart(e) then 1 else 0)
  {
    assert (h + [e])[..|h| + 1] == h + [e];
    IssuedSnoc(h, e);
  }

  lemma LookupStep(h: seq<Event>, e: Event, token: Token)
    ensures Accepts(h + [e], token) <==>
              || (e == LookupStarted(token.kind) && token.sequence == Issued(h) + 1)
              || (Accepts(h, token) && !Supersedes(e, token))
  {
    var h' := h + [e];
    NewId(h, e);
    if e == LookupStarted(token.kind) && token.sequence == Issued(h) + 1 {
      assert LookupLive(h', |h|, token);
    }
    forall i: nat | i < |h| ensures LookupLive(h', i, token) <==> LookupLive(h, i, token) && !Supersedes(e, token) {
      IdStable(h, e, i);
      assert h'[|h|] == e;
      assert forall j :: i < j < |h| ==> h'[j] == h[j];
    }
  }

  lemma PollStep(h: seq<Event>, e: Event, id: nat)
    ensures LeaseHeld(h + [e], id) <==>
              || (e == PollStarted && id == Issued(h) + 1)
              || (LeaseHeld(h, id) && e != PollFinished(id))
  {
    var h' := h + [e];
    NewId(h, e);
    if e == PollStarted && id == Issued(h) + 1 {
      assert PollLive(h', |h|, id);
    }
    forall i: nat | i < |h| ensures PollLive(h', i, id) <==> PollLive(h, i, id) && e != PollFinished(id) {
      IdStable(h, e, i);
      assert h'[|h|] == e;
      assert forall j :: i < j < |h| ==> h'[j] == h[j];
    }
  }

  lemma RegionStep(h: seq<Event>, e: Event, id: nat)
    ensures RegionAccepts(h + [e], id) <==>
              || (e == RegionStarted && id == Issued(h) + 1)
              || (RegionAccepts(h, id) && e != RegionStarted && e != RegionDropped && e != ContextInvalidated
                  && e != RegionSettled(id))
  {
    var h' := h + [e];
    NewId(h, e);
    if e == RegionStarted && id == Issued(h) + 1 {
      assert RegionLive(h', |h|, id);
    }
    forall i: nat | i < |h|
      ensures RegionLive(h', i, id) <==>
                RegionLive(h, i, id) && e != RegionStarted && e != RegionDropped && e != ContextInvalidated
                && e != RegionSettled(id)
    {
      IdStable(h, e, i);
      assert h'[|h|] == e;
      assert forall j :: i < j < |h| ==> h'[j] == h[j];
    }
  }

  /** Each lookup token is accepted at most once in any history. */
  lemma AcceptedAtMostOnce(h: seq<Event>, a: nat, b: nat, token: Token)
    requires a < b <= |h| && h[a] == LookupFinished(token) && Accepts(h[..a], token)
    ensures !Accepts(h[..b], token)
  {
    var i0 :| LookupLive(h[..a], i0, token);
    assert IdOf(h[..a], i0) == IdOf(h, i0) by { assert h[..a][..i0 + 1] == h[..i0 + 1]; }
    forall i: nat | i < b ensures !LookupLive(h[..b], i, token) {
      assert h[..b][..i + 1] == h[..i + 1];
      if i <= a {
        assert h[..b][a] == LookupFinished(token);
      } else if IsStart(h[i]) {
        IdsIncrease(h, i0, i);
      }
    }
  }

  /** A token issued before a change of context is never accepted after it, even if the same device returns. */
  lemma StaleAfterInvalidation(h: seq<Event>, i: nat, k: nat, token: Token)
    requires i < k < |h| && h[i] == LookupStarted(token.kind) && token.sequence == IdOf(h, i)
    requires h[k] == ContextInvalidated || h[k] == LookupCancelled(token.kind) || h[k] == LookupStarted(token.kind)
    ensures !Accepts(h, token)
  {
    forall j: nat | j < |h| ensures !LookupLive(h, j, token) {
      if j < i && h[j].LookupStarted? {
        IdsIncrease(h, j, i);
      } else if i < j && IsStart(h[j]) {
        IdsIncrease(h, i, j);
      }
    }
  }

  /** Two polls never hold the lease together. */
  lemma OneLease(h: seq<Event>, i: nat, j: nat, a: nat, b: nat)
    requires PollsAlternate(h) && PollLive(h, i, a) && PollLive(h, j, b)
    ensures i == j && a == b
  {
    if i < j {
      assert h[..j][..i + 1] == h[..i + 1];
      assert PollLive(h[..j], i, a) && LeaseHeld(h[..j], a);
    } else if j < i {
      assert h[..i][..j + 1] == h[..j + 1];
      assert PollLive(h[..i], j, b) && LeaseHeld(h[..i], b);
    }
  }

  lemma AlternateStep(h: seq<Event>, e: Event)
    requires PollsAlternate(h)
    requires e == PollStarted ==> forall id: nat :: !LeaseHeld(h, id)
    ensures PollsAlternate(h + [e])
  {
    assert (h + [e])[..|h|] == h;
    forall i | 0 <= i < |h| ensures (h + [e])[..i] == h[..i] && (h + [e])[i] == h[i] {}
  }

  /** What one more event does to everything that is live. */
  lemma Next(h: seq<Event>, e: Event)
    requires PollsAlternate(h) && (e == PollStarted ==> forall id: nat :: !LeaseHeld(h, id))
    ensures PollsAlternate(h + [e])
    ensures Issued(h + [e]) == Issued(h) + (if IsStart(e) then 1 else 0)
    ensures forall token :: Accepts(h + [e], token) <==>
              || (e == LookupStarted(token.kind) && token.sequence == Issued(h) + 1)
              || (Accepts(h, token) && !Supersedes(e, token))
    ensures forall id: nat :: LeaseHeld(h + [e], id) <==>
              (e == PollStarted && id == Issued(h) + 1) || (LeaseHeld(h, id) && e != PollFinished(id))
    ensures forall id: nat :: RegionAccepts(h + [e], id) <==>
              || (e == RegionStarted && id == Issued(h) + 1)
              || (RegionAccepts(h, id) && e != RegionStarted && e != RegionDropped && e != ContextInvalidated
                  && e != RegionSettled(id))
  {
    IssuedSnoc(h, e);
    AlternateStep(h, e);
    forall token
      ensures Accepts(h + [e], token) <==>
                || (e == LookupStarted(token.kind) && token.sequence == Issued(h) + 1)
                || (Accepts(h, token) && !Supersedes(e, token))
    {
      LookupStep(h, e, token);
    }
    forall id: nat
      ensures LeaseHeld(h + [e], id) <==>
                (e == PollStarted && id == Issued(h) + 1) || (LeaseHeld(h, id) && e != PollFinished(id))
    {
      PollStep(h, e, id);
    }
    forall id: nat
      ensures RegionAccepts(h + [e], id) <==>
                || (e == RegionStarted && id == Issued(h) + 1)
                || (RegionAccepts(h, id) && e != RegionStarted && e != RegionDropped && e != ContextInvalidated
                    && e != RegionSettled(id))
    {
      RegionStep(h, e, id);
    }
  }

  // ---------------------------------------------------------------- the books

  /** What is kept of a history. */
  datatype Books = Books(sequence: nat, pending: map<LookupKind, Token>, poll: Option<nat>, region: Option<nat>)

  /** The books are exactly what the history leaves live. */
  ghost predicate Agrees(h: seq<Event>, b: Books) {
    && b.sequence == Issued(h)
    && PollsAlternate(h)
    && (forall token: Token :: Held(b.pending, token) <==> Accepts(h, token))
    && (forall kind :: kind in b.pending ==> b.pending[kind].kind == kind)
    && (forall id: nat :: b.poll == Some(id) <==> LeaseHeld(h, id))
    && (forall id: nat :: b.region == Some(id) <==> RegionAccepts(h, id))
  }

  predicate Held(pending: map<LookupKind, Token>, token: Token) {
    token.kind in pending && pending[token.kind] == token
  }

  /** The books after one more event. */
  function After(b: Books, e: Event): Books {
    var next := b.sequence + 1;
    match e
    case LookupStarted(kind) => b.(sequence := next, pending := b.pending[kind := Token(kind, next)])
    case LookupFinished(token) => if Held(b.pending, token) then b.(pending := b.pending - {token.kind}) else b
    case LookupCancelled(kind) => b.(pending := b.pending - {kind})
    case PollStarted => b.(sequence := next, poll := Some(next))
    case PollFinished(id) => if b.poll == Some(id) then b.(poll := None) else b
    case RegionStarted => b.(sequence := next, region := Some(next))
    case RegionSettled(id) => if b.region == Some(id) then b.(region := None) else b
    case RegionDropped => b.(region := None)
    case ContextInvalidated => b.(pending := map[], region := None)
  }

  lemma PendingAfter(h: seq<Event>, b: Books, e: Event)
    requires Agrees(h, b)
    ensures var b' := After(b, e);
            && (forall token: Token :: Held(b'.pending, token) <==> Accepts(h + [e], token))
            && (forall kind :: kind in b'.pending ==> b'.pending[kind].kind == kind)
  {
    hide Accepts, LeaseHeld, RegionAccepts, PollsAlternate, Issued;
    forall token: Token ensures Held(After(b, e).pending, token) <==> Accepts(h + [e], token) {
      LookupStep(h, e, token);
    }
  }

  lemma PollAfter(h: seq<Event>, b: Books, e: Event)
    requires Agrees(h, b) && (e == PollStarted ==> b.poll.None?)
    ensures PollsAlternate(h + [e])
    ensures forall id: nat :: After(b, e).poll == Some(id) <==> LeaseHeld(h + [e], id)
  {
    hide Accepts, LeaseHeld, RegionAccepts, PollsAlternate, Issued;
    AlternateStep(h, e);
    forall id: nat ensures After(b, e).poll == Some(id) <==> LeaseHeld(h + [e], id) {
      PollStep(h, e, id);
    }
  }

  lemma RegionAfter(h: seq<Event>, b: Books, e: Event)
    requires Agrees(h, b)
    ensures forall id: nat :: After(b, e).region == Some(id) <==> RegionAccepts(h + [e], id)
  {
    hide Accepts, LeaseHeld, RegionAccepts, PollsAlternate, Issued;
    forall id: nat ensures After(b, e).region == Some(id) <==> RegionAccepts(h + [e], id) {
      RegionStep(h, e, id);
    }
  }

  /** Whatever happens next, the books stay right. */
  lemma AgreesAfter(h: seq<Event>, b: Books, e: Event)
    requires Agrees(h, b) && (e == PollStarted ==> b.poll.None?)
    ensures Agrees(h + [e], After(b, e))
  {
    hide Accepts, LeaseHeld, RegionAccepts, PollsAlternate, Issued, Held;
    IssuedSnoc(h, e);
    PendingAfter(h, b, e);
    PollAfter(h, b, e);
    RegionAfter(h, b, e);
  }

  /** Reading the books. */
  lemma Live(h: seq<Event>, b: Books)
    requires Agrees(h, b)
    ensures b.sequence == Issued(h)
    ensures forall token: Token :: Accepts(h, token) <==> Held(b.pending, token)
    ensures forall id: nat :: LeaseHeld(h, id) <==> b.poll == Some(id)
    ensures forall id: nat :: RegionAccepts(h, id) <==> b.region == Some(id)
  {
    hide Accepts, LeaseHeld, RegionAccepts, PollsAlternate, Issued, Held;
  }

  lemma NothingYet()
    ensures Agrees([], Books(0, map[], None, None))
  {
  }

  // ---------------------------------------------------------------- the object

  class DeviceQueries {
    var sequence: nat
    var pending: map<LookupKind, Token>
    var pollInFlight: Option<nat>
    var regionPending: Option<nat>
    ghost var history: seq<Event>

    ghost function Current(): Books
      reads this
    {
      Books(sequence, pending, pollInFlight, regionPending)
    }

    /** The fields are exactly what the history leaves live. */
    ghost predicate Valid()
      reads this
    {
      Agrees(history, Current())
    }

    constructor ()
      ensures Valid() && history == []
    {
      sequence, pending, pollInFlight, regionPending, history := 0, map[], None, None, [];
      new;
      NothingYet();
    }

    method NextSequence() returns (id: nat)
      requires sequence < U64_MAX
      modifies `sequence
      ensures sequence == old(sequence) + 1 && id == sequence
    {
      sequence := sequence + 1;
      id := sequence;
    }

    /** Take the device-poll lease. */
    method StartPoll() returns (id: nat)
      requires Valid() && pollInFlight.None? && sequence < U64_MAX
      modifies this
      ensures Valid() && history == old(history) + [PollStarted]
      ensures pollInFlight == Some(id) && !LeaseHeld(old(history), id)
    {
      hide Agrees, Accepts, LeaseHeld, RegionAccepts;
      ghost var before, books := history, Current();
      Live(history, books);
      AgreesAfter(history, books, PollStarted);
      id := NextSequence();
      pollInFlight := Some(id);
      history := history + [PollStarted];
      assert Current() == After(books, PollStarted);
      Live(history, Current());
    }

    /** Release the lease: only its own holder can. */
    method FinishPoll(id: nat) returns (released: bool)
      requires Valid()
      modifies this
      ensures Valid() && history == old(history) + [PollFinished(id)]
      ensures released <==> LeaseHeld(old(history), id)
      ensures pollInFlight == if released then None else old(pollInFlight)
    {
      hide Agrees, Accepts, LeaseHeld, RegionAccepts;
      ghost var before, books := history, Current();
      Live(history, books);
      AgreesAfter(history, books, PollFinished(id));
      history := history + [PollFinished(id)];
      if pollInFlight != Some(id) {
        Live(history, Current());
        return false;
      }
      pollInFlight := None;
      Live(history, Current());
      return true;
    }

    method StartRegion() returns (id: nat)
      requires Valid() && sequence < U64_MAX
      modifies this
      ensures Valid() && history == old(history) + [RegionStarted]
      ensures regionPending == Some(id) && pollInFlight == old(pollInFlight)
    {
      hide Agrees, Accepts, LeaseHeld, RegionAccepts;
      ghost var before, books := history, Current();
      Live(history, books);
      AgreesAfter(history, books, RegionStarted);
      id := NextSequence();
      regionPending := Some(id);
      history := history + [RegionStarted];
      assert Current() == After(books, RegionStarted);
      Live(history, Current());
    }

    /** The region reply's own check: only the newest probe's reply is taken. */
    method SettleRegion(id: nat) returns (taken: bool)
      requires Valid()
      modifies this
      ensures Valid() && history == old(history) + [RegionSettled(id)]
      ensures taken <==> RegionAccepts(old(history), id)
      ensures pollInFlight == old(pollInFlight)
    {
      hide Agrees, Accepts, LeaseHeld, RegionAccepts;
      ghost var before, books := history, Current();
      Live(history, books);
      AgreesAfter(history, books, RegionSettled(id));
      history := history + [RegionSettled(id)];
      if regionPending != Some(id) {
        Live(history, Current());
        return false;
      }
      regionPending := None;
      Live(history, Current());
      return true;
    }

    /** A region chosen by hand, or a fresh visit to the wizard, drops the pending probe and nothing else. */
    method DropRegion()
      requires Valid()
      modifies this
      ensures Valid() && history == old(history) + [RegionDropped]
      ensures forall id: nat :: !RegionAccepts(history, id)
      ensures forall t :: Accepts(history, t) <==> Accepts(old(history), t)
      ensures pollInFlight == old(pollInFlight) && sequence == old(sequence)
    {
      hide Agrees, Accepts, LeaseHeld, RegionAccepts;
      ghost var before, books := history, Current();
      Live(history, books);
      AgreesAfter(history, books, RegionDropped);
      regionPending := None;
      history := history + [RegionDropped];
      assert Current() == After(books, RegionDropped);
      Live(history, Current());
    }

    method StartLookup(kind: LookupKind) returns (token: Token)
      requires Valid() && sequence < U64_MAX
      modifies this
      ensures Valid() && history == old(history) + [LookupStarted(kind)]
      ensures token.kind == kind && Accepts(history, token) && !Accepts(old(history), token)
      ensures pollInFlight == old(pollInFlight) && regionPending == old(regionPending)
    {
      hide Agrees, Accepts, LeaseHeld, RegionAccepts;
      ghost var before, books := history, Current();
      Live(history, books);
      AgreesAfter(history, books, LookupStarted(kind));
      var id := NextSequence();
      token := Token(kind, id);
      pending := pending[kind := token];
      history := history + [LookupStarted(kind)];
      assert Current() == After(books, LookupStarted(kind));
      Live(history, Current());
      assert Held(pending, token);
      NotYetIssued(before, token);
    }

    /** Accept a reply exactly when its token is the newest of its kind and nothing has taken it away since. */
    method FinishLookup(token: Token) returns (accepted: bool)
      requires Valid()
      modifies this
      ensures Valid() && history == old(history) + [LookupFinished(token)]
      ensures accepted <==> Accepts(old(history), token)
      ensures !Accepts(history, token)
      ensures forall t :: t != token ==> (Accepts(history, t) <==> Accepts(old(history), t))
      ensures pollInFlight == old(pollInFlight) && regionPending == old(regionPending)
    {
      hide Agrees, Accepts, LeaseHeld, RegionAccepts;
      ghost var before, books := history, Current();
      Live(history, books);
      AgreesAfter(history, books, LookupFinished(token));
      history := history + [LookupFinished(token)];
      if token.kind !in pending || pending[token.kind] != token {
        Live(history, Current());
        return false;
      }
      pending := pending - {token.kind};
      Live(history, Current());
      return true;
    }

    method CancelLookup(kind: LookupKind)
      requires Valid()
      modifies this
      ensures Valid() && history == old(history) + [LookupCancelled(kind)]
      ensures forall t :: Accepts(history, t) <==> Accepts(old(history), t) && t.kind != kind
      ensures pollInFlight == old(pollInFlight) && regionPending == old(regionPending)
    {
      hide Agrees, Accepts, LeaseHeld, RegionAccepts;
      ghost var before, books := history, Current();
      Live(history, books);
      AgreesAfter(history, books, LookupCancelled(kind));
      pending := pending - {kind};
      history := history + [LookupCancelled(kind)];
      assert Current() == After(books, LookupCancelled(kind));
      Live(history, Current());
    }

    /** A change of device or transport: every pending reply becomes stale, and the poll lease stays. */
    method InvalidateContext()
      requires Valid()
      modifies this
      ensures Valid() && history == old(history) + [ContextInvalidated]
      ensures forall t :: !Accepts(history, t)
      ensures forall id: nat :: !RegionAccepts(history, id)
      ensures pollInFlight == old(pollInFlight) && sequence == old(sequence)
    {
      hide Agrees, Accepts, LeaseHeld, RegionAccepts;
      ghost var before, books := history, Current();
      Live(history, books);
      AgreesAfter(history, books, ContextInvalidated);
      pending := map[];
      regionPending := None;
      history := history + [ContextInvalidated];
      assert Current() == After(books, ContextInvalidated);
      Live(history, Current());
    }
  }

  /** A number the counter has not reached belongs to no live token. */
  lemma NotYetIssued(h: seq<Event>, token: Token)
    requires token.sequence > Issued(h)
    ensures !Accepts(h, token)
  {
    forall i: nat | i < |h| ensures IdOf(h, i) <= Issued(h) {
      IssuedMonotone(h, i + 1);
    }
  }
}
