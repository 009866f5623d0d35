/**
 Waiting for a stable port after a reset: watch a visible port for a while, otherwise wait for one seen
 twice in a row.

 The world is two answers: what the i-th port poll finds, and what the j-th deadline check says. A
 deadline, once passed, stays passed.
 */
module StablePort {
  import opened Wrappers

  datatype Poll = Seen(port: string) | NotFound | Failed(error: nat)

  datatype PortError = Timeout | Other(error: nat)

  /** Polls in the disconnect observation window: five seconds at one-second intervals. */
  const OBSERVE: nat := 5

  /** Polls `from` up to but excluding `to` all found `port`. */
  ghost predicate SeenThroughout(find: nat -> Poll, from: nat, to: nat, port: string) {
    forall i :: from <= i < to ==> find(i) == Seen(port)
  }

  ghost predicate NotPassed(deadline: nat -> bool, from: nat, to: nat) {
    forall j :: from <= j < to ==> !deadline(j)
  }

  /** The port visible at first stayed for `n` further polls: the whole window, or until the deadline passed. */
  ghost predicate HeldFromStart(find: nat -> Poll, deadline: nat -> bool, n: nat, port: string) {
    && n <= OBSERVE
    && SeenThroughout(find, 0, n + 1, port)
    && NotPassed(deadline, 0, n)
    && (n < OBSERVE ==> deadline(n))
  }

  /** The second phase starts after deadline check `c`, with poll `c + 1`: no port at first, or the first one was
      renamed or disconnected at poll `c` inside the window. */
  ghost predicate SecondPhaseAt(find: nat -> Poll, deadline: nat -> bool, c: nat) {
    && NotPassed(deadline, 0, c)
    && (|| (c == 0 && find(0) == NotFound)
        || (&& 0 < c <= OBSERVE
            && find(0).Seen?
            && SeenThroughout(find, 0, c, find(0).port)
            && !find(c).Failed? && find(c) != find(0)))
  }

  /** Polls `s` to `k` were answered and no two neighbours among them found one port. */
  ghost predicate NoPair(find: nat -> Poll, s: nat, k: nat) {
    && (forall i :: s <= i < k ==> !find(i).Failed?)
    && (forall i :: s <= i < k - 1 ==> !(find(i).Seen? && find(i) == find(i + 1)))
  }

  /** Returned at poll `k`: the two most recent polls of the second phase found it, for the first time. */
  ghost predicate SeenTwice(find: nat -> Poll, deadline: nat -> bool, c: nat, k: nat, port: string) {
    && SecondPhaseAt(find, deadline, c)
    && c + 1 < k
    && find(k) == Seen(port) && find(k - 1) == Seen(port)
    && NoPair(find, c + 1, k)
    && NotPassed(deadline, c, k)
  }

  ghost predicate ReturnedPair(find: nat -> Poll, deadline: nat -> bool, k: nat, port: string) {
    exists c: nat :: SeenTwice(find, deadline, c, k, port)
  }

  ghost predicate GaveUp(find: nat -> Poll, deadline: nat -> bool, c: nat, k: nat) {
    && SecondPhaseAt(find, deadline, c)
    && c < k
    && NoPair(find, c + 1, k)
    && NotPassed(deadline, c, k - 1) && deadline(k - 1)
  }

  /** Wait for a stable port. `polls` counts the polls made; each but the first follows a deadline check that had not
      passed, so the wait ends within one poll of the deadline passing. */
  method WaitForStablePort(
      find: nat -> Poll, deadline: nat -> bool, ghost trip: nat) returns (r: Result<string, PortError>, polls: nat)
    requires forall j :: j >= trip ==> deadline(j)
    ensures 1 <= polls <= trip + 1
    ensures r.Ok? ==> || HeldFromStart(find, deadline, polls - 1, r.value)
                      || ReturnedPair(find, deadline, polls - 1, r.value)
    // Any error but "not found" ends the wait at once, and no other answer does.
    ensures r.Err? && r.error.Other? <==> find(polls - 1).Failed?
    ensures r.Err? && r.error.Other? ==> find(polls - 1).error == r.error.error && forall i :: 0 <= i < polls - 1 ==>
              !find(i).Failed?
    ensures r == Err(Timeout) ==> exists c: nat :: GaveUp(find, deadline, c, polls)
  {
    var first := find(0);
    polls := 1;
    var checks: nat := 0;
    if first.Failed? {
      return Err(Other(first.error)), polls;
    }
    if first.Seen? {
      var observed, lost := 0, false;
      while observed < OBSERVE && !deadline(checks)
        invariant observed == checks <= OBSERVE && checks <= trip && polls == checks + 1 && !lost
        invariant SeenThroughout(find, 0, polls, first.port)
        invariant NotPassed(deadline, 0, checks)
        decreases OBSERVE - observed
      {
        var current := find(checks + 1);
        polls, checks, observed := polls + 1, checks + 1, observed + 1;
        if current.Failed? {
          assert !deadline(checks - 1);
          return Err(Other(current.error)), polls;
        }
        if current != first {
          lost := true;
          break;
        }
      }
      if !lost {
        return Ok(first.port), polls;
      }
    }
    assert SecondPhaseAt(find, deadline, checks);
    assert forall i :: 0 <= i < polls ==> !find(i).Failed?;
    r, polls := WaitForPair(find, deadline, checks, trip);
  }

  /** The second phase: wait for the port to appear and stay for two polls. */
  method WaitForPair(find: nat -> Poll, deadline: nat -> bool, c: nat, ghost trip: nat)
    returns (r: Result<string, PortError>, polls: nat)
    requires forall j :: j >= trip ==> deadline(j)
    requires c <= trip && SecondPhaseAt(find, deadline, c) && forall i :: 0 <= i <= c ==> !find(i).Failed?
    ensures 1 <= polls <= trip + 1
    ensures r.Ok? ==> ReturnedPair(find, deadline, polls - 1, r.value)
    ensures r.Err? && r.error.Other? <==> find(polls - 1).Failed?
    ensures r.Err? && r.error.Other? ==>
              find(polls - 1).error == r.error.error && forall i :: 0 <= i < polls - 1 ==> !find(i).Failed?
    ensures r == Err(Timeout) ==> GaveUp(find, deadline, c, polls)
  {
    assert NoPair(find, c + 1, c + 1);
    hide NoPair, SecondPhaseAt;
    var checks, last: Option<string> := c, None;
    polls := c + 1;
    while !deadline(checks)
      invariant polls == checks + 1 && c <= checks <= trip
      invariant NotPassed(deadline, c, checks)
      invariant NoPair(find, c + 1, polls)
      invariant forall i :: 0 <= i < polls ==> !find(i).Failed?
      invariant last.Some? <==> polls > c + 1 && find(polls - 1).Seen?
      invariant last.Some? ==> find(polls - 1) == Seen(last.value)
      decreases trip - checks
    {
      var current := find(checks + 1);
      polls, checks := polls + 1, checks + 1;
      NoPairNext(find, c + 1, polls - 1);
      match current {
        case Seen(port) =>
          if last == Some(port) {
            assert SeenTwice(find, deadline, c, polls - 1, port);
            return Ok(port), polls;
          }
          last := Some(port);
        case NotFound =>
          last := None;
        case Failed(error) =>
          return Err(Other(error)), polls;
      }
    }
    return Err(Timeout), polls;
  }

  lemma NoPairNext(find: nat -> Poll, s: nat, k: nat)
    requires NoPair(find, s, k) && s <= k
    ensures !find(k).Failed? && (k > s && find(k).Seen? ==> find(k - 1) != find(k)) ==> NoPair(find, s, k + 1)
  {
  }

  /** A port kept from the start leaves no second phase, so the two ways of returning never compete. */
  lemma HeldHasNoSecondPhase(find: nat -> Poll, deadline: nat -> bool, n: nat, port: string, c: nat)
    requires HeldFromStart(find, deadline, n, port)
    ensures !SecondPhaseAt(find, deadline, c)
  {
    assert find(0) == Seen(port);
    assert c <= n ==> find(c) == Seen(port);
  }

  /** The outcome is determined by the answers alone: the port kept from the start, or the first pair. */
  lemma PairIsFirst(find: nat -> Poll, deadline: nat -> bool, c: nat, k: nat, p: string, c': nat, k': nat, p': string)
    requires SeenTwice(find, deadline, c, k, p) && SeenTwice(find, deadline, c', k', p')
    ensures c == c' && k == k' && p == p'
  {
    assert find(c) != find(0) || c == 0;
    assert find(c') != find(0) || c' == 0;
    PairNotInside(find, c + 1, k, k');
    PairNotInside(find, c' + 1, k', k);
  }

  lemma PairNotInside(find: nat -> Poll, s: nat, k: nat, end: nat)
    requires NoPair(find, s, end) && s < k
    requires find(k).Seen? && find(k - 1) == find(k)
    ensures end <= k
  {
    var i := k - 1;
    assert find(i + 1) == find(k);
  }
}
