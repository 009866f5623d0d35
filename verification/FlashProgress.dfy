/**
 Byte accounting of a firmware write: progress is published only when the whole percentage changes, and
 the cumulative counter must still end at exactly the bytes transferred.
 */
module FlashProgress {
  import opened Wrappers

  datatype Progress = Progress(
    partition: string, percent: nat, completed: nat, total: nat, operationCompleted: nat, operationTotal: nat)

  const BLANK := Progress("", 0, 0, 0, 0, 0)

  /** A count as a saturating 64-bit counter shows it. */
  function Capped(n: nat): nat { if n <= U64_MAX then n else U64_MAX }

  /** Truncated division, told by its bounds. */
  function Quotient(n: nat, d: nat): (q: nat)
    requires d > 0
    ensures q * d <= n < q * d + d
  {
    assert n == n / d * d + n % d;
    n / d
  }

  /** Whole percent in `0..=100`; an empty transfer is complete. */
  function Percent(completed: nat, total: nat): (pct: nat)
    ensures pct <= 100
    ensures pct == 100 <==> completed >= total
  {
    if total == 0 then 100
    else
      var done := if completed < total then completed else total;
      QuotientBelow(done * 100, total, 100);
      Quotient(done * 100, total)
  }

  lemma Scaled(a: nat, b: nat, c: nat)
    requires a <= b
    ensures a * c <= b * c
  {
    assert b * c - a * c == (b - a) * c;
  }

  lemma QuotientBelow(n: nat, d: nat, limit: nat)
    requires d > 0
    ensures n < limit * d <==> Quotient(n, d) < limit
    ensures n == limit * d ==> Quotient(n, d) == limit
  {
    hide Quotient;
    var q := Quotient(n, d);
    if q < limit {
      Scaled(q + 1, limit, d);
      assert (q + 1) * d == q * d + d;
    } else if q == limit {
    } else {
      Scaled(limit + 1, q, d);
      assert (limit + 1) * d == limit * d + d;
    }
  }

  /** While the percentage stands still, less than one percent of the transfer is unpublished. */
  lemma SamePercentIsClose(published: nat, actual: nat, total: nat)
    requires published <= actual <= total && total > 0
    requires Percent(published, total) == Percent(actual, total)
    ensures 100 * (actual - published) < total
  {
    hide Quotient;
    var p, q := Quotient(published * 100, total), Quotient(actual * 100, total);
    assert p == q;
  }

  /** Published percentages never go back. */
  lemma PercentMonotone(a: nat, b: nat, total: nat)
    requires a <= b
    ensures Percent(a, total) <= Percent(b, total)
  {
    hide Quotient;
    if total > 0 && b < total {
      QuotientBelow(a * 100, total, Quotient(b * 100, total) + 1);
      assert (Quotient(b * 100, total) + 1) * total == Quotient(b * 100, total) * total + total;
    }
  }

  ghost predicate Monotone(callbacks: seq<nat>, total: nat) {
    && (forall i :: 0 <= i < |callbacks| ==> callbacks[i] <= total)
    && (forall i, j :: 0 <= i < j < |callbacks| ==> callbacks[i] <= callbacks[j])
  }

  /** The process-wide slot. `registered`, `confirmed` and `reserved` are the exact byte counts behind the saturating
      counters: `reserved` is registered in advance but not yet started. */
  class Slot {
    var slot: Option<Progress>
    ghost var registered: nat
    ghost var confirmed: nat
    ghost var reserved: nat

    ghost predicate Valid()
      reads this
    {
      && confirmed + reserved <= registered
      && (slot.None? ==> registered == 0)
      && (slot.Some? ==>
            && slot.value.operationCompleted == Capped(confirmed)
            && slot.value.operationTotal == Capped(registered)
            // The bytes shown as completed never exceed the bytes registered.
            && slot.value.operationCompleted <= slot.value.operationTotal)
    }

    constructor ()
      ensures Valid() && slot.None? && registered == 0
    {
      slot, registered, confirmed, reserved := None, 0, 0, 0;
    }

    method Clear()
      modifies this
      ensures Valid() && slot.None?
    {
      slot, registered, confirmed, reserved := None, 0, 0, 0;
    }

    /** Announce the bytes of a later write. */
    method Register(bytes: nat)
      requires Valid()
      modifies this
      ensures Valid() && slot.Some? && registered == old(registered) + bytes
      ensures reserved == old(reserved) + bytes && confirmed == old(confirmed)
    {
      var p := if slot.Some? then slot.value else BLANK;
      slot := Some(p.(operationTotal := SaturatingAdd(p.operationTotal, bytes)));
      registered, reserved := registered + bytes, reserved + bytes;
    }

    method BeginPartition(partition: string, total: nat, register: bool)
      requires Valid() && (!register ==> total <= reserved)
      modifies this
      ensures Valid() && slot.Some? && confirmed == old(confirmed)
      ensures slot.value.completed == 0 && slot.value.total == total && slot.value.partition == partition
      ensures registered == old(registered) + (if register then total else 0)
      ensures reserved == old(reserved) + (if register then total else 0)
    {
      if register {
        Register(total);
      }
      var p := if slot.Some? then slot.value else BLANK;
      slot := Some(p.(partition := partition, percent := 0, completed := 0, total := total));
    }

    /** Publish a callback's count, adding what it moved since the last publication. */
    method Publish(partition: string, completed: nat, total: nat)
      requires Valid() && slot.Some? && slot.value.completed <= completed
      requires completed - slot.value.completed <= reserved
      modifies this
      ensures Valid() && slot.Some?
      ensures slot.value.completed == completed && slot.value.total == total
                && slot.value.percent == Percent(completed, total)
      ensures slot.value.partition == partition
      ensures confirmed == old(confirmed) + (completed - old(slot).value.completed)
      ensures reserved == old(reserved) - (completed - old(slot).value.completed)
      ensures registered == old(registered)
    {
      var p := slot.value;
      var delta := SaturatingSub(completed, p.completed);
      slot := Some(p.(partition := partition, percent := Percent(completed, total), completed := completed,
          total := total,
                      operationCompleted := SaturatingAdd(p.operationCompleted, delta)));
      confirmed, reserved := confirmed + delta, reserved - delta;
    }

    /** One write: the transport reports each of `callbacks` in turn, and a failure may stop it anywhere. Publishing
        only on percent changes adds exactly the last published count; a transfer whose reports end at its total adds
        exactly that total; and at every report less than one percent is unpublished. */
    method Transfer(partition: string, total: nat, register: bool, callbacks: seq<nat>) returns (published: nat)
      requires Valid() && (!register ==> total <= reserved)
      requires Monotone(callbacks, total)
      modifies this
      ensures Valid()
      ensures registered == old(registered) + (if register then total else 0)
      ensures confirmed == old(confirmed) + published && published <= total
      ensures callbacks != [] && callbacks[|callbacks| - 1] == total ==>
                published == total && slot.Some? && slot.value.percent == 100
      ensures callbacks != [] && total > 0 ==> 100 * (callbacks[|callbacks| - 1] - published) < total
      ensures callbacks == [] ==> published == 0
    {
      BeginPartition(partition, total, register);
      ghost var start, budget := confirmed, reserved;
      ghost var entry := registered;
      var lastPercent: Option<nat> := None;
      for i := 0 to |callbacks|
        invariant Valid() && slot.Some? && registered == entry
        invariant slot.value.completed <= total
        invariant confirmed == start + slot.value.completed && reserved == budget - slot.value.completed
        invariant i == 0 ==> slot.value.completed == 0 && lastPercent.None?
        invariant i > 0 ==> slot.value.completed <= callbacks[i - 1]
                            && lastPercent == Some(Percent(callbacks[i - 1], total))
                            && slot.value.percent == Percent(slot.value.completed, total) == lastPercent.value
        // Once anything is published, the unpublished part stays under one percent.
        invariant i > 0 && total > 0 ==> 100 * (callbacks[i - 1] - slot.value.completed) < total
      {
        var completed := callbacks[i];
        var percent := Percent(completed, total);
        if lastPercent != Some(percent) {
          lastPercent := Some(percent);
          Publish(partition, completed, total);
        } else if total > 0 {
          SamePercentIsClose(slot.value.completed, completed, total);
        }
      }
      published := slot.value.completed;
    }
  }
}
