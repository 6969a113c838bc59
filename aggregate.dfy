/**
 * The bucket operations shared by the backend and both clients, as functions of
 * the bucket before the operation, and the lemmas saying which of them keep a
 * bucket consistent (`count` equal to the number of entries and every sum equal
 * to its field's total).
 */
module Aggregate {
  import opened Records

  /** The entry `e` with its four amounts taken from `a` (and its own time). */
  function WithAmounts(e: Entry, a: Entry): (r: Entry)
    ensures r.time == e.time && forall f :: r.Get(f) == a.Get(f)
  {
    Entry(e.time, a.food, a.water, a.urination, a.defecation)
  }

  /** Field-wise `a + b`, keeping the time of `a`. */
  function Plus(a: Entry, b: Entry): (r: Entry)
    ensures r.time == a.time && forall f :: r.Get(f) == a.Get(f) + b.Get(f)
  {
    Entry(a.time, a.food + b.food, a.water + b.water, a.urination + b.urination, a.defecation + b.defecation)
  }

  /** Field-wise `a - b`, keeping the time of `a`. */
  function Minus(a: Entry, b: Entry): (r: Entry)
    ensures r.time == a.time && forall f :: r.Get(f) == a.Get(f) - b.Get(f)
  {
    Entry(a.time, a.food - b.food, a.water - b.water, a.urination - b.urination, a.defecation - b.defecation)
  }

  /** Every `<field>Sum` moved by the matching amount of `delta`; nothing else changes. */
  function Shifted(b: Bucket, delta: Entry): (r: Bucket)
    ensures r.data == b.data && r.count == b.count && r.recordDate == b.recordDate && r.weight == b.weight
    ensures forall f :: r.Sum(f) == b.Sum(f) + delta.Get(f)
  {
    b.(foodSum := b.foodSum + delta.food, waterSum := b.waterSum + delta.water,
       urinationSum := b.urinationSum + delta.urination, defecationSum := b.defecationSum + delta.defecation)
  }

  /** The sum loop over the four fields: `for f in fields: b[f + "Sum"] += delta[f]`. */
  method ShiftSums(b: Bucket, delta: Entry) returns (r: Bucket)
    ensures r == Shifted(b, delta)
  {
    r := b;
    for j := 0 to |Fields|
      invariant r.data == b.data && r.count == b.count && r.recordDate == b.recordDate && r.weight == b.weight
      invariant forall k :: 0 <= k < j ==> r.Sum(Fields[k]) == b.Sum(Fields[k]) + delta.Get(Fields[k])
      invariant forall k :: j <= k < |Fields| ==> r.Sum(Fields[k]) == b.Sum(Fields[k])
    {
      var f := Fields[j];
      r := r.WithSum(f, r.Sum(f) + delta.Get(f));
    }
    assert r.Sum(Fields[0]) == b.Sum(Fields[0]) + delta.Get(Fields[0]);
    assert r.Sum(Fields[1]) == b.Sum(Fields[1]) + delta.Get(Fields[1]);
    assert r.Sum(Fields[2]) == b.Sum(Fields[2]) + delta.Get(Fields[2]);
    assert r.Sum(Fields[3]) == b.Sum(Fields[3]) + delta.Get(Fields[3]);
  }

  // ---------------------------------------------------------------- adding an entry

  /** The last entry's time equals the new entry's: the two are merged. */
  predicate SameMinute(data: seq<Entry>, item: Entry) {
    data != [] && data[|data| - 1].time == item.time
  }

  /**
   * The entries after adding `item`: merged into the last entry when it has the
   * same time, otherwise appended after it.
   */
  function Coalesced(data: seq<Entry>, item: Entry): seq<Entry> {
    if SameMinute(data, item) then data[..|data| - 1] + [Plus(data[|data| - 1], item)]
    else data + [item]
  }

  /** Coalescing never changes an entry before the last, and only merges within one minute. */
  lemma CoalescedShape(data: seq<Entry>, item: Entry)
    ensures SameMinute(data, item) ==>
      |Coalesced(data, item)| == |data|
      && Coalesced(data, item)[..|data| - 1] == data[..|data| - 1]
      && Coalesced(data, item)[|data| - 1].time == item.time
      && forall f :: Coalesced(data, item)[|data| - 1].Get(f) == data[|data| - 1].Get(f) + item.Get(f)
    ensures !SameMinute(data, item) ==>
      Coalesced(data, item)[..|data|] == data && |Coalesced(data, item)| == |data| + 1
      && Coalesced(data, item)[|data|] == item
  {
  }

  /** The backend's add: sums grow by the item, `count` grows only when an entry is appended. */
  function BackendAdd(b: Bucket, item: Entry, weight: string): Bucket {
    Shifted(b, item).(
      data := Coalesced(b.data, item),
      count := if SameMinute(b.data, item) then b.count else b.count + 1,
      weight := weight)
  }

  /** The patient client's add: sums grow by the item, `count` is reset to the number of entries. */
  function ClientAdd(b: Bucket, item: Entry): Bucket {
    Shifted(b, item).(data := Coalesced(b.data, item), count := |Coalesced(b.data, item)|)
  }

  // ---------------------------------------------------------------- totals

  lemma {:induction false} TotalConcat(a: seq<Entry>, b: seq<Entry>, f: Field)
    ensures Total(a + b, f) == Total(a, f) + Total(b, f)
    decreases |b|
  {
    if b != [] {
      assert (a + b)[..|a + b| - 1] == a + b[..|b| - 1];
      TotalConcat(a, b[..|b| - 1], f);
    } else {
      assert a + b == a;
    }
  }

  lemma TotalSingle(e: Entry, f: Field)
    ensures Total([e], f) == e.Get(f)
  {
    assert [e][..0] == [];
  }

  /** Splitting a sequence around position `i`. */
  lemma TotalAround(s: seq<Entry>, i: nat, f: Field)
    requires i < |s|
    ensures Total(s, f) == Total(s[..i], f) + s[i].Get(f) + Total(s[i + 1..], f)
  {
    assert s == s[..i] + ([s[i]] + s[i + 1..]);
    TotalConcat(s[..i], [s[i]] + s[i + 1..], f);
    TotalConcat([s[i]], s[i + 1..], f);
    TotalSingle(s[i], f);
  }

  lemma TotalReplace(s: seq<Entry>, i: nat, e: Entry, f: Field)
    requires i < |s|
    ensures Total(s[i := e], f) == Total(s, f) - s[i].Get(f) + e.Get(f)
  {
    TotalAround(s, i, f);
    TotalAround(s[i := e], i, f);
    assert s[i := e][..i] == s[..i];
    assert s[i := e][i + 1..] == s[i + 1..];
  }

  lemma TotalRemove(s: seq<Entry>, i: nat, f: Field)
    requires i < |s|
    ensures Total(s[..i] + s[i + 1..], f) == Total(s, f) - s[i].Get(f)
  {
    TotalAround(s, i, f);
    TotalConcat(s[..i], s[i + 1..], f);
  }

  lemma TotalCoalesced(data: seq<Entry>, item: Entry, f: Field)
    ensures Total(Coalesced(data, item), f) == Total(data, f) + item.Get(f)
  {
    if SameMinute(data, item) {
      var n := |data| - 1;
      assert data[..n] + [Plus(data[n], item)] == data[n := Plus(data[n], item)];
      TotalReplace(data, n, Plus(data[n], item), f);
    } else {
      assert (data + [item])[..|data|] == data;
    }
  }

  lemma {:induction false} TotalNonNegative(s: seq<Entry>, f: Field)
    requires forall i :: 0 <= i < |s| ==> s[i].Get(f) >= 0
    ensures Total(s, f) >= 0
  {
    if s != [] {
      TotalNonNegative(s[..|s| - 1], f);
    }
  }

  // ---------------------------------------------------------------- adding keeps a bucket consistent

  /** The backend's add keeps a consistent bucket consistent. */
  lemma BackendAddConsistent(b: Bucket, item: Entry, weight: string)
    requires Consistent(b)
    ensures Consistent(BackendAdd(b, item, weight))
  {
    forall f ensures BackendAdd(b, item, weight).Sum(f) == Total(BackendAdd(b, item, weight).data, f) {
      TotalCoalesced(b.data, item, f);
    }
    CoalescedShape(b.data, item);
  }

  /** The patient client's add keeps a consistent bucket consistent. */
  lemma ClientAddConsistent(b: Bucket, item: Entry)
    requires Consistent(b)
    ensures Consistent(ClientAdd(b, item))
  {
    forall f ensures ClientAdd(b, item).Sum(f) == Total(ClientAdd(b, item).data, f) {
      TotalCoalesced(b.data, item, f);
    }
  }

  /** On a consistent bucket the two adds agree on everything but the weight. */
  lemma AddsAgree(b: Bucket, item: Entry, weight: string)
    requires Consistent(b)
    ensures BackendAdd(b, item, weight) == ClientAdd(b, item).(weight := weight)
  {
    CoalescedShape(b.data, item);
  }

  // ---------------------------------------------------------------- editing an entry

  /**
   * Entry `i` takes the amounts `a`, and every sum moves by `a` minus `base`:
   * the backend passes the entry's old amounts as `base`, the monitor client
   * the snapshot it took when the edit was opened.
   */
  function Edited(b: Bucket, i: nat, a: Entry, base: Entry): Bucket
    requires i < |b.data|
  {
    Shifted(b, Minus(a, base)).(data := b.data[i := WithAmounts(b.data[i], a)])
  }

  /** An edit replaces the amounts of entry `i` and moves every sum by new minus base; `count` stays. */
  lemma EditedSums(b: Bucket, i: nat, a: Entry, base: Entry)
    requires i < |b.data|
    ensures var r := Edited(b, i, a, base);
      r.count == b.count && r.data == b.data[i := WithAmounts(b.data[i], a)] && r.recordDate == b.recordDate
      && forall f :: r.Sum(f) == b.Sum(f) - base.Get(f) + a.Get(f)
  {
  }

  /** An edit measured against the entry's current amounts keeps a consistent bucket consistent. */
  lemma EditedConsistent(b: Bucket, i: nat, a: Entry, base: Entry)
    requires i < |b.data| && Consistent(b)
    requires forall f :: base.Get(f) == b.data[i].Get(f)
    ensures Consistent(Edited(b, i, a, base))
    ensures Edited(b, i, a, base).count == b.count
  {
    forall f ensures Edited(b, i, a, base).Sum(f) == Total(Edited(b, i, a, base).data, f) {
      TotalReplace(b.data, i, WithAmounts(b.data[i], a), f);
    }
  }

  // ---------------------------------------------------------------- removing an entry

  /** `arr.splice(i, 1)`: an index past the end removes nothing. */
  function Spliced(s: seq<Entry>, i: nat): (r: seq<Entry>)
    ensures i < |s| ==> r == s[..i] + s[i + 1..] && |r| == |s| - 1
    ensures i >= |s| ==> r == s
  {
    if i < |s| then s[..i] + s[i + 1..] else s
  }

  /**
   * Removal as both clients and the backend write it: `count` goes down by one,
   * every sum goes down by the removed entry's amount (with no clamp at zero) and
   * the entry is spliced out.
   */
  function RemovedAt(b: Bucket, i: nat, removed: Entry): Bucket {
    Shifted(b, Minus(Entry(removed.time, 0, 0, 0, 0), removed)).(data := Spliced(b.data, i), count := b.count - 1)
  }

  /** A removal takes the removed amounts off every sum and lowers `count` by one. */
  lemma RemovedAtSums(b: Bucket, i: nat, removed: Entry)
    ensures var r := RemovedAt(b, i, removed);
      r.count == b.count - 1 && r.weight == b.weight && r.recordDate == b.recordDate
      && forall f :: r.Sum(f) == b.Sum(f) - removed.Get(f)
  {
    var z := Entry(removed.time, 0, 0, 0, 0);
    assert forall f :: z.Get(f) == 0;
  }

  /**
   * Both clients' removal: `count -= 1`, every sum loses the amounts of the
   * entry read when the removal was asked for, then `data.splice(i, 1)`.
   */
  method ClientRemove(b: Bucket, i: nat, removed: Entry) returns (r: Bucket)
    ensures r == RemovedAt(b, i, removed)
  {
    r := b.(count := b.count - 1);
    r := ShiftSums(r, Minus(Entry(removed.time, 0, 0, 0, 0), removed));
    r := r.(data := Spliced(r.data, i));
  }

  /** Removing an entry that is in the bucket keeps a consistent bucket consistent, and the other entries in order. */
  lemma RemovedAtConsistent(b: Bucket, i: nat)
    requires i < |b.data| && Consistent(b)
    ensures Consistent(RemovedAt(b, i, b.data[i]))
    ensures RemovedAt(b, i, b.data[i]).data == b.data[..i] + b.data[i + 1..]
  {
    forall f ensures RemovedAt(b, i, b.data[i]).Sum(f) == Total(RemovedAt(b, i, b.data[i]).data, f) {
      TotalRemove(b.data, i, f);
    }
  }

  /** On a consistent bucket of non-negative amounts, removal cannot drive a sum below zero. */
  lemma RemovedAtNonNegative(b: Bucket, i: nat)
    requires i < |b.data| && Consistent(b) && NonNegative(b)
    ensures NonNegative(RemovedAt(b, i, b.data[i]))
  {
    var r := RemovedAt(b, i, b.data[i]);
    RemovedAtConsistent(b, i);
    forall f ensures r.Sum(f) >= 0 {
      TotalNonNegative(r.data, f);
    }
  }

  /** Without the consistency invariant, removal drives a sum below zero: nothing clamps it. */
  lemma RemovalDoesNotClamp()
    ensures RemovedAt(Bucket([Entry("08:00", 5, 0, 0, 0)], 1, "1/1", 0, 0, 0, 0, "NaN"), 0, Entry("08:00", 5, 0, 0, 0)).foodSum == -5
  {
  }
}
