/** The flow table of src/stats.c: open addressing with linear probing, no deletion, a fixed
    capacity, for any hash function. */
module FlowTable {
  import opened Bytes

  datatype Proto = ARP | TCP | UDP | ICMP | ICMPv6

  /** A flow: its protocol and its two endpoints in canonical order. */
  datatype Key = Key(proto: Proto, addrA: string, portA: u16, addrB: string, portB: u16)

  datatype Totals = Totals(packets: nat, bytes: nat)

  datatype Slot = Free | Used(key: Key, totals: Totals)

  const MAX_FLOWS := 1024
  const ADDRESS_BUFFER := 46

  // ----- Direction -----

  /** The sign of strcmp on NUL-free texts. */
  function Compare(a: string, b: string): int {
    if a == "" && b == "" then 0
    else if a == "" then -1
    else if b == "" then 1
    else if a[0] < b[0] then -1
    else if a[0] > b[0] then 1
    else Compare(a[1..], b[1..])
  }

  function Canonical(proto: Proto, addrA: string, portA: u16, addrB: string, portB: u16): Key {
    if Compare(addrA, addrB) > 0 || (Compare(addrA, addrB) == 0 && portA > portB) then
      Key(proto, addrB, portB, addrA, portA)
    else Key(proto, addrA, portA, addrB, portB)
  }

  lemma {:induction false} CompareIsOrder(a: string, b: string)
    ensures Compare(a, b) == 0 <==> a == b
    ensures Compare(b, a) == -Compare(a, b)
  {
    if a != "" && b != "" && a[0] == b[0] {
      CompareIsOrder(a[1..], b[1..]);
      assert a == [a[0]] + a[1..] && b == [b[0]] + b[1..];
    }
  }

  /** Two packets belong to one flow exactly when protocol and unordered endpoints agree. */
  lemma CanonicalKeys(p: Proto, a: string, pa: u16, b: string, pb: u16,
                      q: Proto, c: string, pc: u16, d: string, pd: u16)
    ensures Canonical(p, a, pa, b, pb) == Canonical(q, c, pc, d, pd) <==>
            p == q && (((a, pa) == (c, pc) && (b, pb) == (d, pd)) ||
                       ((a, pa) == (d, pd) && (b, pb) == (c, pc)))
  {
    CompareIsOrder(a, b);
    CompareIsOrder(c, d);
  }

  // ----- The bounded map that the table stands for -----

  function Tally(flows: map<Key, Totals>, key: Key, bytes: nat, capacity: nat): map<Key, Totals> {
    if key in flows then
      flows[key := Totals(flows[key].packets + 1, flows[key].bytes + bytes)]
    else if |flows| < capacity then flows[key := Totals(1, bytes)]
    else flows
  }

  // ----- Probing -----

  type Hash = Key -> nat

  /** The slot tried after `step` collisions. */
  function Probe(hash: Hash, key: Key, step: nat, size: nat): (i: nat)
    requires size > 0
    ensures i < size
  {
    (hash(key) % size + step) % size
  }

  lemma WrapsOnce(x: nat, size: nat)
    requires 0 < size && x < 2 * size
    ensures x % size == if x < size then x else x - size
  {
    var q := x / size;
    assert x == size * q + x % size;
    assert q >= 2 ==> size * q >= size * 2;
    assert q == 1 ==> size * q == size;
  }

  lemma ProbeReaches(hash: Hash, key: Key, size: nat, i: nat) returns (step: nat)
    requires i < size
    ensures step < size && Probe(hash, key, step, size) == i
  {
    var s := hash(key) % size;
    step := if s <= i then i - s else size + i - s;
    WrapsOnce(s + step, size);
  }

  function UsedCount(slots: seq<Slot>): (n: nat)
    ensures n <= |slots|
  {
    if slots == [] then 0
    else UsedCount(slots[..|slots| - 1]) + if slots[|slots| - 1].Used? then 1 else 0
  }

  lemma {:induction false} UsedCountUpdate(slots: seq<Slot>, i: nat, slot: Slot)
    requires i < |slots| && slot.Used?
    ensures UsedCount(slots[i := slot]) == UsedCount(slots) + if slots[i].Used? then 0 else 1
  {
    var last := |slots| - 1;
    if i == last {
      assert slots[i := slot][..last] == slots[..last];
    } else {
      assert slots[i := slot][..last] == slots[..last][i := slot];
      UsedCountUpdate(slots[..last], i, slot);
    }
  }

  lemma {:induction false} UsedCountFull(slots: seq<Slot>)
    ensures UsedCount(slots) == |slots| <==> forall i :: 0 <= i < |slots| ==> slots[i].Used?
  {
    if slots != [] {
      var last := |slots| - 1;
      UsedCountFull(slots[..last]);
      assert forall i :: 0 <= i < last ==> slots[..last][i] == slots[i];
    }
  }

  /** Every flow sits where its probing sequence finds it, behind used slots only. */
  ghost predicate Findable(slots: seq<Slot>, hash: Hash, flows: map<Key, Totals>, steps: map<Key, nat>)
    requires |slots| > 0
  {
    && steps.Keys == flows.Keys
    && (forall k :: k in steps ==>
          && steps[k] < |slots|
          && slots[Probe(hash, k, steps[k], |slots|)] == Used(k, flows[k]))
    && (forall k, j: nat :: k in steps && j < steps[k] ==> slots[Probe(hash, k, j, |slots|)].Used?)
  }

  /** Every used slot is its flow's only slot. */
  ghost predicate Owned(slots: seq<Slot>, hash: Hash, steps: map<Key, nat>)
    requires |slots| > 0
  {
    forall i :: 0 <= i < |slots| && slots[i].Used? ==>
      slots[i].key in steps && Probe(hash, slots[i].key, steps[slots[i].key], |slots|) == i
  }

  ghost predicate Represents(slots: seq<Slot>, hash: Hash, flows: map<Key, Totals>, steps: map<Key, nat>) {
    |slots| > 0 && Findable(slots, hash, flows, steps) && Owned(slots, hash, steps) && |flows| == UsedCount(slots)
  }

  /** What a table that represents a map looks like: its used slots hold the map's flows, each flow
      in exactly one slot, and they are as many as the map has flows. */
  lemma RepresentsMeans(slots: seq<Slot>, hash: Hash, flows: map<Key, Totals>, steps: map<Key, nat>, i: nat, j: nat)
    requires Represents(slots, hash, flows, steps) && i < |slots| && j < |slots|
    ensures slots[i].Used? ==> slots[i].key in flows && slots[i].totals == flows[slots[i].key]
    ensures slots[i].Used? && slots[j].Used? && slots[i].key == slots[j].key ==> i == j
    ensures forall k :: k in flows ==> exists n :: 0 <= n < |slots| && slots[n] == Used(k, flows[k])
    ensures UsedCount(slots) == |flows| <= |slots|
  {
    if slots[i].Used? {
      var k := slots[i].key;
      assert slots[Probe(hash, k, steps[k], |slots|)] == Used(k, flows[k]);
    }
    forall k | k in flows
      ensures exists n :: 0 <= n < |slots| && slots[n] == Used(k, flows[k])
    {
      assert slots[Probe(hash, k, steps[k], |slots|)] == Used(k, flows[k]);
    }
  }

  /** The probing sequence of `key` meets only other flows in its first `n` slots. */
  ghost predicate PassedOver(slots: seq<Slot>, hash: Hash, key: Key, n: nat)
    requires |slots| > 0
  {
    forall j: nat :: j < n ==>
      slots[Probe(hash, key, j, |slots|)].Used? && slots[Probe(hash, key, j, |slots|)].key != key
  }

  /** Reaching the key's own slot: the flow's totals grow and nothing else changes. */
  lemma Hit(slots: seq<Slot>, hash: Hash, flows: map<Key, Totals>, steps: map<Key, nat>, key: Key, n: nat, t: Totals)
    requires Represents(slots, hash, flows, steps)
    requires slots[Probe(hash, key, n, |slots|)].Used? && slots[Probe(hash, key, n, |slots|)].key == key
    ensures key in flows && slots[Probe(hash, key, n, |slots|)] == Used(key, flows[key])
    ensures Represents(slots[Probe(hash, key, n, |slots|) := Used(key, t)], hash, flows[key := t], steps)
  {
    hide Probe;
    var i := Probe(hash, key, n, |slots|);
    var after := slots[i := Used(key, t)];
    assert key in steps;
    assert flows[key := t].Keys == flows.Keys;
    UsedCountUpdate(slots, i, Used(key, t));
    forall k | k in steps
      ensures after[Probe(hash, k, steps[k], |after|)] == Used(k, flows[key := t][k])
    {
      if k != key {
        assert slots[Probe(hash, k, steps[k], |slots|)].key == k;
      }
    }
  }

  lemma NotTracked(slots: seq<Slot>, hash: Hash, flows: map<Key, Totals>, steps: map<Key, nat>, key: Key, n: nat)
    requires Represents(slots, hash, flows, steps) && PassedOver(slots, hash, key, n)
    requires n == |slots| || (n < |slots| && slots[Probe(hash, key, n, |slots|)].Free?)
    ensures key !in flows
  {
  }

  /** Reaching a free slot: the flow is new and the slot becomes its own. */
  lemma Insert(slots: seq<Slot>, hash: Hash, flows: map<Key, Totals>, steps: map<Key, nat>, key: Key, n: nat, t: Totals)
    requires Represents(slots, hash, flows, steps) && PassedOver(slots, hash, key, n)
    requires n < |slots| && slots[Probe(hash, key, n, |slots|)].Free?
    ensures key !in flows && |flows| < |slots|
    ensures Represents(slots[Probe(hash, key, n, |slots|) := Used(key, t)], hash, flows[key := t], steps[key := n])
  {
    hide Probe;
    NotTracked(slots, hash, flows, steps, key, n);
    var i := Probe(hash, key, n, |slots|);
    var after := slots[i := Used(key, t)];
    UsedCountUpdate(slots, i, Used(key, t));
    UsedCountFull(slots);
    assert flows[key := t].Keys == flows.Keys + {key};
    InsertFindable(slots, hash, flows, steps, key, n, t);
  }

  lemma InsertFindable(slots: seq<Slot>, hash: Hash, flows: map<Key, Totals>, steps: map<Key, nat>,
                       key: Key, n: nat, t: Totals)
    requires Represents(slots, hash, flows, steps) && PassedOver(slots, hash, key, n)
    requires n < |slots| && slots[Probe(hash, key, n, |slots|)].Free? && key !in flows
    ensures Findable(slots[Probe(hash, key, n, |slots|) := Used(key, t)], hash, flows[key := t], steps[key := n])
  {
    var i := Probe(hash, key, n, |slots|);
    var after := slots[i := Used(key, t)];
    assert forall j :: 0 <= j < |slots| && slots[j].Used? ==> after[j] == slots[j];
  }

  /** Trying every slot in vain: the flow is new and the table is full. */
  lemma Full(slots: seq<Slot>, hash: Hash, flows: map<Key, Totals>, steps: map<Key, nat>, key: Key)
    requires Represents(slots, hash, flows, steps) && PassedOver(slots, hash, key, |slots|)
    ensures key !in flows && |flows| == |slots|
  {
    NotTracked(slots, hash, flows, steps, key, |slots|);
    forall i: nat | i < |slots|
      ensures slots[i].Used?
    {
      var step := ProbeReaches(hash, key, |slots|, i);
    }
    UsedCountFull(slots);
  }

  lemma {:induction false} AllFree(slots: seq<Slot>)
    requires forall i :: 0 <= i < |slots| ==> slots[i].Free?
    ensures UsedCount(slots) == 0
  {
    if slots != [] {
      AllFree(slots[..|slots| - 1]);
    }
  }

  // ----- The table -----

  class Table {
    const hash: Hash
    const slots: array<Slot>
    var flowCount: nat
    ghost var flows: map<Key, Totals>
    ghost var steps: map<Key, nat>

    ghost predicate Valid()
      reads this, slots
    {
      Represents(slots[..], hash, flows, steps) && flowCount == |flows|
    }

    /** `ns_stats_init`: every slot free. */
    constructor (hash: Hash, capacity: nat)
      requires capacity > 0
      ensures Valid() && fresh(slots)
      ensures slots.Length == capacity && this.hash == hash && flows == map[] && flowCount == 0
    {
      this.hash := hash;
      slots := new Slot[capacity](_ => Free);
      flowCount := 0;
      flows, steps := map[], map[];
      new;
      AllFree(slots[..]);
    }

    /** The probing loop of `record_flow`: the number of slots passed over before the key's own
        slot or a free one, or all of them. */
    method Locate(key: Key) returns (step: nat)
      requires Valid()
      ensures step <= slots.Length && PassedOver(slots[..], hash, key, step)
      ensures step < slots.Length ==>
        var slot := slots[Probe(hash, key, step, slots.Length)];
        slot.Free? || slot.key == key
    {
      step := 0;
      while step < slots.Length
        invariant step <= slots.Length && PassedOver(slots[..], hash, key, step)
      {
        var slot := slots[Probe(hash, key, step, slots.Length)];
        if slot.Free? || slot.key == key {
          return;
        }
        step := step + 1;
      }
    }

    /** The flow's own slot was found. */
    method Bump(key: Key, step: nat, bytes: nat)
      requires Valid() && step < slots.Length
      requires slots[Probe(hash, key, step, slots.Length)].Used?
      requires slots[Probe(hash, key, step, slots.Length)].key == key
      modifies this, slots
      ensures Valid() && flows == Tally(old(flows), key, bytes, slots.Length)
    {
      hide Represents, Probe;
      var idx := Probe(hash, key, step, slots.Length);
      var t := Totals(slots[idx].totals.packets + 1, slots[idx].totals.bytes + bytes);
      ghost var after := slots[..][idx := Used(key, t)];
      Hit(slots[..], hash, flows, steps, key, step, t);
      assert |flows[key := t]| == |flows|;
      Store(idx, Used(key, t));
      assert slots[..] == after;
      flows := flows[key := t];
    }

    /** A free slot was found. Addresses come from 46-byte buffers, so that storing them in 46
        bytes cuts nothing off. */
    method Claim(key: Key, step: nat, bytes: nat)
      requires Valid() && step < slots.Length && PassedOver(slots[..], hash, key, step)
      requires slots[Probe(hash, key, step, slots.Length)].Free?
      requires |key.addrA| < ADDRESS_BUFFER && |key.addrB| < ADDRESS_BUFFER
      modifies this, slots
      ensures Valid() && flows == Tally(old(flows), key, bytes, slots.Length)
    {
      hide Represents, PassedOver, Probe;
      var t := Totals(1, bytes);
      var idx := Probe(hash, key, step, slots.Length);
      ghost var after := slots[..][idx := Used(key, t)];
      assert Represents(after, hash, flows[key := t], steps[key := step])
        && key !in flows && |flows| < slots.Length by {
        Insert(slots[..], hash, flows, steps, key, step, t);
      }
      assert |flows[key := t]| == |flows| + 1;
      var stored := key.(addrA := key.addrA[..Min(|key.addrA|, ADDRESS_BUFFER - 1)],
                         addrB := key.addrB[..Min(|key.addrB|, ADDRESS_BUFFER - 1)]);
      assert stored == key;
      Store(idx, Used(stored, t));
      assert slots[..] == after;
      flows, steps, flowCount := flows[key := t], steps[key := step], flowCount + 1;
    }

    /** `record_flow`: exactly one step of the bounded map. */
    method Record(proto: Proto, addrA: string, portA: u16, addrB: string, portB: u16, bytes: nat)
      requires Valid() && |addrA| < ADDRESS_BUFFER && |addrB| < ADDRESS_BUFFER
      modifies this, slots
      ensures Valid()
      ensures flows == Tally(old(flows), Canonical(proto, addrA, portA, addrB, portB), bytes, slots.Length)
    {
      hide Represents, PassedOver, Probe;
      var a, pa, b, pb := addrA, portA, addrB, portB;
      if Compare(a, b) > 0 || (Compare(a, b) == 0 && pa > pb) {
        a, pa, b, pb := b, pb, a, pa;
      }
      var key := Key(proto, a, pa, b, pb);
      var step := Locate(key);
      if step == slots.Length {
        Full(slots[..], hash, flows, steps, key);
      } else if slots[Probe(hash, key, step, slots.Length)].Used? {
        Bump(key, step, bytes);
      } else {
        Claim(key, step, bytes);
      }
    }

    method Store(i: nat, slot: Slot)
      requires i < slots.Length
      modifies slots
      ensures slots[..] == old(slots[..])[i := slot]
    {
      slots[i] := slot;
    }
  }
}
