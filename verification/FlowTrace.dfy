/** What the flow table holds after any run of packets. */
module FlowTrace {
  import opened Bytes
  import opened FlowTable

  datatype Event = Event(key: Key, bytes: nat)

  /** The table's map after a run, from the empty table. */
  function Replay(trace: seq<Event>, capacity: nat): map<Key, Totals> {
    if trace == [] then map[]
    else
      var last := trace[|trace| - 1];
      Tally(Replay(trace[..|trace| - 1], capacity), last.key, last.bytes, capacity)
  }

  /** The distinct flows of a run, in order of first appearance. */
  function FirstSeen(trace: seq<Event>): seq<Key> {
    if trace == [] then []
    else
      var seen, key := FirstSeen(trace[..|trace| - 1]), trace[|trace| - 1].key;
      if key in seen then seen else seen + [key]
  }

  function PacketsOf(trace: seq<Event>, key: Key): nat {
    if trace == [] then 0
    else PacketsOf(trace[..|trace| - 1], key) + if trace[|trace| - 1].key == key then 1 else 0
  }

  function BytesOf(trace: seq<Event>, key: Key): nat {
    if trace == [] then 0
    else BytesOf(trace[..|trace| - 1], key) + if trace[|trace| - 1].key == key then trace[|trace| - 1].bytes else 0
  }

  function Tracked(trace: seq<Event>, capacity: nat): seq<Key> {
    FirstSeen(trace)[..Min(|FirstSeen(trace)|, capacity)]
  }

  lemma {:induction false} UnseenIsZero(trace: seq<Event>, key: Key)
    ensures key !in FirstSeen(trace) ==> PacketsOf(trace, key) == 0 && BytesOf(trace, key) == 0
  {
    if trace != [] {
      UnseenIsZero(trace[..|trace| - 1], key);
    }
  }

  /** How one more packet changes the tracked flows. */
  lemma TrackedStep(trace: seq<Event>, capacity: nat)
    requires trace != []
    ensures var front, key := trace[..|trace| - 1], trace[|trace| - 1].key;
      var seen := FirstSeen(front);
      && |FirstSeen(trace)| == |seen| + (if key in seen then 0 else 1)
      && (|seen| <= capacity ==> Tracked(front, capacity) == seen)
      && Tracked(trace, capacity) ==
         if key !in seen && |seen| < capacity then Tracked(front, capacity) + [key] else Tracked(front, capacity)
  {
  }

  /** The totals of one more packet. */
  lemma TotalsStep(trace: seq<Event>, k: Key)
    requires trace != []
    ensures var front, last := trace[..|trace| - 1], trace[|trace| - 1];
      && PacketsOf(trace, k) == PacketsOf(front, k) + (if last.key == k then 1 else 0)
      && BytesOf(trace, k) == BytesOf(front, k) + (if last.key == k then last.bytes else 0)
  {
  }

  /** The map holds exactly the first `capacity` distinct flows of the run, each with its exact
      totals over the entire run. */
  ghost predicate Exact(m: map<Key, Totals>, trace: seq<Event>, capacity: nat) {
    && (forall k :: k in m <==> k in Tracked(trace, capacity))
    && |m| == Min(|FirstSeen(trace)|, capacity)
    && (forall k :: k in m ==> m[k] == Totals(PacketsOf(trace, k), BytesOf(trace, k)))
  }

  lemma ExactStep(m: map<Key, Totals>, trace: seq<Event>, capacity: nat)
    requires trace != [] && Exact(m, trace[..|trace| - 1], capacity)
    ensures var last := trace[|trace| - 1];
      Exact(Tally(m, last.key, last.bytes, capacity), trace, capacity)
  {
    hide Tracked, FirstSeen, PacketsOf, BytesOf;
    var front, last := trace[..|trace| - 1], trace[|trace| - 1];
    var after := Tally(m, last.key, last.bytes, capacity);
    TrackedStep(trace, capacity);
    UnseenIsZero(front, last.key);
    forall k | k in after
      ensures after[k] == Totals(PacketsOf(trace, k), BytesOf(trace, k))
    {
      TotalsStep(trace, k);
    }
  }

  /** The whole-run theorem. */
  lemma {:induction false} ReplayIsExact(trace: seq<Event>, capacity: nat)
    ensures Exact(Replay(trace, capacity), trace, capacity)
  {
    if trace != [] {
      ReplayIsExact(trace[..|trace| - 1], capacity);
      ExactStep(Replay(trace[..|trace| - 1], capacity), trace, capacity);
    }
  }

  // ----- Order -----

  function KeysOf(trace: seq<Event>): set<Key> {
    set e | e in trace :: e.key
  }

  lemma {:induction false} FirstSeenKeys(trace: seq<Event>)
    ensures forall k :: k in FirstSeen(trace) <==> k in KeysOf(trace)
    ensures |FirstSeen(trace)| == |KeysOf(trace)|
  {
    if trace != [] {
      var front, last := trace[..|trace| - 1], trace[|trace| - 1];
      FirstSeenKeys(front);
      assert trace == front + [last];
      assert KeysOf(trace) == KeysOf(front) + {last.key};
      if last.key in FirstSeen(front) {
        assert KeysOf(trace) == KeysOf(front);
      } else {
        assert FirstSeen(trace) == FirstSeen(front) + [last.key];
      }
    }
  }

  lemma {:induction false} TotalsWithout(trace: seq<Event>, i: nat, key: Key)
    requires i < |trace|
    ensures var rest, e := trace[..i] + trace[i + 1..], trace[i];
      && PacketsOf(trace, key) == PacketsOf(rest, key) + (if e.key == key then 1 else 0)
      && BytesOf(trace, key) == BytesOf(rest, key) + (if e.key == key then e.bytes else 0)
  {
    var last := |trace| - 1;
    var rest := trace[..i] + trace[i + 1..];
    if i == last {
      assert rest == trace[..last];
    } else {
      var front := trace[..last];
      var fewer := front[..i] + front[i + 1..];
      TotalsWithout(front, i, key);
      assert rest == fewer + [trace[last]];
      assert rest[..|rest| - 1] == fewer;
    }
  }

  lemma Without<A>(xs: seq<A>, i: nat)
    requires i < |xs|
    ensures multiset(xs[..i] + xs[i + 1..]) == multiset(xs) - multiset{xs[i]}
  {
    assert xs == xs[..i] + [xs[i]] + xs[i + 1..];
  }

  lemma {:induction false} TotalsPermute(a: seq<Event>, b: seq<Event>, key: Key)
    requires multiset(a) == multiset(b)
    ensures PacketsOf(a, key) == PacketsOf(b, key) && BytesOf(a, key) == BytesOf(b, key)
  {
    if a == [] {
      assert |b| == |multiset(b)| == 0;
    } else {
      var front, e := a[..|a| - 1], a[|a| - 1];
      Without(a, |a| - 1);
      assert a[..|a| - 1] + a[|a|..] == front;
      assert e in multiset(b);
      var i :| 0 <= i < |b| && b[i] == e;
      Without(b, i);
      TotalsWithout(b, i, key);
      TotalsPermute(front, b[..i] + b[i + 1..], key);
    }
  }

  /** While the distinct flows fit, the order of the packets does not matter. */
  lemma ReplayIgnoresOrder(a: seq<Event>, b: seq<Event>, capacity: nat)
    requires multiset(a) == multiset(b) && |KeysOf(a)| <= capacity
    ensures Replay(a, capacity) == Replay(b, capacity)
  {
    assert forall e :: e in a <==> e in multiset(a);
    assert forall e :: e in b <==> e in multiset(b);
    assert KeysOf(a) == KeysOf(b);
    ReplayTotals(a, capacity);
    ReplayTotals(b, capacity);
    forall k | k in KeysOf(a)
      ensures Replay(a, capacity)[k] == Replay(b, capacity)[k]
    {
      TotalsPermute(a, b, k);
    }
  }

  lemma ReplayTotals(trace: seq<Event>, capacity: nat)
    requires |KeysOf(trace)| <= capacity
    ensures Replay(trace, capacity).Keys == KeysOf(trace)
    ensures forall k :: k in KeysOf(trace) ==>
      Replay(trace, capacity)[k] == Totals(PacketsOf(trace, k), BytesOf(trace, k))
  {
    ReplayIsExact(trace, capacity);
    FirstSeenKeys(trace);
    assert Tracked(trace, capacity) == FirstSeen(trace);
  }
}
