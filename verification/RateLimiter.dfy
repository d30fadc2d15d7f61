/** The identity-based rate limiter of the allowed-signers endpoint: an LRU cache of
    deadlines, compared with an unbounded map that never forgets a caller.
    Callers read the clock before they queue for the limiter, so call times need not be ordered. */
module RateLimiter {
  import opened Wrappers

  datatype Entry = Entry(identity: string, deadline: nat)
  datatype Call = Call(identity: string, time: nat)

  // ---------- recency lists, most recent first ----------

  predicate Distinct(entries: seq<Entry>) {
    forall i, j :: 0 <= i < j < |entries| ==> entries[i].identity != entries[j].identity
  }

  function Lookup(entries: seq<Entry>, id: string): Option<nat> {
    if entries == [] then None
    else if entries[0].identity == id then Some(entries[0].deadline)
    else Lookup(entries[1..], id)
  }

  function Remove(entries: seq<Entry>, id: string): seq<Entry> {
    if entries == [] then []
    else if entries[0].identity == id then entries[1..]
    else [entries[0]] + Remove(entries[1..], id)
  }

  function Take(entries: seq<Entry>, n: nat): seq<Entry> {
    if |entries| <= n then entries else entries[..n]
  }

  /** `LruCache::push`: the contents afterwards. */
  function Pushed(entries: seq<Entry>, capacity: nat, e: Entry): seq<Entry>
    requires capacity > 0
  {
    if Lookup(entries, e.identity).Some? then [e] + Remove(entries, e.identity)
    else if |entries| < capacity then [e] + entries
    else [e] + Take(entries, capacity - 1)
  }

  /** `LruCache::push`: the replaced entry of the same key, or the evicted least recent one. */
  function Displaced(entries: seq<Entry>, capacity: nat, e: Entry): Option<Entry>
    requires capacity > 0
  {
    match Lookup(entries, e.identity)
    case Some(deadline) => Some(Entry(e.identity, deadline))
    case None => if |entries| < capacity then None else Some(entries[|entries| - 1])
  }

  // ---------- what the history of calls says ----------

  /** The last call of `id`, or -1. */
  function LastCall(calls: seq<Call>, id: string): (j: int)
    ensures -1 <= j < |calls|
    ensures j >= 0 ==> calls[j].identity == id
    ensures forall k :: j < k < |calls| ==> calls[k].identity != id
  {
    if calls == [] then -1
    else if calls[|calls| - 1].identity == id then |calls| - 1
    else LastCall(calls[..|calls| - 1], id)
  }

  function CallersSince(calls: seq<Call>, j: int): set<string>
    requires j >= -1
  {
    set k | j < k < |calls| :: calls[k].identity
  }

  /** The verdict of an unbounded map from callers to the end of their cooldown. */
  predicate MapDenies(calls: seq<Call>, cooldown: nat, id: string, now: nat) {
    var j := LastCall(calls, id);
    j >= 0 && now < calls[j].time + cooldown
  }

  /** All callers ever seen, most recent first, with the end of their cooldown. */
  function Recency(calls: seq<Call>, cooldown: nat): seq<Entry> {
    if calls == [] then []
    else
      var last := calls[|calls| - 1];
      [Entry(last.identity, last.time + cooldown)] + Remove(Recency(calls[..|calls| - 1], cooldown), last.identity)
  }

  /** The identities listed before `id`. */
  function Ahead(entries: seq<Entry>, id: string): set<string> {
    if entries == [] || entries[0].identity == id then {}
    else {entries[0].identity} + Ahead(entries[1..], id)
  }

  lemma {:induction false} LookupAbsent(entries: seq<Entry>, id: string)
    ensures Lookup(entries, id).None? <==> forall e :: e in entries ==> e.identity != id
    ensures Lookup(entries, id).Some? ==> Entry(id, Lookup(entries, id).value) in entries
  {
    if entries != [] {
      LookupAbsent(entries[1..], id);
      assert entries == [entries[0]] + entries[1..];
    }
  }

  lemma {:induction false} RemoveFacts(entries: seq<Entry>, x: string)
    requires Distinct(entries)
    ensures Distinct(Remove(entries, x))
    ensures forall e :: e in Remove(entries, x) <==> e in entries && e.identity != x
  {
    if entries != [] {
      assert entries == [entries[0]] + entries[1..];
      if entries[0].identity != x {
        RemoveFacts(entries[1..], x);
      }
    }
  }

  lemma {:induction false} RemoveKeepsOthers(entries: seq<Entry>, x: string, id: string)
    requires Distinct(entries) && x != id
    ensures Lookup(Remove(entries, x), id) == Lookup(entries, id)
    ensures Lookup(entries, id).Some? ==> Ahead(Remove(entries, x), id) == Ahead(entries, id) - {x}
  {
    if entries != [] {
      if entries[0].identity == x {
        AheadIsListed(entries[1..], id);
      } else {
        RemoveKeepsOthers(entries[1..], x, id);
        assert Remove(entries, x)[1..] == Remove(entries[1..], x);
      }
    }
  }

  function Names(entries: seq<Entry>): set<string> {
    set e | e in entries :: e.identity
  }

  lemma {:induction false} AheadIsListed(entries: seq<Entry>, id: string)
    ensures Ahead(entries, id) <= Names(entries)
  {
    if entries != [] && entries[0].identity != id {
      AheadIsListed(entries[1..], id);
      assert Names(entries[1..]) <= Names(entries);
      assert entries[0] in entries;
    }
  }

  /** Looking up and removing an identity act on its first entry. */
  lemma {:induction false} FoundAt(entries: seq<Entry>, i: nat)
    requires i < |entries| && forall j :: 0 <= j < i ==> entries[j].identity != entries[i].identity
    ensures Lookup(entries, entries[i].identity) == Some(entries[i].deadline)
    ensures Remove(entries, entries[i].identity) == entries[..i] + entries[i + 1..]
  {
    if i > 0 {
      FoundAt(entries[1..], i - 1);
    }
  }

  /** A prefix of a recency list holds exactly the callers with fewer than `n` others ahead of them. */
  lemma {:induction false} LookupInPrefix(entries: seq<Entry>, n: nat, id: string)
    requires Distinct(entries)
    ensures Lookup(Take(entries, n), id)
         == if |Ahead(entries, id)| < n then Lookup(entries, id) else None
  {
    if entries == [] || n == 0 {
      assert Take(entries, n) == [];
    } else {
      var head, tail := entries[0], entries[1..];
      assert entries == [head] + tail;
      TakeCons(head, tail, n);
      LookupCons(head, Take(tail, n - 1), id);
      if head.identity != id {
        AheadGrows(entries, id);
        LookupInPrefix(tail, n - 1, id);
      }
    }
  }

  lemma AheadGrows(entries: seq<Entry>, id: string)
    requires Distinct(entries) && entries != [] && entries[0].identity != id
    ensures |Ahead(entries, id)| == 1 + |Ahead(entries[1..], id)|
  {
    AheadIsListed(entries[1..], id);
    assert entries[0].identity !in Names(entries[1..]);
  }

  lemma LookupCons(head: Entry, tail: seq<Entry>, id: string)
    ensures Lookup([head] + tail, id) == if head.identity == id then Some(head.deadline) else Lookup(tail, id)
  {
    assert ([head] + tail)[1..] == tail;
  }

  lemma {:induction false} RemoveFromPrefix(entries: seq<Entry>, n: nat, x: string)
    requires n > 0
    ensures Take(Remove(entries, x), n - 1)
         == if Lookup(Take(entries, n), x).Some? then Remove(Take(entries, n), x) else Take(entries, n - 1)
  {
    if entries == [] || entries[0].identity == x {
    } else {
      var head, tail := entries[0], entries[1..];
      if n == 1 {
        assert Take(entries, 1) == [head];
        assert Lookup([head], x) == Lookup([head][1..], x) == None;
      } else {
        RemoveFromPrefix(tail, n - 1, x);
        TakeCons(head, tail, n);
        TakeCons(head, tail, n - 1);
        TakeCons(head, Remove(tail, x), n - 1);
        assert entries == [head] + tail;
        var kept := [head] + Take(tail, n - 1);
        assert kept[1..] == Take(tail, n - 1);
      }
    }
  }

  lemma TakeCons(head: Entry, tail: seq<Entry>, n: nat)
    requires n > 0
    ensures Take([head] + tail, n) == [head] + Take(tail, n - 1)
  {
  }

  /** The bounded cache commutes with truncation: it always holds a prefix of the full recency list. */
  lemma PushTruncates(all: seq<Entry>, capacity: nat, e: Entry)
    requires capacity > 0
    ensures Pushed(Take(all, capacity), capacity, e) == Take([e] + Remove(all, e.identity), capacity)
  {
    RemoveFromPrefix(all, capacity, e.identity);
    var rest := Remove(all, e.identity);
    assert Take([e] + rest, capacity) == [e] + Take(rest, capacity - 1);
  }

  lemma {:induction false} RecencyIsDistinct(calls: seq<Call>, cooldown: nat)
    ensures Distinct(Recency(calls, cooldown))
  {
    if calls != [] {
      RecencyIsDistinct(calls[..|calls| - 1], cooldown);
      RemoveFacts(Recency(calls[..|calls| - 1], cooldown), calls[|calls| - 1].identity);
    }
  }

  lemma CallersSinceOneMore(calls: seq<Call>, last: Call, j: int)
    requires -1 <= j < |calls|
    ensures CallersSince(calls + [last], j) == {last.identity} + CallersSince(calls, j)
  {
    var all := calls + [last];
    assert all[|calls|] == last;
    assert forall k :: 0 <= k < |calls| ==> all[k] == calls[k];
  }

  /** `entries` lists `id` with the deadline of its last call, behind those who called since. */
  ghost predicate Ranks(entries: seq<Entry>, calls: seq<Call>, cooldown: nat, id: string) {
    var j := LastCall(calls, id);
    if j < 0 then Lookup(entries, id) == None
    else && Lookup(entries, id) == Some(calls[j].time + cooldown)
         && Ahead(entries, id) == CallersSince(calls, j)
  }

  lemma RanksOneMore(older: seq<Entry>, before: seq<Call>, last: Call, cooldown: nat, id: string)
    requires Distinct(older) && Ranks(older, before, cooldown, id) && last.identity != id
    ensures Ranks([Entry(last.identity, last.time + cooldown)] + Remove(older, last.identity), before + [last],
                  cooldown, id)
  {
    var calls := before + [last];
    var head, rest := Entry(last.identity, last.time + cooldown), Remove(older, last.identity);
    assert calls[..|calls| - 1] == before && ([head] + rest)[1..] == rest;
    RemoveKeepsOthers(older, last.identity, id);
    LookupCons(head, rest, id);
    if LastCall(before, id) >= 0 {
      CallersSinceOneMore(before, last, LastCall(before, id));
    }
  }

  lemma RanksCaller(rest: seq<Entry>, before: seq<Call>, last: Call, cooldown: nat)
    ensures Ranks([Entry(last.identity, last.time + cooldown)] + rest, before + [last], cooldown, last.identity)
  {
    assert CallersSince(before + [last], |before|) == {};
  }

  /** The recency list orders callers by how many distinct others called since. */
  lemma {:induction false} RecencyMeaning(calls: seq<Call>, cooldown: nat, id: string)
    ensures Ranks(Recency(calls, cooldown), calls, cooldown, id)
  {
    if calls != [] {
      var before, last := calls[..|calls| - 1], calls[|calls| - 1];
      assert calls == before + [last];
      RecencyOneMore(before, last, cooldown);
      if last.identity == id {
        RanksCaller(Remove(Recency(before, cooldown), id), before, last, cooldown);
      } else {
        RecencyMeaning(before, cooldown, id);
        RecencyIsDistinct(before, cooldown);
        RanksOneMore(Recency(before, cooldown), before, last, cooldown, id);
      }
    }
  }

  lemma RecencyOneMore(calls: seq<Call>, last: Call, cooldown: nat)
    ensures Recency(calls + [last], cooldown)
         == [Entry(last.identity, last.time + cooldown)] + Remove(Recency(calls, cooldown), last.identity)
  {
    assert (calls + [last])[..|calls|] == calls;
  }

  /** The exact verdict of the limiter, from the history alone: a call is denied precisely when the
      unbounded map denies it and fewer than `capacity` distinct others called in between. */
  predicate Denied(calls: seq<Call>, capacity: nat, cooldown: nat, id: string, now: nat) {
    && MapDenies(calls, cooldown, id, now)
    && |CallersSince(calls, LastCall(calls, id))| < capacity
  }

  lemma VerdictFromHistory(calls: seq<Call>, capacity: nat, cooldown: nat, id: string, now: nat)
    ensures var seen := Lookup(Take(Recency(calls, cooldown), capacity), id);
            Denied(calls, capacity, cooldown, id, now) <==> seen.Some? && now < seen.value
  {
    RecencyMeaning(calls, cooldown, id);
    RecencyIsDistinct(calls, cooldown);
    LookupInPrefix(Recency(calls, cooldown), capacity, id);
  }

  class Limiter {
    const capacity: nat
    const cooldown: nat
    var entries: seq<Entry>
    /** Every call so far, in the order the limiter's mutex was granted. */
    ghost var calls: seq<Call>

    ghost predicate Valid()
      reads this
    {
      && capacity > 0
      && entries == Take(Recency(calls, cooldown), capacity)
    }

    constructor (capacity: nat, cooldown: nat)
      requires capacity > 0
      ensures Valid() && calls == [] && entries == []
      ensures this.capacity == capacity && this.cooldown == cooldown
    {
      this.capacity, this.cooldown := capacity, cooldown;
      entries, calls := [], [];
    }

    /** `LruCache::push`: find the key, take its entry out or make room, and put the new one in front. */
    method Push(e: Entry) returns (displaced: Option<Entry>)
      requires |entries| <= capacity && capacity > 0
      modifies this`entries
      ensures entries == Pushed(old(entries), capacity, e)
      ensures displaced == Displaced(old(entries), capacity, e)
      ensures |entries| <= capacity && entries[0] == e
    {
      var i := 0;
      while i < |entries| && entries[i].identity != e.identity
        invariant i <= |entries| && entries == old(entries)
        invariant forall j :: 0 <= j < i ==> entries[j].identity != e.identity
      {
        i := i + 1;
      }
      if i < |entries| {
        FoundAt(entries, i);
        displaced := Some(entries[i]);
        entries := entries[..i] + entries[i + 1..];
      } else {
        LookupAbsent(entries, e.identity);
        displaced := None;
        if |entries| == capacity {
          displaced := Some(entries[|entries| - 1]);
          entries := entries[..|entries| - 1];
        }
      }
      entries := [e] + entries;
    }

    /** `is_rate_limited`: over any run, its answers are those of `Denied`. */
    method IsRateLimited(identity: string, now: nat) returns (limited: bool)
      requires Valid()
      modifies this
      ensures Valid()
      ensures calls == old(calls) + [Call(identity, now)]
      ensures limited <==> Denied(old(calls), capacity, cooldown, identity, now)
    {
      VerdictFromHistory(calls, capacity, cooldown, identity, now);
      PushTruncates(Recency(calls, cooldown), capacity, Entry(identity, now + cooldown));
      LookupAbsent(entries, identity);

      var removed := Push(Entry(identity, now + cooldown));
      RecencyOneMore(calls, Call(identity, now), cooldown);
      calls := calls + [Call(identity, now)];

      if removed.None? {
        limited := false;
      } else if removed.value.identity != identity {
        limited := false;
      } else {
        limited := now < removed.value.deadline;
      }
    }
  }
}
