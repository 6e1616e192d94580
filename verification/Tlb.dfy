/** The CPU's address translation: the page walk and the translation look-aside buffer
    (TLB) with FIFO or LRU replacement. */
module Tlb {
  import opened Arithmetic
  import opened PageTables

  datatype Algorithm = Fifo | Lru

  datatype Key = Key(page: nat, pid: int)

  datatype TlbEntry = TlbEntry(key: Key, frame: int, timestamp: nat)

  datatype State = State(entries: seq<TlbEntry>, fifoPointer: nat, clock: nat)

  predicate WellFormed(capacity: nat, s: State) {
    |s.entries| <= capacity && (capacity > 0 ==> s.fifoPointer < capacity)
  }

  // --- One access on values ------------------------------------------------

  /** The first entry with a key; the number of entries when there is none. */
  function IndexOf(entries: seq<TlbEntry>, key: Key): (i: nat)
    ensures i <= |entries|
    ensures i < |entries| ==> entries[i].key == key
    ensures forall j: nat | j < i :: entries[j].key != key
  {
    IndexFrom(entries, key, 0)
  }

  function IndexFrom(entries: seq<TlbEntry>, key: Key, from: nat): (i: nat)
    requires from <= |entries|
    ensures from <= i <= |entries|
    ensures i < |entries| ==> entries[i].key == key
    ensures forall j: nat | from <= j < i :: entries[j].key != key
    decreases |entries| - from
  {
    if from == |entries| || entries[from].key == key then from else IndexFrom(entries, key, from + 1)
  }

  /** The first entry with the least timestamp. */
  function Least(entries: seq<TlbEntry>): (i: nat)
    requires entries != []
    ensures i < |entries|
    ensures forall j: nat | j < |entries| :: entries[i].timestamp <= entries[j].timestamp
    ensures forall j: nat | j < i :: entries[i].timestamp < entries[j].timestamp
  {
    var last := |entries| - 1;
    if last == 0 then 0
    else
      var i := Least(entries[..last]);
      if entries[last].timestamp < entries[i].timestamp then last else i
  }

  function Victim(algorithm: Algorithm, s: State): nat
    requires s.entries != []
  {
    if algorithm.Fifo? then s.fifoPointer else Least(s.entries)
  }

  function Hit(algorithm: Algorithm, s: State, i: nat): State
    requires i < |s.entries|
  {
    if algorithm.Fifo? then s
    else s.(entries := s.entries[i := s.entries[i].(timestamp := s.clock)], clock := s.clock + 1)
  }

  /** A hit under FIFO changes nothing; under LRU it gives the entry the next timestamp and
      leaves keys, frames and all other entries. */
  lemma HitIsExact(algorithm: Algorithm, s: State, i: nat, j: nat)
    requires i < |s.entries| && j < |s.entries|
    ensures algorithm.Fifo? ==> Hit(algorithm, s, i) == s
    ensures algorithm.Lru? ==> |Hit(algorithm, s, i).entries| == |s.entries|
    ensures algorithm.Lru? ==> Hit(algorithm, s, i).fifoPointer == s.fifoPointer && Hit(algorithm, s, i).clock == s.clock + 1
    ensures algorithm.Lru? ==> Hit(algorithm, s, i).entries[j]
                               == TlbEntry(s.entries[j].key, s.entries[j].frame, if j == i then s.clock else s.entries[j].timestamp)
  {
  }

  function Add(capacity: nat, algorithm: Algorithm, s: State, key: Key, frame: int): (s': State)
    requires WellFormed(capacity, s)
    ensures WellFormed(capacity, s')
  {
    var entry := TlbEntry(key, frame, s.clock);
    if capacity == 0 then s
    else if |s.entries| < capacity then s.(entries := s.entries + [entry], clock := s.clock + 1)
    else
      var victim := Victim(algorithm, s);
      State(s.entries[victim := entry], if algorithm.Fifo? then (s.fifoPointer + 1) % capacity else s.fifoPointer, s.clock + 1)
  }

  /** The state and the frame after one translation; `walked` is what a page walk answers. */
  function Access(capacity: nat, algorithm: Algorithm, s: State, key: Key, walked: int): (r: (State, int))
    requires WellFormed(capacity, s)
    ensures WellFormed(capacity, r.0)
  {
    var i := IndexOf(s.entries, key);
    if i < |s.entries| then (Hit(algorithm, s, i), s.entries[i].frame)
    else (Add(capacity, algorithm, s, key, walked), walked)
  }

  /** Eviction of a process empties the TLB and leaves pointer and clock where they are. */
  function Flushed(s: State): State {
    s.(entries := [])
  }

  // --- Runs ----------------------------------------------------------------

  datatype Event = Translate(key: Key) | Flush

  ghost function Step(capacity: nat, algorithm: Algorithm, s: State, e: Event, walk: Key -> int): (s': State)
    requires WellFormed(capacity, s)
    ensures WellFormed(capacity, s')
  {
    match e
    case Translate(key) => Access(capacity, algorithm, s, key, walk(key)).0
    case Flush => Flushed(s)
  }

  ghost function Run(capacity: nat, algorithm: Algorithm, trace: seq<Event>, walk: Key -> int): (s: State)
    ensures WellFormed(capacity, s)
  {
    if trace == [] then State([], 0, 0)
    else Step(capacity, algorithm, Run(capacity, algorithm, trace[..|trace| - 1], walk), trace[|trace| - 1], walk)
  }

  /** No key is kept twice and every entry holds what the page walk answers. */
  ghost predicate Faithful(s: State, walk: Key -> int) {
    && (forall i: nat, j: nat | i < j < |s.entries| :: s.entries[i].key != s.entries[j].key)
    && (forall i: nat | i < |s.entries| :: s.entries[i].frame == walk(s.entries[i].key))
  }

  lemma StepIsFaithful(capacity: nat, algorithm: Algorithm, s: State, e: Event, walk: Key -> int)
    requires WellFormed(capacity, s) && Faithful(s, walk)
    ensures Faithful(Step(capacity, algorithm, s, e, walk), walk)
    ensures e.Translate? ==> Access(capacity, algorithm, s, e.key, walk(e.key)).1 == walk(e.key)
  {
  }

  lemma {:induction false} RunIsFaithful(capacity: nat, algorithm: Algorithm, trace: seq<Event>, walk: Key -> int)
    ensures Faithful(Run(capacity, algorithm, trace, walk), walk)
  {
    if trace != [] {
      RunIsFaithful(capacity, algorithm, trace[..|trace| - 1], walk);
      StepIsFaithful(capacity, algorithm, Run(capacity, algorithm, trace[..|trace| - 1], walk), trace[|trace| - 1], walk);
    }
  }

  /** After any run, with either algorithm and any capacity, a translation answers what a
      page walk answers, hit or miss, and the TLB stays within its capacity. */
  lemma TranslationIsTransparent(capacity: nat, algorithm: Algorithm, trace: seq<Event>, walk: Key -> int, key: Key)
    ensures var s := Run(capacity, algorithm, trace, walk);
            var (after, frame) := Access(capacity, algorithm, s, key, walk(key));
            frame == walk(key) && |after.entries| <= capacity && Faithful(after, walk)
  {
    RunIsFaithful(capacity, algorithm, trace, walk);
    RunIsFaithful(capacity, algorithm, trace + [Translate(key)], walk);
    assert (trace + [Translate(key)])[..|trace|] == trace;
  }

  // --- LRU -----------------------------------------------------------------

  /** A list without the element at one position. */
  function Drop(keys: seq<Key>, at: nat): seq<Key> {
    if at < |keys| then keys[..at] + keys[at + 1..] else keys
  }

  /** The first position of a key in a list; the list's length when it is not there. */
  function Position(keys: seq<Key>, key: Key): (at: nat)
    ensures at <= |keys| && (at < |keys| ==> keys[at] == key) && key !in keys[..at]
  {
    PositionFrom(keys, key, 0)
  }

  function PositionFrom(keys: seq<Key>, key: Key, from: nat): (at: nat)
    requires from <= |keys|
    ensures from <= at <= |keys| && (at < |keys| ==> keys[at] == key) && key !in keys[from..at]
    decreases |keys| - from
  {
    if from == |keys| || keys[from] == key then from else PositionFrom(keys, key, from + 1)
  }

  /** The distinct keys used since the last flush, the most recent one first. */
  ghost function RecentKeys(trace: seq<Event>): seq<Key> {
    if trace == [] then []
    else
      var before := RecentKeys(trace[..|trace| - 1]);
      match trace[|trace| - 1]
      case Translate(key) => [key] + Drop(before, Position(before, key))
      case Flush => []
  }

  ghost predicate Distinct(keys: seq<Key>) {
    forall i: nat, j: nat | i < j < |keys| :: keys[i] != keys[j]
  }

  lemma DistinctAfterUse(keys: seq<Key>, key: Key)
    requires Distinct(keys)
    ensures Distinct([key] + Drop(keys, Position(keys, key)))
  {
  }

  lemma {:induction false} RecentKeysDistinct(trace: seq<Event>)
    ensures Distinct(RecentKeys(trace))
  {
    if trace != [] && trace[|trace| - 1].Translate? {
      RecentKeysDistinct(trace[..|trace| - 1]);
      DistinctAfterUse(RecentKeys(trace[..|trace| - 1]), trace[|trace| - 1].key);
    }
  }

  function KeysOf(s: State): set<Key> {
    set i: nat | i < |s.entries| :: s.entries[i].key
  }

  ghost predicate UniqueKeys(entries: seq<TlbEntry>) {
    forall i: nat, j: nat | i < j < |entries| :: entries[i].key != entries[j].key
  }

  /** The timestamp of a key's entry, -1 without entry. */
  ghost function Stamp(entries: seq<TlbEntry>, key: Key): int {
    var i := IndexOf(entries, key);
    if i < |entries| then entries[i].timestamp else -1
  }

  /** Every key of a list was used later than the keys behind it. */
  ghost predicate LatestFirst(entries: seq<TlbEntry>, keys: seq<Key>) {
    forall q: nat, r: nat | q < r < |keys| :: Stamp(entries, keys[r]) < Stamp(entries, keys[q])
  }

  /** The keys with an entry are those of a list, used later the earlier in the list. */
  ghost predicate Ranked(s: State, kept: seq<Key>) {
    && (forall k: Key :: Stamp(s.entries, k) >= 0 <==> k in kept)
    && (forall k: Key :: Stamp(s.entries, k) < s.clock)
    && LatestFirst(s.entries, kept)
  }

  lemma DropMembers(keys: seq<Key>, at: nat, k: Key)
    requires Distinct(keys) && at <= |keys|
    ensures k in Drop(keys, at) <==> k in keys && !(at < |keys| && k == keys[at])
  {
    var rest := Drop(keys, at);
    if k in rest {
      var q: nat :| q < |rest| && rest[q] == k;
      assert keys[if q < at then q else q + 1] == k;
    }
    if k in keys && at < |keys| && k != keys[at] {
      var q: nat :| q < |keys| && keys[q] == k;
      assert rest[if q < at then q else q - 1] == k;
    }
  }

  lemma DropOrder(entries: seq<TlbEntry>, keys: seq<Key>, at: nat)
    requires LatestFirst(entries, keys) && at <= |keys|
    ensures LatestFirst(entries, Drop(keys, at))
  {
    var rest := Drop(keys, at);
    forall q: nat, r: nat | q < r < |rest|
      ensures Stamp(entries, rest[r]) < Stamp(entries, rest[q])
    {
      assert rest[r] == keys[if r < at then r else r + 1] && rest[q] == keys[if q < at then q else q + 1];
    }
  }

  lemma UseOrder(entries: seq<TlbEntry>, entries': seq<TlbEntry>, key: Key, rest: seq<Key>)
    requires LatestFirst(entries, rest)
    requires forall q: nat | q < |rest| :: Stamp(entries', rest[q]) == Stamp(entries, rest[q]) < Stamp(entries', key)
    ensures LatestFirst(entries', [key] + rest)
  {
    var keys := [key] + rest;
    forall q: nat, r: nat | q < r < |keys|
      ensures Stamp(entries', keys[r]) < Stamp(entries', keys[q])
    {
      assert keys[r] == rest[r - 1];
      assert q > 0 ==> keys[q] == rest[q - 1];
    }
  }

  /** The stamps after one access: `key` has the newest one, the key at `at` lost its own. */
  ghost predicate Restamped(s: State, s': State, kept: seq<Key>, key: Key, at: nat) {
    && s'.clock == s.clock + 1
    && forall k: Key :: Stamp(s'.entries, k)
         == if k == key then s.clock else if at < |kept| && k == kept[at] then -1 else Stamp(s.entries, k)
  }

  /** One access as the ranking sees it: `key` comes to the front, the key at `at` goes. */
  lemma RankedStep(s: State, s': State, kept: seq<Key>, key: Key, at: nat)
    requires Ranked(s, kept) && Distinct(kept) && at <= |kept| && key !in Drop(kept, at)
    requires Restamped(s, s', kept, key, at)
    ensures Ranked(s', [key] + Drop(kept, at))
  {
    var rest := Drop(kept, at);
    forall k: Key
      ensures Stamp(s'.entries, k) >= 0 <==> k in [key] + rest
    {
      DropMembers(kept, at, k);
    }
    DropOrder(s.entries, kept, at);
    forall q: nat | q < |rest|
      ensures Stamp(s'.entries, rest[q]) == Stamp(s.entries, rest[q]) < Stamp(s'.entries, key)
    {
      DropMembers(kept, at, rest[q]);
    }
    UseOrder(s.entries, s'.entries, key, rest);
  }

  lemma StampAfterHit(entries: seq<TlbEntry>, i: nat, clock: nat, k: Key)
    requires i < |entries| && UniqueKeys(entries)
    ensures Stamp(entries[i := entries[i].(timestamp := clock)], k)
         == if k == entries[i].key then clock else Stamp(entries, k)
  {
    var after := entries[i := entries[i].(timestamp := clock)];
    var a, b := IndexOf(entries, k), IndexOf(after, k);
    assert a < |entries| ==> after[a].key == k;
    assert b < |entries| ==> entries[b].key == k;
    assert after[i].key == entries[i].key;
  }

  lemma StampAfterAppend(entries: seq<TlbEntry>, e: TlbEntry, k: Key)
    requires IndexOf(entries, e.key) == |entries|
    ensures Stamp(entries + [e], k) == if k == e.key then e.timestamp else Stamp(entries, k)
  {
    var a, b := IndexOf(entries, k), IndexOf(entries + [e], k);
    assert a < |entries| ==> (entries + [e])[a].key == k;
    assert b < |entries| ==> entries[b].key == k;
    assert (entries + [e])[|entries|].key == e.key;
  }

  lemma StampAfterReplace(entries: seq<TlbEntry>, v: nat, e: TlbEntry, k: Key)
    requires v < |entries| && IndexOf(entries, e.key) == |entries| && UniqueKeys(entries)
    ensures Stamp(entries[v := e], k)
         == if k == e.key then e.timestamp else if k == entries[v].key then -1 else Stamp(entries, k)
  {
    var after := entries[v := e];
    var a, b := IndexOf(entries, k), IndexOf(after, k);
    assert after[v].key == e.key;
    assert a < |entries| && a != v ==> after[a].key == k;
    assert b < |entries| && b != v ==> entries[b].key == k;
  }

  lemma LaterIsLess(entries: seq<TlbEntry>, keys: seq<Key>, q: nat, r: nat)
    requires LatestFirst(entries, keys) && q <= r < |keys|
    ensures q == r || Stamp(entries, keys[r]) < Stamp(entries, keys[q])
  {
  }

  /** The entry of the least recently used key is the one with the least timestamp. */
  lemma LeastIsLast(s: State, kept: seq<Key>)
    requires s.entries != [] && UniqueKeys(s.entries) && Ranked(s, kept)
    ensures kept != [] && s.entries[Least(s.entries)].key == kept[|kept| - 1]
  {
    var v := Least(s.entries);
    var key := s.entries[v].key;
    assert IndexOf(s.entries, key) == v;
    assert Stamp(s.entries, key) >= 0;
    var q: nat :| q < |kept| && kept[q] == key;
    var last := kept[|kept| - 1];
    assert Stamp(s.entries, last) >= 0;
    assert Stamp(s.entries, last) >= Stamp(s.entries, key);
    LaterIsLess(s.entries, kept, q, |kept| - 1);
  }

  /** The entries are those of the first keys of a list of recently used ones. */
  ghost predicate HoldsFirst(capacity: nat, s: State, recent: seq<Key>) {
    && |s.entries| == Min(capacity, |recent|) && UniqueKeys(s.entries) && Ranked(s, recent[..|s.entries|])
  }

  lemma DropPrefix(keys: seq<Key>, key: Key, at: nat, n: nat)
    requires at < n <= |keys|
    ensures ([key] + Drop(keys, at))[..n] == [key] + Drop(keys[..n], at)
  {
  }

  lemma HitRestamps(s: State, kept: seq<Key>, at: nat, i: nat)
    requires i < |s.entries| && UniqueKeys(s.entries) && at < |kept| && kept[at] == s.entries[i].key
    ensures Restamped(s, Hit(Lru, s, i), kept, kept[at], at) && UniqueKeys(Hit(Lru, s, i).entries)
  {
    var s' := Hit(Lru, s, i);
    forall k: Key
      ensures Stamp(s'.entries, k) == if k == kept[at] then s.clock else Stamp(s.entries, k)
    {
      StampAfterHit(s.entries, i, s.clock, k);
    }
  }

  lemma LruHit(capacity: nat, s: State, recent: seq<Key>, key: Key)
    requires Distinct(recent) && HoldsFirst(capacity, s, recent) && IndexOf(s.entries, key) < |s.entries|
    ensures HoldsFirst(capacity, Hit(Lru, s, IndexOf(s.entries, key)), [key] + Drop(recent, Position(recent, key)))
  {
    var n, i, at := |s.entries|, IndexOf(s.entries, key), Position(recent, key);
    var kept := recent[..n];
    assert Stamp(s.entries, key) >= 0;
    var q: nat :| q < n && kept[q] == key;
    assert q == at;
    HitRestamps(s, kept, at, i);
    DropMembers(kept, at, key);
    RankedStep(s, Hit(Lru, s, i), kept, key, at);
    DropPrefix(recent, key, at, n);
  }

  /** A key without entry is not among the recent keys kept. */
  lemma MissIsBehind(capacity: nat, s: State, recent: seq<Key>, key: Key)
    requires HoldsFirst(capacity, s, recent) && IndexOf(s.entries, key) == |s.entries|
    ensures |s.entries| <= |recent| && key !in recent[..|s.entries|] && |s.entries| <= Position(recent, key)
  {
    assert Stamp(s.entries, key) == -1;
    assert key !in recent[..|s.entries|];
  }

  lemma LruMiss(capacity: nat, s: State, recent: seq<Key>, key: Key, frame: int)
    requires capacity > 0 && WellFormed(capacity, s) && Distinct(recent) && HoldsFirst(capacity, s, recent)
    requires IndexOf(s.entries, key) == |s.entries|
    ensures HoldsFirst(capacity, Add(capacity, Lru, s, key, frame), [key] + Drop(recent, Position(recent, key)))
  {
    MissIsBehind(capacity, s, recent, key);
    if |s.entries| < capacity {
      LruMissFree(capacity, s, recent, key, frame);
    } else {
      LruMissReplaces(capacity, s, recent, key, frame);
    }
  }

  lemma LruMissReplaces(capacity: nat, s: State, recent: seq<Key>, key: Key, frame: int)
    requires capacity > 0 && WellFormed(capacity, s) && Distinct(recent) && HoldsFirst(capacity, s, recent)
    requires IndexOf(s.entries, key) == |s.entries| == capacity <= |recent|
    requires key !in recent[..capacity] && capacity <= Position(recent, key)
    ensures HoldsFirst(capacity, Add(capacity, Lru, s, key, frame), [key] + Drop(recent, Position(recent, key)))
  {
    LruMissFull(capacity, s, recent[..capacity], key, frame);
    MissPrefix(recent, key, Position(recent, key), capacity);
  }

  lemma LruMissFree(capacity: nat, s: State, kept: seq<Key>, key: Key, frame: int)
    requires |kept| == |s.entries| < capacity && WellFormed(capacity, s) && Distinct(kept) && HoldsFirst(capacity, s, kept)
    requires IndexOf(s.entries, key) == |s.entries| && key !in kept
    ensures HoldsFirst(capacity, Add(capacity, Lru, s, key, frame), [key] + kept)
  {
    var s' := Add(capacity, Lru, s, key, frame);
    assert kept[..|s.entries|] == kept;
    AddFreeRestamps(capacity, s, kept, key, frame);
    RankedStep(s, s', kept, key, |kept|);
    assert ([key] + kept)[..|s'.entries|] == [key] + kept;
  }

  lemma LruMissFull(capacity: nat, s: State, kept: seq<Key>, key: Key, frame: int)
    requires capacity > 0 && |s.entries| == capacity == |kept| && WellFormed(capacity, s)
    requires UniqueKeys(s.entries) && Ranked(s, kept) && Distinct(kept)
    requires IndexOf(s.entries, key) == |s.entries| && key !in kept
    ensures UniqueKeys(Add(capacity, Lru, s, key, frame).entries)
    ensures Ranked(Add(capacity, Lru, s, key, frame), [key] + Drop(kept, capacity - 1))
  {
    var s' := Add(capacity, Lru, s, key, frame);
    LeastIsLast(s, kept);
    AddFullRestamps(capacity, s, kept, key, frame);
    assert key !in Drop(kept, capacity - 1) by {
      DropMembers(kept, capacity - 1, key);
    }
    RankedStep(s, s', kept, key, capacity - 1);
  }

  lemma MissPrefix(recent: seq<Key>, key: Key, at: nat, n: nat)
    requires 0 < n <= |recent| && n <= at
    ensures ([key] + Drop(recent, at))[..n] == [key] + Drop(recent[..n], n - 1)
  {
  }

  lemma AddFreeRestamps(capacity: nat, s: State, kept: seq<Key>, key: Key, frame: int)
    requires WellFormed(capacity, s) && |s.entries| < capacity && |kept| == |s.entries|
    requires UniqueKeys(s.entries) && IndexOf(s.entries, key) == |s.entries|
    ensures Restamped(s, Add(capacity, Lru, s, key, frame), kept, key, |kept|)
    ensures UniqueKeys(Add(capacity, Lru, s, key, frame).entries)
  {
    var e := TlbEntry(key, frame, s.clock);
    forall k: Key
      ensures Stamp(s.entries + [e], k) == if k == key then s.clock else Stamp(s.entries, k)
    {
      StampAfterAppend(s.entries, e, k);
    }
  }

  lemma AddFullRestamps(capacity: nat, s: State, kept: seq<Key>, key: Key, frame: int)
    requires WellFormed(capacity, s) && |s.entries| == capacity == |kept| > 0
    requires UniqueKeys(s.entries) && IndexOf(s.entries, key) == |s.entries|
    requires s.entries[Least(s.entries)].key == kept[|kept| - 1]
    ensures Restamped(s, Add(capacity, Lru, s, key, frame), kept, key, |kept| - 1)
    ensures UniqueKeys(Add(capacity, Lru, s, key, frame).entries)
  {
    var v, e, s' := Least(s.entries), TlbEntry(key, frame, s.clock), Add(capacity, Lru, s, key, frame);
    assert s'.entries == s.entries[v := e];
    forall k: Key
      ensures Stamp(s'.entries, k) == if k == key then s.clock else if k == kept[|kept| - 1] then -1 else Stamp(s.entries, k)
    {
      StampAfterReplace(s.entries, v, e, k);
    }
  }

  lemma KeptKeys(s: State, kept: seq<Key>)
    requires Ranked(s, kept) && UniqueKeys(s.entries)
    ensures KeysOf(s) == set k | k in kept
  {
    forall k | k in kept
      ensures k in KeysOf(s)
    {
      assert Stamp(s.entries, k) >= 0;
      assert s.entries[IndexOf(s.entries, k)].key == k;
    }
    forall i: nat | i < |s.entries|
      ensures s.entries[i].key in kept
    {
      assert IndexOf(s.entries, s.entries[i].key) == i;
      assert Stamp(s.entries, s.entries[i].key) >= 0;
    }
  }

  /** Under LRU the TLB holds exactly the most recently used distinct keys since the last
      flush, as many as it has entries for. */
  lemma {:induction false} LruKeepsMostRecent(capacity: nat, trace: seq<Event>, walk: Key -> int)
    ensures HoldsFirst(capacity, Run(capacity, Lru, trace, walk), RecentKeys(trace))
    ensures KeysOf(Run(capacity, Lru, trace, walk)) == set k | k in RecentKeys(trace)[..Min(capacity, |RecentKeys(trace)|)]
  {
    var s, recent := Run(capacity, Lru, trace, walk), RecentKeys(trace);
    if trace != [] {
      var front, e := trace[..|trace| - 1], trace[|trace| - 1];
      LruKeepsMostRecent(capacity, front, walk);
      RecentKeysDistinct(front);
      if e.Translate? && capacity > 0 {
        var before := Run(capacity, Lru, front, walk);
        if IndexOf(before.entries, e.key) < |before.entries| {
          LruHit(capacity, before, RecentKeys(front), e.key);
        } else {
          LruMiss(capacity, before, RecentKeys(front), e.key, walk(e.key));
        }
      }
    }
    KeptKeys(s, recent[..|s.entries|]);
  }

  /** What a smaller LRU TLB holds, a larger one holds too. */
  lemma LruInclusion(small: nat, large: nat, trace: seq<Event>, walk: Key -> int)
    requires small <= large
    ensures KeysOf(Run(small, Lru, trace, walk)) <= KeysOf(Run(large, Lru, trace, walk))
  {
    LruKeepsMostRecent(small, trace, walk);
    LruKeepsMostRecent(large, trace, walk);
    var recent := RecentKeys(trace);
    var a, b := Min(small, |recent|), Min(large, |recent|);
    assert recent[..a] == recent[..b][..a];
  }

  // --- FIFO ----------------------------------------------------------------

  /** The entries ever put into the TLB, in order, on a run without flush. */
  ghost function Inserted(capacity: nat, trace: seq<Event>, walk: Key -> int): seq<TlbEntry> {
    if trace == [] then []
    else
      var front, e := trace[..|trace| - 1], trace[|trace| - 1];
      var s := Run(capacity, Fifo, front, walk);
      if e.Translate? && IndexOf(s.entries, e.key) == |s.entries|
      then Inserted(capacity, front, walk) + [TlbEntry(e.key, walk(e.key), s.clock)]
      else Inserted(capacity, front, walk)
  }

  /** The entries from the FIFO pointer on, around the list. */
  ghost function FromPointer(s: State): seq<TlbEntry> {
    if s.fifoPointer <= |s.entries| then s.entries[s.fifoPointer..] + s.entries[..s.fifoPointer] else s.entries
  }

  ghost predicate StampsGrow(entries: seq<TlbEntry>, clock: nat) {
    && (forall i: nat, j: nat | i < j < |entries| :: entries[i].timestamp < entries[j].timestamp)
    && (forall i: nat | i < |entries| :: entries[i].timestamp < clock)
  }

  ghost predicate InOrder(capacity: nat, s: State, inserted: seq<TlbEntry>) {
    && |s.entries| == Min(capacity, |inserted|)
    && (|s.entries| < capacity ==> s.fifoPointer == 0)
    && FromPointer(s) == inserted[|inserted| - |s.entries|..]
    && StampsGrow(inserted, s.clock)
  }

  lemma {:induction false} FifoKeepsLastInsertions(capacity: nat, trace: seq<Event>, walk: Key -> int)
    requires capacity > 0 && Flush !in trace
    ensures InOrder(capacity, Run(capacity, Fifo, trace, walk), Inserted(capacity, trace, walk))
  {
    if trace != [] {
      var front, e := trace[..|trace| - 1], trace[|trace| - 1];
      assert e in trace && Flush !in front;
      FifoKeepsLastInsertions(capacity, front, walk);
      var s := Run(capacity, Fifo, front, walk);
      if IndexOf(s.entries, e.key) == |s.entries| {
        FifoInsert(capacity, s, Inserted(capacity, front, walk), e.key, walk(e.key));
      }
    }
  }

  lemma RingReplace(entries: seq<TlbEntry>, p: nat, e: TlbEntry)
    requires p < |entries|
    ensures var after, next := entries[p := e], if p + 1 < |entries| then p + 1 else 0;
            after[next..] + after[..next] == (entries[p..] + entries[..p])[1..] + [e]
  {
  }

  lemma GrowsAtTheEnd(inserted: seq<TlbEntry>, entry: TlbEntry)
    requires StampsGrow(inserted, entry.timestamp)
    ensures StampsGrow(inserted + [entry], entry.timestamp + 1)
  {
  }

  lemma LastOf(inserted: seq<TlbEntry>, entry: TlbEntry, n: nat)
    requires 0 < n <= |inserted|
    ensures (inserted + [entry])[|inserted| + 1 - n..] == inserted[|inserted| - n..][1..] + [entry]
  {
  }

  lemma AddFifoFull(capacity: nat, s: State, key: Key, frame: int)
    requires capacity > 0 && WellFormed(capacity, s) && |s.entries| == capacity
    ensures Add(capacity, Fifo, s, key, frame)
         == State(s.entries[s.fifoPointer := TlbEntry(key, frame, s.clock)], if s.fifoPointer + 1 < capacity then s.fifoPointer + 1 else 0, s.clock + 1)
  {
    NextAround(s.fifoPointer, capacity);
  }

  lemma FifoInsertFree(capacity: nat, s: State, inserted: seq<TlbEntry>, entry: TlbEntry)
    requires |s.entries| < capacity && InOrder(capacity, s, inserted) && entry.timestamp == s.clock
    ensures InOrder(capacity, s.(entries := s.entries + [entry], clock := s.clock + 1), inserted + [entry])
  {
    GrowsAtTheEnd(inserted, entry);
    FromStart(s.entries);
    FromStart(s.entries + [entry]);
    assert inserted[|inserted| - |s.entries|..] == inserted;
    assert (inserted + [entry])[0..] == inserted + [entry];
  }

  lemma FifoInsertFull(capacity: nat, s: State, inserted: seq<TlbEntry>, entry: TlbEntry)
    requires capacity > 0 && WellFormed(capacity, s) && |s.entries| == capacity && InOrder(capacity, s, inserted) && entry.timestamp == s.clock
    ensures var next := if s.fifoPointer + 1 < capacity then s.fifoPointer + 1 else 0;
            InOrder(capacity, State(s.entries[s.fifoPointer := entry], next, s.clock + 1), inserted + [entry])
  {
    GrowsAtTheEnd(inserted, entry);
    RingReplace(s.entries, s.fifoPointer, entry);
    LastOf(inserted, entry, capacity);
  }

  lemma FifoInsert(capacity: nat, s: State, inserted: seq<TlbEntry>, key: Key, frame: int)
    requires capacity > 0 && WellFormed(capacity, s) && InOrder(capacity, s, inserted)
    ensures InOrder(capacity, Add(capacity, Fifo, s, key, frame), inserted + [TlbEntry(key, frame, s.clock)])
  {
    if |s.entries| < capacity {
      FifoInsertFree(capacity, s, inserted, TlbEntry(key, frame, s.clock));
    } else {
      FifoInsertFull(capacity, s, inserted, TlbEntry(key, frame, s.clock));
      AddFifoFull(capacity, s, key, frame);
    }
  }

  lemma FromStart(entries: seq<TlbEntry>)
    ensures entries[0..] + entries[..0] == entries
  {
  }

  /** Before the first flush the FIFO victim is the oldest entry, the one with the least
      insertion timestamp. */
  lemma FifoVictimIsOldest(capacity: nat, trace: seq<Event>, walk: Key -> int)
    requires capacity > 0 && Flush !in trace && |Run(capacity, Fifo, trace, walk).entries| == capacity
    ensures var s, inserted := Run(capacity, Fifo, trace, walk), Inserted(capacity, trace, walk);
            && |inserted| >= capacity && s.entries[s.fifoPointer] == inserted[|inserted| - capacity]
            && Victim(Fifo, s) == Least(s.entries)
  {
    FifoKeepsLastInsertions(capacity, trace, walk);
    var s, inserted := Run(capacity, Fifo, trace, walk), Inserted(capacity, trace, walk);
    assert FromPointer(s)[0] == s.entries[s.fifoPointer];
    var p, v := s.fifoPointer, Least(s.entries);
    var turn := if v >= p then v - p else v + capacity - p;
    assert FromPointer(s)[turn] == s.entries[v];
    assert inserted[|inserted| - capacity..][turn] == inserted[|inserted| - capacity + turn];
  }

  /** Translating keys the TLB does not hold, one after the other, into free entries. */
  ghost function Refilled(capacity: nat, s: State, keys: seq<Key>, walk: Key -> int): (s': State)
    requires WellFormed(capacity, s)
    ensures WellFormed(capacity, s')
  {
    if keys == [] then s
    else Step(capacity, Fifo, Refilled(capacity, s, keys[..|keys| - 1], walk), Translate(keys[|keys| - 1]), walk)
  }

  /** A flush does not reset the FIFO pointer: after refilling, the next victim is the
      entry the pointer was left at, the oldest one only if the pointer was at 0. */
  lemma {:induction false} FifoAfterFlush(capacity: nat, s: State, keys: seq<Key>, walk: Key -> int)
    requires capacity > 0 && WellFormed(capacity, s) && Distinct(keys) && |keys| <= capacity
    ensures var s' := Refilled(capacity, Flushed(s), keys, walk);
            && |s'.entries| == |keys| && s'.fifoPointer == s.fifoPointer
            && (forall i: nat | i < |keys| :: s'.entries[i].key == keys[i] && s'.entries[i].timestamp == s.clock + i)
            && s'.clock == s.clock + |keys|
            && (|keys| == capacity ==> (Victim(Fifo, s') == Least(s'.entries) <==> s.fifoPointer == 0))
  {
    if keys != [] {
      var front := keys[..|keys| - 1];
      FifoAfterFlush(capacity, s, front, walk);
      var before := Refilled(capacity, Flushed(s), front, walk);
      var i := IndexOf(before.entries, keys[|keys| - 1]);
      assert i == |before.entries|;
      var s' := Refilled(capacity, Flushed(s), keys, walk);
      assert s'.entries[0].timestamp == s.clock;
    }
  }

  // --- FIFO order after a flush --------------------------------------------

  /** The state after a trace from some state. */
  ghost function RunFrom(capacity: nat, algorithm: Algorithm, s: State, trace: seq<Event>, walk: Key -> int): (s': State)
    requires WellFormed(capacity, s)
    ensures WellFormed(capacity, s')
  {
    if trace == [] then s
    else Step(capacity, algorithm, RunFrom(capacity, algorithm, s, trace[..|trace| - 1], walk), trace[|trace| - 1], walk)
  }

  /** How many entries a trace without flush puts into the TLB. */
  ghost function Insertions(capacity: nat, s: State, trace: seq<Event>, walk: Key -> int): nat
    requires WellFormed(capacity, s)
  {
    if trace == [] then 0
    else
      var front, e := trace[..|trace| - 1], trace[|trace| - 1];
      var before := RunFrom(capacity, Fifo, s, front, walk);
      Insertions(capacity, s, front, walk) + if e.Translate? && IndexOf(before.entries, e.key) == |before.entries| then 1 else 0
  }

  /** The entries by age after `n` insertions behind a flush that left the pointer at `p`:
      until the pointer comes around, the ones before `p` are the oldest. */
  ghost function ByAge(capacity: nat, s: State, p: nat, n: nat): seq<TlbEntry>
    requires |s.entries| == Min(capacity, n) && (capacity < n < 2 * capacity - p ==> p <= s.fifoPointer < capacity)
  {
    if n <= capacity then s.entries
    else if n < 2 * capacity - p then s.entries[..p] + s.entries[s.fifoPointer..] + s.entries[p..s.fifoPointer]
    else FromPointer(s)
  }

  ghost predicate Aged(capacity: nat, s: State, p: nat, n: nat) {
    && p < capacity && WellFormed(capacity, s) && |s.entries| == Min(capacity, n)
    && (n <= capacity ==> s.fifoPointer == p)
    && (capacity < n < 2 * capacity - p ==> s.fifoPointer == p + n - capacity)
    && StampsGrow(ByAge(capacity, s, p, n), s.clock)
  }

  /** Replacing the third oldest part's successor: the pointer's entry goes, the new one is youngest. */
  lemma SplitReplace(entries: seq<TlbEntry>, p: nat, q: nat, e: TlbEntry)
    requires p <= q < |entries|
    requires StampsGrow(entries[..p] + entries[q..] + entries[p..q], e.timestamp)
    ensures var after := entries[q := e];
            StampsGrow(after[..p] + after[q + 1..] + after[p..q + 1], e.timestamp + 1)
  {
    var was, now := entries[..p] + entries[q..] + entries[p..q], entries[..p] + entries[q + 1..] + entries[p..q] + [e];
    assert now == entries[q := e][..p] + entries[q := e][q + 1..] + entries[q := e][p..q + 1];
    assert forall i: nat | i < |now| - 1 :: now[i] == was[if i < p then i else i + 1];
  }

  lemma RingAges(entries: seq<TlbEntry>, p: nat, e: TlbEntry)
    requires p < |entries| && StampsGrow(entries[p..] + entries[..p], e.timestamp)
    ensures var after, next := entries[p := e], if p + 1 < |entries| then p + 1 else 0;
            StampsGrow(after[next..] + after[..next], e.timestamp + 1)
  {
    RingReplace(entries, p, e);
    var was := entries[p..] + entries[..p];
    assert forall i: nat | i < |was| - 1 :: (was[1..] + [e])[i] == was[i + 1];
  }

  lemma InsertFreeAges(capacity: nat, s: State, p: nat, n: nat, e: TlbEntry)
    requires Aged(capacity, s, p, n) && n < capacity && e.timestamp == s.clock
    ensures Aged(capacity, s.(entries := s.entries + [e], clock := s.clock + 1), p, n + 1)
  {
    GrowsAtTheEnd(s.entries, e);
  }

  /** The pointer has not come around yet. */
  lemma InsertSplitAges(capacity: nat, s: State, p: nat, n: nat, e: TlbEntry)
    requires Aged(capacity, s, p, n) && capacity <= n < 2 * capacity - p && e.timestamp == s.clock
    ensures var q := s.fifoPointer;
            q < capacity && Aged(capacity, State(s.entries[q := e], if q + 1 < capacity then q + 1 else 0, s.clock + 1), p, n + 1)
  {
    var q := s.fifoPointer;
    assert q == p + n - capacity;
    assert n == capacity ==> s.entries[..p] + s.entries[p..] + s.entries[p..p] == s.entries;
    SplitReplace(s.entries, p, q, e);
    var after := s.entries[q := e];
    assert q + 1 == capacity ==> after[..p] + after[q + 1..] + after[p..q + 1] == after[0..] + after[..0];
  }

  lemma InsertRingAges(capacity: nat, s: State, p: nat, n: nat, e: TlbEntry)
    requires Aged(capacity, s, p, n) && n >= 2 * capacity - p && n > capacity && e.timestamp == s.clock
    ensures var q := s.fifoPointer;
            q < capacity && Aged(capacity, State(s.entries[q := e], if q + 1 < capacity then q + 1 else 0, s.clock + 1), p, n + 1)
  {
    RingAges(s.entries, s.fifoPointer, e);
  }

  lemma InsertAges(capacity: nat, s: State, p: nat, n: nat, key: Key, frame: int)
    requires Aged(capacity, s, p, n)
    ensures Aged(capacity, Add(capacity, Fifo, s, key, frame), p, n + 1)
  {
    var e := TlbEntry(key, frame, s.clock);
    if n < capacity {
      InsertFreeAges(capacity, s, p, n, e);
    } else {
      AddFifoFull(capacity, s, key, frame);
      if n < 2 * capacity - p {
        InsertSplitAges(capacity, s, p, n, e);
      } else {
        InsertRingAges(capacity, s, p, n, e);
      }
    }
  }

  lemma {:induction false} RunAges(capacity: nat, s: State, trace: seq<Event>, walk: Key -> int)
    requires capacity > 0 && WellFormed(capacity, s) && Flush !in trace
    ensures Aged(capacity, RunFrom(capacity, Fifo, Flushed(s), trace, walk), s.fifoPointer, Insertions(capacity, Flushed(s), trace, walk))
  {
    if trace != [] {
      var front, e := trace[..|trace| - 1], trace[|trace| - 1];
      assert e in trace && Flush !in front;
      RunAges(capacity, s, front, walk);
      var before := RunFrom(capacity, Fifo, Flushed(s), front, walk);
      if IndexOf(before.entries, e.key) == |before.entries| {
        InsertAges(capacity, before, s.fifoPointer, Insertions(capacity, Flushed(s), front, walk), e.key, walk(e.key));
      }
    }
  }

  /** When the FIFO victim is the oldest entry again: after a flush that left the pointer at
      `p`, on any trace, exactly when `p` is 0 or `capacity - p` entries were replaced since
      the TLB was full, and from then on. */
  lemma FifoRestored(capacity: nat, s: State, trace: seq<Event>, walk: Key -> int)
    requires capacity > 0 && WellFormed(capacity, s) && Flush !in trace
    ensures var s', n := RunFrom(capacity, Fifo, Flushed(s), trace, walk), Insertions(capacity, Flushed(s), trace, walk);
            && |s'.entries| == Min(capacity, n)
            && (n >= capacity ==> (Victim(Fifo, s') == Least(s'.entries) <==> s.fifoPointer == 0 || n >= 2 * capacity - s.fifoPointer))
  {
    var s', n := RunFrom(capacity, Fifo, Flushed(s), trace, walk), Insertions(capacity, Flushed(s), trace, walk);
    RunAges(capacity, s, trace, walk);
    if n >= capacity {
      OldestIsLeast(capacity, s', s.fifoPointer, n);
    }
  }

  lemma OldestIsLeast(capacity: nat, s: State, p: nat, n: nat)
    requires Aged(capacity, s, p, n) && n >= capacity
    ensures s.entries != [] && (s.fifoPointer == Least(s.entries) <==> p == 0 || n >= 2 * capacity - p)
  {
    var ages, v := ByAge(capacity, s, p, n), Least(s.entries);
    var q := s.fifoPointer;
    var at := if n <= capacity then v
              else if n < 2 * capacity - p then (if v < p then v else if v >= q then p + v - q else p + capacity - q + v - p)
              else if v >= q then v - q else v + capacity - q;
    var first := if n <= capacity || (n < 2 * capacity - p && p > 0) then 0 else q;
    assert ages[at] == s.entries[v];
    assert ages[0] == s.entries[first];
    assert at == 0;
  }

  // --- The unit itself -----------------------------------------------------

  /** What the memory module answers a whole page walk of a process with; a process it
      does not know has no pages. */
  ghost function WalkOf(g: Geometry, m: map<PageTable, seq<Entry>>, processes: map<int, PageTable>, key: Key): int
    requires Served(g, m, processes)
  {
    if key.pid in processes then IdWalk(g, m, processes[key.pid], 1, 1, key.page) else INVALID_FRAME_NUMBER
  }

  /** Every process of the memory module has a complete page table. */
  ghost predicate Served(g: Geometry, m: map<PageTable, seq<Entry>>, processes: map<int, PageTable>) {
    g.Valid() && forall pid | pid in processes :: Shape(g.entriesPerTable, m, processes[pid], g.Height(), 1)
  }

  class Mmu {
    const g: Geometry
    const pageSize: nat
    const entryCount: nat
    const algorithm: Algorithm
    var entries: seq<TlbEntry>
    var fifoPointer: nat
    var timestampCounter: nat

    constructor (g: Geometry, pageSize: nat, entryCount: nat, algorithm: Algorithm)
      requires g.Valid() && pageSize > 0
      ensures this.g == g && this.pageSize == pageSize && this.entryCount == entryCount && this.algorithm == algorithm
      ensures Valid() && Value() == State([], 0, 0)
    {
      this.g, this.pageSize, this.entryCount, this.algorithm := g, pageSize, entryCount, algorithm;
      entries, fifoPointer, timestampCounter := [], 0, 0;
    }

    ghost predicate Valid()
      reads this
    {
      pageSize > 0 && WellFormed(entryCount, Value())
    }

    ghost function Value(): State
      reads this
    {
      State(entries, fifoPointer, timestampCounter)
    }

    /** Looks a key up; under LRU a hit gets the next timestamp. */
    method FindEntry(key: Key) returns (found: bool, frame: int)
      requires Valid()
      modifies this
      ensures found <==> IndexOf(old(entries), key) < |old(entries)|
      ensures found ==> frame == old(entries)[IndexOf(old(entries), key)].frame && Value() == Hit(algorithm, old(Value()), IndexOf(old(entries), key))
      ensures !found ==> Value() == old(Value())
    {
      if entryCount == 0 {
        return false, 0;
      }
      var i := 0;
      while i < |entries| && entries[i].key != key
        invariant i <= |entries|
        invariant forall j: nat | j < i :: entries[j].key != key
      {
        i := i + 1;
      }
      if i == |entries| {
        return false, 0;
      }
      found, frame := true, entries[i].frame;
      if algorithm.Lru? {
        entries := entries[i := entries[i].(timestamp := timestampCounter)];
        timestampCounter := timestampCounter + 1;
      }
    }

    /** The search for the entry with the least timestamp. */
    method FindLeast() returns (victim: nat)
      requires entries != []
      ensures victim == Least(entries)
    {
      victim := 0;
      for i := 1 to |entries|
        invariant victim < i && victim == Least(entries[..i])
      {
        assert entries[..i + 1][..i] == entries[..i];
        if entries[i].timestamp < entries[victim].timestamp {
          victim := i;
        }
      }
      assert entries[..|entries|] == entries;
    }

    method AddEntry(key: Key, frame: int)
      requires Valid()
      modifies this
      ensures Valid() && Value() == Add(entryCount, algorithm, old(Value()), key, frame)
    {
      if entryCount == 0 {
        return;
      }
      var entry := TlbEntry(key, frame, timestampCounter);
      if |entries| < entryCount {
        timestampCounter := timestampCounter + 1;
        entries := entries + [entry];
      } else {
        var victim;
        if algorithm.Fifo? {
          victim := fifoPointer;
          fifoPointer := (fifoPointer + 1) % entryCount;
        } else {
          victim := FindLeast();
        }
        timestampCounter := timestampCounter + 1;
        entries := entries[victim := entry];
      }
    }

    method Flush()
      requires Valid()
      modifies this
      ensures Valid() && Value() == Flushed(old(Value()))
      ensures entries == [] && fifoPointer == old(fifoPointer) && timestampCounter == old(timestampCounter)
    {
      if entryCount > 0 {
        entries := [];
      }
    }

    /** One request of the walk and its reply; an unknown process is answered like a missing page. */
    method RequestEntry(processes: map<int, PageTable>, pid: int, tableId: int, entryIndex: int, ghost tables: set<PageTable>) returns (value: int)
      requires Served(g, Snapshot(tables), processes)
      ensures value == if pid in processes then PageEntry(g, Snapshot(tables), processes[pid], tableId, entryIndex) else INVALID_FRAME_NUMBER
    {
      if pid !in processes {
        return INVALID_FRAME_NUMBER;
      }
      value := GetPageEntry(g, processes[pid], tableId, entryIndex, tables);
    }

    /** The page walk: one request per level, with the digits of the page number. */
    method PerformPageWalk(processes: map<int, PageTable>, key: Key, ghost tables: set<PageTable>) returns (frame: int)
      requires Served(g, Snapshot(tables), processes)
      ensures frame == WalkOf(g, Snapshot(tables), processes, key)
      ensures key.pid !in processes ==> frame == -1
    {
      ghost var m := Snapshot(tables);
      var nextTableId := 1;
      var level := 1;
      while level <= g.levels
        invariant 1 <= level <= g.levels + 1
        invariant key.pid in processes ==> IdWalk(g, m, processes[key.pid], level, nextTableId, key.page) == WalkOf(g, m, processes, key)
        invariant key.pid !in processes ==> level == 1 || nextTableId == INVALID_FRAME_NUMBER
      {
        PowPositive(g.entriesPerTable, g.levels - level);
        var divisor := Pow(g.entriesPerTable, g.levels - level);
        var entryIndex := (key.page / divisor) % g.entriesPerTable;
        nextTableId := RequestEntry(processes, key.pid, nextTableId, entryIndex, tables);
        if nextTableId == 0 {
          return 0;
        }
        level := level + 1;
      }
      frame := nextTableId;
    }

    /** The frame of a page, from the TLB or by a walk. */
    method FrameOf(processes: map<int, PageTable>, key: Key, ghost tables: set<PageTable>) returns (frame: int)
      requires Valid() && Served(g, Snapshot(tables), processes)
      modifies this
      ensures Valid()
      ensures (Value(), frame) == Access(entryCount, algorithm, old(Value()), key, WalkOf(g, old(Snapshot(tables)), processes, key))
    {
      var found;
      found, frame := FindEntry(key);
      if !found {
        frame := PerformPageWalk(processes, key, tables);
        AddEntry(key, frame);
      }
    }

    method TranslateAddress(processes: map<int, PageTable>, logicalAddress: nat, pid: int, ghost tables: set<PageTable>) returns (physicalAddress: int)
      requires Valid() && Served(g, Snapshot(tables), processes)
      modifies this
      ensures Valid()
      ensures var key := Key(logicalAddress / pageSize, pid);
              var (after, frame) := Access(entryCount, algorithm, old(Value()), key, WalkOf(g, old(Snapshot(tables)), processes, key));
              Value() == after && physicalAddress == frame * pageSize + logicalAddress % pageSize
    {
      var pageNumber := logicalAddress / pageSize;
      var offset := logicalAddress % pageSize;
      var frame := FrameOf(processes, Key(pageNumber, pid), tables);
      physicalAddress := frame * pageSize + offset;
    }
  }
}
