/** The victim searches of the CPU's page cache: CLOCK and CLOCK-M. */
module ClockCache {
  import opened Arithmetic
  import opened Bytes

  /** One slot of the cache; `start..end` is the modified part of the content. */
  datatype Slot = Slot(valid: bool, page: nat, content: seq<byte>, use: bool, modified: bool, start: nat, end: nat)

  /** The slot `j` places after `p` around a ring of `n`. */
  function Turn(p: nat, j: nat, n: nat): (i: nat)
    requires p < n && j <= n
    ensures i < n
  {
    if p + j < n then p + j else p + j - n
  }

  /** How many places after `p` a slot is. */
  function Distance(p: nat, i: nat, n: nat): (j: nat)
    requires p < n && i < n
    ensures j < n && Turn(p, j, n) == i
  {
    if i >= p then i - p else i + n - p
  }

  predicate Spared(e: Slot) {
    e.valid && e.use
  }

  /** The slots after the first `k` from `p` lost their use bit. */
  function Passed(slots: seq<Slot>, p: nat, k: nat): (slots': seq<Slot>)
    requires p < |slots| && k <= |slots|
    ensures |slots'| == |slots|
  {
    seq(|slots|, i requires 0 <= i < |slots| => if Distance(p, i, |slots|) < k then slots[i].(use := false) else slots[i])
  }

  lemma PassedNext(slots: seq<Slot>, p: nat, k: nat)
    requires p < |slots| && k < |slots|
    ensures Passed(slots, p, k)[Turn(p, k, |slots|)] == slots[Turn(p, k, |slots|)]
    ensures Passed(slots, p, k + 1) == Passed(slots, p, k)[Turn(p, k, |slots|) := slots[Turn(p, k, |slots|)].(use := false)]
  {
  }

  // --- CLOCK ---------------------------------------------------------------

  /** How many slots CLOCK passes over: those valid and used; a whole round if all are. */
  function ClockStop(slots: seq<Slot>, p: nat, from: nat): (k: nat)
    requires p < |slots| && from <= |slots|
    ensures from <= k <= |slots|
    decreases |slots| - from
  {
    if from == |slots| || !Spared(slots[Turn(p, from, |slots|)]) then from else ClockStop(slots, p, from + 1)
  }

  /** CLOCK stops at the first slot from the pointer that is invalid or unused. */
  lemma {:induction false} ClockStopIsFirst(slots: seq<Slot>, p: nat, from: nat)
    requires p < |slots| && from <= |slots|
    ensures var k := ClockStop(slots, p, from);
            && (forall j: nat | from <= j < k :: Spared(slots[Turn(p, j, |slots|)]))
            && (k < |slots| ==> !Spared(slots[Turn(p, k, |slots|)]))
    decreases |slots| - from
  {
    if from < |slots| && Spared(slots[Turn(p, from, |slots|)]) {
      ClockStopIsFirst(slots, p, from + 1);
    }
  }

  // --- CLOCK-M -------------------------------------------------------------

  /** The classes of CLOCK-M, best victims first. */
  function Rank(e: Slot): (r: nat)
    ensures r < 4
  {
    if !e.valid then 0
    else if !e.use then (if e.modified then 1 else 0)
    else if e.modified then 3 else 2
  }

  /** The first place from `p` whose slot has a class; the number of slots if none has. */
  function FirstOfRank(slots: seq<Slot>, p: nat, r: nat, from: nat): (k: nat)
    requires p < |slots| && from <= |slots|
    ensures from <= k <= |slots| && (k < |slots| ==> Rank(slots[Turn(p, k, |slots|)]) == r)
    decreases |slots| - from
  {
    if from == |slots| || Rank(slots[Turn(p, from, |slots|)]) == r then from else FirstOfRank(slots, p, r, from + 1)
  }

  lemma {:induction false} FirstOfRankIsFirst(slots: seq<Slot>, p: nat, r: nat, from: nat, j: nat)
    requires p < |slots| && from <= j < |slots| && j < FirstOfRank(slots, p, r, from)
    ensures Rank(slots[Turn(p, j, |slots|)]) != r
    decreases |slots| - from
  {
    if from < j {
      FirstOfRankIsFirst(slots, p, r, from + 1, j);
    }
  }

  /** The place of CLOCK-M's victim: the first of the least class there is. */
  function ClockMStop(slots: seq<Slot>, p: nat): (k: nat)
    requires p < |slots|
    ensures k <= |slots|
  {
    if FirstOfRank(slots, p, 0, 0) < |slots| then FirstOfRank(slots, p, 0, 0)
    else if FirstOfRank(slots, p, 1, 0) < |slots| then FirstOfRank(slots, p, 1, 0)
    else if FirstOfRank(slots, p, 2, 0) < |slots| then FirstOfRank(slots, p, 2, 0)
    else FirstOfRank(slots, p, 3, 0)
  }

  /** CLOCK-M's victim is of the least class present, and the first of it from the pointer. */
  lemma ClockMStopIsLeast(slots: seq<Slot>, p: nat, j: nat)
    requires p < |slots| && j < |slots|
    ensures var k := ClockMStop(slots, p);
            && k < |slots|
            && Rank(slots[Turn(p, k, |slots|)]) <= Rank(slots[Turn(p, j, |slots|)])
            && (j < k ==> Rank(slots[Turn(p, k, |slots|)]) < Rank(slots[Turn(p, j, |slots|)]))
  {
    var r := Rank(slots[Turn(p, j, |slots|)]);
    if FirstOfRank(slots, p, r, 0) > j {
      FirstOfRankIsFirst(slots, p, r, 0, j);
    }
  }

  /** Without modified slots both algorithms choose the same victim. */
  lemma ClocksAgreeOnCleanCaches(slots: seq<Slot>, p: nat)
    requires p < |slots| && forall i: nat | i < |slots| :: !(slots[i].valid && slots[i].modified)
    ensures Turn(p, ClockMStop(slots, p), |slots|) == Turn(p, ClockStop(slots, p, 0), |slots|)
  {
    var k := ClockStop(slots, p, 0);
    ClockStopIsFirst(slots, p, 0);
    ClockMStopIsLeast(slots, p, 0);
    ClockMStopIsLeast(slots, p, if k < |slots| then k else 0);
  }

  /** What a search leaves behind: CLOCK-M takes use bits only once no class-0 slot is
      found, up to the victim or, from the third class on, all of them. */
  function AfterClockM(slots: seq<Slot>, p: nat): (slots': seq<Slot>)
    requires p < |slots|
    ensures |slots'| == |slots|
  {
    var k := ClockMStop(slots, p);
    if k == |slots| then slots
    else
      var r := Rank(slots[Turn(p, k, |slots|)]);
      if r == 0 then slots else if r == 1 then Passed(slots, p, k) else Passed(slots, p, |slots|)
  }

  datatype Algorithm = Clock | ClockM

  /** The victim, the slots and the pointer after a search. */
  function Search(algorithm: Algorithm, slots: seq<Slot>, p: nat): (r: (nat, seq<Slot>, nat))
    requires p < |slots|
    ensures r.0 < |slots| && |r.1| == |slots| && r.2 < |slots|
  {
    var n := |slots|;
    match algorithm
    case Clock =>
      var k := ClockStop(slots, p, 0);
      var victim := Turn(p, k, n);
      (victim, Passed(slots, p, k), Turn(victim, 1, n))
    case ClockM =>
      var victim := Turn(p, ClockMStop(slots, p), n);
      (victim, AfterClockM(slots, p), Turn(victim, 1, n))
  }

  /** A search changes nothing but use bits. */
  lemma SearchKeeps(algorithm: Algorithm, slots: seq<Slot>, p: nat, i: nat)
    requires p < |slots| && i < |slots|
    ensures Search(algorithm, slots, p).1[i].(use := slots[i].use) == slots[i]
  {
  }

  // --- What a search leaves, slot by slot ------------------------------------

  lemma TurnIsModulo(p: nat, j: nat, n: nat)
    requires p < n && j <= n
    ensures Turn(p, j, n) == (p + j) % n
  {
    if p + j < n {
      SmallModulo(p + j, n);
    } else {
      DivModUnique(p + j, n, 1, p + j - n);
    }
  }

  /** The slots around the ring from the pointer on, up to the `k`-th, are all valid and used,
      and the next one, if there is one, is not. */
  ghost predicate StopsAfter(slots: seq<Slot>, p: nat, k: nat) {
    && p < |slots| && k <= |slots|
    && (forall h: nat | h < k :: slots[Turn(p, h, |slots|)].valid && slots[Turn(p, h, |slots|)].use)
    && (k < |slots| ==> !slots[Turn(p, k, |slots|)].valid || !slots[Turn(p, k, |slots|)].use)
  }

  /** CLOCK's victim is the first slot from the pointer that is invalid or unused, the
      pointer's own if there is none; the pointer ends one place behind it; and of all slots
      exactly those passed on the way lose their use bit. */
  lemma ClockSearchIsExact(slots: seq<Slot>, p: nat, k: nat, i: nat)
    requires StopsAfter(slots, p, k) && i < |slots|
    ensures var (victim, after, pointer) := Search(Clock, slots, p);
            && victim == Turn(p, k, |slots|) && pointer == Turn(victim, 1, |slots|)
            && after[i] == slots[i].(use := Distance(p, i, |slots|) >= k && slots[i].use)
  {
    ClockStopIsFirst(slots, p, 0);
  }

  /** There is just one place where CLOCK stops. */
  lemma ClockStops(slots: seq<Slot>, p: nat)
    requires p < |slots|
    ensures StopsAfter(slots, p, ClockStop(slots, p, 0))
    ensures forall k: nat | StopsAfter(slots, p, k) :: k == ClockStop(slots, p, 0)
  {
    ClockStopIsFirst(slots, p, 0);
  }

  /** Of all slots exactly the `k` from the pointer on lost their use bit, and nothing else
      changed. */
  ghost predicate ClockLeaves(slots: seq<Slot>, p: nat, k: nat, after: seq<Slot>) {
    && p < |slots| == |after|
    && forall i: nat | i < |slots| :: after[i] == slots[i].(use := Distance(p, i, |slots|) >= k && slots[i].use)
  }

  lemma ClockEverywhere(slots: seq<Slot>, p: nat)
    requires p < |slots|
    ensures StopsAfter(slots, p, ClockStop(slots, p, 0))
    ensures ClockLeaves(slots, p, ClockStop(slots, p, 0), Search(Clock, slots, p).1)
  {
    ClockStops(slots, p);
    forall i: nat | i < |slots|
      ensures Search(Clock, slots, p).1[i] == slots[i].(use := Distance(p, i, |slots|) >= ClockStop(slots, p, 0) && slots[i].use)
    {
      ClockSearchIsExact(slots, p, ClockStop(slots, p, 0), i);
    }
  }

  predicate Untouched(e: Slot) {
    !e.valid || (!e.use && !e.modified)
  }

  /** CLOCK-M takes no use bit while there is a slot invalid or neither used nor modified;
      else those of the slots up to the first not used; else, all being used, every one. */
  lemma ClockMSearchIsExact(slots: seq<Slot>, p: nat, k: nat, i: nat)
    requires StopsAfter(slots, p, k) && i < |slots|
    ensures var after := Search(ClockM, slots, p).1;
            if exists h: nat :: h < |slots| && Untouched(slots[h]) then after == slots
            else after[i] == slots[i].(use := Distance(p, i, |slots|) >= k && slots[i].use)
  {
    if h: nat :| h < |slots| && Untouched(slots[h]) {
      ClockMStopIsLeast(slots, p, Distance(p, h, |slots|));
    } else {
      var stop := ClockMStop(slots, p);
      ClockMStopIsLeast(slots, p, Distance(p, i, |slots|));
      if k < |slots| {
        ClockMStopIsLeast(slots, p, k);
      }
    }
  }

  /** CLOCK-M's victim, in terms of the bits: the first slot from the pointer that is invalid
      or neither used nor modified; without one the first not used; without that the first
      not modified; else the slot at the pointer. The pointer ends one place behind it. */
  lemma ClockMVictimIsFirst(slots: seq<Slot>, p: nat, i: nat)
    requires p < |slots| && i < |slots|
    ensures var (victim, _, pointer) := Search(ClockM, slots, p);
            var e, other := slots[victim], slots[i];
            var before := Distance(p, i, |slots|) < Distance(p, victim, |slots|);
            && pointer == Turn(victim, 1, |slots|)
            && (if Untouched(e) then before ==> !Untouched(other)
                else if !e.use then !Untouched(other) && (before ==> other.use)
                else if !e.modified then other.valid && other.use && (before ==> other.modified)
                else victim == p && other.valid && other.use && other.modified)
  {
    ClockMStopIsLeast(slots, p, Distance(p, i, |slots|));
    ClockMStopIsLeast(slots, p, 0);
  }

  // --- The same victim again -----------------------------------------------

  /** A valid victim is left without its use bit. */
  lemma VictimIsUnused(algorithm: Algorithm, slots: seq<Slot>, p: nat)
    requires p < |slots|
    ensures var (victim, after, _) := Search(algorithm, slots, p);
            slots[victim].valid ==> !after[victim].use
  {
    ClockStopIsFirst(slots, p, 0);
    ClockMStopIsLeast(slots, p, 0);
  }

  /** The slot the pointer just passed is chosen only when all others are valid and used; they
      lose their use bits then. */
  lemma ChosenLast(algorithm: Algorithm, slots: seq<Slot>, v: nat, i: nat)
    requires v < |slots| && i < |slots| && i != v && slots[v].valid && slots[v].modified && !slots[v].use
    requires Search(algorithm, slots, Turn(v, 1, |slots|)).0 == v
    ensures var (_, after, pointer) := Search(algorithm, slots, Turn(v, 1, |slots|));
            after[i].valid && !after[i].use && after[v] == slots[v] && pointer == Turn(v, 1, |slots|)
  {
    var p := Turn(v, 1, |slots|);
    assert Distance(p, i, |slots|) < |slots| - 1 == Distance(p, v, |slots|);
    ClockStopIsFirst(slots, p, 0);
    ClockMStopIsLeast(slots, p, Distance(p, i, |slots|));
  }

  /** When all are valid and unused it is not chosen, if there is another one. */
  lemma NotChosenAgain(algorithm: Algorithm, slots: seq<Slot>, v: nat)
    requires 1 < |slots| && v < |slots| && slots[v].modified
    requires forall i: nat | i < |slots| :: slots[i].valid && !slots[i].use
    ensures Search(algorithm, slots, Turn(v, 1, |slots|)).0 != v
  {
    ClockStopIsFirst(slots, Turn(v, 1, |slots|), 0);
    ClockMStopIsLeast(slots, Turn(v, 1, |slots|), 0);
  }

  // --- The searches themselves ---------------------------------------------

  class PageCache {
    var slots: seq<Slot>
    var pointer: nat

    constructor (slots: seq<Slot>)
      requires slots != []
      ensures this.slots == slots && pointer == 0
    {
      this.slots, pointer := slots, 0;
    }

    ghost predicate Valid()
      reads this
    {
      pointer < |slots|
    }

    method Advance()
      requires Valid()
      modifies this`pointer
      ensures Valid() && pointer == Turn(old(pointer), 1, |slots|)
    {
      NextAround(pointer, |slots|);
      pointer := (pointer + 1) % |slots|;
    }

    /** CLOCK. It looks at no more than one slot more than there are. */
    method FindVictimClock() returns (victim: nat, inspections: nat)
      requires Valid()
      modifies this
      ensures Valid() && (victim, slots, pointer) == Search(Clock, old(slots), old(pointer))
      ensures inspections == ClockStop(old(slots), old(pointer), 0) + 1 <= |slots| + 1
      ensures StopsAfter(old(slots), old(pointer), inspections - 1) && victim == Turn(old(pointer), inspections - 1, |old(slots)|)
      ensures ClockLeaves(old(slots), old(pointer), inspections - 1, slots) && pointer == Turn(victim, 1, |slots|)
    {
      ghost var was, p, k := slots, pointer, 0;
      inspections := 1;
      while Spared(slots[pointer])
        invariant k <= |was| && inspections == k + 1 && p < |was|
        invariant slots == Passed(was, p, k) && pointer == Turn(p, k, |was|)
        invariant ClockStop(was, p, 0) == ClockStop(was, p, k)
        decreases |was| - k
      {
        PassedNext(was, p, k);
        slots := slots[pointer := slots[pointer].(use := false)];
        Advance();
        inspections := inspections + 1;
        k := k + 1;
      }
      victim := pointer;
      Advance();
      ClockEverywhere(was, p);
    }

    /** First half of a CLOCK-M round: looks for an invalid slot or one neither used nor modified. */
    method ScanForUntouched() returns (found: bool, victim: nat)
      requires Valid()
      modifies this`pointer
      ensures Valid() && (found <==> FirstOfRank(slots, old(pointer), 0, 0) < |slots|)
      ensures found ==> victim == Turn(old(pointer), FirstOfRank(slots, old(pointer), 0, 0), |slots|) && pointer == Turn(victim, 1, |slots|)
      ensures !found ==> pointer == old(pointer)
    {
      ghost var p := pointer;
      for i := 0 to |slots|
        invariant Valid() && pointer == Turn(p, i, |slots|)
        invariant FirstOfRank(slots, p, 0, 0) == FirstOfRank(slots, p, 0, i)
      {
        if !slots[pointer].valid || (!slots[pointer].use && !slots[pointer].modified) {
          victim := pointer;
          Advance();
          return true, victim;
        }
        Advance();
      }
      return false, 0;
    }

    /** Second half: looks for a slot modified but not used, taking use bits on the way. */
    method ScanForUnused() returns (found: bool, victim: nat)
      requires Valid() && forall i: nat | i < |slots| :: slots[i].valid
      modifies this
      ensures Valid() && |slots| == |old(slots)|
      ensures slots == Passed(old(slots), old(pointer), FirstOfRank(old(slots), old(pointer), 1, 0))
      ensures found <==> FirstOfRank(old(slots), old(pointer), 1, 0) < |slots|
      ensures found ==> victim == Turn(old(pointer), FirstOfRank(old(slots), old(pointer), 1, 0), |slots|) && pointer == Turn(victim, 1, |slots|)
      ensures !found ==> pointer == old(pointer)
    {
      ghost var was, p := slots, pointer;
      for i := 0 to |slots|
        invariant |slots| == |was| && Valid() && pointer == Turn(p, i, |was|) && slots == Passed(was, p, i)
        invariant FirstOfRank(was, p, 1, 0) == FirstOfRank(was, p, 1, i)
      {
        PassedNext(was, p, i);
        if slots[pointer].valid {
          if !slots[pointer].use && slots[pointer].modified {
            victim := pointer;
            Advance();
            return true, victim;
          }
          slots := slots[pointer := slots[pointer].(use := false)];
        }
        Advance();
      }
      return false, 0;
    }

    /** One CLOCK-M round: both halves, the second only when the first found nothing. */
    method Round() returns (found: bool, victim: nat)
      requires Valid()
      modifies this
      ensures Valid() && Swept(old(slots), old(pointer), slots, pointer, found, victim)
    {
      found, victim := ScanForUntouched();
      if !found {
        NoneUntouched(slots, pointer);
        found, victim := ScanForUnused();
      }
    }

    /** CLOCK-M. Two rounds always suffice. */
    method FindVictimClockM() returns (victim: nat, rounds: nat)
      requires Valid()
      modifies this
      ensures Valid() && victim == Search(ClockM, old(slots), old(pointer)).0
      ensures slots == Search(ClockM, old(slots), old(pointer)).1 && pointer == Search(ClockM, old(slots), old(pointer)).2
      ensures rounds == if Rank(old(slots)[victim]) <= 1 then 1 else 2
    {
      ghost var was, p := slots, pointer;
      rounds := 0;
      while true
        invariant rounds <= 1 && Valid() && pointer == p
        invariant if rounds == 0 then slots == was else slots == Passed(was, p, |was|) && NoneUnused(was, p)
        decreases 1 - rounds
      {
        ghost var before := slots;
        rounds := rounds + 1;
        var found;
        found, victim := Round();
        RoundSearches(was, p, rounds, before, slots, pointer, found, victim);
        if found {
          return;
        }
      }
    }
  }

  /** What one round does to the slots and where it stops. */
  ghost predicate Swept(was: seq<Slot>, p: nat, slots: seq<Slot>, pointer: nat, found: bool, victim: nat) {
    && p < |was| == |slots|
    && var a, b := FirstOfRank(was, p, 0, 0), FirstOfRank(was, p, 1, 0);
    && slots == (if a < |was| then was else Passed(was, p, b))
    && (found <==> a < |was| || b < |was|)
    && (found ==> victim == Turn(p, if a < |was| then a else b, |was|) && pointer == Turn(victim, 1, |was|))
    && (!found ==> pointer == p)
  }

  ghost predicate NoneUnused(slots: seq<Slot>, p: nat)
    requires p < |slots|
  {
    FirstOfRank(slots, p, 0, 0) == |slots| && FirstOfRank(slots, p, 1, 0) == |slots|
  }

  /** The first or second round of a search finds its victim, or leaves all use bits taken. */
  lemma RoundSearches(was: seq<Slot>, p: nat, rounds: nat, before: seq<Slot>, slots: seq<Slot>, pointer: nat, found: bool, victim: nat)
    requires p < |was| && 1 <= rounds <= 2 && Swept(before, p, slots, pointer, found, victim)
    requires if rounds == 1 then before == was else before == Passed(was, p, |was|) && NoneUnused(was, p)
    ensures found ==> Search(ClockM, was, p) == (victim, slots, pointer) && (Rank(was[victim]) <= 1 <==> rounds == 1)
    ensures !found ==> rounds == 1 && slots == Passed(was, p, |was|) && pointer == p && NoneUnused(was, p)
  {
    if rounds == 2 {
      SecondRound(was, p, 0, 0);
      SecondRound(was, p, 1, 0);
      ClockMStopIsLeast(was, p, 0);
      PassedTwice(was, p, FirstOfRank(before, p, 1, 0));
    }
  }

  lemma NoneUntouched(slots: seq<Slot>, p: nat)
    requires p < |slots| && FirstOfRank(slots, p, 0, 0) == |slots|
    ensures forall i: nat | i < |slots| :: slots[i].valid
  {
    forall i: nat | i < |slots|
      ensures slots[i].valid
    {
      FirstOfRankIsFirst(slots, p, 0, 0, Distance(p, i, |slots|));
    }
  }

  lemma PassedTwice(slots: seq<Slot>, p: nat, k: nat)
    requires p < |slots| && k <= |slots|
    ensures Passed(Passed(slots, p, |slots|), p, k) == Passed(slots, p, |slots|)
  {
  }

  /** Once all use bits are taken, each class of modified slots looks like the one two better. */
  lemma {:induction false} SecondRound(slots: seq<Slot>, p: nat, r: nat, from: nat)
    requires p < |slots| && r < 2 && from <= |slots|
    requires FirstOfRank(slots, p, 0, 0) == |slots| && FirstOfRank(slots, p, 1, 0) == |slots|
    ensures FirstOfRank(Passed(slots, p, |slots|), p, r, from) == FirstOfRank(slots, p, r + 2, from)
    decreases |slots| - from
  {
    if from < |slots| {
      FirstOfRankIsFirst(slots, p, 0, 0, from);
      FirstOfRankIsFirst(slots, p, 1, 0, from);
      SecondRound(slots, p, r, from + 1);
    }
  }
}
