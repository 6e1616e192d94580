/** The long-term scheduler's admission loop over NEW, smallest process first, against the
    memory module's creation. */
module Admission {
  import opened Arithmetic
  import opened FrameAllocator
  import opened Lists
  import opened PageTables
  import opened Memoria
  import opened Store
  import opened StoreRuns

  /** A process waiting in NEW. */
  datatype Request = Request(pid: int, size: int)

  predicate Ordered(list: seq<Request>) {
    forall i: nat, j: nat | i < j < |list| :: list[i].size <= list[j].size
  }

  function Pages(c: Config, r: Request): int
    requires c.pageSize > 0
  {
    PagesNeeded(r.size, c.pageSize)
  }

  /** The pages of the first `n` requests. */
  function PagesUpTo(c: Config, list: seq<Request>, n: nat): int
    requires c.pageSize > 0 && n <= |list|
  {
    if n == 0 then 0 else PagesUpTo(c, list, n - 1) + Pages(c, list[n - 1])
  }

  // --- The loop ------------------------------------------------------------

  /** The store after the first `n` requests were created. */
  function CreatedUpTo(c: Config, s: State, list: seq<Request>, n: nat): State
    requires c.pageSize > 0 && n <= |list|
  {
    if n == 0 then s else Create(c, CreatedUpTo(c, s, list, n - 1), list[n - 1].pid, list[n - 1].size).0
  }

  /** How many requests the loop admits from position `from` on: up to the first refusal. */
  function AdmittedFrom(c: Config, s: State, list: seq<Request>, from: nat): (n: nat)
    requires c.pageSize > 0 && from <= |list|
    ensures from <= n <= |list|
    decreases |list| - from
  {
    if from == |list| || !Create(c, CreatedUpTo(c, s, list, from), list[from].pid, list[from].size).1 then from
    else AdmittedFrom(c, s, list, from + 1)
  }

  /** New processes have pids nobody has. */
  ghost predicate Fresh(s: State, list: seq<Request>) {
    && (forall i: nat | i < |list| :: Find(s.procs, list[i].pid) == |s.procs|)
    && (forall i: nat, j: nat | i < j < |list| :: list[i].pid != list[j].pid)
  }

  predicate NonNegative(list: seq<Request>) {
    forall i: nat | i < |list| :: list[i].size >= 0
  }

  lemma FindInAppended(procs: seq<Process>, p: Process, pid: int, from: nat)
    requires from <= |procs| && FindFrom(procs, pid, from) == |procs| && p.pid != pid
    ensures FindFrom(procs + [p], pid, from) == |procs| + 1
    decreases |procs| - from
  {
    if from < |procs| {
      FindInAppended(procs, p, pid, from + 1);
    }
  }

  /** Along the loop the store stays sound and each admitted process takes its pages. */
  lemma {:induction false} LoopTakesPages(c: Config, s: State, list: seq<Request>, n: nat)
    requires c.Valid() && Inv(c, s) && Fresh(s, list) && n <= AdmittedFrom(c, s, list, 0)
    ensures var t := CreatedUpTo(c, s, list, n);
            && Inv(c, t) && t.userFree == s.userFree - PagesUpTo(c, list, n)
            && forall j: nat | n <= j < |list| :: Find(t.procs, list[j].pid) == |t.procs|
  {
    if n > 0 {
      var t, r := CreatedUpTo(c, s, list, n - 1), list[n - 1];
      LoopTakesPages(c, s, list, n - 1);
      AdmittedMeansCreated(c, s, list, 0, n - 1);
      CreateIsExact(c, t, r.pid, r.size);
      CreateKeeps(c, t, r.pid, r.size);
      var t' := Create(c, t, r.pid, r.size).0;
      ZeroPages(c, r);
      assert t'.procs == t.procs + [t'.procs[|t.procs|]];
      forall j: nat | n <= j < |list|
        ensures Find(t'.procs, list[j].pid) == |t'.procs|
      {
        FindInAppended(t.procs, t'.procs[|t.procs|], list[j].pid, 0);
      }
    }
  }

  lemma ZeroPages(c: Config, r: Request)
    requires c.pageSize > 0 && r.size >= 0
    ensures Pages(c, r) >= 0 && (r.size == 0 <==> Pages(c, r) == 0)
  {
    CeilDivLeast(r.size, c.pageSize, 0);
  }

  lemma {:induction false} AdmittedMeansCreated(c: Config, s: State, list: seq<Request>, from: nat, i: nat)
    requires c.pageSize > 0 && from <= |list| && from <= i < AdmittedFrom(c, s, list, from)
    ensures i < |list| && Create(c, CreatedUpTo(c, s, list, i), list[i].pid, list[i].size).1
    decreases i - from
  {
    if from < i {
      AdmittedMeansCreated(c, s, list, from + 1, i);
    }
  }

  lemma {:induction false} RefusedAtTheEnd(c: Config, s: State, list: seq<Request>, from: nat)
    requires c.pageSize > 0 && from <= |list|
    ensures var n := AdmittedFrom(c, s, list, from);
            n < |list| ==> !Create(c, CreatedUpTo(c, s, list, n), list[n].pid, list[n].size).1
    decreases |list| - from
  {
    if from < |list| && Create(c, CreatedUpTo(c, s, list, from), list[from].pid, list[from].size).1 {
      RefusedAtTheEnd(c, s, list, from + 1);
    }
  }

  /** The loop stops at a process whose pages no longer fit what is free, or never fit the
      page table. */
  lemma LoopStopsForPages(c: Config, s: State, list: seq<Request>)
    requires c.Valid() && Inv(c, s) && Fresh(s, list) && NonNegative(list)
    ensures var n := AdmittedFrom(c, s, list, 0);
            && PagesUpTo(c, list, n) <= s.userFree
            && (n < |list| ==> PagesUpTo(c, list, n + 1) > s.userFree || Pages(c, list[n]) > c.g.Pages())
  {
    var n := AdmittedFrom(c, s, list, 0);
    LoopTakesPages(c, s, list, n);
    RefusedAtTheEnd(c, s, list, 0);
    if n < |list| {
      CreateIsExact(c, CreatedUpTo(c, s, list, n), list[n].pid, list[n].size);
    }
  }

  // --- Optimality ----------------------------------------------------------

  lemma PagesMonotone(c: Config, a: Request, b: Request)
    requires c.pageSize > 0 && 0 <= a.size <= b.size
    ensures Pages(c, a) <= Pages(c, b)
  {
    DivMonotone(a.size + c.pageSize - 1, b.size + c.pageSize - 1, c.pageSize);
  }

  /** The requests of a choice could be created together: no size is negative, their pages
      fit the free frames, and each of them fits the page table. */
  ghost predicate CouldBeAdmitted(c: Config, s: State, chosen: seq<Request>)
    requires c.pageSize > 0
  {
    && NonNegative(chosen)
    && PagesUpTo(c, chosen, |chosen|) <= s.userFree
    && forall i: nat | i < |chosen| :: Pages(c, chosen[i]) <= c.g.Pages()
  }

  lemma {:induction false} PagesSame(c: Config, a: seq<Request>, b: seq<Request>, n: nat)
    requires c.pageSize > 0 && n <= |a| && n <= |b| && forall k: nat | k < n :: a[k] == b[k]
    ensures PagesUpTo(c, a, n) == PagesUpTo(c, b, n)
  {
    if n > 0 {
      PagesSame(c, a, b, n - 1);
    }
  }

  lemma {:induction false} PagesCut(c: Config, list: seq<Request>, i: nat, n: nat)
    requires c.pageSize > 0 && i < n <= |list|
    ensures PagesUpTo(c, list, n) == PagesUpTo(c, Without(list, i), n - 1) + Pages(c, list[i])
  {
    if n == i + 1 {
      PagesSame(c, list, Without(list, i), i);
    } else {
      PagesCut(c, list, i, n - 1);
    }
  }

  lemma CutMultiset(list: seq<Request>, i: nat)
    requires i < |list|
    ensures multiset(list) == multiset(Without(list, i)) + multiset{list[i]}
  {
    assert list == list[..i] + [list[i]] + list[i + 1..];
  }

  /** The first requests of an ordered list need the fewest pages: any choice of as many
      from it needs at least theirs, and its largest member is at least the last of them. */
  lemma {:induction false} FirstNeedFewest(c: Config, list: seq<Request>, chosen: seq<Request>)
    requires c.pageSize > 0 && Ordered(list) && multiset(chosen) <= multiset(list)
    requires NonNegative(list)
    ensures |chosen| <= |list|
    ensures PagesUpTo(c, list, |chosen|) <= PagesUpTo(c, chosen, |chosen|)
    ensures chosen != [] ==> exists i: nat :: i < |chosen| && list[|chosen| - 1].size <= chosen[i].size
    decreases |list|, 1
  {
    if list == [] {
      NothingChosen(chosen);
    } else {
      var front, last := list[..|list| - 1], list[|list| - 1];
      CutMultiset(list, |list| - 1);
      assert Without(list, |list| - 1) == front;
      if last in chosen {
        var i: nat :| i < |chosen| && chosen[i] == last;
        ChoiceWithLast(c, list, chosen, i);
      } else {
        ChoiceWithoutLast(list, chosen);
        FirstNeedFewest(c, front, chosen);
        PagesSame(c, list, front, |chosen|);
      }
    }
  }

  lemma NothingChosen(chosen: seq<Request>)
    requires multiset(chosen) <= multiset([])
    ensures chosen == []
  {
    assert multiset(chosen) == multiset{};
    assert |chosen| == |multiset(chosen)|;
  }

  lemma ChoiceWithoutLast(list: seq<Request>, chosen: seq<Request>)
    requires list != [] && multiset(chosen) <= multiset(list) && list[|list| - 1] !in chosen
    ensures multiset(chosen) <= multiset(list[..|list| - 1])
  {
    CutMultiset(list, |list| - 1);
    assert Without(list, |list| - 1) == list[..|list| - 1];
    assert list[|list| - 1] !in multiset(chosen);
  }

  lemma CutsKeepChoice(list: seq<Request>, chosen: seq<Request>, i: nat)
    requires list != [] && multiset(chosen) <= multiset(list) && i < |chosen| && chosen[i] == list[|list| - 1]
    ensures multiset(Without(chosen, i)) <= multiset(list[..|list| - 1])
  {
    CutMultiset(list, |list| - 1);
    assert Without(list, |list| - 1) == list[..|list| - 1];
    CutMultiset(chosen, i);
    CancelOne(multiset(Without(chosen, i)), multiset(list[..|list| - 1]), chosen[i]);
  }

  lemma CancelOne(a: multiset<Request>, b: multiset<Request>, r: Request)
    requires a + multiset{r} <= b + multiset{r}
    ensures a <= b
  {
    forall q: Request
      ensures a[q] <= b[q]
    {
      assert (a + multiset{r})[q] <= (b + multiset{r})[q];
    }
  }

  lemma ChoiceWithLast(c: Config, list: seq<Request>, chosen: seq<Request>, i: nat)
    requires c.pageSize > 0 && Ordered(list) && list != [] && multiset(chosen) <= multiset(list)
    requires NonNegative(list)
    requires i < |chosen| && chosen[i] == list[|list| - 1]
    ensures |chosen| <= |list|
    ensures PagesUpTo(c, list, |chosen|) <= PagesUpTo(c, chosen, |chosen|)
    ensures list[|chosen| - 1].size <= chosen[i].size
    decreases |list|, 0
  {
    CutsKeepChoice(list, chosen, i);
    FirstNeedFewest(c, list[..|list| - 1], Without(chosen, i));
    LargestAdded(c, list, chosen, i);
  }

  lemma LargestAdded(c: Config, list: seq<Request>, chosen: seq<Request>, i: nat)
    requires c.pageSize > 0 && Ordered(list) && list != [] && 0 < |chosen| <= |list|
    requires list[|chosen| - 1].size >= 0 && i < |chosen| && chosen[i] == list[|list| - 1]
    requires PagesUpTo(c, list[..|list| - 1], |chosen| - 1) <= PagesUpTo(c, Without(chosen, i), |chosen| - 1)
    ensures PagesUpTo(c, list, |chosen|) <= PagesUpTo(c, chosen, |chosen|)
    ensures list[|chosen| - 1].size <= chosen[i].size
  {
    PagesSame(c, list, list[..|list| - 1], |chosen| - 1);
    PagesCut(c, chosen, i, |chosen|);
    PagesMonotone(c, list[|chosen| - 1], chosen[i]);
  }

  /** Smallest first is optimal: no choice of processes from NEW that memory could hold
      together is larger than the prefix the loop admits. */
  lemma SmallestFirstIsOptimal(c: Config, s: State, list: seq<Request>, chosen: seq<Request>)
    requires c.Valid() && Inv(c, s) && Fresh(s, list) && Ordered(list) && NonNegative(list)
    requires multiset(chosen) <= multiset(list) && CouldBeAdmitted(c, s, chosen)
    ensures |chosen| <= AdmittedFrom(c, s, list, 0)
  {
    var n := AdmittedFrom(c, s, list, 0);
    LoopStopsForPages(c, s, list);
    FirstNeedFewest(c, list, chosen);
    if |chosen| > n {
      PagesGrow(c, list, n + 1, |chosen|);
      var i: nat :| i < |chosen| && list[|chosen| - 1].size <= chosen[i].size;
      PagesMonotone(c, list[n], list[|chosen| - 1]);
      PagesMonotone(c, list[|chosen| - 1], chosen[i]);
      assert false;
    }
  }

  lemma {:induction false} PagesGrow(c: Config, list: seq<Request>, m: nat, n: nat)
    requires c.pageSize > 0 && m <= n <= |list| && NonNegative(list)
    ensures PagesUpTo(c, list, m) <= PagesUpTo(c, list, n)
  {
    if m < n {
      PagesGrow(c, list, m, n - 1);
      ZeroPages(c, list[n - 1]);
    }
  }

  lemma AdmittedFits(c: Config, s: State, list: seq<Request>)
    requires c.Valid() && Inv(c, s) && Fresh(s, list)
    ensures PagesUpTo(c, list, AdmittedFrom(c, s, list, 0)) <= s.userFree
  {
    LoopTakesPages(c, s, list, AdmittedFrom(c, s, list, 0));
  }

  lemma AdmittedFitsTable(c: Config, s: State, list: seq<Request>, i: nat)
    requires c.Valid() && Inv(c, s) && Fresh(s, list) && i < AdmittedFrom(c, s, list, 0)
    ensures list[i].size >= 0 && Pages(c, list[i]) <= c.g.Pages()
  {
    LoopTakesPages(c, s, list, i);
    AdmittedMeansCreated(c, s, list, 0, i);
    CreateIsExact(c, CreatedUpTo(c, s, list, i), list[i].pid, list[i].size);
    ZeroPages(c, list[i]);
    PagesPositive(c);
  }

  /** What the loop admits could be admitted: the bound is attained. */
  lemma AdmittedCouldBe(c: Config, s: State, list: seq<Request>)
    requires c.Valid() && Inv(c, s) && Fresh(s, list)
    ensures CouldBeAdmitted(c, s, list[..AdmittedFrom(c, s, list, 0)])
  {
    var n := AdmittedFrom(c, s, list, 0);
    AdmittedFits(c, s, list);
    PagesSame(c, list, list[..n], n);
    forall i: nat | i < n
      ensures list[..n][i].size >= 0 && Pages(c, list[..n][i]) <= c.g.Pages()
    {
      AdmittedFitsTable(c, s, list, i);
    }
  }

  /** A choice could be admitted exactly when creating its processes one after the other
      succeeds for all of them. */
  lemma {:induction false} CouldBeMeansCreated(c: Config, s: State, chosen: seq<Request>)
    requires c.Valid() && Inv(c, s) && Fresh(s, chosen)
    ensures CouldBeAdmitted(c, s, chosen) <==> AdmittedFrom(c, s, chosen, 0) == |chosen|
  {
    var n := AdmittedFrom(c, s, chosen, 0);
    AdmittedCouldBe(c, s, chosen);
    assert n == |chosen| ==> chosen[..n] == chosen;
    if CouldBeAdmitted(c, s, chosen) && n < |chosen| {
      LoopStopsForPages(c, s, chosen);
      PagesGrow(c, chosen, n + 1, |chosen|);
      assert false;
    }
  }

  /** A negative size sorts first and is always refused, so nobody is admitted behind it. */
  lemma {:induction false} NegativeSizeBlocks(c: Config, s: State, list: seq<Request>)
    requires c.Valid() && Inv(c, s) && Ordered(list) && !NonNegative(list)
    ensures AdmittedFrom(c, s, list, 0) == 0
  {
    CreateNegative(c, s, list[0].pid, list[0].size);
  }

  /** The number admitted is at least that of any choice memory could hold together. */
  ghost predicate Optimal(c: Config, s: State, newList: seq<Request>, admitted: nat)
    requires c.pageSize > 0
  {
    forall chosen: seq<Request> | multiset(chosen) <= multiset(newList) && CouldBeAdmitted(c, s, chosen) :: |chosen| <= admitted
  }

  /** No process of NEW could be admitted, not even alone. */
  ghost predicate NoneFits(c: Config, s: State, newList: seq<Request>)
    requires c.pageSize > 0
  {
    forall r: Request | r in newList :: !CouldBeAdmitted(c, s, [r])
  }

  lemma SomeFits(c: Config, s: State, newList: seq<Request>, chosen: seq<Request>)
    requires c.pageSize > 0 && chosen != [] && multiset(chosen) <= multiset(newList) && CouldBeAdmitted(c, s, chosen)
    ensures !NoneFits(c, s, newList)
  {
    PagesGrow(c, chosen, 1, |chosen|);
    PagesSame(c, chosen, [chosen[0]], 1);
    assert chosen[0] in multiset(chosen) && CouldBeAdmitted(c, s, [chosen[0]]);
  }

  /** With a negative size nobody is admitted; that is as good as it gets exactly when no
      process fits even alone. */
  lemma BlockedIsOptimal(c: Config, s: State, newList: seq<Request>)
    requires c.pageSize > 0
    ensures Optimal(c, s, newList, 0) <==> NoneFits(c, s, newList)
  {
    if NoneFits(c, s, newList) {
      forall chosen: seq<Request> | multiset(chosen) <= multiset(newList) && CouldBeAdmitted(c, s, chosen)
        ensures chosen == []
      {
        if chosen != [] {
          SomeFits(c, s, newList, chosen);
        }
      }
    } else {
      var r: Request :| r in newList && CouldBeAdmitted(c, s, [r]);
      assert multiset([r]) <= multiset(newList);
    }
  }

  /** When smallest first is optimal: exactly when no size is negative or no process fits
      even alone. */
  lemma OptimalExactly(c: Config, s: State, newList: seq<Request>, order: seq<Request>)
    requires c.Valid() && Inv(c, s) && Fresh(s, order) && Ordered(order) && multiset(order) == multiset(newList)
    ensures Optimal(c, s, newList, AdmittedFrom(c, s, order, 0)) <==> NonNegative(newList) || NoneFits(c, s, newList)
  {
    if NonNegative(newList) {
      OptimalWhenOrdered(c, s, newList, order);
    } else {
      if NonNegative(order) {
        NonNegativeByMembers(order, newList);
      }
      NegativeSizeBlocks(c, s, order);
      BlockedIsOptimal(c, s, newList);
    }
  }

  // --- The loop as it runs -------------------------------------------------

  /** Where a request goes in an ordered list: before the first larger one. */
  function PlaceFor(list: seq<Request>, r: Request, from: nat): (i: nat)
    requires from <= |list|
    ensures from <= i <= |list|
    ensures i < |list| ==> r.size < list[i].size
    decreases |list| - from
  {
    if from == |list| || r.size < list[from].size then from else PlaceFor(list, r, from + 1)
  }

  lemma {:induction false} BeforePlace(list: seq<Request>, r: Request, from: nat, j: nat)
    requires from <= j < |list| && j < PlaceFor(list, r, from)
    ensures list[j].size <= r.size
    decreases j - from
  {
    if from < j {
      BeforePlace(list, r, from + 1, j);
    }
  }

  lemma InsertedMultiset(list: seq<Request>, i: nat, r: Request)
    requires i <= |list|
    ensures multiset(InsertedAt(list, i, r)) == multiset(list) + multiset{r}
  {
    assert list == list[..i] + list[i..];
  }

  lemma InsertedOrdered(list: seq<Request>, i: nat, r: Request)
    requires Ordered(list) && i <= |list|
    requires forall j: nat | j < i :: list[j].size <= r.size
    requires forall j: nat | i <= j < |list| :: r.size <= list[j].size
    ensures Ordered(InsertedAt(list, i, r))
  {
    var longer := InsertedAt(list, i, r);
    forall a: nat, b: nat | a < b < |longer|
      ensures longer[a].size <= longer[b].size
    {
      assert longer[a] == if a < i then list[a] else if a == i then r else list[a - 1];
      assert longer[b] == if b < i then list[b] else if b == i then r else list[b - 1];
    }
  }

  lemma PlaceIsRight(list: seq<Request>, r: Request)
    requires Ordered(list)
    ensures var i := PlaceFor(list, r, 0);
            Ordered(InsertedAt(list, i, r)) && multiset(InsertedAt(list, i, r)) == multiset(list) + multiset{r}
  {
    var i := PlaceFor(list, r, 0);
    forall j: nat | j < i
      ensures list[j].size <= r.size
    {
      BeforePlace(list, r, 0, j);
    }
    InsertedOrdered(list, i, r);
    InsertedMultiset(list, i, r);
  }

  /** The list sort the scheduler relies on: an ordered permutation. */
  method SortBySize(list: seq<Request>) returns (sorted: seq<Request>)
    ensures Ordered(sorted) && multiset(sorted) == multiset(list)
  {
    sorted := [];
    for i := 0 to |list|
      invariant Ordered(sorted) && multiset(sorted) == multiset(list[..i])
    {
      PlaceIsRight(sorted, list[i]);
      assert list[..i + 1] == list[..i] + [list[i]];
      sorted := InsertedAt(sorted, PlaceFor(sorted, list[i], 0), list[i]);
    }
    assert list[..|list|] == list;
  }

  /** A list of requests whose first ones were admitted. */
  ghost predicate Admitting(c: Config, s: State, t: State, order: seq<Request>, done: nat) {
    && c.Valid() && Inv(c, s) && Fresh(s, order) && done <= AdmittedFrom(c, s, order, 0)
    && t == CreatedUpTo(c, s, order, done)
  }

  lemma {:induction false} CreatedSame(c: Config, s: State, a: seq<Request>, b: seq<Request>, n: nat)
    requires c.pageSize > 0 && n <= |a| && n <= |b| && forall k: nat | k < n :: a[k] == b[k]
    ensures CreatedUpTo(c, s, a, n) == CreatedUpTo(c, s, b, n)
  {
    if n > 0 {
      CreatedSame(c, s, a, b, n - 1);
    }
  }

  /** Requests up to `n` are admitted in one list as in another that starts the same. */
  lemma {:induction false} AdmittedSame(c: Config, s: State, a: seq<Request>, b: seq<Request>, n: nat, from: nat)
    requires c.pageSize > 0 && from <= n <= |a| && n <= |b| && forall k: nat | k < n :: a[k] == b[k]
    requires AdmittedFrom(c, s, a, from) >= n
    ensures AdmittedFrom(c, s, b, from) >= n
    decreases n - from
  {
    if from < n {
      CreatedSame(c, s, a, b, from);
      AdmittedSame(c, s, a, b, n, from + 1);
    }
  }

  lemma FreshByMembers(s: State, a: seq<Request>, b: seq<Request>)
    requires Fresh(s, a) && multiset(a) == multiset(b)
    ensures Fresh(s, b)
  {
    forall i: nat | i < |b|
      ensures b[i] in a
    {
      assert b[i] in multiset(b);
    }
    forall i: nat, j: nat | i < j < |b|
      ensures b[i].pid != b[j].pid
    {
      PairInPermutation(a, b, i, j);
    }
  }

  lemma NonNegativeByMembers(a: seq<Request>, b: seq<Request>)
    requires NonNegative(a) && multiset(a) == multiset(b)
    ensures NonNegative(b)
  {
    forall i: nat | i < |b|
      ensures b[i] in a
    {
      assert b[i] in multiset(b);
    }
  }

  lemma PairInPermutation(a: seq<Request>, b: seq<Request>, i: nat, j: nat)
    requires multiset(a) == multiset(b) && i < j < |b|
    requires forall k: nat, l: nat | k < l < |a| :: a[k].pid != a[l].pid
    ensures b[i].pid != b[j].pid
  {
    assert b[i] in multiset(b) && b[j] in multiset(b);
    var k: nat :| k < |a| && a[k] == b[i];
    var l: nat :| l < |a| && a[l] == b[j];
    CutMultiset(b, j);
    CutMultiset(a, l);
    assert Without(b, j)[i] == b[i];
  }

  /** One sort in the middle of the loop: what was admitted stays in front. */
  lemma ResortKeeps(c: Config, s: State, t: State, order: seq<Request>, done: nat, rest: seq<Request>)
    requires Admitting(c, s, t, order, done) && done <= |order| && multiset(rest) == multiset(order[done..])
    ensures Admitting(c, s, t, order[..done] + rest, done)
    ensures multiset(order[..done] + rest) == multiset(order)
    ensures Ordered(order) && Ordered(rest) ==> Ordered(order[..done] + rest)
  {
    var order' := order[..done] + rest;
    assert order == order[..done] + order[done..];
    FreshByMembers(s, order, order');
    AdmittedSame(c, s, order, order', done, 0);
    CreatedSame(c, s, order, order', done);
    forall i: nat | i < |rest|
      ensures rest[i] in order[done..]
    {
      assert rest[i] in multiset(rest);
    }
  }

  /** The next creation decides whether the loop goes on; a refused one changes nothing. */
  lemma NextAdmitted(c: Config, s: State, t: State, order: seq<Request>, done: nat)
    requires Admitting(c, s, t, order, done) && done < |order|
    ensures Inv(c, t) && Find(t.procs, order[done].pid) == |t.procs|
    ensures var (t', ok) := Create(c, t, order[done].pid, order[done].size);
            && (ok ==> Admitting(c, s, t', order, done + 1))
            && (!ok ==> t' == t && done == AdmittedFrom(c, s, order, 0))
  {
    LoopTakesPages(c, s, order, done);
    NextOfLoop(c, s, order, done);
    RefusedChangesNothing(c, t, order[done]);
  }

  lemma RefusedChangesNothing(c: Config, t: State, r: Request)
    requires c.Valid() && Inv(c, t)
    ensures var (t', ok) := Create(c, t, r.pid, r.size); !ok ==> t' == t
  {
    CreateIsExact(c, t, r.pid, r.size);
  }

  /** One creation of the loop. */
  method AdmitNext(memory: Memory, next: Request, ghost s: State, ghost order: seq<Request>, ghost done: nat) returns (ok: bool)
    requires memory.Valid() && Admitting(memory.c, s, memory.Value(), order, done) && done < |order| && order[done] == next
    modifies memory, memory.userFrames, memory.userFrames.bits, memory.factory
    ensures memory.Valid()
    ensures Admitting(memory.c, s, memory.Value(), order, if ok then done + 1 else done)
    ensures !ok ==> done == AdmittedFrom(memory.c, s, order, 0)
  {
    NextAdmitted(memory.c, s, memory.Value(), order, done);
    ok := memory.CreateProcess(next.pid, next.size, true);
  }

  lemma OptimalWhenOrdered(c: Config, s: State, newList: seq<Request>, order: seq<Request>)
    requires c.Valid() && Inv(c, s) && Fresh(s, order) && Ordered(order) && multiset(order) == multiset(newList)
    requires NonNegative(newList)
    ensures Optimal(c, s, newList, AdmittedFrom(c, s, order, 0))
  {
    forall chosen: seq<Request> | multiset(chosen) <= multiset(newList) && CouldBeAdmitted(c, s, chosen)
      ensures |chosen| <= AdmittedFrom(c, s, order, 0)
    {
      NonNegativeByMembers(newList, order);
      SmallestFirstIsOptimal(c, s, order, chosen);
    }
  }

  /** Sorts what is left in NEW; what was taken stays in front. */
  method Resort(rest: seq<Request>, ghost c: Config, ghost s: State, ghost t: State, ghost order: seq<Request>, ghost done: nat)
    returns (sorted: seq<Request>, ghost order': seq<Request>)
    requires Admitting(c, s, t, order, done) && done <= |order| && order[done..] == rest
    ensures order' == order[..done] + sorted && multiset(order') == multiset(order) && Admitting(c, s, t, order', done)
    ensures Ordered(order) ==> Ordered(order')
    ensures done == 0 ==> Ordered(order')
  {
    sorted := SortBySize(rest);
    ResortKeeps(c, s, t, order, done, sorted);
    order' := order[..done] + sorted;
    if done == 0 {
      assert order' == sorted;
    }
  }

  /** The loop's lists at a moment: what was admitted, what is left, in the order taken. */
  ghost predicate Taken(newList: seq<Request>, order: seq<Request>, admitted: seq<Request>, rest: seq<Request>, pmcp: bool) {
    && order == admitted + rest && multiset(order) == multiset(newList)
    && if pmcp then Ordered(order) else order == newList
  }

  lemma TakeNext(newList: seq<Request>, order: seq<Request>, admitted: seq<Request>, rest: seq<Request>, pmcp: bool)
    requires Taken(newList, order, admitted, rest, pmcp) && rest != []
    ensures Taken(newList, order, admitted + [rest[0]], rest[1..], pmcp)
    ensures order[|admitted|] == rest[0] && order[|admitted| + 1..] == rest[1..] && order[..|admitted| + 1] == admitted + [rest[0]]
  {
  }

  lemma SameLength(rest: seq<Request>, sorted: seq<Request>, order: seq<Request>, order': seq<Request>, done: nat)
    requires done <= |order| && order[done..] == rest && order' == order[..done] + sorted && multiset(order') == multiset(order)
    ensures |sorted| == |rest|
  {
    assert |multiset(order)| == |order| && |multiset(order')| == |order'|;
  }

  /** What is left in NEW, sorted when sizes decide. */
  method OrderRest(ghost newList: seq<Request>, ghost order: seq<Request>, admitted: seq<Request>, rest: seq<Request>, pmcp: bool,
                   ghost c: Config, ghost s: State, ghost t: State)
    returns (rest': seq<Request>, ghost order': seq<Request>)
    requires Taken(newList, order, admitted, rest, pmcp) && Admitting(c, s, t, order, |admitted|)
    ensures Taken(newList, order', admitted, rest', pmcp) && Admitting(c, s, t, order', |admitted|)
    ensures |rest'| == |rest|
  {
    rest', order' := rest, order;
    if pmcp {
      assert order[|admitted|..] == rest && order[..|admitted|] == admitted;
      rest', order' := Resort(rest, c, s, t, order, |admitted|);
      SameLength(rest, rest', order, order', |admitted|);
    }
  }

  /** One round of the loop: the first of NEW, after sorting when sizes decide. */
  method AdmitRound(memory: Memory, admitted: seq<Request>, rest: seq<Request>, pmcp: bool, ghost s: State, ghost newList: seq<Request>, ghost order: seq<Request>)
    returns (ok: bool, admitted': seq<Request>, rest': seq<Request>, ghost order': seq<Request>)
    requires memory.Valid() && Admitting(memory.c, s, memory.Value(), order, |admitted|)
    requires Taken(newList, order, admitted, rest, pmcp) && rest != []
    modifies memory, memory.userFrames, memory.userFrames.bits, memory.factory
    ensures memory.Valid() && Admitting(memory.c, s, memory.Value(), order', |admitted'|)
    ensures Taken(newList, order', admitted', rest', pmcp)
    ensures if ok then |rest'| < |rest| else |rest'| == |rest| && |admitted'| == AdmittedFrom(memory.c, s, order', 0)
  {
    TakeNext(newList, order, admitted, rest, pmcp);
    admitted', rest', order' := admitted, rest, order;
    ok := AdmitNext(memory, rest[0], s, order, |admitted|);
    if ok {
      admitted' := admitted + [rest[0]];
      rest', order' := OrderRest(newList, order, admitted', rest[1..], pmcp, memory.c, s, memory.Value());
    }
  }

  /** What the loop ends with, for the order it took: a longest prefix is created, and under
      smallest first no choice is larger exactly when no size is negative or nobody fits. */
  ghost predicate Finished(c: Config, s: State, t: State, newList: seq<Request>, order: seq<Request>, admitted: seq<Request>, rest: seq<Request>, pmcp: bool)
    requires c.pageSize > 0
  {
    && Taken(newList, order, admitted, rest, pmcp)
    && |admitted| == AdmittedFrom(c, s, order, 0) && t == CreatedUpTo(c, s, order, |admitted|)
    && (pmcp ==> (Optimal(c, s, newList, |admitted|) <==> NonNegative(newList) || NoneFits(c, s, newList)))
  }

  lemma LoopFinishes(c: Config, s: State, t: State, newList: seq<Request>, order: seq<Request>, admitted: seq<Request>, rest: seq<Request>, pmcp: bool)
    requires Taken(newList, order, admitted, rest, pmcp) && Admitting(c, s, t, order, |admitted|)
    requires rest == [] || |admitted| == AdmittedFrom(c, s, order, 0)
    ensures Finished(c, s, t, newList, order, admitted, rest, pmcp)
  {
    if pmcp {
      OptimalExactly(c, s, newList, order);
    }
  }

  /** The loop over NEW, in the order taken so far. */
  method AdmitLoop(memory: Memory, start: seq<Request>, pmcp: bool, ghost newList: seq<Request>)
    returns (admitted: seq<Request>, rest: seq<Request>, ghost order: seq<Request>)
    requires memory.Valid() && Fresh(memory.Value(), start) && Taken(newList, start, [], start, pmcp)
    modifies memory, memory.userFrames, memory.userFrames.bits, memory.factory
    ensures memory.Valid() && Finished(memory.c, old(memory.Value()), memory.Value(), newList, order, admitted, rest, pmcp)
  {
    ghost var s := memory.Value();
    admitted, rest, order := [], start, start;
    var going := true;
    while rest != [] && going
      invariant memory.Valid() && Admitting(memory.c, s, memory.Value(), order, |admitted|)
      invariant Taken(newList, order, admitted, rest, pmcp)
      invariant going || |admitted| == AdmittedFrom(memory.c, s, order, 0)
      decreases |rest|, going
    {
      going, admitted, rest, order := AdmitRound(memory, admitted, rest, pmcp, s, newList, order);
    }
    LoopFinishes(memory.c, s, memory.Value(), newList, order, admitted, rest, pmcp);
  }

  /** Admits from NEW until it is empty or a creation is refused. `order` is the order the
      processes were taken in. */
  method AdmitFromNew(memory: Memory, newList: seq<Request>, pmcp: bool) returns (admitted: seq<Request>, rest: seq<Request>, ghost order: seq<Request>)
    requires memory.Valid() && Fresh(memory.Value(), newList)
    modifies memory, memory.userFrames, memory.userFrames.bits, memory.factory
    ensures memory.Valid() && Finished(memory.c, old(memory.Value()), memory.Value(), newList, order, admitted, rest, pmcp)
  {
    var start := newList;
    if pmcp {
      start := SortBySize(newList);
      FreshByMembers(memory.Value(), newList, start);
    }
    admitted, rest, order := AdmitLoop(memory, start, pmcp, newList);
  }

  lemma {:induction false} PassedAdmitted(c: Config, s: State, list: seq<Request>, from: nat, done: nat)
    requires c.pageSize > 0 && from <= |list| && from <= done <= AdmittedFrom(c, s, list, from)
    ensures done <= |list| && AdmittedFrom(c, s, list, done) == AdmittedFrom(c, s, list, from)
    decreases done - from
  {
    if from < done {
      PassedAdmitted(c, s, list, from + 1, done);
    }
  }

  /** The next creation decides whether the loop goes on. */
  lemma NextOfLoop(c: Config, s: State, list: seq<Request>, done: nat)
    requires c.pageSize > 0 && done < |list| && done <= AdmittedFrom(c, s, list, 0)
    ensures var r := list[done];
            if Create(c, CreatedUpTo(c, s, list, done), r.pid, r.size).1 then done + 1 <= AdmittedFrom(c, s, list, 0)
            else done == AdmittedFrom(c, s, list, 0)
  {
    PassedAdmitted(c, s, list, 0, done);
  }
}
