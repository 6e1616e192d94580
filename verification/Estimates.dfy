/** The burst estimates of the short-term scheduler: every comparison of two processes
    moves both estimates towards the last burst. */
module Estimates {
  import opened Lists

  /** What the comparisons use of a process control block. */
  datatype Job = Job(pid: int, estimate: nat, burst: nat)

  /** The weight given to the last burst. */
  type Weight = a: real | 0.0 <= a <= 1.0 witness 0.5

  function Average(estimate: nat, burst: nat, alpha: Weight): real {
    (estimate as real) * (1.0 - alpha) + (burst as real) * alpha
  }

  /** Exponential averaging, cut to a whole number. */
  function Next(estimate: nat, burst: nat, alpha: Weight): (next: nat)
  {
    AverageInRange(estimate, burst, alpha);
    Average(estimate, burst, alpha).Floor
  }

  lemma AverageInRange(estimate: nat, burst: nat, alpha: Weight)
    ensures estimate <= burst ==> estimate as real <= Average(estimate, burst, alpha) <= burst as real
    ensures burst <= estimate ==> burst as real <= Average(estimate, burst, alpha) <= estimate as real
  {
    var distance := burst as real - estimate as real;
    assert Average(estimate, burst, alpha) == estimate as real + alpha * distance;
    if estimate <= burst {
      assert 0.0 <= alpha * distance <= distance;
    } else {
      assert distance <= alpha * distance <= 0.0;
    }
  }

  /** The next estimate is the weighted average of estimate and burst, cut to a whole number. */
  lemma NextIsAverage(estimate: nat, burst: nat, alpha: Weight)
    ensures Next(estimate, burst, alpha) as real
         <= (estimate as real) * (1.0 - alpha) + (burst as real) * alpha
         < Next(estimate, burst, alpha) as real + 1.0
  {
    var average := (estimate as real) * (1.0 - alpha) + (burst as real) * alpha;
    assert average.Floor as real <= average < average.Floor as real + 1.0;
  }

  function Updated(job: Job, alpha: Weight): Job {
    job.(estimate := Next(job.estimate, job.burst, alpha))
  }

  /** The comparison for the shortest job first: it updates both, then compares. */
  function Compare(a: Job, b: Job, alpha: Weight): (Job, Job, bool) {
    var a', b' := Updated(a, alpha), Updated(b, alpha);
    (a', b', a'.estimate <= b'.estimate)
  }

  /** Whether a ready process displaces an executing one that has run for some time. */
  function Preempts(ready: Job, executing: Job, elapsed: nat, alpha: Weight): bool {
    var ready', executing' := Updated(ready, alpha), Updated(executing, alpha);
    !(executing'.estimate - elapsed <= ready'.estimate)
  }

  /** A whole number is the average of a job, cut. */
  ghost predicate CutAverage(n: nat, job: Job, alpha: Weight) {
    n as real <= (job.estimate as real) * (1.0 - alpha) + (job.burst as real) * alpha < n as real + 1.0
  }

  lemma CutAverageIsNext(n: nat, job: Job, alpha: Weight)
    requires CutAverage(n, job, alpha)
    ensures n == Next(job.estimate, job.burst, alpha)
  {
    NextIsAverage(job.estimate, job.burst, alpha);
  }

  /** A comparison leaves both jobs with their cut averages as estimates, nothing else
      changed, and says whether the first one's is no larger. */
  lemma CompareAnswers(a: Job, b: Job, alpha: Weight, x: nat, y: nat)
    requires CutAverage(x, a, alpha) && CutAverage(y, b, alpha)
    ensures Compare(a, b, alpha) == (Job(a.pid, x, a.burst), Job(b.pid, y, b.burst), x <= y)
  {
    CutAverageIsNext(x, a, alpha);
    CutAverageIsNext(y, b, alpha);
  }

  /** A ready process displaces an executing one if and only if what is left of the executing
      one's cut average after the time it ran is more than the ready one's. */
  lemma PreemptsExactly(ready: Job, executing: Job, elapsed: nat, alpha: Weight, x: nat, y: nat)
    requires CutAverage(x, ready, alpha) && CutAverage(y, executing, alpha)
    ensures Preempts(ready, executing, elapsed, alpha) <==> x + elapsed < y
  {
    CutAverageIsNext(x, ready, alpha);
    CutAverageIsNext(y, executing, alpha);
  }

  // --- Many comparisons ----------------------------------------------------

  /** The estimate after a number of comparisons. */
  function After(estimate: nat, burst: nat, alpha: Weight, n: nat): nat {
    if n == 0 then estimate else Next(After(estimate, burst, alpha, n - 1), burst, alpha)
  }

  function Distance(a: int, b: int): nat {
    if a < b then b - a else a - b
  }

  predicate Between(x: int, a: int, b: int) {
    (a <= x <= b) || (b <= x <= a)
  }

  lemma NextBetween(estimate: nat, burst: nat, alpha: Weight)
    ensures Between(Next(estimate, burst, alpha), estimate, burst)
    ensures Distance(Next(estimate, burst, alpha), burst) <= Distance(estimate, burst)
  {
    AverageInRange(estimate, burst, alpha);
  }

  /** However often a process is compared, its estimate stays between where it started and
      the last burst, and never moves away from the burst. */
  lemma {:induction false} EstimateStaysBetween(estimate: nat, burst: nat, alpha: Weight, m: nat, n: nat)
    requires m <= n
    ensures Between(After(estimate, burst, alpha, n), After(estimate, burst, alpha, m), burst)
    ensures Between(After(estimate, burst, alpha, n), estimate, burst)
    ensures Distance(After(estimate, burst, alpha, n), burst) <= Distance(After(estimate, burst, alpha, m), burst)
    decreases n
  {
    if n > 0 {
      NextBetween(After(estimate, burst, alpha, n - 1), burst, alpha);
      if m < n {
        EstimateStaysBetween(estimate, burst, alpha, m, n - 1);
      } else {
        EstimateStaysBetween(estimate, burst, alpha, m - 1, n - 1);
      }
    }
  }

  /** An estimate above the burst stands still exactly with weight 0. */
  lemma FixedAbove(estimate: nat, burst: nat, alpha: Weight)
    requires burst < estimate
    ensures Next(estimate, burst, alpha) == estimate <==> alpha == 0.0
  {
    AverageInRange(estimate, burst, alpha);
    var distance := estimate as real - burst as real;
    assert Average(estimate, burst, alpha) == estimate as real - alpha * distance;
    if alpha > 0.0 {
      assert alpha * distance > 0.0;
      assert Average(estimate, burst, alpha) < estimate as real;
    } else {
      assert Average(estimate, burst, alpha) == estimate as real;
    }
  }

  /** An estimate below the burst stands still exactly when the weighted distance is less
      than one unit: it need not reach the burst. */
  lemma FixedBelow(estimate: nat, burst: nat, alpha: Weight)
    requires estimate <= burst
    ensures Next(estimate, burst, alpha) == estimate <==> alpha * (burst as real - estimate as real) < 1.0
  {
    AverageInRange(estimate, burst, alpha);
    var distance := burst as real - estimate as real;
    var v := Average(estimate, burst, alpha);
    assert v == estimate as real + alpha * distance;
    assert v.Floor as real <= v < v.Floor as real + 1.0;
  }

  /** From above, with a positive weight, the burst is reached: each comparison takes off at
      least one. */
  lemma {:induction false} EstimateComesDown(estimate: nat, burst: nat, alpha: Weight, n: nat)
    requires alpha > 0.0 && burst <= estimate
    ensures burst <= After(estimate, burst, alpha, n)
    ensures After(estimate, burst, alpha, n) <= if n <= estimate - burst then estimate - n else burst
  {
    if n > 0 {
      EstimateComesDown(estimate, burst, alpha, n - 1);
      var before := After(estimate, burst, alpha, n - 1);
      NextBetween(before, burst, alpha);
      if burst < before {
        FixedAbove(before, burst, alpha);
      }
    }
  }

  /** A process that has run for as long as its estimate is never displaced. */
  lemma OverdueIsNotPreempted(ready: Job, executing: Job, elapsed: nat, alpha: Weight)
    requires Updated(executing, alpha).estimate <= elapsed
    ensures !Preempts(ready, executing, elapsed, alpha)
  {
  }

  // --- Consistency ---------------------------------------------------------

  /** What a comparison orders by when the weight is 0 or 1. */
  function Key(job: Job, alpha: Weight): nat {
    if alpha == 0.0 then job.estimate else job.burst
  }

  lemma ExtremeWeights(job: Job, alpha: Weight)
    requires alpha == 0.0 || alpha == 1.0
    ensures Updated(job, alpha).estimate == Key(job, alpha) == Key(Updated(job, alpha), alpha)
  {
  }

  /** With weight 0 or 1 a comparison always answers by the key, which it does not change. */
  lemma ExtremeComparisons(a: Job, b: Job, alpha: Weight)
    requires alpha == 0.0 || alpha == 1.0
    ensures var (a', b', answer) := Compare(a, b, alpha);
            answer == (Key(a, alpha) <= Key(b, alpha)) && Key(a', alpha) == Key(a, alpha) && Key(b', alpha) == Key(b, alpha)
  {
    ExtremeWeights(a, alpha);
    ExtremeWeights(b, alpha);
  }

  /** Asking again what was just compared gives the same answer. */
  ghost predicate Stable(alpha: Weight) {
    forall a: Job, b: Job :: RepeatsItself(a, b, alpha)
  }

  predicate RepeatsItself(a: Job, b: Job, alpha: Weight) {
    var (a', b', answer) := Compare(a, b, alpha);
    Compare(a', b', alpha).2 == answer
  }

  /** A distance large enough to be felt twice. */
  lemma LargeDistance(alpha: Weight) returns (burst: nat)
    requires 0.0 < alpha < 1.0
    ensures burst as real * (alpha * (1.0 - alpha)) >= 1.0
  {
    var x := alpha * (1.0 - alpha);
    assert x > 0.0;
    var inverse := 1.0 / x;
    burst := inverse.Floor + 1;
    assert burst as real >= inverse;
    assert burst as real * x >= inverse * x;
  }

  /** The first step from 0 goes no farther than the weighted distance. */
  lemma FirstStep(burst: nat, alpha: Weight)
    ensures Next(0, burst, alpha) as real <= burst as real * alpha
  {
    AverageInRange(0, burst, alpha);
    var v := Average(0, burst, alpha);
    assert v == burst as real * alpha;
    assert v.Floor as real <= v;
  }

  /** From 0 the estimate rises twice in a row. */
  lemma RisesTwice(burst: nat, alpha: Weight)
    requires 0.0 < alpha < 1.0 && burst as real * (alpha * (1.0 - alpha)) >= 1.0
    ensures var first := Next(0, burst, alpha);
            first <= burst && Next(first, burst, alpha) > first
  {
    var first := Next(0, burst, alpha);
    FirstStep(burst, alpha);
    NextBetween(0, burst, alpha);
    var left := burst as real - first as real;
    assert left >= burst as real * (1.0 - alpha) by {
      assert burst as real * (1.0 - alpha) == burst as real - burst as real * alpha;
    }
    assert alpha * left >= alpha * (burst as real * (1.0 - alpha));
    assert alpha * (burst as real * (1.0 - alpha)) == burst as real * (alpha * (1.0 - alpha));
    FixedBelow(first, burst, alpha);
    NextBetween(first, burst, alpha);
  }

  /** With any weight strictly between 0 and 1 some comparison changes its answer. */
  lemma UnstableInBetween(alpha: Weight)
    requires 0.0 < alpha < 1.0
    ensures !Stable(alpha)
  {
    var burst := LargeDistance(alpha);
    var first := Next(0, burst, alpha);
    RisesTwice(burst, alpha);
    NextBetween(first, first, alpha);
    assert !RepeatsItself(Job(1, 0, burst), Job(2, first, first), alpha);
  }

  /** The comparison is consistent exactly with weight 0 or 1. */
  lemma StableExactlyAtExtremes(alpha: Weight)
    ensures Stable(alpha) <==> alpha == 0.0 || alpha == 1.0
  {
    if alpha == 0.0 || alpha == 1.0 {
      forall a: Job, b: Job
        ensures RepeatsItself(a, b, alpha)
      {
        var (a', b', answer) := Compare(a, b, alpha);
        ExtremeComparisons(a, b, alpha);
        ExtremeComparisons(a', b', alpha);
      }
    } else {
      UnstableInBetween(alpha);
    }
  }

  // --- Sorting READY -------------------------------------------------------

  ghost predicate OrderedByKey(list: seq<Job>, alpha: Weight) {
    forall i: nat, j: nat | i < j < |list| :: Key(list[i], alpha) <= Key(list[j], alpha)
  }

  /** The identity of a job as far as sorting is concerned. */
  function Names(list: seq<Job>): seq<(int, nat)> {
    seq(|list|, i requires 0 <= i < |list| => (list[i].pid, list[i].burst))
  }

  /** The same jobs in the same places, with keys as before. */
  ghost predicate SameKeys(list: seq<Job>, list': seq<Job>, alpha: Weight) {
    |list| == |list'| && forall i: nat | i < |list| :: list'[i].pid == list[i].pid && list'[i].burst == list[i].burst && Key(list'[i], alpha) == Key(list[i], alpha)
  }

  /** Finds where a job belongs in an ordered list, comparing from the end; the comparisons
      update the estimates on the way. */
  method Place(list: seq<Job>, job: Job, alpha: Weight) returns (at: nat, list': seq<Job>, job': Job)
    requires (alpha == 0.0 || alpha == 1.0) && OrderedByKey(list, alpha)
    ensures at <= |list| && SameKeys(list, list', alpha) && SameKeys([job], [job'], alpha)
    ensures forall i: nat | i < at :: Key(list'[i], alpha) <= Key(job', alpha)
    ensures forall i: nat | at <= i < |list'| :: Key(job', alpha) < Key(list'[i], alpha)
  {
    at, list', job' := |list|, list, job;
    var going := true;
    while at > 0 && going
      invariant at <= |list| && SameKeys(list, list', alpha) && SameKeys([job], [job'], alpha)
      invariant forall i: nat | at <= i < |list'| :: Key(job', alpha) < Key(list'[i], alpha)
      invariant !going ==> at > 0 && Key(list'[at - 1], alpha) <= Key(job', alpha)
      decreases at, going
    {
      ExtremeComparisons(list'[at - 1], job', alpha);
      var (other, mine, answer) := Compare(list'[at - 1], job', alpha);
      list', job' := list'[at - 1 := other], mine;
      if answer {
        going := false;
      } else {
        at := at - 1;
      }
    }
  }

  lemma InsertedIsOrdered(list: seq<Job>, at: nat, job: Job, alpha: Weight)
    requires at <= |list| && OrderedByKey(list, alpha)
    requires forall i: nat | i < at :: Key(list[i], alpha) <= Key(job, alpha)
    requires forall i: nat | at <= i < |list| :: Key(job, alpha) < Key(list[i], alpha)
    ensures OrderedByKey(InsertedAt(list, at, job), alpha)
  {
    var longer := InsertedAt(list, at, job);
    forall i: nat, j: nat | i < j < |longer|
      ensures Key(longer[i], alpha) <= Key(longer[j], alpha)
    {
      assert longer[i] == if i < at then list[i] else if i == at then job else list[i - 1];
      assert longer[j] == if j < at then list[j] else if j == at then job else list[j - 1];
    }
  }

  lemma InsertedNames(list: seq<Job>, at: nat, job: Job)
    requires at <= |list|
    ensures multiset(Names(InsertedAt(list, at, job))) == multiset(Names(list)) + multiset{(job.pid, job.burst)}
  {
    var names := Names(list);
    assert Names(InsertedAt(list, at, job)) == names[..at] + [(job.pid, job.burst)] + names[at..];
    assert names == names[..at] + names[at..];
  }

  lemma NamesOfSameKeys(list: seq<Job>, list': seq<Job>, alpha: Weight)
    requires SameKeys(list, list', alpha)
    ensures Names(list') == Names(list)
    ensures OrderedByKey(list, alpha) ==> OrderedByKey(list', alpha)
  {
    forall i: nat | i < |list|
      ensures Names(list')[i] == Names(list)[i]
    {
    }
  }

  /** Sorting READY with weight 0 orders it by estimate, with weight 1 by last burst, and
      loses no process. */
  method SortReady(ready: seq<Job>, alpha: Weight) returns (sorted: seq<Job>)
    requires alpha == 0.0 || alpha == 1.0
    ensures OrderedByKey(sorted, alpha) && multiset(Names(sorted)) == multiset(Names(ready))
  {
    sorted := [];
    for i := 0 to |ready|
      invariant OrderedByKey(sorted, alpha) && multiset(Names(sorted)) == multiset(Names(ready[..i]))
    {
      var at, list, job := Place(sorted, ready[i], alpha);
      NamesOfSameKeys(sorted, list, alpha);
      InsertedIsOrdered(list, at, job, alpha);
      InsertedNames(list, at, job);
      assert job.pid == [job][0].pid && [ready[i]][0].pid == ready[i].pid;
      assert Names(ready[..i + 1]) == Names(ready[..i]) + [(ready[i].pid, ready[i].burst)];
      sorted := InsertedAt(list, at, job);
    }
    assert ready[..|ready|] == ready;
  }
}
