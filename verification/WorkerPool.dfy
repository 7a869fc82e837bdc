/** The two worker pools: workers that share a next-index counter and write results by index.
    Everything a worker does between two awaits is one step. */
module WorkerPool {
  import opened Options

  /** What awaiting the mapper for one index ends with. */
  datatype Outcome<+R> = Value(value: R) | Absent | Rejection

  /** One index: skipped without awaiting, or handed to the mapper. */
  datatype Job<+R> = Immediate | Deferred(outcome: Outcome<R>)

  datatype Worker = Busy(index: nat) | Finished | Failed

  /** `calls` records the indices handed to the mapper, in call order. */
  datatype Pool<+R> = Pool(next: nat, workers: seq<Worker>, results: seq<Option<R>>, calls: seq<nat>)

  /** What the index leaves in the result array. */
  function Expected<R>(job: Job<R>): Option<R> {
    if job.Deferred? && job.outcome.Value? then Some(job.outcome.value) else None
  }

  /** The array a sequential loop over the jobs fills. */
  function Sequential<R>(jobs: seq<Job<R>>): (r: seq<Option<R>>)
    ensures |r| == |jobs|
  {
    seq(|jobs|, i requires 0 <= i < |jobs| => Expected(jobs[i]))
  }

  function NextDeferred<R>(jobs: seq<Job<R>>, from: nat): (r: nat)
    requires from <= |jobs|
    ensures from <= r <= |jobs|
    ensures forall i :: from <= i < r ==> jobs[i].Immediate?
    ensures r < |jobs| ==> jobs[r].Deferred?
    decreases |jobs| - from
  {
    if from < |jobs| && jobs[from].Immediate? then NextDeferred(jobs, from + 1) else from
  }

  /** The loop head: worker `w` takes the next index to await, or finishes. */
  function Take<R>(jobs: seq<Job<R>>, s: Pool<R>, w: nat): Pool<R>
    requires s.next <= |jobs| && w < |s.workers|
  {
    var i := NextDeferred(jobs, s.next);
    if i < |jobs|
    then s.(next := i + 1, workers := s.workers[w := Busy(i)], calls := s.calls + [i])
    else s.(next := i, workers := s.workers[w := Finished])
  }

  function StoreResult<R>(jobs: seq<Job<R>>, s: Pool<R>, i: nat): Pool<R>
    requires i < |jobs| && i < |s.results|
  {
    if Expected(jobs[i]).Some? then s.(results := s.results[i := Expected(jobs[i])]) else s
  }

  /** The worker's await ends: store the result and go on to the next index, or stop on a rejection. */
  ghost predicate Resume<R>(jobs: seq<Job<R>>, s: Pool<R>, t: Pool<R>, w: nat) {
    && w < |s.workers| && s.workers[w].Busy? && s.next <= |jobs| == |s.results|
    && s.workers[w].index < |jobs|
    && var i := s.workers[w].index;
       if jobs[i] == Deferred(Rejection) then t == s.(workers := s.workers[w := Failed])
       else t == Take(jobs, StoreResult(jobs, s, i), w)
  }

  ghost predicate Next<R>(jobs: seq<Job<R>>, s: Pool<R>, t: Pool<R>) {
    exists w: nat :: Resume(jobs, s, t, w)
  }

  /** The workers are started in order, each running up to its first await. */
  function Started<R>(jobs: seq<Job<R>>, count: nat): (s: Pool<R>)
    ensures s.next <= |jobs| && |s.workers| == count
  {
    if count == 0 then Pool(0, [], seq(|jobs|, _ => None), [])
    else
      var s := Started(jobs, count - 1);
      Take(jobs, s.(workers := s.workers + [Finished]), count - 1)
  }

  /** A run from the start, one resumed worker at a time. */
  ghost predicate Run<R>(jobs: seq<Job<R>>, count: nat, run: seq<Pool<R>>) {
    && |run| > 0 && run[0] == Started(jobs, count)
    && forall k :: 0 < k < |run| ==> Next(jobs, run[k - 1], run[k])
  }

  ghost predicate Quiet<R>(s: Pool<R>) {
    forall w :: 0 <= w < |s.workers| ==> !s.workers[w].Busy?
  }

  ghost predicate AnyFailed<R>(s: Pool<R>) {
    exists w :: 0 <= w < |s.workers| && s.workers[w].Failed?
  }

  ghost predicate AwaitedBy<R>(s: Pool<R>, i: nat) {
    exists w :: 0 <= w < |s.workers| && s.workers[w] == Busy(i)
  }

  function BusyCount(workers: seq<Worker>): nat {
    if workers == [] then 0
    else BusyCount(workers[..|workers| - 1]) + if workers[|workers| - 1].Busy? then 1 else 0
  }

  // ----- what every run keeps -----

  /** Each awaited index below the counter was handed out exactly once, in order. */
  ghost predicate CallsExact<R>(jobs: seq<Job<R>>, s: Pool<R>) {
    && s.next <= |jobs|
    && (forall a, b :: 0 <= a < b < |s.calls| ==> s.calls[a] < s.calls[b])
    && (forall a :: 0 <= a < |s.calls| ==> s.calls[a] < s.next && jobs[s.calls[a]].Deferred?)
    && (forall i :: 0 <= i < s.next && jobs[i].Deferred? ==> i in s.calls)
  }

  /** Busy workers await different handed-out indices; apart from `free`, a finished one found no index left. */
  ghost predicate WorkersConsistent<R>(jobs: seq<Job<R>>, s: Pool<R>, free: int) {
    && (forall w :: 0 <= w < |s.workers| && s.workers[w].Busy? ==>
          s.workers[w].index < s.next && s.workers[w].index < |jobs| && jobs[s.workers[w].index].Deferred?)
    && (forall v, w :: 0 <= v < w < |s.workers| && s.workers[v].Busy? && s.workers[w].Busy? ==>
          s.workers[v].index != s.workers[w].index)
    && (forall w :: 0 <= w < |s.workers| && s.workers[w].Finished? && w != free ==> s.next >= |jobs|)
  }

  ghost predicate ResultsConsistent<R>(jobs: seq<Job<R>>, s: Pool<R>) {
    && |s.results| == |jobs|
    && forall i :: 0 <= i < |jobs| ==>
         s.results[i] == if i < s.next && !AwaitedBy(s, i) then Expected(jobs[i]) else None
  }

  /** A worker stopped on a rejection exactly when an index that is no longer awaited was rejected. */
  ghost predicate FailuresConsistent<R>(jobs: seq<Job<R>>, s: Pool<R>) {
    AnyFailed(s) <==>
      exists i :: 0 <= i < |jobs| && i < s.next && jobs[i] == Deferred(Rejection) && !AwaitedBy(s, i)
  }

  ghost predicate InvBut<R>(jobs: seq<Job<R>>, s: Pool<R>, free: int) {
    && CallsExact(jobs, s)
    && WorkersConsistent(jobs, s, free)
    && ResultsConsistent(jobs, s)
    && FailuresConsistent(jobs, s)
  }

  ghost predicate Inv<R>(jobs: seq<Job<R>>, s: Pool<R>) {
    InvBut(jobs, s, -1)
  }

  lemma TakeCalls<R>(jobs: seq<Job<R>>, s: Pool<R>, w: nat)
    requires CallsExact(jobs, s) && w < |s.workers|
    ensures CallsExact(jobs, Take(jobs, s, w))
  {
  }

  /** Replacing one worker changes what is awaited by that worker's index only. */
  lemma AwaitedUpdate<R>(jobs: seq<Job<R>>, s: Pool<R>, t: Pool<R>, w: nat, free: int, i: nat)
    requires WorkersConsistent(jobs, s, free) && w < |s.workers| == |t.workers|
    requires t.workers == s.workers[w := t.workers[w]]
    ensures AwaitedBy(t, i) <==> (AwaitedBy(s, i) && s.workers[w] != Busy(i)) || t.workers[w] == Busy(i)
  {
    if AwaitedBy(s, i) && s.workers[w] != Busy(i) {
      var v :| 0 <= v < |s.workers| && s.workers[v] == Busy(i);
      assert t.workers[v] == Busy(i);
    }
  }

  lemma FailedUpdate<R>(s: Pool<R>, t: Pool<R>, w: nat)
    requires w < |s.workers| == |t.workers| && t.workers == s.workers[w := t.workers[w]] && !s.workers[w].Failed?
    ensures AnyFailed(t) <==> AnyFailed(s) || t.workers[w].Failed?
  {
    if v :| 0 <= v < |s.workers| && s.workers[v].Failed? {
      assert t.workers[v].Failed?;
    }
  }

  lemma TakeResults<R>(jobs: seq<Job<R>>, s: Pool<R>, w: nat)
    requires InvBut(jobs, s, w) && w < |s.workers| && s.workers[w].Finished?
    ensures ResultsConsistent(jobs, Take(jobs, s, w)) && FailuresConsistent(jobs, Take(jobs, s, w))
  {
    var t := Take(jobs, s, w);
    hide CallsExact;
    hide WorkersConsistent;
    hide AnyFailed;
    hide AwaitedBy;
    FailedUpdate(s, t, w);
    forall i: nat ensures AwaitedBy(t, i) <==> AwaitedBy(s, i) || t.workers[w] == Busy(i) {
      AwaitedUpdate(jobs, s, t, w, w, i);
    }
  }

  lemma TakeKeeps<R>(jobs: seq<Job<R>>, s: Pool<R>, w: nat)
    requires InvBut(jobs, s, w) && w < |s.workers| && s.workers[w].Finished?
    ensures Inv(jobs, Take(jobs, s, w))
    ensures |Take(jobs, s, w).calls| - BusyCount(Take(jobs, s, w).workers) == |s.calls| - BusyCount(s.workers)
  {
    hide AnyFailed;
    hide AwaitedBy;
    hide BusyCount;
    hide ResultsConsistent;
    hide FailuresConsistent;
    var t := Take(jobs, s, w);
    BusyCountUpdate(s.workers, w, t.workers[w]);
    TakeCalls(jobs, s, w);
    TakeResults(jobs, s, w);
  }

  lemma BusyCountUpdate(workers: seq<Worker>, w: nat, worker: Worker)
    requires w < |workers|
    ensures BusyCount(workers[w := worker]) ==
            BusyCount(workers) - (if workers[w].Busy? then 1 else 0) + (if worker.Busy? then 1 else 0)
  {
    var updated := workers[w := worker];
    if w == |workers| - 1 {
      assert updated[..w] == workers[..w];
    } else {
      BusyCountUpdate(workers[..|workers| - 1], w, worker);
      assert updated[..|workers| - 1] == workers[..|workers| - 1][w := worker];
    }
  }

  /** The awaited index is settled and the worker released or stopped. */
  function Settle<R>(jobs: seq<Job<R>>, s: Pool<R>, w: nat, after: Worker): Pool<R>
    requires w < |s.workers| && s.workers[w].Busy? && s.workers[w].index < |jobs| == |s.results|
  {
    StoreResult(jobs, s, s.workers[w].index).(workers := s.workers[w := after])
  }

  function After<R>(job: Job<R>): Worker {
    if job == Deferred(Rejection) then Failed else Finished
  }

  lemma SettleResults<R>(jobs: seq<Job<R>>, s: Pool<R>, w: nat)
    requires Inv(jobs, s) && w < |s.workers| && s.workers[w].Busy?
    ensures var t := Settle(jobs, s, w, After(jobs[s.workers[w].index]));
            ResultsConsistent(jobs, t) && FailuresConsistent(jobs, t)
  {
    hide AnyFailed;
    hide CallsExact;
    var i := s.workers[w].index;
    var t := Settle(jobs, s, w, After(jobs[i]));
    assert i < s.next;
    assert AwaitedBy(s, i);
    FailedUpdate(s, t, w);
    forall k: nat ensures AwaitedBy(t, k) <==> AwaitedBy(s, k) && k != i {
      AwaitedUpdate(jobs, s, t, w, -1, k);
    }
    hide AwaitedBy;
    hide WorkersConsistent;
    assert ResultsConsistent(jobs, t);
  }

  lemma SettleKeeps<R>(jobs: seq<Job<R>>, s: Pool<R>, w: nat)
    requires Inv(jobs, s) && w < |s.workers| && s.workers[w].Busy?
    ensures var t := Settle(jobs, s, w, After(jobs[s.workers[w].index]));
            InvBut(jobs, t, w) && BusyCount(t.workers) == BusyCount(s.workers) - 1 && t.calls == s.calls
  {
    hide AnyFailed;
    hide AwaitedBy;
    hide BusyCount;
    hide FailuresConsistent;
    var i := s.workers[w].index;
    BusyCountUpdate(s.workers, w, After(jobs[i]));
    SettleResults(jobs, s, w);
  }

  lemma ResumeKeeps<R>(jobs: seq<Job<R>>, s: Pool<R>, t: Pool<R>, w: nat)
    requires Inv(jobs, s) && Resume(jobs, s, t, w)
    ensures Inv(jobs, t) && |t.workers| == |s.workers|
    ensures |t.calls| - BusyCount(t.workers) == |s.calls| - BusyCount(s.workers) + 1
  {
    hide CallsExact;
    hide ResultsConsistent;
    hide FailuresConsistent;
    hide BusyCount;
    SettleKeeps(jobs, s, w);
    var i := s.workers[w].index;
    if jobs[i] == Deferred(Rejection) {
      assert t == Settle(jobs, s, w, Failed);
    } else {
      var u := Settle(jobs, s, w, Finished);
      TakeKeeps(jobs, u, w);
      assert u.workers[w := t.workers[w]] == s.workers[w := t.workers[w]];
      assert t == Take(jobs, u, w);
    }
  }

  lemma NewWorker<R>(jobs: seq<Job<R>>, s: Pool<R>)
    requires Inv(jobs, s)
    ensures var u := s.(workers := s.workers + [Finished]);
            InvBut(jobs, u, |s.workers|) && BusyCount(u.workers) == BusyCount(s.workers)
  {
    hide CallsExact;
    var u := s.(workers := s.workers + [Finished]);
    assert u.workers[..|s.workers|] == s.workers;
    forall i ensures AwaitedBy(u, i) <==> AwaitedBy(s, i) {
      if v :| 0 <= v < |s.workers| && s.workers[v] == Busy(i) {
        assert u.workers[v] == Busy(i);
      }
    }
    if v :| 0 <= v < |s.workers| && s.workers[v].Failed? {
      assert u.workers[v].Failed?;
    }
    hide AwaitedBy;
    assert CallsExact(jobs, u) by { SameCalls(jobs, s, u); }
  }

  lemma SameCalls<R>(jobs: seq<Job<R>>, s: Pool<R>, u: Pool<R>)
    requires CallsExact(jobs, s) && u.calls == s.calls && u.next == s.next
    ensures CallsExact(jobs, u)
  {
  }

  lemma NoWorkers<R>(jobs: seq<Job<R>>)
    ensures Inv(jobs, Started(jobs, 0))
  {
  }

  lemma {:induction false} StartedInv<R>(jobs: seq<Job<R>>, count: nat)
    ensures Inv(jobs, Started(jobs, count))
    ensures |Started(jobs, count).calls| == BusyCount(Started(jobs, count).workers)
  {
    hide CallsExact;
    hide ResultsConsistent;
    hide FailuresConsistent;
    hide WorkersConsistent;
    if count == 0 {
      NoWorkers(jobs);
    } else {
      StartedInv(jobs, count - 1);
      var s := Started(jobs, count - 1);
      var u := s.(workers := s.workers + [Finished]);
      NewWorker(jobs, s);
      TakeKeeps(jobs, u, count - 1);
    }
  }

  /** In every run the invariant holds, the number of workers stays, and each step settles one call. */
  lemma {:induction false} RunInv<R>(jobs: seq<Job<R>>, count: nat, run: seq<Pool<R>>, k: nat)
    requires Run(jobs, count, run) && k < |run|
    ensures Inv(jobs, run[k]) && |run[k].workers| == count
    ensures k + BusyCount(run[k].workers) == |run[k].calls|
  {
    hide InvBut;
    StartedInv(jobs, count);
    if k > 0 {
      RunInv(jobs, count, run, k - 1);
      var w: nat :| Resume(jobs, run[k - 1], run[k], w);
      ResumeKeeps(jobs, run[k - 1], run[k], w);
    }
  }

  lemma BusyCountBound(workers: seq<Worker>)
    ensures BusyCount(workers) <= |workers|
    ensures BusyCount(workers) == 0 <==> forall w :: 0 <= w < |workers| ==> !workers[w].Busy?
  {
  }

  lemma AscendingBounded(calls: seq<nat>, n: nat)
    requires forall a, b :: 0 <= a < b < |calls| ==> calls[a] < calls[b]
    requires forall a :: 0 <= a < |calls| ==> calls[a] < n
    ensures |calls| <= n
  {
    if calls != [] {
      AscendingBounded(calls[..|calls| - 1], calls[|calls| - 1]);
    }
  }

  /** For every interleaving: at most `count` mapper calls are open, each index is handed out at most once and in
      order, and there are at most as many steps as jobs; while a worker is busy a step is possible. */
  lemma PoolSafety<R>(jobs: seq<Job<R>>, count: nat, run: seq<Pool<R>>)
    requires Run(jobs, count, run)
    ensures var s := run[|run| - 1];
            && BusyCount(s.workers) <= count
            && CallsExact(jobs, s)
            && |run| - 1 <= |jobs|
            && (!Quiet(s) ==> exists t :: Next(jobs, s, t))
  {
    var k := |run| - 1;
    var s := run[k];
    RunInv(jobs, count, run, k);
    BusyCountBound(s.workers);
    AscendingBounded(s.calls, |jobs|);
    if !Quiet(s) {
      var w: nat :| w < |s.workers| && s.workers[w].Busy?;
      var i := s.workers[w].index;
      var t := if jobs[i] == Deferred(Rejection) then s.(workers := s.workers[w := Failed])
               else Take(jobs, StoreResult(jobs, s, i), w);
      assert Resume(jobs, s, t, w);
      assert Next(jobs, s, t);
    }
  }

  /** When the pool has come to rest without a rejection, every index was handed out and the results are those
      of the sequential loop; otherwise some index was rejected. */
  lemma PoolResult<R>(jobs: seq<Job<R>>, count: nat, run: seq<Pool<R>>)
    requires Run(jobs, count, run) && count >= 1 && Quiet(run[|run| - 1])
    ensures var s := run[|run| - 1];
            && (AnyFailed(s) ==> Deferred(Rejection) in jobs)
            && (!AnyFailed(s) ==> Deferred(Rejection) !in jobs && s.results == Sequential(jobs)
                                  && forall i :: 0 <= i < |jobs| && jobs[i].Deferred? ==> i in s.calls)
  {
    var s := run[|run| - 1];
    RunInv(jobs, count, run, |run| - 1);
    forall i ensures !AwaitedBy(s, i) {
    }
    if AnyFailed(s) {
      var i :| 0 <= i < |jobs| && i < s.next && jobs[i] == Deferred(Rejection) && !AwaitedBy(s, i);
      assert jobs[i] in jobs;
    } else {
      assert s.workers[0].Finished?;
      assert s.next == |jobs|;
      assert forall i :: 0 <= i < |jobs| ==> jobs[i] != Deferred(Rejection);
      assert s.results == Sequential(jobs);
    }
  }

  // ----- the two callers -----

  /** mapConcurrent: as many workers as the limit and the items allow, and at least one. */
  function MapWorkers(limit: int, items: nat): (r: nat)
    ensures r >= 1 && (limit >= 1 ==> r <= limit) && (items >= 1 ==> r <= items)
    ensures r + 1 > limit || r + 1 > items
  {
    var m := if limit < items then limit else items;
    if m > 1 then m else 1
  }

  const FILE_READ_CONCURRENCY := 24

  /** readRuntimeSourceFiles: as many readers as there are files, up to 24, and at least one. */
  function ReadWorkers(files: nat): (r: nat)
    ensures 1 <= r <= 24 && (files >= 1 ==> r <= files)
    ensures r + 1 > 24 || r + 1 > files
  {
    var m := if files > 1 then files else 1;
    if m < FILE_READ_CONCURRENCY then m else FILE_READ_CONCURRENCY
  }

  /** When no mapper rejects, mapConcurrent resolves to the mapper's values in item order,
      whatever the limit and the order in which the calls complete. */
  lemma MapConcurrentResult<R>(values: seq<R>, limit: int, run: seq<Pool<R>>)
    requires var jobs := seq(|values|, i requires 0 <= i < |values| => Deferred(Value(values[i])));
             Run(jobs, MapWorkers(limit, |values|), run) && Quiet(run[|run| - 1])
    ensures !AnyFailed(run[|run| - 1])
    ensures run[|run| - 1].results == seq(|values|, i requires 0 <= i < |values| => Some(values[i]))
    ensures run[|run| - 1].calls == seq(|values|, i => i)
  {
    var jobs := seq(|values|, i requires 0 <= i < |values| => Deferred(Value(values[i])));
    PoolResult(jobs, MapWorkers(limit, |values|), run);
    RunInv(jobs, MapWorkers(limit, |values|), run, |run| - 1);
    var s := run[|run| - 1];
    forall i | 0 <= i < |values| ensures s.results[i] == Some(values[i]) {
      assert jobs[i] == Deferred(Value(values[i]));
    }
    AscendingComplete(s.calls, |values|);
  }

  lemma AscendingComplete(calls: seq<nat>, n: nat)
    requires forall a, b :: 0 <= a < b < |calls| ==> calls[a] < calls[b]
    requires forall a :: 0 <= a < |calls| ==> calls[a] < n
    requires forall i :: 0 <= i < n ==> i in calls
    ensures calls == seq(n, i => i)
  {
    AscendingBounded(calls, n);
    if n > 0 {
      var last := |calls| - 1;
      assert n - 1 in calls;
      assert calls[last] == n - 1;
      forall i | 0 <= i < n - 1 ensures i in calls[..last] {
        assert i in calls;
        var a :| 0 <= a < |calls| && calls[a] == i;
        assert calls[..last][a] == i;
      }
      AscendingComplete(calls[..last], n - 1);
      assert calls == calls[..last] + [n - 1];
    }
  }

  /** A source file: an empty path is skipped, a file that cannot be read leaves no entry. */
  datatype SourceRead<+F> = EmptyPath | Unreadable | File(file: F)

  function ReadJob<F>(read: SourceRead<F>): Job<F> {
    match read
    case EmptyPath => Immediate
    case Unreadable => Deferred(Absent)
    case File(f) => Deferred(Value(f))
  }

  function ReadJobs<F>(paths: seq<SourceRead<F>>): seq<Job<F>> {
    seq(|paths|, i requires 0 <= i < |paths| => ReadJob(paths[i]))
  }

  /** The files a sequential loop reads, in path order. */
  function FilesInOrder<F>(paths: seq<SourceRead<F>>): seq<F> {
    if paths == [] then []
    else (if paths[0].File? then [paths[0].file] else []) + FilesInOrder(paths[1..])
  }

  /** output.filter((entry) => entry !== undefined). */
  function Present<F>(output: seq<Option<F>>): seq<F> {
    if output == [] then []
    else (if output[0].Some? then [output[0].value] else []) + Present(output[1..])
  }

  lemma ReadRuntimeSourceFilesResult<F>(paths: seq<SourceRead<F>>, run: seq<Pool<F>>)
    requires Run(ReadJobs(paths), ReadWorkers(|paths|), run) && Quiet(run[|run| - 1])
    ensures !AnyFailed(run[|run| - 1])
    ensures Present(run[|run| - 1].results) == FilesInOrder(paths)
  {
    hide Run, Quiet, AnyFailed, Sequential, Present, FilesInOrder;
    PoolResult(ReadJobs(paths), ReadWorkers(|paths|), run);
    ReadsNeverReject(paths);
    PresentInOrder(paths);
  }

  lemma ReadsNeverReject<F>(paths: seq<SourceRead<F>>)
    ensures Deferred(Rejection) !in ReadJobs(paths)
  {
    assert forall i :: 0 <= i < |paths| ==> ReadJobs(paths)[i] == ReadJob(paths[i]);
  }

  lemma {:induction false} PresentInOrder<F>(paths: seq<SourceRead<F>>)
    ensures Present(Sequential(ReadJobs(paths))) == FilesInOrder(paths)
  {
    if paths != [] {
      PresentInOrder(paths[1..]);
      assert Sequential(ReadJobs(paths))[1..] == Sequential(ReadJobs(paths[1..]));
      assert Sequential(ReadJobs(paths))[0] == Expected(ReadJob(paths[0]));
    }
  }
}
