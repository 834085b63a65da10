/**
 Scheduling of replication jobs (src/network/network.cpp:838-939, 979-1015, 1056-1076).
 */
module ReplicationScheduler {
  import opened Bytes
  import opened Collections

  const MAX_ACTIVE: nat := 5

  datatype Status = Pending | InProgress | Verifying | Completed | Failed | Cancelled

  datatype Request = Request(network: Hash, target: Hash, thing: Hash, source: Hash, priority: u32)

  datatype Job = Job(request: Request, status: Status, started: u64, completed: u64, retries: u32)

  predicate SameKey(a: Request, b: Request) {
    a.network == b.network && a.target == b.target
  }

  predicate Live(j: Job) {
    j.status == Pending || j.status == InProgress
  }

  // ------------------------------------------------------------ stable sort

  /** The comparison of `prioritize_jobs`: pending jobs first, then higher priority first. */
  predicate Before(a: Job, b: Job) {
    if a.status == Pending && b.status != Pending then true
    else if b.status == Pending && a.status != Pending then false
    else a.request.priority > b.request.priority
  }

  function Insert(x: Job, s: seq<Job>): seq<Job> {
    if s == [] || !Before(s[0], x) then [x] + s else [s[0]] + Insert(x, s[1..])
  }

  /** Stable sorting by `Before`. */
  function StableSort(s: seq<Job>): seq<Job> {
    if s == [] then [] else Insert(s[0], StableSort(s[1..]))
  }

  ghost predicate Ordered(s: seq<Job>) {
    forall i, j :: 0 <= i < j < |s| ==> !Before(s[j], s[i])
  }

  /** The jobs that compare equal to `x`. */
  function Peers(x: Job): Job -> bool {
    (j: Job) => !Before(j, x) && !Before(x, j)
  }

  lemma BeforeTransitive(a: Job, b: Job, c: Job)
    requires !Before(b, a) && !Before(c, b)
    ensures !Before(c, a)
  {
  }

  lemma {:induction false} InsertOrdered(x: Job, s: seq<Job>)
    requires Ordered(s)
    ensures Ordered(Insert(x, s)) && multiset(Insert(x, s)) == multiset([x]) + multiset(s)
  {
    hide Before;
    if s == [] || !Before(s[0], x) {
      forall j | 0 <= j < |s| ensures !Before(s[j], x) {
        if j > 0 { BeforeTransitive(x, s[0], s[j]); }
      }
    } else {
      var rest := Insert(x, s[1..]);
      InsertOrdered(x, s[1..]);
      assert s == [s[0]] + s[1..];
      forall j | 0 <= j < |rest| ensures !Before(rest[j], s[0]) {
        assert rest[j] in multiset(rest);
        if rest[j] == x { BeforeAsymmetric(s[0], x); } else { assert rest[j] in s[1..]; }
      }
    }
  }

  lemma BeforeAsymmetric(a: Job, b: Job)
    requires Before(a, b)
    ensures !Before(b, a)
  {
  }

  lemma {:induction false} SortOrdered(s: seq<Job>)
    ensures Ordered(StableSort(s)) && multiset(StableSort(s)) == multiset(s)
  {
    if s != [] {
      SortOrdered(s[1..]);
      InsertOrdered(s[0], StableSort(s[1..]));
      assert s == [s[0]] + s[1..];
    }
  }

  lemma {:induction false} InsertStable(x: Job, s: seq<Job>, y: Job)
    ensures Where(Insert(x, s), Peers(y)) == Where([x] + s, Peers(y))
  {
    hide Where;
    if s != [] && Before(s[0], x) {
      var p, rest := Peers(y), s[1..];
      InsertStable(x, rest, y);
      WhereHead(s[0], Insert(x, rest), p);
      WhereHead(x, rest, p);
      WhereHead(x, s, p);
      WhereHead(s[0], rest, p);
      assert s == [s[0]] + rest;
      assert !(p(x) && p(s[0]));
    }
  }

  /** Jobs that compare equal keep their order. */
  lemma {:induction false} SortStable(s: seq<Job>, y: Job)
    ensures Where(StableSort(s), Peers(y)) == Where(s, Peers(y))
  {
    hide Before, Where, Peers;
    if s != [] {
      SortStable(s[1..], y);
      InsertStable(s[0], StableSort(s[1..]), y);
      WhereHead(s[0], StableSort(s[1..]), Peers(y));
      WhereHead(s[0], s[1..], Peers(y));
      assert s == [s[0]] + s[1..];
    }
  }

  function Count(s: seq<Job>, p: Job -> bool): nat {
    if s == [] then 0 else (if p(s[0]) then 1 else 0) + Count(s[1..], p)
  }

  lemma {:induction false} InsertCounts(x: Job, s: seq<Job>, p: Job -> bool)
    ensures Count(Insert(x, s), p) == (if p(x) then 1 else 0) + Count(s, p)
  {
    if s == [] || !Before(s[0], x) {
      assert ([x] + s)[1..] == s;
    } else {
      InsertCounts(x, s[1..], p);
      assert Insert(x, s)[1..] == Insert(x, s[1..]);
    }
  }

  lemma {:induction false} SortCounts(s: seq<Job>, p: Job -> bool)
    ensures Count(StableSort(s), p) == Count(s, p)
  {
    if s != [] {
      SortCounts(s[1..], p);
      InsertCounts(s[0], StableSort(s[1..]), p);
    }
  }

  // ------------------------------------------------------------- operations

  predicate HasLive(s: seq<Job>, r: Request) {
    exists i :: 0 <= i < |s| && SameKey(s[i].request, r) && Live(s[i])
  }

  function Queue(s: seq<Job>, r: Request): seq<Job> {
    if HasLive(s, r) then s else StableSort(s + [Job(r, Pending, 0, 0, 0)])
  }

  function CancelOne(network: Hash, target: Hash): Job -> Job {
    (j: Job) => if j.request.network == network && j.request.target == target && Live(j)
      then j.(status := Cancelled) else j
  }

  function Cancel(s: seq<Job>, network: Hash, target: Hash): seq<Job> {
    Map(s, CancelOne(network, target))
  }

  function Active(): Job -> bool {
    (j: Job) => j.status == InProgress
  }

  function FirstPending(s: seq<Job>): Option<Job> {
    if s == [] then None else if s[0].status == Pending then Some(s[0]) else FirstPending(s[1..])
  }

  function NextJob(s: seq<Job>): Option<Job> {
    if Count(s, Active()) < MAX_ACTIVE then FirstPending(s) else None
  }

  /** The first job with this key and status moves on. */
  function Advance(s: seq<Job>, r: Request, from: Status, f: Job -> Job): (t: seq<Job>)
    ensures |t| == |s|
  {
    if s == [] then []
    else if SameKey(s[0].request, r) && s[0].status == from then [f(s[0])] + s[1..]
    else [s[0]] + Advance(s[1..], r, from, f)
  }

  function Started(now: u64): Job -> Job {
    (j: Job) => j.(status := InProgress, started := now)
  }

  function Finished(success: bool, now: u64): Job -> Job {
    (j: Job) => j.(status := if success then Completed else Failed, completed := now)
  }

  function Start(s: seq<Job>, r: Request, now: u64): seq<Job> {
    Advance(s, r, Pending, Started(now))
  }

  function Complete(s: seq<Job>, r: Request, success: bool, now: u64): seq<Job> {
    Advance(s, r, InProgress, Finished(success, now))
  }

  predicate Revivable(j: Job, maxRetries: u32) {
    j.status == Failed && j.retries < maxRetries
  }

  function Revive(maxRetries: u32): Job -> Job {
    (j: Job) => if Revivable(j, maxRetries) then j.(status := Pending, retries := j.retries + 1) else j
  }

  function Retry(s: seq<Job>, maxRetries: u32): seq<Job> {
    StableSort(Map(s, Revive(maxRetries)))
  }

  function Kept(now: u64, maxAge: u64): Job -> bool {
    (j: Job) => Live(j) || SubU64(now, j.completed) <= maxAge
  }

  function Cleanup(s: seq<Job>, now: u64, maxAge: u64): seq<Job> {
    Where(s, Kept(now, maxAge))
  }

  // -------------------------------------------------------------- invariant

  /** Pending jobs stand in nonincreasing priority. */
  ghost predicate Prioritized(s: seq<Job>) {
    forall i, j :: 0 <= i < j < |s| && s[i].status == Pending && s[j].status == Pending ==>
      s[i].request.priority >= s[j].request.priority
  }

  lemma {:induction false} CountAppend(s: seq<Job>, x: Job, p: Job -> bool)
    ensures Count(s + [x], p) == Count(s, p) + if p(x) then 1 else 0
  {
    if s != [] {
      assert (s + [x])[1..] == s[1..] + [x];
      CountAppend(s[1..], x, p);
    }
  }

  lemma {:induction false} CountPointwise(s: seq<Job>, t: seq<Job>, p: Job -> bool, q: Job -> bool)
    requires |s| == |t| && forall i :: 0 <= i < |s| ==> p(s[i]) ==> q(t[i])
    ensures Count(s, p) <= Count(t, q)
  {
    if s != [] { CountPointwise(s[1..], t[1..], p, q); }
  }

  lemma SortedPrioritized(s: seq<Job>)
    ensures Prioritized(StableSort(s)) && Count(StableSort(s), Active()) == Count(s, Active())
  {
    hide StableSort;
    SortOrdered(s);
    SortCounts(s, Active());
  }

  lemma QueueOrdered(s: seq<Job>, r: Request)
    requires Prioritized(s)
    ensures Prioritized(Queue(s, r)) && Count(Queue(s, r), Active()) <= Count(s, Active())
  {
    hide StableSort;
    if !HasLive(s, r) {
      CountAppend(s, Job(r, Pending, 0, 0, 0), Active());
      SortedPrioritized(s + [Job(r, Pending, 0, 0, 0)]);
    }
  }

  lemma RetryOrdered(s: seq<Job>, maxRetries: u32)
    ensures Prioritized(Retry(s, maxRetries)) && Count(Retry(s, maxRetries), Active()) <= Count(s, Active())
  {
    hide StableSort;
    CountPointwise(Map(s, Revive(maxRetries)), s, Active(), Active());
    SortedPrioritized(Map(s, Revive(maxRetries)));
  }

  lemma {:induction false} AdvanceAt(s: seq<Job>, r: Request, from: Status, f: Job -> Job, i: nat)
    requires i < |s|
    ensures Advance(s, r, from, f)[i] == s[i] || (s[i].status == from && Advance(s, r, from, f)[i] == f(s[i]))
  {
    if i > 0 && !(SameKey(s[0].request, r) && s[0].status == from) { AdvanceAt(s[1..], r, from, f, i - 1); }
  }

  lemma CompleteOrdered(s: seq<Job>, r: Request, success: bool, now: u64)
    requires Prioritized(s)
    ensures var t := Complete(s, r, success, now);
            Prioritized(t) && Count(t, Active()) <= Count(s, Active())
  {
    hide Advance;
    var t := Complete(s, r, success, now);
    forall i | 0 <= i < |s|
      ensures t[i] == s[i] || (s[i].status == InProgress && t[i] == Finished(success, now)(s[i]))
    {
      AdvanceAt(s, r, InProgress, Finished(success, now), i);
    }
    CountPointwise(t, s, Active(), Active());
  }

  lemma {:induction false} WhereCounts(s: seq<Job>, p: Job -> bool, q: Job -> bool)
    ensures Count(Where(s, p), q) <= Count(s, q)
  {
    hide Count;
    if s != [] {
      var front, x := s[..|s| - 1], s[|s| - 1];
      WhereCounts(front, p, q);
      assert s == front + [x];
      CountAppend(front, x, q);
      CountAppend(Where(front, p), x, q);
    } else {
      assert Where(s, p) == s;
    }
  }

  lemma {:induction false} WhereOrdered(s: seq<Job>, p: Job -> bool)
    requires Prioritized(s)
    ensures Prioritized(Where(s, p))
  {
    if s != [] {
      var front := s[..|s| - 1];
      WhereOrdered(front, p);
      WhereWithin(front, p);
      forall k | 0 <= k < |Where(front, p)| && Where(front, p)[k].status == Pending && s[|s| - 1].status == Pending
        ensures Where(front, p)[k].request.priority >= s[|s| - 1].request.priority
      {
        assert Where(front, p)[k] in front;
      }
    }
  }

  // --------------------------------------------------------------- dispatch

  lemma {:induction false} FirstPendingFacts(s: seq<Job>)
    requires Prioritized(s) && FirstPending(s).Some?
    ensures FirstPending(s).value in s && FirstPending(s).value.status == Pending
    ensures forall j :: j in s && j.status == Pending ==> j.request.priority <= FirstPending(s).value.request.priority
  {
    if s[0].status != Pending { FirstPendingFacts(s[1..]); }
  }

  /** `get_next_job` hands out a pending job of the highest priority, or nothing if none waits or five run. */
  lemma NextIsMaximal(s: seq<Job>)
    requires Prioritized(s)
    ensures NextJob(s).Some? <==> Count(s, Active()) < 5 && exists j :: j in s && j.status == Pending
    ensures NextJob(s).Some? ==>
      var j := NextJob(s).value;
      j in s && j.status == Pending
      && forall k :: k in s && k.status == Pending ==> k.request.priority <= j.request.priority
  {
    PendingExists(s);
    if FirstPending(s).Some? { FirstPendingFacts(s); }
  }

  /** First come, first served: no pending job stands before the one handed out. */
  lemma {:induction false} NextIsFirst(s: seq<Job>) returns (k: nat)
    requires FirstPending(s).Some?
    ensures k < |s| && s[k] == FirstPending(s).value && forall i :: 0 <= i < k ==> s[i].status != Pending
  {
    if s[0].status == Pending {
      k := 0;
    } else {
      var m := NextIsFirst(s[1..]);
      k := m + 1;
      assert forall i :: 1 <= i < k ==> s[i] == s[1..][i - 1];
    }
  }

  lemma {:induction false} PendingExists(s: seq<Job>)
    ensures FirstPending(s).Some? <==> exists j :: j in s && j.status == Pending
  {
    if s != [] && s[0].status != Pending {
      PendingExists(s[1..]);
      assert forall j :: j in s <==> j == s[0] || j in s[1..];
    }
  }

  /** Starting the job just handed out starts exactly that job: every other job is untouched. */
  lemma {:induction false} StartsThatJob(s: seq<Job>, now: u64) returns (k: nat)
    requires FirstPending(s).Some?
    ensures k < |s| && s[k] == FirstPending(s).value
    ensures Start(s, FirstPending(s).value.request, now) == s[k := Started(now)(s[k])]
  {
    if s[0].status == Pending {
      k := 0;
    } else {
      var m := StartsThatJob(s[1..], now);
      k := m + 1;
      assert s[k := Started(now)(s[k])] == [s[0]] + s[1..][m := Started(now)(s[k])];
    }
  }

  predicate Matches(j: Job, r: Request) {
    SameKey(j.request, r) && j.status == Pending
  }

  predicate HasPending(s: seq<Job>, r: Request) {
    exists i :: 0 <= i < |s| && Matches(s[i], r)
  }

  /** `mark_job_started` starts the first pending job with the key of the request, or nothing. */
  lemma {:induction false} StartCases(s: seq<Job>, r: Request, now: u64) returns (k: nat)
    ensures HasPending(s, r) <==> k < |s|
    ensures k < |s| ==> Matches(s[k], r) && Start(s, r, now) == s[k := Started(now)(s[k])]
    ensures k < |s| ==> forall i :: 0 <= i < k ==> !Matches(s[i], r)
    ensures k >= |s| ==> Start(s, r, now) == s
  {
    if s == [] {
      k := 0;
    } else if Matches(s[0], r) {
      k := 0;
    } else {
      var m := StartCases(s[1..], r, now);
      k := m + 1;
      assert m < |s| - 1 ==> s[k] == s[1..][m];
      assert m < |s| - 1 ==> s[k := Started(now)(s[k])] == [s[0]] + s[1..][m := Started(now)(s[k])];
    }
  }

  /** A pending job is the one that its own request starts exactly if no pending job before it has the same key. */
  lemma StartsItIff(s: seq<Job>, k: nat, now: u64)
    requires k < |s| && s[k].status == Pending
    ensures Start(s, s[k].request, now) == s[k := Started(now)(s[k])]
       <==> forall i :: 0 <= i < k ==> !Matches(s[i], s[k].request)
  {
    hide Start;
    var m := StartCases(s, s[k].request, now);
    assert Matches(s[k], s[k].request);
    assert Start(s, s[k].request, now)[m].status == InProgress;
    assert m != k ==> s[k := Started(now)(s[k])][m] == s[m];
  }

  lemma {:induction false} CountUpdate(s: seq<Job>, k: nat, x: Job, p: Job -> bool)
    requires k < |s|
    ensures Count(s[k := x], p) == Count(s, p) - (if p(s[k]) then 1 else 0) + (if p(x) then 1 else 0)
  {
    if k == 0 {
      assert s[k := x][1..] == s[1..];
    } else {
      CountUpdate(s[1..], k - 1, x, p);
      assert s[k := x][1..] == s[1..][k - 1 := x];
    }
  }

  /** A start costs one active job if something matches; jobs of other keys are left alone. */
  lemma StartCounts(s: seq<Job>, r: Request, now: u64)
    ensures Count(Start(s, r, now), Active()) == Count(s, Active()) + if HasPending(s, r) then 1 else 0
    ensures forall q :: !SameKey(q, r) ==> (HasPending(Start(s, r, now), q) <==> HasPending(s, q))
    ensures Prioritized(s) ==> Prioritized(Start(s, r, now))
  {
    hide Start, Count;
    var k := StartCases(s, r, now);
    if k < |s| {
      CountUpdate(s, k, Started(now)(s[k]), Active());
      var t := Start(s, r, now);
      forall q | !SameKey(q, r) ensures HasPending(t, q) <==> HasPending(s, q) {
        assert forall i :: 0 <= i < |s| ==> (Matches(t[i], q) <==> Matches(s[i], q));
      }
    }
  }

  // ------------------------------------------------------------------- runs

  /**
   The jobs, every request ever handed out by `get_next_job`, and the one handed out
   last if it has not been started yet.
   */
  datatype Desk = Desk(jobs: seq<Job>, returned: set<Request>, open: Option<Request>)

  const EMPTY: Desk := Desk([], {}, None)

  datatype Op =
    | QueueOp(r: Request)
    | CancelOp(network: Hash, target: Hash)
    | FetchOp
    | StartOp(r: Request, now: u64)
    | CompleteOp(r: Request, success: bool, now: u64)
    | RetryOp(maxRetries: u32)
    | CleanupOp(now: u64, maxAge: u64)

  /** What an operation does to the jobs. */
  function JobsAfter(s: seq<Job>, op: Op): seq<Job> {
    match op
    case QueueOp(r) => Queue(s, r)
    case CancelOp(network, target) => Cancel(s, network, target)
    case FetchOp => s
    case StartOp(r, now) => Start(s, r, now)
    case CompleteOp(r, success, now) => Complete(s, r, success, now)
    case RetryOp(maxRetries) => Retry(s, maxRetries)
    case CleanupOp(now, maxAge) => Cleanup(s, now, maxAge)
  }

  function Apply(d: Desk, op: Op): Desk {
    if op.FetchOp? then
      match NextJob(d.jobs)
      case None => d.(open := None)
      case Some(j) => d.(returned := d.returned + {j.request}, open := Some(j.request))
    else if op.StartOp? then Desk(JobsAfter(d.jobs, op), d.returned, None)
    else d.(jobs := JobsAfter(d.jobs, op))
  }

  function Run(ops: seq<Op>): Desk {
    if ops == [] then EMPTY else Apply(Run(ops[..|ops| - 1]), ops[|ops| - 1])
  }

  /** Only requests that were handed out are started, at whatever time and however often. */
  ghost predicate OnlyReturned(ops: seq<Op>) {
    forall i :: 0 <= i < |ops| && ops[i].StartOp? ==> ops[i].r in Run(ops[..i]).returned
  }

  /** Each request handed out is started at most once, and before the next is asked for. */
  ghost predicate Prompt(ops: seq<Op>) {
    forall i :: 0 <= i < |ops| && ops[i].StartOp? ==> Run(ops[..i]).open == Some(ops[i].r)
  }

  lemma StepOrdered(s: seq<Job>, op: Op)
    requires Prioritized(s)
    ensures Prioritized(JobsAfter(s, op))
    ensures !op.StartOp? ==> Count(JobsAfter(s, op), Active()) <= Count(s, Active())
  {
    hide Start, Count, Where, StableSort, Advance;
    match op
    case QueueOp(r) => QueueOrdered(s, r);
    case CancelOp(network, target) => CountPointwise(Cancel(s, network, target), s, Active(), Active());
    case FetchOp =>
    case StartOp(r, now) => StartCounts(s, r, now);
    case CompleteOp(r, success, now) => CompleteOrdered(s, r, success, now);
    case RetryOp(maxRetries) => RetryOrdered(s, maxRetries);
    case CleanupOp(now, maxAge) =>
      WhereOrdered(s, Kept(now, maxAge));
      WhereCounts(s, Kept(now, maxAge), Active());
  }

  /**
   Over every run, whatever is started and when: pending jobs stand in priority
   order, and the next job handed out is of maximal priority.
   */
  lemma {:induction false} ScheduleOrdered(ops: seq<Op>)
    ensures Prioritized(Run(ops).jobs)
    ensures NextJob(Run(ops).jobs).Some? ==>
      forall k :: k in Run(ops).jobs && k.status == Pending ==>
        k.request.priority <= NextJob(Run(ops).jobs).value.request.priority
  {
    hide JobsAfter, Prioritized, NextJob;
    if ops == [] {
      NoJobs();
    } else {
      ScheduleOrdered(ops[..|ops| - 1]);
      StepOrdered(Run(ops[..|ops| - 1]).jobs, ops[|ops| - 1]);
    }
    NextIsMaximal(Run(ops).jobs);
  }

  lemma NoJobs()
    ensures Prioritized([]) && Count([], Active()) == 0
  {
  }

  /** There is room for the start, or it starts nothing. */
  predicate HasRoom(s: seq<Job>, r: Request) {
    Count(s, Active()) < MAX_ACTIVE || !HasPending(s, r)
  }

  ghost predicate WithinFive(ops: seq<Op>) {
    forall k :: 0 <= k <= |ops| ==> Count(Run(ops[..k]).jobs, Active()) <= 5
  }

  ghost predicate StartsWithRoom(ops: seq<Op>) {
    forall i :: 0 <= i < |ops| && ops[i].StartOp? ==> HasRoom(Run(ops[..i]).jobs, ops[i].r)
  }

  lemma WithinFiveFront(ops: seq<Op>)
    requires ops != []
    ensures var front := ops[..|ops| - 1];
            WithinFive(ops) <==> WithinFive(front) && Count(Run(ops).jobs, Active()) <= MAX_ACTIVE
  {
    hide Count, Run;
    var front := ops[..|ops| - 1];
    assert ops[..|ops|] == ops;
    assert forall k :: 0 <= k <= |front| ==> front[..k] == ops[..k];
  }

  lemma StartsWithRoomFront(ops: seq<Op>)
    requires ops != []
    ensures var front, last := ops[..|ops| - 1], ops[|ops| - 1];
            StartsWithRoom(ops) <==> StartsWithRoom(front) && (last.StartOp? ==> HasRoom(Run(front).jobs, last.r))
  {
    hide HasRoom, Run;
    var front := ops[..|ops| - 1];
    assert forall i :: 0 <= i < |front| ==> front[..i] == ops[..i] && front[i] == ops[i];
  }

  /** Over every run: at most five jobs are active at all times exactly if every start finds
    room or nothing to start. */
  lemma {:induction false} WithinFiveIff(ops: seq<Op>)
    ensures WithinFive(ops) <==> StartsWithRoom(ops)
  {
    hide Count, JobsAfter, WithinFive, StartsWithRoom;
    if ops == [] {
      NoJobs();
      assert WithinFive(ops) && StartsWithRoom(ops) by { EmptyRun(); }
    } else {
      var front, last := ops[..|ops| - 1], ops[|ops| - 1];
      WithinFiveIff(front);
      WithinFiveFront(ops);
      StartsWithRoomFront(ops);
      ScheduleOrdered(front);
      StepOrdered(Run(front).jobs, last);
      if last.StartOp? { StartGrows(Run(front).jobs, last); }
      if WithinFive(front) { LastWithin(front); }
    }
  }

  lemma EmptyRun()
    ensures WithinFive([]) && StartsWithRoom([])
  {
    var none: seq<Op> := [];
    assert forall k :: 0 <= k <= |none| ==> none[..k] == [];
  }

  lemma LastWithin(ops: seq<Op>)
    requires WithinFive(ops)
    ensures Count(Run(ops).jobs, Active()) <= MAX_ACTIVE
  {
    hide Count;
    assert ops[..|ops|] == ops;
  }

  lemma StartGrows(s: seq<Job>, op: Op)
    requires op.StartOp?
    ensures Count(JobsAfter(s, op), Active()) == Count(s, Active()) + if HasPending(s, op.r) then 1 else 0
  {
    hide Start, Count, HasPending, Prioritized;
    StartCounts(s, op.r, op.now);
  }

  lemma PromptFront(ops: seq<Op>)
    requires ops != [] && Prompt(ops)
    ensures var front, last := ops[..|ops| - 1], ops[|ops| - 1];
            Prompt(front) && (last.StartOp? ==> Run(front).open == Some(last.r))
  {
    hide Run;
    var front := ops[..|ops| - 1];
    assert forall i :: 0 <= i < |front| ==> front[..i] == ops[..i] && front[i] == ops[i];
  }

  /** A dispatcher that starts each job it gets before it asks for the next never has more than five active. */
  lemma {:induction false} PromptWithinFive(ops: seq<Op>)
    requires Prompt(ops)
    ensures WithinFive(ops)
    ensures Run(ops).open.Some? ==> Count(Run(ops).jobs, Active()) < MAX_ACTIVE
  {
    hide Count, JobsAfter, WithinFive, Prompt, FirstPending;
    if ops == [] {
      EmptyRun();
    } else {
      var front, last := ops[..|ops| - 1], ops[|ops| - 1];
      PromptFront(ops);
      PromptWithinFive(front);
      WithinFiveFront(ops);
      LastWithin(front);
      ScheduleOrdered(front);
      StepOrdered(Run(front).jobs, last);
      FetchKeeps(Run(front).jobs);
      if last.StartOp? { StartGrows(Run(front).jobs, last); }
    }
  }

  lemma FetchKeeps(s: seq<Job>)
    ensures JobsAfter(s, FetchOp) == s
  {
  }

  // ------------------------------------------- two jobs fetched before a start

  /** A request for a network. */
  function For(network: Hash, priority: u32): Request {
    Request(network, 0, 0, 0, priority)
  }

  lemma RunAppend(ops: seq<Op>, op: Op)
    ensures Run(ops + [op]) == Apply(Run(ops), op)
    ensures OnlyReturned(ops + [op]) <==> OnlyReturned(ops) && (op.StartOp? ==> op.r in Run(ops).returned)
  {
    hide Apply;
    var all := ops + [op];
    assert all[..|ops|] == ops;
    assert forall i :: 0 <= i < |ops| ==> all[..i] == ops[..i] && all[i] == ops[i];
  }

  /** No retries, and every start is for another network, all below `n`: nothing is started twice. */
  ghost predicate StartsOnce(ops: seq<Op>, n: nat) {
    && (forall i :: 0 <= i < |ops| ==> !ops[i].RetryOp?)
    && (forall i :: 0 <= i < |ops| && ops[i].StartOp? ==> ops[i].r.network < n)
    && DistinctStarts(ops)
  }

  ghost predicate DistinctStarts(ops: seq<Op>) {
    forall i, j :: 0 <= i < j < |ops| && ops[i].StartOp? && ops[j].StartOp? ==> ops[i].r != ops[j].r
  }

  lemma StartsOnceAppend(ops: seq<Op>, n: nat, op: Op)
    requires StartsOnce(ops, n) && !op.RetryOp? && (op.StartOp? ==> op.r.network == n)
    ensures StartsOnce(ops + [op], if op.StartOp? then n + 1 else n)
  {
  }

  function Waiting(): Job -> bool {
    (j: Job) => j.status == Pending
  }

  /** `n` jobs run, none waits, and all are for networks below `n`. */
  ghost predicate Busy(s: seq<Job>, n: nat) {
    Count(s, Active()) == n && Count(s, Waiting()) == 0 && forall j :: j in s ==> j.request.network < n
  }

  /** The jobs of `s` and waiting ones for the given requests, in some order. */
  ghost predicate BusyWith(t: seq<Job>, s: seq<Job>, rs: seq<Request>) {
    && Count(t, Active()) == Count(s, Active())
    && Count(t, Waiting()) == Count(s, Waiting()) + |rs|
    && (forall j :: j in t <==> j in s || FreshFor(j, rs))
  }

  predicate FreshFor(j: Job, rs: seq<Request>) {
    j.request in rs && j == Job(j.request, Pending, 0, 0, 0)
  }

  lemma {:induction false} NoneCounted(s: seq<Job>, p: Job -> bool)
    requires Count(s, p) == 0
    ensures forall j :: j in s ==> !p(j)
  {
    if s != [] { NoneCounted(s[1..], p); }
  }

  lemma SortKeepsJobs(s: seq<Job>)
    ensures forall j :: j in StableSort(s) <==> j in s
  {
    hide StableSort;
    SortOrdered(s);
    forall j ensures j in StableSort(s) <==> j in s {
      assert j in multiset(StableSort(s)) <==> j in multiset(s);
    }
  }

  lemma QueueAdds(t: seq<Job>, s: seq<Job>, rs: seq<Request>, r: Request)
    requires BusyWith(t, s, rs) && !HasLive(t, r)
    ensures BusyWith(Queue(t, r), s, rs + [r])
  {
    hide StableSort, Count;
    var x := Job(r, Pending, 0, 0, 0);
    SortKeepsJobs(t + [x]);
    SortCounts(t + [x], Active());
    SortCounts(t + [x], Waiting());
    CountAppend(t, x, Active());
    CountAppend(t, x, Waiting());
  }

  lemma NoneLiveFor(t: seq<Job>, s: seq<Job>, rs: seq<Request>, n: nat, r: Request)
    requires Busy(s, n) && BusyWith(t, s, rs) && r.network >= n && forall q :: q in rs ==> q.network != r.network
    ensures !HasLive(t, r)
  {
    hide Count;
    forall i | 0 <= i < |t| ensures !SameKey(t[i].request, r) {
      assert t[i] in t;
    }
  }

  /** Of the waiting jobs, the one with the highest priority is handed out. */
  lemma FetchesBest(t: seq<Job>, s: seq<Job>, rs: seq<Request>, n: nat, best: Request)
    requires Busy(s, n) && n < MAX_ACTIVE && BusyWith(t, s, rs) && Prioritized(t) && best in rs
    requires forall q :: q in rs && q != best ==> q.priority < best.priority
    ensures NextJob(t) == Some(Job(best, Pending, 0, 0, 0)) && HasPending(t, best)
  {
    hide Count, FirstPending;
    NoneCounted(s, Waiting());
    var x := Job(best, Pending, 0, 0, 0);
    assert FreshFor(x, rs);
    var i :| 0 <= i < |t| && t[i] == x;
    assert Matches(t[i], best);
    PendingExists(t);
    FirstPendingFacts(t);
  }

  /** One round of a prompt dispatcher: one more job runs. */
  lemma Round(ops: seq<Op>, n: nat, r: Request, now: u64) returns (more: seq<Op>)
    requires Busy(Run(ops).jobs, n) && n < MAX_ACTIVE && r.network == n && OnlyReturned(ops)
    requires StartsOnce(ops, n)
    ensures Busy(Run(more).jobs, n + 1) && OnlyReturned(more) && StartsOnce(more, n + 1)
  {
    hide StartsOnce, Run, OnlyReturned, Count, StableSort, Start, NextJob, Prioritized, HasPending, Queue;
    var s := Run(ops).jobs;
    NothingAdded(s);
    NoneLiveFor(s, s, [], n, r);
    QueueAdds(s, s, [], r);
    assert [] + [r] == [r];
    var a := ops + [QueueOp(r)];
    RunAppend(ops, QueueOp(r));
    var t := Run(a).jobs;
    ScheduleOrdered(a);
    FetchesBest(t, s, [r], n, r);
    var b := a + [FetchOp];
    RunAppend(a, FetchOp);
    more := b + [StartOp(r, now)];
    RunAppend(b, StartOp(r, now));
    StartEffects(t, r, now);
    StartsOnceAppend(ops, n, QueueOp(r));
    StartsOnceAppend(a, n, FetchOp);
    StartsOnceAppend(b, n, StartOp(r, now));
    assert forall j :: j in t ==> j.request.network < n + 1;
  }

  /** What a start that finds its job does to the counts and the networks. */
  lemma StartEffects(t: seq<Job>, r: Request, now: u64)
    requires HasPending(t, r)
    ensures Count(Start(t, r, now), Active()) == Count(t, Active()) + 1
    ensures Count(Start(t, r, now), Waiting()) == Count(t, Waiting()) - 1
    ensures forall j :: j in Start(t, r, now) ==> exists i :: 0 <= i < |t| && t[i].request == j.request
  {
    hide Start, Count;
    var k := StartCases(t, r, now);
    CountUpdate(t, k, Started(now)(t[k]), Active());
    CountUpdate(t, k, Started(now)(t[k]), Waiting());
  }

  lemma NothingAdded(s: seq<Job>)
    ensures BusyWith(s, s, [])
  {
  }

  lemma {:induction false} Rounds(n: nat, now: u64) returns (ops: seq<Op>)
    requires n <= MAX_ACTIVE
    ensures Busy(Run(ops).jobs, n) && OnlyReturned(ops) && StartsOnce(ops, n)
  {
    if n == 0 {
      ops := [];
    } else {
      var front := Rounds(n - 1, now);
      ops := Round(front, n - 1, For(n - 1, 0), now);
    }
  }

  /**
   The limit can be passed without any duplicate: while four jobs run, fetch one,
   queue one of higher priority, fetch that, and start both.  Only returned requests
   are started, each once, and live jobs are unique at all times.
   */
  lemma OvertakingExceedsFive(now: u64) returns (ops: seq<Op>)
    ensures OnlyReturned(ops) && DistinctStarts(ops) && AlwaysUnique(ops)
    ensures Count(Run(ops).jobs, Active()) == 6
  {
    hide StartsOnce, AlwaysUnique, DistinctStarts, Run, OnlyReturned;
    hide Count, StableSort, Start, NextJob, Prioritized, HasPending, Queue;
    var low, high := For(4, 0), For(5, 1);
    var o0 := Rounds(4, now);
    var s := Run(o0).jobs;
    NothingAdded(s);
    NoneLiveFor(s, s, [], 4, low);
    QueueAdds(s, s, [], low);
    assert [] + [low] == [low];
    var o1 := o0 + [QueueOp(low)];
    RunAppend(o0, QueueOp(low));
    ScheduleOrdered(o1);
    FetchesBest(Run(o1).jobs, s, [low], 4, low);
    var o2 := o1 + [FetchOp];
    RunAppend(o1, FetchOp);
    NoneLiveFor(Run(o2).jobs, s, [low], 4, high);
    QueueAdds(Run(o2).jobs, s, [low], high);
    assert [low] + [high] == [low, high];
    var o3 := o2 + [QueueOp(high)];
    RunAppend(o2, QueueOp(high));
    ScheduleOrdered(o3);
    var t := Run(o3).jobs;
    FetchesBest(t, s, [low, high], 4, high);
    StillWaiting(t, s, [low, high], low);
    var o4 := o3 + [FetchOp];
    RunAppend(o3, FetchOp);
    var o5 := o4 + [StartOp(low, now)];
    RunAppend(o4, StartOp(low, now));
    StartCounts(t, low, now);
    ops := o5 + [StartOp(high, now)];
    RunAppend(o5, StartOp(high, now));
    StartCounts(Start(t, low, now), high, now);
    StartsOnceAppend(o0, 4, QueueOp(low));
    StartsOnceAppend(o1, 4, FetchOp);
    StartsOnceAppend(o2, 4, QueueOp(high));
    StartsOnceAppend(o3, 4, FetchOp);
    StartsOnceAppend(o4, 4, StartOp(low, now));
    StartsOnceAppend(o5, 5, StartOp(high, now));
    NoRetriesUnique(ops, 6);
  }

  lemma NoRetriesUnique(ops: seq<Op>, n: nat)
    requires StartsOnce(ops, n)
    ensures AlwaysUnique(ops) && DistinctStarts(ops)
  {
    hide AlwaysUnique, Run;
    AlwaysUniqueIff(ops);
  }

  lemma StillWaiting(t: seq<Job>, s: seq<Job>, rs: seq<Request>, r: Request)
    requires BusyWith(t, s, rs) && r in rs
    ensures HasPending(t, r)
  {
    hide Count;
    var x := Job(r, Pending, 0, 0, 0);
    assert FreshFor(x, rs);
    var i :| 0 <= i < |t| && t[i] == x;
    assert Matches(t[i], r);
  }

  /** With a live duplicate, starting one returned request twice starts both jobs. */
  lemma DoubleStart(s: seq<Job>, r: Request, i: nat, j: nat, now: u64)
    requires i < j < |s| && Matches(s[i], r) && Matches(s[j], r)
    ensures Count(Start(Start(s, r, now), r, now), Active()) == Count(s, Active()) + 2
  {
    hide Start, Count;
    var k := StartCases(s, r, now);
    var t := Start(s, r, now);
    StartCounts(s, r, now);
    assert t[if k == i then j else i] == s[if k == i then j else i];
    StartCounts(t, r, now);
  }

  // --------------------------------------------------------- live duplicates

  function LiveWith(network: Hash, target: Hash): Job -> bool {
    (j: Job) => j.request.network == network && j.request.target == target && Live(j)
  }

  /** No two live jobs replicate the same network to the same node. */
  ghost predicate NoDuplicates(s: seq<Job>) {
    forall n, t :: Count(s, LiveWith(n, t)) <= 1
  }

  function LiveOrRevivable(network: Hash, target: Hash, maxRetries: u32): Job -> bool {
    (j: Job) => j.request.network == network && j.request.target == target && (Live(j) || Revivable(j, maxRetries))
  }

  lemma {:induction false} NoneLive(s: seq<Job>, r: Request)
    requires !HasLive(s, r)
    ensures Count(s, LiveWith(r.network, r.target)) == 0
  {
    if s != [] {
      NoneLive(s[1..], r);
    }
  }

  /** A request never adds a second live job for the same network and node. */
  lemma QueueKeepsUnique(s: seq<Job>, r: Request)
    requires NoDuplicates(s)
    ensures NoDuplicates(Queue(s, r))
  {
    hide StableSort;
    if !HasLive(s, r) {
      var x := Job(r, Pending, 0, 0, 0);
      NoneLive(s, r);
      forall n, t ensures Count(StableSort(s + [x]), LiveWith(n, t)) <= 1 {
        SortCounts(s + [x], LiveWith(n, t));
        CountAppend(s, x, LiveWith(n, t));
      }
    }
  }

  /** The retry revives no job whose network and node have another live or revived one. */
  ghost predicate RetrySafe(s: seq<Job>, maxRetries: u32) {
    forall n, t :: Count(s, LiveOrRevivable(n, t, maxRetries)) <= 1
  }

  /** A retry keeps live jobs unique exactly if no job it revives shares its network and node
    with a live or revived one. */
  lemma RetryUniqueIff(s: seq<Job>, maxRetries: u32)
    ensures NoDuplicates(Retry(s, maxRetries)) <==> RetrySafe(s, maxRetries)
  {
    hide StableSort;
    var u := Map(s, Revive(maxRetries));
    forall n, t ensures Count(Retry(s, maxRetries), LiveWith(n, t)) == Count(s, LiveOrRevivable(n, t, maxRetries)) {
      SortCounts(u, LiveWith(n, t));
      CountPointwise(u, s, LiveWith(n, t), LiveOrRevivable(n, t, maxRetries));
      CountPointwise(s, u, LiveOrRevivable(n, t, maxRetries), LiveWith(n, t));
    }
    if NoDuplicates(Retry(s, maxRetries)) {
      forall n, t ensures Count(s, LiveOrRevivable(n, t, maxRetries)) <= 1 {
        assert Count(Retry(s, maxRetries), LiveWith(n, t)) <= 1;
      }
    }
    if RetrySafe(s, maxRetries) {
      forall n, t ensures Count(Retry(s, maxRetries), LiveWith(n, t)) <= 1 {
        assert Count(s, LiveOrRevivable(n, t, maxRetries)) <= 1;
      }
    }
  }

  /** The queue after a job has failed and was requested again. */
  function FailedAndQueued(r: Request, started: u64, failed: u64): seq<Job> {
    [Job(r, Pending, 0, 0, 0), Job(r, Failed, started, failed, 0)]
  }

  lemma RetryDuplicates(r: Request, started: u64, failed: u64)
    ensures var s := FailedAndQueued(r, started, failed);
            NoDuplicates(s) && !NoDuplicates(Retry(s, 3))
  {
    hide StableSort;
    var s := FailedAndQueued(r, started, failed);
    assert s[1..] == [s[1]] && s[1..][1..] == [];
    forall n, t ensures Count(s, LiveWith(n, t)) <= 1 {
      assert Count(s[1..], LiveWith(n, t)) == 0;
    }
    RetryUniqueIff(s, 3);
    assert Count(s[1..], LiveOrRevivable(r.network, r.target, 3)) == 1;
    assert Count(s, LiveOrRevivable(r.network, r.target, 3)) == 2;
  }

  lemma SingleSteps(r: Request, started: u64, failed: u64)
    ensures Queue([], r) == [Job(r, Pending, 0, 0, 0)]
    ensures NextJob([Job(r, Pending, 0, 0, 0)]) == Some(Job(r, Pending, 0, 0, 0))
    ensures Start([Job(r, Pending, 0, 0, 0)], r, started) == [Job(r, InProgress, started, 0, 0)]
    ensures Complete([Job(r, InProgress, started, 0, 0)], r, false, failed) == [Job(r, Failed, started, failed, 0)]
    ensures Queue([Job(r, Failed, started, failed, 0)], r) == FailedAndQueued(r, started, failed)
  {
    var p, q := Job(r, Pending, 0, 0, 0), Job(r, Failed, started, failed, 0);
    assert [] + [p] == [p] && [p][1..] == [];
    assert Count([p], Active()) == 0;
    assert StableSort([p]) == [p];
    assert [q] + [p] == [q, p] && [q, p][1..] == [p];
    assert StableSort([q, p]) == Insert(q, [p]) == [p, q];
  }

  /** And it does happen, in a run of a prompt dispatcher: fail a job, request it again, then retry. */
  lemma RetryCanDuplicate(r: Request, started: u64, failed: u64) returns (ops: seq<Op>)
    ensures OnlyReturned(ops) && Prompt(ops) && !NoDuplicates(Run(ops).jobs)
  {
    hide Queue, Start, Complete, Retry, NextJob, NoDuplicates;
    SingleSteps(r, started, failed);
    RetryDuplicates(r, started, failed);
    ops := [QueueOp(r), FetchOp, StartOp(r, started), CompleteOp(r, false, failed), QueueOp(r), RetryOp(3)];
    assert ops[..0] == [] && ops[..1] == ops[..0] + [ops[0]] && ops[..2] == ops[..1] + [ops[1]];
    assert ops[..3] == ops[..2] + [ops[2]] && ops[..4] == ops[..3] + [ops[3]];
    assert ops[..5] == ops[..4] + [ops[4]] && ops == ops[..5] + [ops[5]];
    RunAppend(ops[..0], ops[0]);
    RunAppend(ops[..1], ops[1]);
    assert Run(ops[..2]) == Desk([Job(r, Pending, 0, 0, 0)], {r}, Some(r));
    RunAppend(ops[..2], ops[2]);
    RunAppend(ops[..3], ops[3]);
    RunAppend(ops[..4], ops[4]);
    assert Run(ops[..5]).jobs == FailedAndQueued(r, started, failed);
    RunAppend(ops[..5], ops[5]);
  }

  /** Every live job afterwards was a live job of the same network and node before. */
  lemma LiveFewer(s: seq<Job>, t: seq<Job>)
    requires |s| == |t| && NoDuplicates(s)
    requires forall i :: 0 <= i < |s| ==> Live(t[i]) ==> Live(s[i]) && t[i].request == s[i].request
    ensures NoDuplicates(t)
  {
    forall n, x ensures Count(t, LiveWith(n, x)) <= 1 { CountPointwise(t, s, LiveWith(n, x), LiveWith(n, x)); }
  }

  lemma AdvanceUnique(s: seq<Job>, r: Request, from: Status, f: Job -> Job)
    requires NoDuplicates(s) && (from == Pending || from == InProgress) && forall j :: f(j).request == j.request
    ensures NoDuplicates(Advance(s, r, from, f))
  {
    hide Advance, NoDuplicates;
    forall i | 0 <= i < |s|
      ensures Live(Advance(s, r, from, f)[i]) ==> Live(s[i]) && Advance(s, r, from, f)[i].request == s[i].request
    {
      AdvanceAt(s, r, from, f, i);
    }
    LiveFewer(s, Advance(s, r, from, f));
  }

  lemma StepUnique(s: seq<Job>, op: Op)
    requires NoDuplicates(s)
    ensures NoDuplicates(JobsAfter(s, op)) <==> (op.RetryOp? ==> RetrySafe(s, op.maxRetries))
  {
    hide NoDuplicates, RetrySafe, Advance, Queue, Retry, Where;
    match op
    case QueueOp(r) => QueueKeepsUnique(s, r);
    case CancelOp(network, target) => LiveFewer(s, Cancel(s, network, target));
    case FetchOp =>
    case StartOp(r, now) => AdvanceUnique(s, r, Pending, Started(now));
    case CompleteOp(r, success, now) => AdvanceUnique(s, r, InProgress, Finished(success, now));
    case RetryOp(maxRetries) => RetryUniqueIff(s, maxRetries);
    case CleanupOp(now, maxAge) => CleanupUnique(s, Kept(now, maxAge));
  }

  lemma CleanupUnique(s: seq<Job>, p: Job -> bool)
    requires NoDuplicates(s)
    ensures NoDuplicates(Where(s, p))
  {
    forall n, t ensures Count(Where(s, p), LiveWith(n, t)) <= 1 { WhereCounts(s, p, LiveWith(n, t)); }
  }

  ghost predicate AlwaysUnique(ops: seq<Op>) {
    forall k :: 0 <= k <= |ops| ==> NoDuplicates(Run(ops[..k]).jobs)
  }

  ghost predicate RetriesSafe(ops: seq<Op>) {
    forall i :: 0 <= i < |ops| && ops[i].RetryOp? ==> RetrySafe(Run(ops[..i]).jobs, ops[i].maxRetries)
  }

  lemma UniqueFront(ops: seq<Op>)
    requires ops != []
    ensures var front, last := ops[..|ops| - 1], ops[|ops| - 1];
            && (AlwaysUnique(ops) <==> AlwaysUnique(front) && NoDuplicates(Run(ops).jobs))
            && (RetriesSafe(ops) <==>
                  RetriesSafe(front) && (last.RetryOp? ==> RetrySafe(Run(front).jobs, last.maxRetries)))
            && (AlwaysUnique(front) ==> NoDuplicates(Run(front).jobs))
  {
    hide NoDuplicates, RetrySafe, Run;
    var front := ops[..|ops| - 1];
    assert ops[..|ops|] == ops && front[..|front|] == front;
    assert forall k :: 0 <= k <= |front| ==> front[..k] == ops[..k];
    assert forall i :: 0 <= i < |front| ==> front[i] == ops[i];
  }

  /** Over every run: live jobs stay unique throughout exactly if every retry is safe when it happens. */
  lemma {:induction false} AlwaysUniqueIff(ops: seq<Op>)
    ensures AlwaysUnique(ops) <==> RetriesSafe(ops)
  {
    hide NoDuplicates, RetrySafe, JobsAfter, AlwaysUnique, RetriesSafe;
    if ops == [] {
      UniqueAtFirst();
    } else {
      var front, last := ops[..|ops| - 1], ops[|ops| - 1];
      AlwaysUniqueIff(front);
      UniqueFront(ops);
      if AlwaysUnique(front) {
        StepUnique(Run(front).jobs, last);
        FetchKeeps(Run(front).jobs);
      }
    }
  }

  lemma UniqueAtFirst()
    ensures AlwaysUnique([]) && RetriesSafe([])
  {
    var none: seq<Op> := [];
    assert forall k :: 0 <= k <= |none| ==> none[..k] == [];
  }

  lemma {:induction false} TwoCounted(s: seq<Job>, p: Job -> bool, i: nat, j: nat)
    requires i < j < |s| && p(s[i]) && p(s[j])
    ensures Count(s, p) >= 2
  {
    if i == 0 { OneCounted(s[1..], p, j - 1); } else { TwoCounted(s[1..], p, i - 1, j - 1); }
  }

  lemma {:induction false} OneCounted(s: seq<Job>, p: Job -> bool, i: nat)
    requires i < |s| && p(s[i])
    ensures Count(s, p) >= 1
  {
    if i > 0 { OneCounted(s[1..], p, i - 1); }
  }

  /** Without live duplicates, starting a returned job that still waits starts exactly that job. */
  lemma UniqueStartsIt(s: seq<Job>, k: nat, now: u64)
    requires NoDuplicates(s) && k < |s| && s[k].status == Pending
    ensures Start(s, s[k].request, now) == s[k := Started(now)(s[k])]
  {
    hide Start, Count;
    var r := s[k].request;
    forall i | 0 <= i < k ensures !Matches(s[i], r) {
      if Matches(s[i], r) {
        assert Count(s, LiveWith(r.network, r.target)) <= 1;
        TwoCounted(s, LiveWith(r.network, r.target), i, k);
      }
    }
    StartsItIff(s, k, now);
  }

  // ------------------------------------------------------ nothing live is lost

  function IsLive(): Job -> bool {
    (j: Job) => j.status == Pending || j.status == InProgress
  }

  lemma {:induction false} WhereOfWhere(s: seq<Job>, p: Job -> bool, q: Job -> bool)
    requires forall j :: q(j) ==> p(j)
    ensures Where(Where(s, p), q) == Where(s, q)
  {
    if s != [] {
      var front, x := s[..|s| - 1], s[|s| - 1];
      WhereOfWhere(front, p, q);
      WhereAppend(Where(front, p), x, q);
    }
  }

  lemma {:induction false} WhereHas(s: seq<Job>, p: Job -> bool, j: Job)
    ensures j in Where(s, p) <==> j in s && p(j)
  {
    if s != [] {
      var front, x := s[..|s| - 1], s[|s| - 1];
      WhereHas(front, p, j);
      assert s == front + [x];
    }
  }

  /**
   Cleanup never touches a waiting or running job; of the others it keeps exactly those
   whose completion lies at most `maxAge` ticks back.
   */
  lemma CleanupExactly(s: seq<Job>, now: u64, maxAge: u64)
    ensures Where(Cleanup(s, now, maxAge), IsLive()) == Where(s, IsLive())
    ensures forall j :: j in Cleanup(s, now, maxAge) <==>
              j in s && (j.status == Pending || j.status == InProgress
                         || (j.completed <= now && now - j.completed <= maxAge)
                         || (j.completed > now && TWO_64 - (j.completed - now) <= maxAge))
  {
    WhereOfWhere(s, Kept(now, maxAge), IsLive());
    forall j
      ensures j in Cleanup(s, now, maxAge) <==>
                j in s && (j.status == Pending || j.status == InProgress
                           || (j.completed <= now && now - j.completed <= maxAge)
                           || (j.completed > now && TWO_64 - (j.completed - now) <= maxAge))
    {
      WhereHas(s, Kept(now, maxAge), j);
    }
  }

  /** After a cancel no live job of the network and node is left; jobs of others, and jobs not live, are untouched. */
  lemma CancelExactly(s: seq<Job>, network: Hash, target: Hash, i: nat)
    requires i < |s|
    ensures |Cancel(s, network, target)| == |s|
    ensures var j, c := s[i], Cancel(s, network, target)[i];
            if j.request.network == network && j.request.target == target
               && (j.status == Pending || j.status == InProgress)
            then c == Job(j.request, Cancelled, j.started, j.completed, j.retries)
            else c == j
    ensures !HasLive(Cancel(s, network, target), Request(network, target, 0, 0, 0))
  {
  }

  /** A retry brings back exactly the failed jobs with retries left, one retry used, and changes no other. */
  lemma RetryExactly(s: seq<Job>, maxRetries: u32, i: nat)
    requires i < |s|
    ensures |Retry(s, maxRetries)| == |s|
    ensures var j := s[i];
            if j.status == Failed && j.retries < maxRetries
            then Job(j.request, Pending, j.started, j.completed, j.retries + 1) in Retry(s, maxRetries)
            else j in Retry(s, maxRetries)
  {
    hide StableSort;
    var u := Map(s, Revive(maxRetries));
    SortOrdered(u);
    SortKeepsJobs(u);
    assert |multiset(u)| == |u| && |multiset(StableSort(u))| == |StableSort(u)|;
    assert u[i] in u;
  }

  /** A completion ends the first running job of the key, as success or failure, and changes no other. */
  lemma {:induction false} CompleteCases(s: seq<Job>, r: Request, success: bool, now: u64) returns (k: nat)
    ensures k < |s| <==> exists i :: 0 <= i < |s| && SameKey(s[i].request, r) && s[i].status == InProgress
    ensures k < |s| ==>
              && SameKey(s[k].request, r) && s[k].status == InProgress
              && (forall i :: 0 <= i < k ==> !(SameKey(s[i].request, r) && s[i].status == InProgress))
              && Complete(s, r, success, now)
                 == s[k := Job(s[k].request, if success then Completed else Failed, s[k].started, now, s[k].retries)]
    ensures k >= |s| ==> Complete(s, r, success, now) == s
  {
    hide Advance;
    k := 0;
    while k < |s| && !(SameKey(s[k].request, r) && s[k].status == InProgress)
      invariant k <= |s|
      invariant forall i :: 0 <= i < k ==> !(SameKey(s[i].request, r) && s[i].status == InProgress)
    {
      k := k + 1;
    }
    if k < |s| {
      AdvanceHits(s, r, InProgress, Finished(success, now), k);
    } else {
      AdvanceMisses(s, r, InProgress, Finished(success, now));
    }
  }

  /** A job for exactly this request is waiting or running. */
  predicate LiveFor(s: seq<Job>, r: Request) {
    exists i :: 0 <= i < |s| && s[i].request == r && (s[i].status == Pending || s[i].status == InProgress)
  }

  /** The operation ends jobs of the key of `r`. */
  predicate Ends(op: Op, r: Request) {
    || (op.CancelOp? && op.network == r.network && op.target == r.target)
    || (op.CompleteOp? && op.r.network == r.network && op.r.target == r.target)
  }

  lemma LiveForMember(s: seq<Job>, t: seq<Job>, r: Request)
    requires LiveFor(s, r) && forall j :: j in s && IsLive()(j) ==> j in t
    ensures LiveFor(t, r)
  {
    var i :| 0 <= i < |s| && s[i].request == r && (s[i].status == Pending || s[i].status == InProgress);
    assert s[i] in s;
    var k :| 0 <= k < |t| && t[k] == s[i];
  }

  lemma LiveForPointwise(s: seq<Job>, t: seq<Job>, r: Request)
    requires LiveFor(s, r) && |t| == |s|
    requires forall i :: 0 <= i < |s| && s[i].request == r && Live(s[i]) ==> t[i].request == r && Live(t[i])
    ensures LiveFor(t, r)
  {
    var i :| 0 <= i < |s| && s[i].request == r && (s[i].status == Pending || s[i].status == InProgress);
    assert t[i].request == r;
  }

  /** No operation but a cancel or a completion of its key takes a live job away. */
  lemma StepKeepsLive(s: seq<Job>, op: Op, r: Request)
    requires LiveFor(s, r) && !Ends(op, r)
    ensures LiveFor(JobsAfter(s, op), r)
  {
    hide LiveFor, StableSort, Advance, Where;
    match op
    case QueueOp(q) =>
      SortKeepsJobs(s + [Job(q, Pending, 0, 0, 0)]);
      LiveForMember(s, Queue(s, q), r);
    case CancelOp(network, target) => LiveForPointwise(s, Cancel(s, network, target), r);
    case FetchOp =>
    case StartOp(q, now) =>
      forall i | 0 <= i < |s| && s[i].request == r && Live(s[i])
        ensures Start(s, q, now)[i].request == r && Live(Start(s, q, now)[i])
      {
        AdvanceAt(s, q, Pending, Started(now), i);
      }
      LiveForPointwise(s, Start(s, q, now), r);
    case CompleteOp(q, success, now) =>
      var k := CompleteCases(s, q, success, now);
      LiveForPointwise(s, Complete(s, q, success, now), r);
    case RetryOp(maxRetries) =>
      LiveForPointwise(s, Map(s, Revive(maxRetries)), r);
      SortKeepsJobs(Map(s, Revive(maxRetries)));
      LiveForMember(Map(s, Revive(maxRetries)), Retry(s, maxRetries), r);
    case CleanupOp(now, maxAge) =>
      CleanupExactly(s, now, maxAge);
      LiveForMember(s, Cleanup(s, now, maxAge), r);
  }

  ghost predicate NotEnded(ops: seq<Op>, from: nat, r: Request) {
    forall i :: from <= i < |ops| ==> !Ends(ops[i], r)
  }

  /**
   Conservation over every run: a job that waits or runs at some point waits or runs at
   every later point, until a cancel or a completion of its network and node.  This holds
   of requested jobs and of those handed out alike.
   */
  lemma {:induction false} LiveUntilEnded(ops: seq<Op>, from: nat, r: Request)
    requires from <= |ops| && LiveFor(Run(ops[..from]).jobs, r) && NotEnded(ops, from, r)
    ensures LiveFor(Run(ops).jobs, r)
  {
    hide LiveFor, Ends, JobsAfter;
    if from == |ops| {
      assert ops[..from] == ops;
    } else {
      var front, op := ops[..|ops| - 1], ops[|ops| - 1];
      assert front[..from] == ops[..from];
      assert NotEnded(front, from, r) by { assert forall i :: from <= i < |front| ==> front[i] == ops[i]; }
      LiveUntilEnded(front, from, r);
      assert !Ends(op, r);
      StepKeepsLive(Run(front).jobs, op, r);
      FetchKeeps(Run(front).jobs);
    }
  }

  /** A request is met: right after it the network and node have a live job. */
  lemma QueueMakesLive(s: seq<Job>, r: Request)
    ensures HasLive(Queue(s, r), r)
    ensures !HasLive(s, r) ==> LiveFor(Queue(s, r), r)
  {
    hide StableSort;
    if !HasLive(s, r) {
      var x := Job(r, Pending, 0, 0, 0);
      SortKeepsJobs(s + [x]);
      assert x in s + [x];
      var k :| 0 <= k < |Queue(s, r)| && Queue(s, r)[k] == x;
    }
  }

  /** Over every run: once requested, a network and node have a live job until a cancel or a completion. */
  lemma RequestedStaysLive(ops: seq<Op>, i: nat)
    requires i < |ops| && ops[i].QueueOp? && NotEnded(ops, i + 1, ops[i].r)
    ensures HasLive(Run(ops).jobs, ops[i].r)
  {
    hide Queue, Ends, LiveFor;
    var r, s := ops[i].r, Run(ops[..i]).jobs;
    assert ops[..i + 1][..i] == ops[..i];
    assert Run(ops[..i + 1]).jobs == Queue(s, r);
    QueueMakesLive(s, r);
    var q := LiveKey(Queue(s, r), r);
    assert NotEnded(ops, i + 1, q) by { SameKeySameEnd(ops, i + 1, r, q); }
    LiveUntilEnded(ops, i + 1, q);
    LiveForHasLive(Run(ops).jobs, q, r);
  }

  lemma LiveKey(s: seq<Job>, r: Request) returns (q: Request)
    requires HasLive(s, r)
    ensures SameKey(q, r) && LiveFor(s, q)
  {
    var k :| 0 <= k < |s| && SameKey(s[k].request, r) && Live(s[k]);
    q := s[k].request;
  }

  lemma SameKeySameEnd(ops: seq<Op>, from: nat, r: Request, q: Request)
    requires SameKey(q, r) && NotEnded(ops, from, r)
    ensures NotEnded(ops, from, q)
  {
    forall i | from <= i < |ops| ensures !Ends(ops[i], q) { assert !Ends(ops[i], r); }
  }

  lemma LiveForHasLive(s: seq<Job>, q: Request, r: Request)
    requires LiveFor(s, q) && SameKey(q, r)
    ensures HasLive(s, r)
  {
    var i :| 0 <= i < |s| && s[i].request == q && (s[i].status == Pending || s[i].status == InProgress);
    assert SameKey(s[i].request, r) && Live(s[i]);
  }

  /** And a job handed out is there, waiting, and stays until its key is cancelled or completed. */
  lemma HandedOutStaysLive(ops: seq<Op>, i: nat)
    requires i < |ops| && ops[i].FetchOp? && NextJob(Run(ops[..i]).jobs).Some?
    requires NotEnded(ops, i, NextJob(Run(ops[..i]).jobs).value.request)
    ensures LiveFor(Run(ops).jobs, NextJob(Run(ops[..i]).jobs).value.request)
  {
    hide Run;
    var s := Run(ops[..i]).jobs;
    ScheduleOrdered(ops[..i]);
    FirstPendingFacts(s);
    var j := NextJob(s).value;
    var k :| 0 <= k < |s| && s[k] == j;
    LiveUntilEnded(ops, i, j.request);
  }

  /** Over every run whose retries allow at most `max`, no job is revived more often than that. */
  lemma {:induction false} RetriesBounded(ops: seq<Op>, max: u32)
    requires forall i :: 0 <= i < |ops| && ops[i].RetryOp? ==> ops[i].maxRetries <= max
    ensures forall j :: j in Run(ops).jobs ==> j.retries <= max
  {
    hide JobsAfter;
    if ops != [] {
      var front := ops[..|ops| - 1];
      RetriesBounded(front, max);
      StepRetries(Run(front).jobs, ops[|ops| - 1], max);
      FetchKeeps(Run(front).jobs);
    }
  }

  lemma StepRetries(s: seq<Job>, op: Op, max: u32)
    requires (forall j :: j in s ==> j.retries <= max) && (op.RetryOp? ==> op.maxRetries <= max)
    ensures forall j :: j in JobsAfter(s, op) ==> j.retries <= max
  {
    hide StableSort, Advance, Where;
    match op
    case QueueOp(q) => SortKeepsJobs(s + [Job(q, Pending, 0, 0, 0)]);
    case CancelOp(_, _) =>
    case FetchOp =>
    case StartOp(q, now) => forall i | 0 <= i < |s| ensures Start(s, q, now)[i].retries <= max {
        AdvanceAt(s, q, Pending, Started(now), i);
      }
    case CompleteOp(q, success, now) => forall i | 0 <= i < |s| ensures Complete(s, q, success, now)[i].retries <= max {
        AdvanceAt(s, q, InProgress, Finished(success, now), i);
      }
    case RetryOp(maxRetries) => SortKeepsJobs(Map(s, Revive(maxRetries)));
    case CleanupOp(now, maxAge) => CleanupExactly(s, now, maxAge);
  }

  // ------------------------------------------------------------- the object

  lemma {:induction false} CountPrefix(s: seq<Job>, i: nat, p: Job -> bool)
    requires i < |s|
    ensures Count(s[..i + 1], p) == Count(s[..i], p) + if p(s[i]) then 1 else 0
  {
    CountAppend(s[..i], s[i], p);
    assert s[..i + 1] == s[..i] + [s[i]];
  }

  /** The first match is the only job that moves. */
  lemma {:induction false} AdvanceHits(s: seq<Job>, r: Request, from: Status, f: Job -> Job, i: nat)
    requires i < |s| && SameKey(s[i].request, r) && s[i].status == from
    requires forall j :: 0 <= j < i ==> !(SameKey(s[j].request, r) && s[j].status == from)
    ensures Advance(s, r, from, f) == s[i := f(s[i])]
  {
    if i > 0 {
      AdvanceHits(s[1..], r, from, f, i - 1);
      assert s[i := f(s[i])] == [s[0]] + s[1..][i - 1 := f(s[i])];
    }
  }

  lemma {:induction false} AdvanceMisses(s: seq<Job>, r: Request, from: Status, f: Job -> Job)
    requires forall j :: 0 <= j < |s| ==> !(SameKey(s[j].request, r) && s[j].status == from)
    ensures Advance(s, r, from, f) == s
  {
    if s != [] { AdvanceMisses(s[1..], r, from, f); }
  }

  class Coordinator {
    var jobs: seq<Job>

    constructor ()
      ensures jobs == []
    {
      jobs := [];
    }

    method RequestReplication(r: Request)
      modifies this
      ensures jobs == Queue(old(jobs), r)
    {
      hide StableSort;
      for i := 0 to |jobs|
        invariant jobs == old(jobs)
        invariant forall j :: 0 <= j < i ==> !(SameKey(jobs[j].request, r) && Live(jobs[j]))
      {
        if SameKey(jobs[i].request, r) && Live(jobs[i]) { return; }
      }
      jobs := StableSort(jobs + [Job(r, Pending, 0, 0, 0)]);
    }

    method CancelReplication(network: Hash, target: Hash)
      modifies this
      ensures jobs == Cancel(old(jobs), network, target)
    {
      for i := 0 to |jobs|
        invariant |jobs| == |old(jobs)|
        invariant forall j :: 0 <= j < i ==> jobs[j] == CancelOne(network, target)(old(jobs)[j])
        invariant forall j :: i <= j < |jobs| ==> jobs[j] == old(jobs)[j]
      {
        if jobs[i].request.network == network && jobs[i].request.target == target && Live(jobs[i]) {
          jobs := jobs[i := jobs[i].(status := Cancelled)];
        }
      }
    }

    method ActiveJobCount() returns (n: nat)
      ensures n == Count(jobs, Active())
    {
      n := 0;
      for i := 0 to |jobs|
        invariant n == Count(jobs[..i], Active())
      {
        CountPrefix(jobs, i, Active());
        if jobs[i].status == InProgress { n := n + 1; }
      }
      assert jobs[..|jobs|] == jobs;
    }

    method GetNextJob() returns (r: Option<Job>)
      ensures r == NextJob(jobs)
    {
      var n := ActiveJobCount();
      if n >= MAX_ACTIVE { return None; }
      for i := 0 to |jobs|
        invariant FirstPending(jobs[i..]) == FirstPending(jobs)
      {
        if jobs[i].status == Pending { return Some(jobs[i]); }
        assert jobs[i..][1..] == jobs[i + 1..];
      }
      return None;
    }

    method MarkJobStarted(r: Request, now: u64)
      modifies this
      ensures jobs == Start(old(jobs), r, now)
    {
      hide Advance;
      for i := 0 to |jobs|
        invariant jobs == old(jobs)
        invariant forall j :: 0 <= j < i ==> !(SameKey(jobs[j].request, r) && jobs[j].status == Pending)
      {
        if SameKey(jobs[i].request, r) && jobs[i].status == Pending {
          AdvanceHits(jobs, r, Pending, Started(now), i);
          jobs := jobs[i := jobs[i].(status := InProgress, started := now)];
          return;
        }
      }
      AdvanceMisses(jobs, r, Pending, Started(now));
    }

    method MarkJobCompleted(r: Request, success: bool, now: u64)
      modifies this
      ensures jobs == Complete(old(jobs), r, success, now)
    {
      hide Advance;
      for i := 0 to |jobs|
        invariant jobs == old(jobs)
        invariant forall j :: 0 <= j < i ==> !(SameKey(jobs[j].request, r) && jobs[j].status == InProgress)
      {
        if SameKey(jobs[i].request, r) && jobs[i].status == InProgress {
          AdvanceHits(jobs, r, InProgress, Finished(success, now), i);
          jobs := jobs[i := jobs[i].(status := if success then Completed else Failed, completed := now)];
          return;
        }
      }
      AdvanceMisses(jobs, r, InProgress, Finished(success, now));
    }

    method RetryFailedJobs(maxRetries: u32)
      modifies this
      ensures jobs == Retry(old(jobs), maxRetries)
    {
      hide StableSort;
      for i := 0 to |jobs|
        invariant |jobs| == |old(jobs)|
        invariant forall j :: 0 <= j < i ==> jobs[j] == Revive(maxRetries)(old(jobs)[j])
        invariant forall j :: i <= j < |jobs| ==> jobs[j] == old(jobs)[j]
      {
        if jobs[i].status == Failed && jobs[i].retries < maxRetries {
          jobs := jobs[i := jobs[i].(status := Pending, retries := jobs[i].retries + 1)];
        }
      }
      assert jobs == Map(old(jobs), Revive(maxRetries));
      jobs := StableSort(jobs);
    }

    method CleanupOldJobs(now: u64, maxAge: u64)
      modifies this
      ensures jobs == Cleanup(old(jobs), now, maxAge)
    {
      var kept: seq<Job> := [];
      for i := 0 to |jobs|
        invariant jobs == old(jobs) && kept == Cleanup(jobs[..i], now, maxAge)
      {
        WhereAppend(jobs[..i], jobs[i], Kept(now, maxAge));
        assert jobs[..i + 1] == jobs[..i] + [jobs[i]];
        if Live(jobs[i]) || SubU64(now, jobs[i].completed) <= maxAge { kept := kept + [jobs[i]]; }
      }
      assert jobs[..|jobs|] == jobs;
      jobs := kept;
    }
  }
}
