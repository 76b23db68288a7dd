/**
  The thread pool as interleaved atomic steps of its workers, of threads calling post, and of
  the destructor, over the shared queue, the quit flag, one mutex and one condition variable
  with spurious wakeups.
 */
module ThreadPool {

  /** A task, known only by the tasks it will post while it runs. */
  datatype Task = Task(posts: seq<Task>)

  /** How far a call of post has come; every phase but the first holds the mutex. */
  datatype Posting = NotPosting | Locked(task: Task) | Pushed | Notified

  datatype Worker =
    | Locking                                   // before taking the mutex at the top of the loop
    | Checking                                  // holds the mutex, about to test `quit || !tasks.empty()`
    | Sleeping                                  // waits on the condition variable
    | Waking                                    // woken, about to take the mutex again
    | Passed                                    // holds the mutex, the test succeeded
    | Running(job: nat, rest: seq<Task>, post: Posting)   // runs the job-th posted task
    | Exited

  /** A thread outside the pool with the tasks it still has to post. */
  datatype Poster = Poster(rest: seq<Task>, post: Posting)

  datatype Destructor = Alive | Closing | QuitSet | Joining | Joined

  datatype Owner = Free | ByWorker(w: nat) | ByPoster(p: nat) | ByDestructor

  /** posted, started and finished are history: all tasks in posting order, how many were taken, which are done. */
  datatype State = State(
    workers: seq<Worker>, posters: seq<Poster>, dtor: Destructor,
    mutex: Owner, queue: seq<Task>, quit: bool,
    posted: seq<Task>, started: nat, finished: set<nat>)

  datatype Target = Nobody | Wake(w: nat)

  datatype Action =
    | Lock(w: nat) | Check(w: nat) | Take(w: nat) | Finish(w: nat) | Spurious(w: nat)
    | JobLock(w: nat) | JobPush(w: nat) | JobNotify(w: nat, t: Target) | JobUnlock(w: nat)
    | PostLock(p: nat) | PostPush(p: nat) | PostNotify(p: nat, t: Target) | PostUnlock(p: nat)
    | Close | SetQuit | NotifyAll | Join

  ghost predicate Initial(s: State) {
    && (forall i :: 0 <= i < |s.workers| ==> s.workers[i] == Locking)
    && (forall j :: 0 <= j < |s.posters| ==> s.posters[j].post == NotPosting)
    && s.dtor == Alive && s.mutex == Free && s.queue == [] && !s.quit
    && s.posted == [] && s.started == 0 && s.finished == {}
  }

  ghost predicate AllExited(s: State) {
    forall i :: 0 <= i < |s.workers| ==> s.workers[i] == Exited
  }

  /** No thread outside the pool is in post or will call it; the destructor's caller guarantees this. */
  ghost predicate PostersDone(s: State) {
    forall j :: 0 <= j < |s.posters| ==> s.posters[j] == Poster([], NotPosting)
  }

  /** notify_one may wake any sleeper, and wakes nobody only if nobody sleeps. */
  ghost predicate ValidTarget(s: State, t: Target) {
    match t
    case Nobody => forall i :: 0 <= i < |s.workers| ==> s.workers[i] != Sleeping
    case Wake(w) => w < |s.workers| && s.workers[w] == Sleeping
  }

  ghost predicate Enabled(s: State, a: Action) {
    match a
    case Lock(w) => w < |s.workers| && s.mutex == Free && (s.workers[w] == Locking || s.workers[w] == Waking)
    case Check(w) => w < |s.workers| && s.workers[w] == Checking
    case Take(w) => w < |s.workers| && s.workers[w] == Passed && (s.queue != [] || s.quit)
    case Finish(w) => w < |s.workers| && s.workers[w].Running? && s.workers[w].rest == []
                      && s.workers[w].post == NotPosting
    case Spurious(w) => w < |s.workers| && s.workers[w] == Sleeping
    case JobLock(w) => w < |s.workers| && s.mutex == Free && s.workers[w].Running? && s.workers[w].rest != []
                       && s.workers[w].post == NotPosting
    case JobPush(w) => w < |s.workers| && s.workers[w].Running? && s.workers[w].post.Locked?
    case JobNotify(w, t) => w < |s.workers| && s.workers[w].Running? && s.workers[w].post == Pushed && ValidTarget(s, t)
    case JobUnlock(w) => w < |s.workers| && s.workers[w].Running? && s.workers[w].post == Notified
    case PostLock(p) => p < |s.posters| && s.mutex == Free && s.posters[p].rest != [] && s.posters[p].post == NotPosting
    case PostPush(p) => p < |s.posters| && s.posters[p].post.Locked?
    case PostNotify(p, t) => p < |s.posters| && s.posters[p].post == Pushed && ValidTarget(s, t)
    case PostUnlock(p) => p < |s.posters| && s.posters[p].post == Notified
    case Close => s.dtor == Alive && s.mutex == Free && PostersDone(s)
    case SetQuit => s.dtor == Closing
    case NotifyAll => s.dtor == QuitSet
    case Join => s.dtor == Joining && AllExited(s)
  }

  ghost function WakeUp(ws: seq<Worker>, t: Target): (r: seq<Worker>)
    ensures |r| == |ws|
  {
    if t.Wake? && t.w < |ws| then ws[t.w := Waking] else ws
  }

  ghost function WakeAll(ws: seq<Worker>): (r: seq<Worker>)
    ensures |r| == |ws|
    ensures forall i :: 0 <= i < |ws| ==> r[i] == if ws[i] == Sleeping then Waking else ws[i]
  {
    seq(|ws|, i requires 0 <= i < |ws| => if ws[i] == Sleeping then Waking else ws[i])
  }

  ghost function Do(s: State, a: Action): State
    requires Enabled(s, a)
  {
    match a
    case Lock(w) => s.(workers := s.workers[w := Checking], mutex := ByWorker(w))
    case Check(w) =>
      if s.quit || s.queue != [] then s.(workers := s.workers[w := Passed])
      else s.(workers := s.workers[w := Sleeping], mutex := Free)
    case Take(w) =>
      if s.queue == [] then s.(workers := s.workers[w := Exited], mutex := Free)
      else s.(workers := s.workers[w := Running(s.started, s.queue[0].posts, NotPosting)],
              queue := s.queue[1..], started := s.started + 1, mutex := Free)
    case Finish(w) =>
      s.(workers := s.workers[w := Locking], finished := s.finished + {s.workers[w].job})
    case Spurious(w) => s.(workers := s.workers[w := Waking])
    case JobLock(w) =>
      var v := s.workers[w];
      s.(workers := s.workers[w := v.(rest := v.rest[1..], post := Locked(v.rest[0]))], mutex := ByWorker(w))
    case JobPush(w) =>
      var v := s.workers[w];
      s.(workers := s.workers[w := v.(post := Pushed)],
         queue := s.queue + [v.post.task], posted := s.posted + [v.post.task])
    case JobNotify(w, t) =>
      s.(workers := WakeUp(s.workers[w := s.workers[w].(post := Notified)], t))
    case JobUnlock(w) =>
      s.(workers := s.workers[w := s.workers[w].(post := NotPosting)], mutex := Free)
    case PostLock(p) =>
      var v := s.posters[p];
      s.(posters := s.posters[p := Poster(v.rest[1..], Locked(v.rest[0]))], mutex := ByPoster(p))
    case PostPush(p) =>
      var v := s.posters[p];
      s.(posters := s.posters[p := v.(post := Pushed)],
         queue := s.queue + [v.post.task], posted := s.posted + [v.post.task])
    case PostNotify(p, t) =>
      s.(posters := s.posters[p := s.posters[p].(post := Notified)], workers := WakeUp(s.workers, t))
    case PostUnlock(p) =>
      s.(posters := s.posters[p := s.posters[p].(post := NotPosting)], mutex := Free)
    case Close => s.(dtor := Closing, mutex := ByDestructor)
    case SetQuit => s.(dtor := QuitSet, quit := true, mutex := Free)
    case NotifyAll => s.(dtor := Joining, workers := WakeAll(s.workers))
    case Join => s.(dtor := Joined)
  }

  // ---------- Runs ----------

  ghost predicate Leads(s: State, run: seq<Action>, s': State)
    decreases |run|
  {
    if run == [] then s' == s
    else Enabled(s, run[0]) && Leads(Do(s, run[0]), run[1..], s')
  }

  ghost predicate Reachable(s: State) {
    exists s0, run :: Initial(s0) && Leads(s0, run, s)
  }

  // ---------- Counting ----------

  /** Workers that are awake and will test the queue before they can sleep. */
  ghost function Rechecks(v: Worker): nat {
    if v == Locking || v == Checking || v == Waking || v == Passed then 1 else 0
  }

  /** Posts that have pushed but not yet notified. */
  ghost function Pending(p: Posting): nat {
    if p == Pushed then 1 else 0
  }

  ghost function Supply(ws: seq<Worker>): nat {
    if ws == [] then 0 else
      var v := ws[|ws| - 1];
      Supply(ws[..|ws| - 1]) + Rechecks(v) + (if v.Running? then Pending(v.post) else 0)
  }

  ghost function PendingPosts(ps: seq<Poster>): nat {
    if ps == [] then 0 else PendingPosts(ps[..|ps| - 1]) + Pending(ps[|ps| - 1].post)
  }

  ghost function Share(v: Worker): nat {
    Rechecks(v) + (if v.Running? then Pending(v.post) else 0)
  }

  lemma {:induction false} SupplyUpdate(ws: seq<Worker>, i: nat, v: Worker)
    requires i < |ws|
    ensures Supply(ws[i := v]) == Supply(ws) - Share(ws[i]) + Share(v)
  {
    var n := |ws| - 1;
    if i == n {
      assert ws[i := v][..n] == ws[..n];
    } else {
      SupplyUpdate(ws[..n], i, v);
      assert ws[i := v][..n] == ws[..n][i := v];
    }
  }

  lemma {:induction false} PendingUpdate(ps: seq<Poster>, i: nat, v: Poster)
    requires i < |ps|
    ensures PendingPosts(ps[i := v]) == PendingPosts(ps) - Pending(ps[i].post) + Pending(v.post)
  {
    var n := |ps| - 1;
    if i == n {
      assert ps[i := v][..n] == ps[..n];
    } else {
      PendingUpdate(ps[..n], i, v);
      assert ps[i := v][..n] == ps[..n][i := v];
    }
  }

  // ---------- The invariant ----------

  ghost predicate WorkerHolds(v: Worker) {
    v == Checking || v == Passed || (v.Running? && v.post != NotPosting)
  }

  /** The mutex is held by exactly the thread its owner field names. */
  ghost predicate MutexInv(s: State) {
    && (forall i :: 0 <= i < |s.workers| ==> (WorkerHolds(s.workers[i]) <==> s.mutex == ByWorker(i)))
    && (forall j :: 0 <= j < |s.posters| ==> (s.posters[j].post != NotPosting <==> s.mutex == ByPoster(j)))
    && (s.dtor == Closing <==> s.mutex == ByDestructor)
    && (s.mutex.ByWorker? ==> s.mutex.w < |s.workers|)
    && (s.mutex.ByPoster? ==> s.mutex.p < |s.posters|)
  }

  /** The queue is what was posted and not yet taken, in posting order. */
  ghost predicate QueueInv(s: State) {
    s.started <= |s.posted| && s.queue == s.posted[s.started..]
  }

  ghost predicate RunsJob(v: Worker, k: nat) {
    v.Running? && v.job == k
  }

  /** Every taken task is either finished or running on exactly one worker. */
  ghost predicate JobsInv(s: State) {
    && (forall k :: k in s.finished ==> k < s.started)
    && (forall i :: 0 <= i < |s.workers| && s.workers[i].Running? ==>
          s.workers[i].job < s.started && s.workers[i].job !in s.finished)
    && (forall i, j :: 0 <= i < j < |s.workers| && s.workers[i].Running? && s.workers[j].Running? ==>
          s.workers[i].job != s.workers[j].job)
    && (forall k: nat :: k < s.started && k !in s.finished ==>
          exists i :: 0 <= i < |s.workers| && RunsJob(s.workers[i], k))
  }

  /** quit is set by the destructor only, after the last outside post; before it nobody exits. */
  ghost predicate QuitInv(s: State) {
    && (s.quit <==> s.dtor == QuitSet || s.dtor == Joining || s.dtor == Joined)
    && (s.dtor != Alive ==> PostersDone(s))
    && (!s.quit ==> forall i :: 0 <= i < |s.workers| ==> s.workers[i] != Exited)
    && (s.dtor == Joining || s.dtor == Joined ==> forall i :: 0 <= i < |s.workers| ==> s.workers[i] != Sleeping)
    && (s.dtor == Joined ==> AllExited(s))
    && (forall i :: 0 <= i < |s.workers| && s.workers[i] == Passed ==> s.quit || s.queue != [])
  }

  /** No wakeup is lost: if anybody sleeps, the queued tasks are covered by threads that will act on them. */
  ghost predicate WakeInv(s: State) {
    (exists i :: 0 <= i < |s.workers| && s.workers[i] == Sleeping) ==>
      |s.queue| <= Supply(s.workers) + PendingPosts(s.posters)
  }

  /** Somebody is left to empty the queue. */
  ghost predicate KeepInv(s: State) {
    |s.workers| > 0 && s.queue != [] ==> exists i :: 0 <= i < |s.workers| && s.workers[i] != Exited
  }

  ghost predicate Inv(s: State) {
    MutexInv(s) && QueueInv(s) && JobsInv(s) && QuitInv(s) && WakeInv(s) && KeepInv(s)
  }

  lemma InitInv(s: State)
    requires Initial(s)
    ensures Inv(s)
  {
  }

  lemma MutexOfWorker(s: State, a: Action, i: nat)
    requires MutexInv(s) && Enabled(s, a) && i < |s.workers|
    ensures |Do(s, a).workers| == |s.workers|
    ensures WorkerHolds(Do(s, a).workers[i]) <==> Do(s, a).mutex == ByWorker(i)
  {
  }

  lemma MutexOfOthers(s: State, a: Action)
    requires MutexInv(s) && Enabled(s, a)
    ensures var s' := Do(s, a);
      && (forall j :: 0 <= j < |s'.posters| ==> (s'.posters[j].post != NotPosting <==> s'.mutex == ByPoster(j)))
      && (s'.dtor == Closing <==> s'.mutex == ByDestructor)
      && (s'.mutex.ByWorker? ==> s'.mutex.w < |s'.workers|)
      && (s'.mutex.ByPoster? ==> s'.mutex.p < |s'.posters|)
  {
  }

  lemma MutexKept(s: State, a: Action)
    requires MutexInv(s) && Enabled(s, a)
    ensures MutexInv(Do(s, a))
  {
    MutexOfOthers(s, a);
    forall i | 0 <= i < |Do(s, a).workers|
      ensures WorkerHolds(Do(s, a).workers[i]) <==> Do(s, a).mutex == ByWorker(i)
    {
      MutexOfWorker(s, a, i);
    }
  }

  lemma QueueKept(s: State, a: Action)
    requires QueueInv(s) && Enabled(s, a)
    ensures QueueInv(Do(s, a))
  {
  }

  lemma PassedKept(s: State, a: Action, i: nat)
    requires MutexInv(s) && QuitInv(s) && Enabled(s, a) && i < |Do(s, a).workers| && Do(s, a).workers[i] == Passed
    ensures Do(s, a).quit || Do(s, a).queue != []
  {
  }

  lemma FlagsKept(s: State, a: Action)
    requires MutexInv(s) && QuitInv(s) && Enabled(s, a)
    ensures var s' := Do(s, a);
      && (s'.quit <==> s'.dtor == QuitSet || s'.dtor == Joining || s'.dtor == Joined)
      && (s'.dtor != Alive ==> PostersDone(s'))
  {
  }

  lemma WorkerAtShutdown(s: State, a: Action, i: nat)
    requires QuitInv(s) && Enabled(s, a) && i < |Do(s, a).workers|
    ensures var s' := Do(s, a);
      && (!s'.quit ==> s'.workers[i] != Exited)
      && (s'.dtor == Joining || s'.dtor == Joined ==> s'.workers[i] != Sleeping)
      && (s'.dtor == Joined ==> s'.workers[i] == Exited)
  {
  }

  lemma ShutdownKept(s: State, a: Action)
    requires MutexInv(s) && QuitInv(s) && Enabled(s, a)
    ensures var s' := Do(s, a);
      && (s'.quit <==> s'.dtor == QuitSet || s'.dtor == Joining || s'.dtor == Joined)
      && (s'.dtor != Alive ==> PostersDone(s'))
      && (!s'.quit ==> forall i :: 0 <= i < |s'.workers| ==> s'.workers[i] != Exited)
      && (s'.dtor == Joining || s'.dtor == Joined ==> forall i :: 0 <= i < |s'.workers| ==> s'.workers[i] != Sleeping)
      && (s'.dtor == Joined ==> AllExited(s'))
  {
    FlagsKept(s, a);
    var s' := Do(s, a);
    forall i | 0 <= i < |s'.workers|
      ensures !s'.quit ==> s'.workers[i] != Exited
      ensures s'.dtor == Joining || s'.dtor == Joined ==> s'.workers[i] != Sleeping
      ensures s'.dtor == Joined ==> s'.workers[i] == Exited
    {
      WorkerAtShutdown(s, a, i);
    }
  }

  lemma QuitKept(s: State, a: Action)
    requires MutexInv(s) && QuitInv(s) && Enabled(s, a)
    ensures QuitInv(Do(s, a))
  {
    ShutdownKept(s, a);
    forall i | 0 <= i < |Do(s, a).workers| && Do(s, a).workers[i] == Passed
      ensures Do(s, a).quit || Do(s, a).queue != []
    {
      PassedKept(s, a, i);
    }
  }

  lemma FinishedKept(s: State, a: Action)
    requires QueueInv(s) && JobsInv(s) && Enabled(s, a)
    ensures forall k :: k in Do(s, a).finished ==> k < Do(s, a).started
  {
  }

  /** Where the job a worker runs comes from: it ran it before, or has just taken it. */
  lemma JobOrigin(s: State, a: Action, i: nat)
    requires Enabled(s, a) && i < |Do(s, a).workers| && Do(s, a).workers[i].Running?
    ensures i < |s.workers| && s.started <= Do(s, a).started
    ensures if a == Take(i) then Do(s, a).workers[i].job == s.started < Do(s, a).started
            else s.workers[i].Running? && Do(s, a).workers[i].job == s.workers[i].job
  {
  }

  /** Finishing adds the job of that worker, which runs nothing afterwards. */
  lemma FinishedOrigin(s: State, a: Action)
    requires Enabled(s, a)
    ensures if a.Finish? then Do(s, a).finished == s.finished + {s.workers[a.w].job} && !Do(s, a).workers[a.w].Running?
            else Do(s, a).finished == s.finished
  {
  }

  /** A running job is taken and unfinished. */
  lemma RunningKept(s: State, a: Action, i: nat)
    requires QueueInv(s) && JobsInv(s) && Enabled(s, a) && i < |Do(s, a).workers| && Do(s, a).workers[i].Running?
    ensures Do(s, a).workers[i].job < Do(s, a).started && Do(s, a).workers[i].job !in Do(s, a).finished
  {
    JobOrigin(s, a, i);
    FinishedOrigin(s, a);
  }

  /** Two workers never run one job. */
  lemma DistinctKept(s: State, a: Action, i: nat, j: nat)
    requires QueueInv(s) && JobsInv(s) && Enabled(s, a) && i < j < |Do(s, a).workers|
    requires Do(s, a).workers[i].Running? && Do(s, a).workers[j].Running?
    ensures Do(s, a).workers[i].job != Do(s, a).workers[j].job
  {
    JobOrigin(s, a, i);
    JobOrigin(s, a, j);
  }

  /** A running job keeps its worker until it finishes. */
  lemma JobsKept(s: State, a: Action)
    requires QueueInv(s) && JobsInv(s) && Enabled(s, a)
    ensures JobsInv(Do(s, a))
  {
    var s' := Do(s, a);
    FinishedKept(s, a);
    forall i | 0 <= i < |s'.workers| && s'.workers[i].Running?
      ensures s'.workers[i].job < s'.started && s'.workers[i].job !in s'.finished
    {
      RunningKept(s, a, i);
    }
    forall i, j | 0 <= i < j < |s'.workers| && s'.workers[i].Running? && s'.workers[j].Running?
      ensures s'.workers[i].job != s'.workers[j].job
    {
      DistinctKept(s, a, i, j);
    }
    forall k: nat | k < s'.started && k !in s'.finished
      ensures exists i :: 0 <= i < |s'.workers| && RunsJob(s'.workers[i], k)
    {
      JobHasWorker(s, a, k);
    }
  }

  lemma JobHasWorker(s: State, a: Action, k: nat)
    requires QueueInv(s) && JobsInv(s) && Enabled(s, a) && k < Do(s, a).started && k !in Do(s, a).finished
    ensures exists i :: 0 <= i < |Do(s, a).workers| && RunsJob(Do(s, a).workers[i], k)
  {
    if k == s.started {
      NewJobHasWorker(s, a);
    } else {
      var i :| 0 <= i < |s.workers| && RunsJob(s.workers[i], k);
      JobStays(s, a, k, i);
    }
  }

  /** Only a worker that takes a task raises the count of those taken, and it runs that task. */
  lemma NewJobHasWorker(s: State, a: Action)
    requires Enabled(s, a) && s.started < Do(s, a).started
    ensures a.Take? && RunsJob(Do(s, a).workers[a.w], s.started)
  {
  }

  lemma JobStays(s: State, a: Action, k: nat, i: nat)
    requires Enabled(s, a) && k !in Do(s, a).finished && i < |s.workers| && RunsJob(s.workers[i], k)
    ensures i < |Do(s, a).workers| && RunsJob(Do(s, a).workers[i], k)
  {
  }

  lemma KeepKept(s: State, a: Action)
    requires Inv(s) && Enabled(s, a)
    ensures KeepInv(Do(s, a))
  {
    var s' := Do(s, a);
    if |s'.workers| > 0 && s'.queue != [] {
      if a.JobPush? {
        assert s'.workers[a.w] != Exited;
      } else if a.PostPush? {
        assert !s.quit && s'.workers[0] != Exited;
      } else {
        var i :| 0 <= i < |s.workers| && s.workers[i] != Exited;
        assert s'.workers[i] != Exited;
      }
    }
  }

  ghost predicate SomeoneSleeps(s: State) {
    exists i :: 0 <= i < |s.workers| && s.workers[i] == Sleeping
  }

  lemma WakeUpSupply(ws: seq<Worker>, t: Target)
    requires t.Wake? ==> t.w < |ws| && ws[t.w] == Sleeping
    ensures Supply(WakeUp(ws, t)) == Supply(ws) + (if t.Wake? then 1 else 0)
  {
    if t.Wake? {
      SupplyUpdate(ws, t.w, Waking);
    }
  }

  /** A step puts a worker to sleep only when the queue is empty. */
  lemma SleeperBefore(s: State, a: Action)
    requires Enabled(s, a) && SomeoneSleeps(Do(s, a))
    ensures SomeoneSleeps(s) || Do(s, a).queue == []
  {
    var s' := Do(s, a);
    var i :| 0 <= i < |s'.workers| && s'.workers[i] == Sleeping;
    if s.workers[i] != Sleeping {
      assert a == Check(i);
    }
  }

  /** The queued tasks not covered by anybody about to act on them. */
  ghost function Uncovered(s: State): int {
    |s.queue| - Supply(s.workers) - PendingPosts(s.posters)
  }

  /** Steps of posters: the cover grows with the queue and passes from the post to the woken worker. */
  lemma PosterCover(s: State, a: Action)
    requires Enabled(s, a) && (a.PostLock? || a.PostPush? || a.PostNotify? || a.PostUnlock?)
    requires SomeoneSleeps(s)
    ensures Uncovered(Do(s, a)) <= Uncovered(s)
  {
    var s' := Do(s, a);
    PendingUpdate(s.posters, a.p, s'.posters[a.p]);
    if a.PostNotify? {
      WakeUpSupply(s.workers, a.t);
    }
  }

  /** Steps of running jobs, which post like posters. */
  lemma JobCover(s: State, a: Action)
    requires Enabled(s, a) && (a.JobLock? || a.JobPush? || a.JobNotify? || a.JobUnlock?)
    requires SomeoneSleeps(s)
    ensures Uncovered(Do(s, a)) <= Uncovered(s)
  {
    var s' := Do(s, a);
    if a.JobNotify? {
      var v := s.workers[a.w].(post := Notified);
      SupplyUpdate(s.workers, a.w, v);
      var i :| 0 <= i < |s.workers| && s.workers[i] == Sleeping;
      assert s.workers[a.w := v][i] == Sleeping;
      WakeUpSupply(s.workers[a.w := v], a.t);
    } else {
      SupplyUpdate(s.workers, a.w, s'.workers[a.w]);
    }
  }

  /** Steps of the worker loop. */
  lemma LoopCover(s: State, a: Action)
    requires QuitInv(s) && Enabled(s, a) && (a.Lock? || a.Check? || a.Take? || a.Finish? || a.Spurious?)
    requires Do(s, a).queue != []
    ensures Uncovered(Do(s, a)) <= Uncovered(s)
  {
    SupplyUpdate(s.workers, a.w, Do(s, a).workers[a.w]);
  }

  lemma WakeKept(s: State, a: Action)
    requires QuitInv(s) && WakeInv(s) && Enabled(s, a)
    ensures WakeInv(Do(s, a))
  {
    if SomeoneSleeps(Do(s, a)) && Do(s, a).queue != [] {
      SleeperBefore(s, a);
      if a.PostLock? || a.PostPush? || a.PostNotify? || a.PostUnlock? {
        PosterCover(s, a);
      } else if a.JobLock? || a.JobPush? || a.JobNotify? || a.JobUnlock? {
        JobCover(s, a);
      } else if a.Lock? || a.Check? || a.Take? || a.Finish? || a.Spurious? {
        LoopCover(s, a);
      }
    }
  }

  lemma StepKeepsInv(s: State, a: Action)
    requires Inv(s) && Enabled(s, a)
    ensures Inv(Do(s, a))
  {
    MutexKept(s, a);
    QueueKept(s, a);
    QuitKept(s, a);
    JobsKept(s, a);
    KeepKept(s, a);
    WakeKept(s, a);
  }

  lemma {:induction false} RunKeepsInv(s: State, run: seq<Action>, s': State)
    requires Inv(s) && Leads(s, run, s')
    ensures Inv(s') && |s'.workers| == |s.workers|
    decreases |run|
  {
    if run != [] {
      StepKeepsInv(s, run[0]);
      RunKeepsInv(Do(s, run[0]), run[1..], s');
    }
  }

  lemma ReachableInv(s: State)
    requires Reachable(s)
    ensures Inv(s)
  {
    var s0, run :| Initial(s0) && Leads(s0, run, s);
    InitInv(s0);
    RunKeepsInv(s0, run, s);
  }

  // ---------- Safety over all runs ----------

  /**
    Conservation and order: in every reachable state the posted tasks are, in posting order,
    the taken ones followed by the queued ones, and each taken task is finished or running on
    exactly one worker.
   */
  lemma Conservation(s: State)
    requires Reachable(s)
    ensures s.started <= |s.posted| && s.posted == s.posted[..s.started] + s.queue
    ensures forall k: nat :: k < s.started ==>
      (k in s.finished <==> forall i :: 0 <= i < |s.workers| ==> !RunsJob(s.workers[i], k))
    ensures forall i, j, k ::
      0 <= i < |s.workers| && 0 <= j < |s.workers| && RunsJob(s.workers[i], k) && RunsJob(s.workers[j], k) ==> i == j
  {
    ReachableInv(s);
  }

  /** The next task taken is the oldest queued one, and it was never taken before. */
  lemma FirstInFirstOut(s: State, w: nat)
    requires Reachable(s) && Enabled(s, Take(w)) && s.queue != []
    ensures s.started < |s.posted| && s.queue[0] == s.posted[s.started]
    ensures var s' := Do(s, Take(w)); s'.workers[w] == Running(s.started, s.posted[s.started].posts, NotPosting)
    ensures s.started !in s.finished && forall i :: 0 <= i < |s.workers| ==> !RunsJob(s.workers[i], s.started)
  {
    ReachableInv(s);
  }

  /** When the destructor returns, every task ever posted has finished, also those posted by tasks. */
  lemma JoinedMeansDone(s: State)
    requires Reachable(s) && |s.workers| > 0 && AllExited(s)
    ensures s.queue == [] && forall k: nat :: k in s.finished <==> k < |s.posted|
  {
    ReachableInv(s);
  }

  // ---------- What is posted ----------

  /** The task that a call of post has been given and has not put into the queue yet. */
  ghost function InHand(p: Posting): seq<Task> {
    if p.Locked? then [p.task] else []
  }

  /** What a worker's job still has to post, in order. */
  ghost function StillToPost(v: Worker): seq<Task> {
    if v.Running? then InHand(v.post) + v.rest else []
  }

  /** How often a task occurs in a list. */
  ghost function Count(ts: seq<Task>, t: Task): nat {
    if ts == [] then 0 else (if ts[0] == t then 1 else 0) + Count(ts[1..], t)
  }

  ghost function WorkerOwes(v: Worker, t: Task): nat {
    Count(StillToPost(v), t)
  }

  ghost function PosterOwes(v: Poster, t: Task): nat {
    Count(InHand(v.post) + v.rest, t)
  }

  ghost function SumUpTo<T>(f: T -> nat, xs: seq<T>, n: nat): nat
    requires n <= |xs|
  {
    if n == 0 then 0 else SumUpTo(f, xs, n - 1) + f(xs[n - 1])
  }

  ghost function WorkersOwe(ws: seq<Worker>, t: Task): nat {
    SumUpTo(v => WorkerOwes(v, t), ws, |ws|)
  }

  ghost function PostersOwe(ps: seq<Poster>, t: Task): nat {
    SumUpTo(v => PosterOwes(v, t), ps, |ps|)
  }

  /** How often some tasks post a task. */
  ghost function PostsOf(ts: seq<Task>, t: Task): nat {
    if ts == [] then 0 else PostsOf(ts[..|ts| - 1], t) + Count(ts[|ts| - 1].posts, t)
  }

  lemma {:induction false} CountConcat(a: seq<Task>, b: seq<Task>, t: Task)
    ensures Count(a + b, t) == Count(a, t) + Count(b, t)
  {
    if a == [] {
      assert a + b == b;
    } else {
      CountConcat(a[1..], b, t);
      assert (a + b)[1..] == a[1..] + b;
    }
  }

  lemma {:induction false} CountMember(ts: seq<Task>, t: Task)
    ensures Count(ts, t) > 0 <==> t in ts
  {
    if ts != [] {
      CountMember(ts[1..], t);
      assert t in ts <==> t == ts[0] || t in ts[1..];
    }
  }

  /** The same as the multiplicity in the multiset of the list. */
  lemma {:induction false} CountMultiset(ts: seq<Task>, t: Task)
    ensures Count(ts, t) == multiset(ts)[t]
  {
    if ts != [] {
      CountMultiset(ts[1..], t);
      assert ts == [ts[0]] + ts[1..];
    }
  }

  lemma {:induction false} SumUpdate<T>(f: T -> nat, xs: seq<T>, n: nat, i: nat, v: T)
    requires n <= |xs| && i < |xs|
    ensures SumUpTo(f, xs[i := v], n) == SumUpTo(f, xs, n) + if i < n then f(v) - f(xs[i]) else 0
  {
    if n > 0 {
      SumUpdate(f, xs, n - 1, i, v);
    }
  }

  lemma {:induction false} SumSame<T>(f: T -> nat, xs: seq<T>, ys: seq<T>, n: nat)
    requires n <= |xs| == |ys| && forall i :: 0 <= i < n ==> f(xs[i]) == f(ys[i])
    ensures SumUpTo(f, xs, n) == SumUpTo(f, ys, n)
  {
    if n > 0 {
      SumSame(f, xs, ys, n - 1);
    }
  }

  lemma {:induction false} SumZero<T>(f: T -> nat, xs: seq<T>, n: nat)
    requires n <= |xs| && forall i :: 0 <= i < n ==> f(xs[i]) == 0
    ensures SumUpTo(f, xs, n) == 0
  {
    if n > 0 {
      SumZero(f, xs, n - 1);
    }
  }

  lemma WorkersOweUpdate(ws: seq<Worker>, i: nat, v: Worker, t: Task)
    requires i < |ws|
    ensures WorkersOwe(ws[i := v], t) == WorkersOwe(ws, t) - WorkerOwes(ws[i], t) + WorkerOwes(v, t)
  {
    SumUpdate(v => WorkerOwes(v, t), ws, |ws|, i, v);
  }

  lemma PostersOweUpdate(ps: seq<Poster>, i: nat, v: Poster, t: Task)
    requires i < |ps|
    ensures PostersOwe(ps[i := v], t) == PostersOwe(ps, t) - PosterOwes(ps[i], t) + PosterOwes(v, t)
  {
    SumUpdate(v => PosterOwes(v, t), ps, |ps|, i, v);
  }

  lemma WakeAllOwe(ws: seq<Worker>, t: Task)
    ensures WorkersOwe(WakeAll(ws), t) == WorkersOwe(ws, t)
  {
    SumSame(v => WorkerOwes(v, t), WakeAll(ws), ws, |ws|);
  }

  lemma WakeUpOwe(ws: seq<Worker>, target: Target, t: Task)
    requires target.Wake? && target.w < |ws| ==> ws[target.w] == Sleeping
    ensures WorkersOwe(WakeUp(ws, target), t) == WorkersOwe(ws, t)
  {
    if target.Wake? && target.w < |ws| {
      WorkersOweUpdate(ws, target.w, Waking, t);
    }
  }

  /**
    As often as a task has been posted and is still to be posted, so often it was given to the posters or is posted by
    the tasks taken.
   */
  ghost predicate Accounted(s: State, t: Task, given: nat) {
    && s.started <= |s.posted|
    && Count(s.posted, t) + WorkersOwe(s.workers, t) + PostersOwe(s.posters, t)
       == given + PostsOf(s.posted[..s.started], t)
  }

  lemma FirstInHand(rest: seq<Task>)
    requires rest != []
    ensures [rest[0]] + rest[1..] == rest && [] + rest == rest
  {
  }

  /** A step of a worker that changes its state but takes and posts nothing. */
  lemma WorkerAccounted(s: State, a: Action, t: Task, given: nat)
    requires Accounted(s, t, given) && Enabled(s, a)
    requires a.Lock? || a.Check? || a.Finish? || a.Spurious? || a.JobLock? || a.JobUnlock?
    ensures Accounted(Do(s, a), t, given)
  {
    var v := Do(s, a).workers[a.w];
    SameOwed(s, a, t);
    PostedMore(s, Do(s, a), a.w, v, t, given);
  }

  lemma SameOwed(s: State, a: Action, t: Task)
    requires Enabled(s, a) && (a.Lock? || a.Check? || a.Finish? || a.Spurious? || a.JobLock? || a.JobUnlock?)
    ensures WorkerOwes(Do(s, a).workers[a.w], t) == WorkerOwes(s.workers[a.w], t)
  {
    if a.JobLock? {
      FirstInHand(s.workers[a.w].rest);
    }
  }

  /** Putting the task in hand into the queue leaves the others. */
  lemma HandEmptied(x: Task, rest: seq<Task>, posted: seq<Task>, t: Task)
    ensures Count(InHand(Locked(x)) + rest, t) + Count(posted, t)
         == Count(InHand(Pushed) + rest, t) + Count(posted + [x], t)
  {
    CountConcat([x], rest, t);
    CountConcat([], rest, t);
    CountConcat(posted, [x], t);
  }

  /** A posted task more, one less to post. */
  lemma PushOwes(v: Worker, posted: seq<Task>, t: Task)
    requires v.Running? && v.post.Locked?
    ensures WorkerOwes(v, t) + Count(posted, t)
         == WorkerOwes(v.(post := Pushed), t) + Count(posted + [v.post.task], t)
  {
    HandEmptied(v.post.task, v.rest, posted, t);
  }

  lemma PostedMore(s: State, s': State, w: nat, v: Worker, t: Task, given: nat)
    requires Accounted(s, t, given) && w < |s.workers| && s'.workers == s.workers[w := v]
    requires s'.posters == s.posters && s'.started == s.started && s.posted <= s'.posted
    requires WorkerOwes(s.workers[w], t) + Count(s.posted, t) == WorkerOwes(v, t) + Count(s'.posted, t)
    ensures Accounted(s', t, given)
  {
    WorkersOweUpdate(s.workers, w, v, t);
    assert s'.posted[..s.started] == s.posted[..s.started];
  }

  lemma JobPushAccounted(s: State, w: nat, t: Task, given: nat)
    requires Accounted(s, t, given) && Enabled(s, JobPush(w))
    ensures Accounted(Do(s, JobPush(w)), t, given)
  {
    var s', v := Do(s, JobPush(w)), s.workers[w];
    PushOwes(v, s.posted, t);
    PostedMore(s, s', w, v.(post := Pushed), t, given);
  }

  lemma PostPushAccounted(s: State, p: nat, t: Task, given: nat)
    requires Accounted(s, t, given) && Enabled(s, PostPush(p))
    ensures Accounted(Do(s, PostPush(p)), t, given)
  {
    var s', v := Do(s, PostPush(p)), s.posters[p];
    PostersOweUpdate(s.posters, p, s'.posters[p], t);
    HandEmptied(v.post.task, v.rest, s.posted, t);
    assert s'.posted[..s.started] == s.posted[..s.started];
  }

  lemma PostsOfNext(posted: seq<Task>, n: nat, t: Task)
    requires n < |posted|
    ensures PostsOf(posted[..n + 1], t) == PostsOf(posted[..n], t) + Count(posted[n].posts, t)
  {
    assert posted[..n + 1][..n] == posted[..n] && posted[..n + 1][n] == posted[n];
  }

  lemma TakenOwes(job: nat, posts: seq<Task>, t: Task)
    ensures WorkerOwes(Running(job, posts, NotPosting), t) == Count(posts, t)
  {
    assert [] + posts == posts;
  }

  lemma TakeAccounted(s: State, w: nat, t: Task, given: nat)
    requires QueueInv(s) && Accounted(s, t, given) && Enabled(s, Take(w))
    ensures Accounted(Do(s, Take(w)), t, given)
  {
    var s' := Do(s, Take(w));
    WorkersOweUpdate(s.workers, w, s'.workers[w], t);
    if s.queue != [] {
      var task := s.queue[0];
      assert s.posted[s.started] == task;
      PostsOfNext(s.posted, s.started, t);
      TakenOwes(s.started, task.posts, t);
    }
  }

  lemma NotifyAccounted(s: State, a: Action, t: Task, given: nat)
    requires Accounted(s, t, given) && Enabled(s, a) && (a.JobNotify? || a.PostNotify? || a.NotifyAll?)
    ensures Accounted(Do(s, a), t, given)
  {
    match a
    case JobNotify(w, target) => JobNotifyOwes(s.workers, w, target, t);
    case PostNotify(p, target) =>
      PostersOweUpdate(s.posters, p, s.posters[p].(post := Notified), t);
      WakeUpOwe(s.workers, target, t);
    case NotifyAll => WakeAllOwe(s.workers, t);
  }

  lemma JobNotifyOwes(ws: seq<Worker>, w: nat, target: Target, t: Task)
    requires w < |ws| && ws[w].Running? && ws[w].post == Pushed
    requires target.Wake? && target.w < |ws| ==> ws[target.w] == Sleeping
    ensures WorkersOwe(WakeUp(ws[w := ws[w].(post := Notified)], target), t) == WorkersOwe(ws, t)
  {
    var v := ws[w].(post := Notified);
    WorkersOweUpdate(ws, w, v, t);
    WakeUpOwe(ws[w := v], target, t);
  }

  lemma PosterAccounted(s: State, a: Action, t: Task, given: nat)
    requires Accounted(s, t, given) && Enabled(s, a) && (a.PostLock? || a.PostUnlock?)
    ensures Accounted(Do(s, a), t, given)
  {
    PostersOweUpdate(s.posters, a.p, Do(s, a).posters[a.p], t);
    if a.PostLock? {
      FirstInHand(s.posters[a.p].rest);
    }
  }

  lemma StepAccounted(s: State, a: Action, t: Task, given: nat)
    requires QueueInv(s) && Accounted(s, t, given) && Enabled(s, a)
    ensures Accounted(Do(s, a), t, given)
  {
    if a.JobNotify? || a.PostNotify? || a.NotifyAll? {
      NotifyAccounted(s, a, t, given);
    } else if a.JobPush? {
      JobPushAccounted(s, a.w, t, given);
    } else if a.PostPush? {
      PostPushAccounted(s, a.p, t, given);
    } else if a.PostLock? || a.PostUnlock? {
      PosterAccounted(s, a, t, given);
    } else if a.Take? {
      TakeAccounted(s, a.w, t, given);
    } else if !(a.Close? || a.SetQuit? || a.Join?) {
      WorkerAccounted(s, a, t, given);
    }
  }

  lemma {:induction false} RunAccounted(s: State, run: seq<Action>, s': State, t: Task, given: nat)
    requires Inv(s) && Accounted(s, t, given) && Leads(s, run, s')
    ensures Accounted(s', t, given)
    decreases |run|
  {
    if run != [] {
      StepKeepsInv(s, run[0]);
      StepAccounted(s, run[0], t, given);
      RunAccounted(Do(s, run[0]), run[1..], s', t, given);
    }
  }

  lemma NobodyOwes(ws: seq<Worker>, t: Task)
    requires forall i :: 0 <= i < |ws| ==> !ws[i].Running?
    ensures WorkersOwe(ws, t) == 0
  {
    SumZero(v => WorkerOwes(v, t), ws, |ws|);
  }

  lemma IdleOwe(ps: seq<Poster>, t: Task)
    requires forall j :: 0 <= j < |ps| ==> ps[j] == Poster([], NotPosting)
    ensures PostersOwe(ps, t) == 0
  {
    SumZero(v => PosterOwes(v, t), ps, |ps|);
  }

  /**
    Nothing is posted but what was handed to post, and nothing handed to it is lost or changed: along every run each
    task occurs among the posted ones, and among those that posters and running tasks still have to post, as often as
    among those the posters started with and those that the tasks taken so far post.
   */
  lemma PostsConserved(s0: State, run: seq<Action>, s: State, t: Task)
    requires Initial(s0) && Leads(s0, run, s)
    ensures s.started <= |s.posted|
    ensures Count(s.posted, t) + WorkersOwe(s.workers, t) + PostersOwe(s.posters, t)
         == PostersOwe(s0.posters, t) + PostsOf(s.posted[..s.started], t)
  {
    InitInv(s0);
    NobodyOwes(s0.workers, t);
    RunAccounted(s0, run, s, t, PostersOwe(s0.posters, t));
  }

  lemma {:induction false} PostsOfMember(ts: seq<Task>, k: nat, t: Task)
    requires k < |ts| && t in ts[k].posts
    ensures PostsOf(ts, t) > 0
  {
    var n := |ts| - 1;
    if k < n {
      PostsOfMember(ts[..n], k, t);
    } else {
      CountMember(ts[n].posts, t);
    }
  }

  lemma AllDone(s: State, t: Task)
    requires Inv(s) && |s.workers| > 0 && AllExited(s)
    ensures s.started == |s.posted| && WorkersOwe(s.workers, t) == 0 && PostersOwe(s.posters, t) == 0
  {
    assert s.workers[0] == Exited;
    NobodyOwes(s.workers, t);
    IdleOwe(s.posters, t);
  }

  /**
    When all workers of a pool have exited, and so when the destructor returns, each task has been posted as often as
    the posters started with it and the tasks that were posted post it, and all of them have finished.
   */
  lemma EverythingPosted(s0: State, run: seq<Action>, s: State, t: Task)
    requires Initial(s0) && Leads(s0, run, s) && |s.workers| > 0 && AllExited(s)
    ensures Count(s.posted, t) == PostersOwe(s0.posters, t) + PostsOf(s.posted, t)
    ensures forall k: nat :: k in s.finished <==> k < |s.posted|
  {
    InitInv(s0);
    RunKeepsInv(s0, run, s);
    JoinedMeansDone(s);
    PostsConserved(s0, run, s, t);
    AllDone(s, t);
    assert s.posted[..|s.posted|] == s.posted;
  }

  /** So every task that a finished task posts has been posted and has finished too. */
  lemma PostsFinish(s0: State, run: seq<Action>, s: State, k: nat, t: Task) returns (j: nat)
    requires Initial(s0) && Leads(s0, run, s) && |s.workers| > 0 && AllExited(s)
    requires k in s.finished && k < |s.posted| && t in s.posted[k].posts
    ensures j in s.finished && j < |s.posted| && s.posted[j] == t
  {
    EverythingPosted(s0, run, s, t);
    PostsOfMember(s.posted, k, t);
    CountMember(s.posted, t);
    j :| 0 <= j < |s.posted| && s.posted[j] == t;
  }

  // ---------- The order of posting ----------

  /** Who calls post: a thread outside the pool, or the task that was posted k-th. */
  datatype Source = Outside(p: nat) | Inside(k: nat)

  /** What a step of this source puts into the queue. */
  ghost function PushedIn(s: State, a: Action, x: Source): seq<Task>
    requires Enabled(s, a)
  {
    match a
    case JobPush(w) => if x == Inside(s.workers[w].job) then [s.workers[w].post.task] else []
    case PostPush(p) => if x == Outside(p) then [s.posters[p].post.task] else []
    case _ => []
  }

  /** What the source has put into the queue along a run, in that order. */
  ghost function PushedBy(s: State, run: seq<Action>, s': State, x: Source): seq<Task>
    requires Leads(s, run, s')
    decreases |run|
  {
    if run == [] then [] else PushedIn(s, run[0], x) + PushedBy(Do(s, run[0]), run[1..], s', x)
  }

  /** What the k-th posted task will post from now on: all its posts before it is taken, none once it has finished. */
  ghost predicate WillPost(s: State, k: nat, ts: seq<Task>) {
    Waits(s, k, ts) || IsOver(s, k, ts) || exists i: nat :: RunsOn(s, k, ts, i)
  }

  ghost predicate Waits(s: State, k: nat, ts: seq<Task>) {
    s.started <= k < |s.posted| && ts == s.posted[k].posts
  }

  ghost predicate IsOver(s: State, k: nat, ts: seq<Task>) {
    k in s.finished && ts == []
  }

  ghost predicate RunsOn(s: State, k: nat, ts: seq<Task>, i: nat) {
    i < |s.workers| && RunsJob(s.workers[i], k) && ts == StillToPost(s.workers[i])
  }

  lemma PosterStep(s: State, a: Action, p: nat)
    requires Enabled(s, a) && p < |s.posters|
    ensures p < |Do(s, a).posters|
    ensures var v, v' := s.posters[p], Do(s, a).posters[p];
      PushedIn(s, a, Outside(p)) + (InHand(v'.post) + v'.rest) == InHand(v.post) + v.rest
  {
    var v' := Do(s, a).posters[p];
    assert [] + (InHand(v'.post) + v'.rest) == InHand(v'.post) + v'.rest;
    if a == PostLock(p) {
      FirstInHand(s.posters[p].rest);
    }
  }

  /** A posting thread posts its tasks in their order. */
  lemma {:induction false} PosterOrder(s: State, run: seq<Action>, s': State, p: nat)
    requires Leads(s, run, s') && p < |s.posters|
    ensures p < |s'.posters|
    ensures PushedBy(s, run, s', Outside(p)) + (InHand(s'.posters[p].post) + s'.posters[p].rest)
         == InHand(s.posters[p].post) + s.posters[p].rest
    decreases |run|
  {
    if run == [] {
      assert [] + (InHand(s.posters[p].post) + s.posters[p].rest) == InHand(s.posters[p].post) + s.posters[p].rest;
    } else {
      var s1 := Do(s, run[0]);
      PosterStep(s, run[0], p);
      PosterOrder(s1, run[1..], s', p);
      Grouped(PushedIn(s, run[0], Outside(p)), PushedBy(s1, run[1..], s', Outside(p)),
              InHand(s'.posters[p].post) + s'.posters[p].rest);
    }
  }

  lemma Grouped(a: seq<Task>, b: seq<Task>, c: seq<Task>)
    ensures a + b + c == a + (b + c)
  {
  }

  /** A task that is not running posts nothing. */
  lemma OthersPush(s: State, a: Action, k: nat)
    requires Enabled(s, a) && forall i :: 0 <= i < |s.workers| ==> !RunsJob(s.workers[i], k)
    ensures PushedIn(s, a, Inside(k)) == []
  {
    if a.JobPush? {
      assert !RunsJob(s.workers[a.w], k);
    }
  }

  lemma NotRunning(s: State, k: nat)
    requires JobsInv(s) && (k >= s.started || k in s.finished)
    ensures forall i :: 0 <= i < |s.workers| ==> !RunsJob(s.workers[i], k)
  {
  }

  lemma WaitingStep(s: State, a: Action, k: nat, ts: seq<Task>)
    requires Inv(s) && Enabled(s, a) && Waits(s, k, ts)
    ensures WillPost(Do(s, a), k, ts) && PushedIn(s, a, Inside(k)) == []
  {
    NotRunning(s, k);
    OthersPush(s, a, k);
    if a.Take? && s.queue != [] && k == s.started {
      assert [] + ts == ts;
      assert RunsOn(Do(s, a), k, ts, a.w);
    } else {
      assert Waits(Do(s, a), k, ts);
    }
  }

  lemma FinishedStep(s: State, a: Action, k: nat, ts: seq<Task>)
    requires Inv(s) && Enabled(s, a) && IsOver(s, k, ts)
    ensures WillPost(Do(s, a), k, ts) && PushedIn(s, a, Inside(k)) == []
  {
    NotRunning(s, k);
    OthersPush(s, a, k);
    FinishedOrigin(s, a);
    assert IsOver(Do(s, a), k, ts);
  }

  /** What becomes of a worker that runs a task. */
  lemma NextOfRunning(s: State, a: Action, i: nat)
    requires Enabled(s, a) && i < |s.workers| && s.workers[i].Running?
    ensures i < |Do(s, a).workers|
    ensures var v := s.workers[i];
      Do(s, a).workers[i]
      == if a == Finish(i) then Locking
         else if a == JobLock(i) then v.(rest := v.rest[1..], post := Locked(v.rest[0]))
         else if a == JobPush(i) then v.(post := Pushed)
         else if a.JobNotify? && a.w == i then v.(post := Notified)
         else if a == JobUnlock(i) then v.(post := NotPosting)
         else v
  {
  }

  /** A step of the worker that runs the task. */
  lemma OwnStep(s: State, a: Action, i: nat)
    requires Enabled(s, a) && i < |s.workers| && s.workers[i].Running? && i < |Do(s, a).workers|
    ensures var v' := Do(s, a).workers[i];
      var pushed := if a == JobPush(i) then [s.workers[i].post.task] else [];
      && pushed + StillToPost(v') == StillToPost(s.workers[i])
      && (v'.Running? ==> v'.job == s.workers[i].job)
      && (!v'.Running? ==> StillToPost(s.workers[i]) == [])
  {
    NextOfRunning(s, a, i);
    HandMoves(s.workers[i]);
    var v' := Do(s, a).workers[i];
    assert [] + StillToPost(v') == StillToPost(v');
  }

  lemma HandMoves(v: Worker)
    requires v.Running?
    ensures v.post == NotPosting && v.rest != [] ==>
      StillToPost(v.(rest := v.rest[1..], post := Locked(v.rest[0]))) == StillToPost(v)
    ensures v.post.Locked? ==> [v.post.task] + StillToPost(v.(post := Pushed)) == StillToPost(v)
    ensures v.post == NotPosting && v.rest == [] ==> StillToPost(v) == []
  {
    if v.post == NotPosting && v.rest != [] {
      FirstInHand(v.rest);
    }
    assert [] + v.rest == v.rest;
  }

  lemma RunningStep(s: State, a: Action, k: nat, ts: seq<Task>, i: nat) returns (ts': seq<Task>)
    requires Inv(s) && Enabled(s, a) && RunsOn(s, k, ts, i)
    ensures WillPost(Do(s, a), k, ts') && PushedIn(s, a, Inside(k)) + ts' == ts
  {
    NextOfRunning(s, a, i);
    OwnStep(s, a, i);
    PushOfJob(s, a, k, i);
    ts' := StillToPost(Do(s, a).workers[i]);
    StillRuns(s, a, k, i);
  }

  lemma StillRuns(s: State, a: Action, k: nat, i: nat)
    requires Enabled(s, a) && i < |s.workers| && RunsJob(s.workers[i], k) && i < |Do(s, a).workers|
    ensures WillPost(Do(s, a), k, StillToPost(Do(s, a).workers[i]))
  {
    NextOfRunning(s, a, i);
    if a == Finish(i) {
      FinishedOrigin(s, a);
      assert IsOver(Do(s, a), k, []);
    } else {
      assert RunsOn(Do(s, a), k, StillToPost(Do(s, a).workers[i]), i);
    }
  }

  /** Only the worker that runs a task pushes what it posts. */
  lemma PushOfJob(s: State, a: Action, k: nat, i: nat)
    requires JobsInv(s) && Enabled(s, a) && i < |s.workers| && RunsJob(s.workers[i], k)
    ensures PushedIn(s, a, Inside(k)) == if a == JobPush(i) then [s.workers[i].post.task] else []
  {
  }

  lemma WillPostStep(s: State, a: Action, k: nat, ts: seq<Task>) returns (ts': seq<Task>)
    requires Inv(s) && Enabled(s, a) && WillPost(s, k, ts)
    ensures WillPost(Do(s, a), k, ts') && PushedIn(s, a, Inside(k)) + ts' == ts
  {
    assert [] + ts == ts;
    if Waits(s, k, ts) {
      WaitingStep(s, a, k, ts);
      ts' := ts;
    } else if IsOver(s, k, ts) {
      FinishedStep(s, a, k, ts);
      ts' := ts;
    } else {
      var i: nat :| RunsOn(s, k, ts, i);
      ts' := RunningStep(s, a, k, ts, i);
    }
  }

  /** From a state in which the k-th task has been posted. */
  lemma {:induction false} WillPostRun(s: State, run: seq<Action>, s': State, k: nat, ts: seq<Task>)
    returns (ts': seq<Task>)
    requires Inv(s) && Leads(s, run, s') && WillPost(s, k, ts)
    ensures WillPost(s', k, ts') && PushedBy(s, run, s', Inside(k)) + ts' == ts
    decreases |run|
  {
    if run == [] {
      ts' := ts;
      assert [] + ts == ts;
    } else {
      StepKeepsInv(s, run[0]);
      var s1 := Do(s, run[0]);
      var ts1 := WillPostStep(s, run[0], k, ts);
      ts' := WillPostRun(s1, run[1..], s', k, ts1);
      Grouped(PushedIn(s, run[0], Inside(k)), PushedBy(s1, run[1..], s', Inside(k)), ts');
    }
  }

  lemma PostedOnce(s: State, a: Action, k: nat)
    requires Inv(s) && Enabled(s, a) && |s.posted| <= k
    ensures PushedIn(s, a, Inside(k)) == []
    ensures k < |Do(s, a).posted| ==> Do(s, a).started <= k
  {
    NotRunning(s, k);
    OthersPush(s, a, k);
  }

  lemma PostedStays(s: State, a: Action)
    requires Enabled(s, a)
    ensures s.posted <= Do(s, a).posted
  {
  }

  lemma {:induction false} PostedPrefix(s: State, run: seq<Action>, s': State)
    requires Leads(s, run, s')
    ensures s.posted <= s'.posted
    decreases |run|
  {
    if run != [] {
      PostedStays(s, run[0]);
      PostedPrefix(Do(s, run[0]), run[1..], s');
    }
  }

  lemma {:induction false} TaskOrder(s: State, run: seq<Action>, s': State, k: nat) returns (ts: seq<Task>)
    requires Inv(s) && Leads(s, run, s') && |s.posted| <= k < |s'.posted|
    ensures WillPost(s', k, ts) && PushedBy(s, run, s', Inside(k)) + ts == s'.posted[k].posts
    decreases |run|
  {
    var s1 := Do(s, run[0]);
    StepKeepsInv(s, run[0]);
    PostedOnce(s, run[0], k);
    PostedPrefix(s1, run[1..], s');
    if k < |s1.posted| {
      assert Waits(s1, k, s1.posted[k].posts);
      ts := WillPostRun(s1, run[1..], s', k, s1.posted[k].posts);
    } else {
      ts := TaskOrder(s1, run[1..], s', k);
    }
    assert [] + PushedBy(s1, run[1..], s', Inside(k)) == PushedBy(s1, run[1..], s', Inside(k));
  }

  /**
    Along every run, each thread outside the pool posts the tasks it started with in their order, and so does each
    posted task with what it posts: what a source has put into the queue, followed by what it still has to post, is its
    list. A task that has finished has nothing left to post.
   */
  lemma PostedInOrder(s0: State, run: seq<Action>, s: State, p: nat, k: nat) returns (ts: seq<Task>)
    requires Initial(s0) && Leads(s0, run, s)
    ensures p < |s0.posters| ==>
      p < |s.posters| && PushedBy(s0, run, s, Outside(p)) + (InHand(s.posters[p].post) + s.posters[p].rest)
                         == s0.posters[p].rest
    ensures k < |s.posted| ==> PushedBy(s0, run, s, Inside(k)) + ts == s.posted[k].posts
    ensures k in s.finished ==> ts == []
  {
    InitInv(s0);
    RunKeepsInv(s0, run, s);
    ts := [];
    if p < |s0.posters| {
      PosterOrder(s0, run, s, p);
      assert [] + s0.posters[p].rest == s0.posters[p].rest;
    }
    if k < |s.posted| {
      ts := TaskOrder(s0, run, s, k);
      if k in s.finished {
        NotRunning(s, k);
      }
    }
  }

  lemma {:induction false} EmptyPoolRun(s: State, run: seq<Action>, s': State)
    requires Leads(s, run, s')
    requires s.workers == [] && s.started == 0 && s.finished == {} && s.queue == s.posted
    ensures s'.started == 0 && s'.finished == {} && s'.queue == s'.posted
    decreases |run|
  {
    if run != [] {
      EmptyPoolRun(Do(s, run[0]), run[1..], s');
    }
  }

  /** A pool without workers never takes a task, let alone finishes one: all that was posted stays queued. */
  lemma NoWorkersNoWork(s: State)
    requires Reachable(s) && s.workers == []
    ensures s.started == 0 && s.finished == {} && s.queue == s.posted
  {
    var s0, run :| Initial(s0) && Leads(s0, run, s);
    InitInv(s0);
    RunKeepsInv(s0, run, s);
    EmptyPoolRun(s0, run, s);
  }

  /**
    When all workers have exited, and so when the destructor returns, every task ever posted
    has finished if and only if the pool has a worker or nothing was posted.
   */
  lemma DoneIfWorkers(s: State)
    requires Reachable(s) && AllExited(s)
    ensures (forall k: nat :: k < |s.posted| ==> k in s.finished) <==> |s.workers| > 0 || s.posted == []
  {
    if |s.workers| > 0 {
      JoinedMeansDone(s);
    } else {
      NoWorkersNoWork(s);
      assert s.posted != [] ==> 0 < |s.posted| && 0 !in s.finished;
    }
  }

  // ---------- No wakeup is lost ----------

  /** A worker or poster awake and about to act on the queue. */
  ghost predicate Attends(s: State) {
    || (exists i :: 0 <= i < |s.workers| && Share(s.workers[i]) > 0)
    || (exists j :: 0 <= j < |s.posters| && s.posters[j].post == Pushed)
  }

  lemma {:induction false} SupplyWitness(ws: seq<Worker>)
    requires Supply(ws) > 0
    ensures exists i :: 0 <= i < |ws| && Share(ws[i]) > 0
  {
    var n := |ws| - 1;
    if Share(ws[n]) == 0 {
      SupplyWitness(ws[..n]);
      var i :| 0 <= i < |ws[..n]| && Share(ws[..n][i]) > 0;
      assert Share(ws[i]) > 0;
    }
  }

  lemma {:induction false} PendingWitness(ps: seq<Poster>)
    requires PendingPosts(ps) > 0
    ensures exists j :: 0 <= j < |ps| && ps[j].post == Pushed
  {
    var n := |ps| - 1;
    if ps[n].post != Pushed {
      PendingWitness(ps[..n]);
      var j :| 0 <= j < |ps[..n]| && ps[..n][j].post == Pushed;
      assert ps[j].post == Pushed;
    }
  }

  /** A queued task never waits on sleepers only: somebody awake attends to it, or all workers are busy or gone. */
  lemma NoLostWakeup(s: State)
    requires Reachable(s) && s.queue != [] && SomeoneSleeps(s)
    ensures Attends(s) && |s.queue| <= Supply(s.workers) + PendingPosts(s.posters)
  {
    ReachableInv(s);
    if Supply(s.workers) > 0 {
      SupplyWitness(s.workers);
    } else {
      PendingWitness(s.posters);
    }
  }

  // ---------- Progress ----------

  /** A step that is not a spurious wakeup. */
  ghost predicate CanMove(s: State) {
    exists a :: Enabled(s, a) && !a.Spurious?
  }

  /** Somebody to notify, or Nobody. */
  lemma SomeTarget(s: State) returns (t: Target)
    ensures ValidTarget(s, t)
  {
    if SomeoneSleeps(s) {
      var i :| 0 <= i < |s.workers| && s.workers[i] == Sleeping;
      t := Wake(i);
    } else {
      t := Nobody;
    }
  }

  /** The holder of the mutex can always take its next step. */
  lemma HolderMoves(s: State)
    requires Inv(s) && s.mutex != Free
    ensures CanMove(s)
  {
    var t := SomeTarget(s);
    match s.mutex {
      case ByWorker(w) =>
        var v := s.workers[w];
        if v == Checking {
          assert Enabled(s, Check(w));
        } else if v == Passed {
          assert Enabled(s, Take(w));
        } else if v.post.Locked? {
          assert Enabled(s, JobPush(w));
        } else if v.post == Pushed {
          assert Enabled(s, JobNotify(w, t));
        } else {
          assert Enabled(s, JobUnlock(w));
        }
      case ByPoster(p) =>
        var v := s.posters[p];
        if v.post.Locked? {
          assert Enabled(s, PostPush(p));
        } else if v.post == Pushed {
          assert Enabled(s, PostNotify(p, t));
        } else {
          assert Enabled(s, PostUnlock(p));
        }
      case ByDestructor =>
        assert Enabled(s, SetQuit);
    }
  }

  /** With the mutex free, an awake worker can move. */
  lemma AwakeMoves(s: State, w: nat)
    requires Inv(s) && s.mutex == Free && w < |s.workers| && s.workers[w] != Sleeping && s.workers[w] != Exited
    ensures CanMove(s)
  {
    var v := s.workers[w];
    if v.Running? {
      if v.rest == [] {
        assert Enabled(s, Finish(w));
      } else {
        assert Enabled(s, JobLock(w));
      }
    } else {
      assert Enabled(s, Lock(w));
    }
  }

  /** The pool never gets stuck: until the destructor has returned, some thread can move without a spurious wakeup. */
  lemma NeverStuck(s: State)
    requires Reachable(s) && s.dtor != Joined
    ensures CanMove(s)
  {
    ReachableInv(s);
    if s.mutex != Free {
      HolderMoves(s);
    } else if exists w :: 0 <= w < |s.workers| && s.workers[w] != Sleeping && s.workers[w] != Exited {
      var w :| 0 <= w < |s.workers| && s.workers[w] != Sleeping && s.workers[w] != Exited;
      AwakeMoves(s, w);
    } else if s.dtor == Alive {
      if PostersDone(s) {
        assert Enabled(s, Close);
      } else {
        var p :| 0 <= p < |s.posters| && s.posters[p] != Poster([], NotPosting);
        assert Enabled(s, PostLock(p));
      }
    } else if s.dtor == QuitSet {
      assert Enabled(s, NotifyAll);
    } else {
      assert Enabled(s, Join);
    }
  }

  // ---------- Termination after the destructor has notified everybody ----------

  /** The work a task brings with it: taking and finishing it, and each of its posts with its task. */
  ghost function Work(t: Task): (n: nat)
    ensures n >= 8
    decreases t, 0
  {
    8 + WorkOfAll(t.posts)
  }

  ghost function WorkOfAll(ts: seq<Task>): nat
    decreases ts, 1
  {
    if ts == [] then 0 else (4 + Work(ts[0])) + WorkOfAll(ts[1..])
  }

  ghost function QueueWork(q: seq<Task>): nat {
    if q == [] then 0 else Work(q[0]) + QueueWork(q[1..])
  }

  lemma {:induction false} QueueWorkSnoc(q: seq<Task>, t: Task)
    ensures QueueWork(q + [t]) == QueueWork(q) + Work(t)
  {
    if q == [] {
      assert q + [t] == [t];
      assert QueueWork([t]) == Work(t) + QueueWork([]);
    } else {
      QueueWorkSnoc(q[1..], t);
      assert (q + [t])[1..] == q[1..] + [t];
    }
  }

  ghost function PostingWork(p: Posting): nat {
    match p
    case NotPosting => 0
    case Locked(t) => 3 + Work(t)
    case Pushed => 2
    case Notified => 1
  }

  ghost function WorkerWork(v: Worker): nat {
    match v
    case Locking => 4
    case Waking => 4
    case Sleeping => 5
    case Checking => 3
    case Passed => 2
    case Running(_, rest, post) => 5 + WorkOfAll(rest) + PostingWork(post)
    case Exited => 0
  }

  ghost function WorkersWork(ws: seq<Worker>): nat {
    if ws == [] then 0 else WorkersWork(ws[..|ws| - 1]) + WorkerWork(ws[|ws| - 1])
  }

  lemma {:induction false} WorkersWorkUpdate(ws: seq<Worker>, i: nat, v: Worker)
    requires i < |ws|
    ensures WorkersWork(ws[i := v]) == WorkersWork(ws) - WorkerWork(ws[i]) + WorkerWork(v)
  {
    var n := |ws| - 1;
    if i == n {
      assert ws[i := v][..n] == ws[..n];
    } else {
      WorkersWorkUpdate(ws[..n], i, v);
      assert ws[i := v][..n] == ws[..n][i := v];
    }
  }

  /** What is left to do once the destructor waits in join. */
  ghost function Remaining(s: State): nat {
    QueueWork(s.queue) + WorkersWork(s.workers) + (if s.dtor == Joining then 1 else 0)
  }

  /** After notify_all nobody sleeps again, and every step leaves less to do. */
  lemma ShutdownProgress(s: State, a: Action)
    requires Reachable(s) && s.dtor == Joining && Enabled(s, a)
    ensures var s' := Do(s, a);
      Remaining(s') < Remaining(s) && !SomeoneSleeps(s') && (s'.dtor == Joining || s'.dtor == Joined)
  {
    ReachableInv(s);
    QuitKept(s, a);
    if a != Join {
      WorkerProgress(s, a);
    }
  }

  /** The worker that moves has less work, counting what it put into or took out of the queue. */
  lemma WorkerProgress(s: State, a: Action)
    requires Inv(s) && s.dtor == Joining && Enabled(s, a) && a != Join
    ensures Remaining(Do(s, a)) < Remaining(s) && Do(s, a).dtor == Joining
  {
    WorkerMoves(s, a);
    WorkerAndQueue(s, a);
    WorkersWorkUpdate(s.workers, Mover(a), Do(s, a).workers[Mover(a)]);
  }

  /** The moving worker and the queue together lose work. */
  lemma WorkerAndQueue(s: State, a: Action)
    requires s.quit && PostersDone(s) && s.dtor == Joining && Enabled(s, a) && a != Join && !a.Spurious?
    requires Mover(a) < |s.workers| == |Do(s, a).workers|
    ensures WorkerWork(Do(s, a).workers[Mover(a)]) + QueueWork(Do(s, a).queue)
          < WorkerWork(s.workers[Mover(a)]) + QueueWork(s.queue)
  {
    if a.JobPush? {
      QueueWorkSnoc(s.queue, s.workers[a.w].post.task);
    }
  }

  ghost function Mover(a: Action): nat {
    match a
    case Lock(w) => w
    case Check(w) => w
    case Take(w) => w
    case Finish(w) => w
    case JobLock(w) => w
    case JobPush(w) => w
    case JobNotify(w, _) => w
    case JobUnlock(w) => w
    case _ => 0
  }

  /** While the destructor joins, only workers move, one at a time. */
  lemma WorkerMoves(s: State, a: Action)
    requires Inv(s) && s.dtor == Joining && Enabled(s, a) && a != Join
    ensures Mover(a) < |s.workers| && Do(s, a).dtor == Joining
    ensures Do(s, a).workers == s.workers[Mover(a) := Do(s, a).workers[Mover(a)]]
  {
  }

  /** From then on every run has at most Remaining(s) steps. */
  lemma {:induction false} ShutdownBounded(s: State, run: seq<Action>, s': State)
    requires Reachable(s) && s.dtor == Joining && Leads(s, run, s')
    ensures |run| <= Remaining(s)
    decreases |run|
  {
    if run != [] {
      ShutdownProgress(s, run[0]);
      var s1 := Do(s, run[0]);
      ReachableStep(s, run[0]);
      if s1.dtor == Joining {
        ShutdownBounded(s1, run[1..], s');
      } else if run[1..] != [] {
        ReachableInv(s1);
        NothingAfterJoin(s1, run[1]);
      }
    }
  }

  lemma {:induction false} LeadsSnoc(s: State, run: seq<Action>, s': State, a: Action)
    requires Leads(s, run, s') && Enabled(s', a)
    ensures Leads(s, run + [a], Do(s', a))
    decreases |run|
  {
    if run == [] {
      assert Leads(Do(s', a), [], Do(s', a));
      assert ([a])[1..] == [];
    } else {
      LeadsSnoc(Do(s, run[0]), run[1..], s', a);
      assert (run + [a])[1..] == run[1..] + [a];
    }
  }

  lemma ReachableStep(s: State, a: Action)
    requires Reachable(s) && Enabled(s, a)
    ensures Reachable(Do(s, a))
  {
    var s0, run :| Initial(s0) && Leads(s0, run, s);
    LeadsSnoc(s0, run, s, a);
  }

  ghost function EmptyPool(p: Poster, d: Destructor, m: Owner, queue: seq<Task>, quit: bool): State {
    State([], [p], d, m, queue, quit, queue, 0, {})
  }

  lemma EmptyPoolStep(s: State, a: Action, s': State)
    requires Reachable(s) && Enabled(s, a) && Do(s, a) == s'
    ensures Reachable(s')
  {
    ReachableStep(s, a);
  }

  lemma EmptyPoolLocked(t: Task)
    ensures Reachable(EmptyPool(Poster([], Locked(t)), Alive, ByPoster(0), [], false))
  {
    var s0 := EmptyPool(Poster([t], NotPosting), Alive, Free, [], false);
    assert Initial(s0) && Leads(s0, [], s0);
    assert [t][1..] == [] && s0.posters[0 := Poster([], Locked(t))] == [Poster([], Locked(t))];
    EmptyPoolStep(s0, PostLock(0), EmptyPool(Poster([], Locked(t)), Alive, ByPoster(0), [], false));
  }

  lemma EmptyPoolPosted(t: Task)
    ensures Reachable(EmptyPool(Poster([], NotPosting), Alive, Free, [t], false))
  {
    var s2 := EmptyPool(Poster([], Pushed), Alive, ByPoster(0), [t], false);
    var s3 := EmptyPool(Poster([], Notified), Alive, ByPoster(0), [t], false);
    EmptyPoolPushed(t);
    EmptyPoolStep(s2, PostNotify(0, Nobody), s3);
    EmptyPoolStep(s3, PostUnlock(0), EmptyPool(Poster([], NotPosting), Alive, Free, [t], false));
  }

  lemma EmptyPoolPushed(t: Task)
    ensures Reachable(EmptyPool(Poster([], Pushed), Alive, ByPoster(0), [t], false))
  {
    var s1 := EmptyPool(Poster([], Locked(t)), Alive, ByPoster(0), [], false);
    EmptyPoolLocked(t);
    EmptyPoolStep(s1, PostPush(0), EmptyPool(Poster([], Pushed), Alive, ByPoster(0), [t], false));
  }

  /** The destructor of a pool without workers does return, with a posted task still queued. */
  lemma NoWorkersJoined(t: Task)
    ensures exists s :: Reachable(s) && s.workers == [] && s.dtor == Joined && s.queue == [t] && s.finished == {}
  {
    var idle := Poster([], NotPosting);
    var s4 := EmptyPool(idle, Alive, Free, [t], false);
    var s5 := EmptyPool(idle, Closing, ByDestructor, [t], false);
    var s6 := EmptyPool(idle, QuitSet, Free, [t], true);
    var s7 := EmptyPool(idle, Joining, Free, [t], true);
    EmptyPoolPosted(t);
    EmptyPoolStep(s4, Close, s5);
    EmptyPoolStep(s5, SetQuit, s6);
    EmptyPoolStep(s6, NotifyAll, s7);
    EmptyPoolStep(s7, Join, EmptyPool(idle, Joined, Free, [t], true));
  }

  lemma NothingAfterJoin(s: State, a: Action)
    requires Inv(s) && s.dtor == Joined
    ensures !Enabled(s, a)
  {
  }

  /** The destructor returns: a run that cannot be extended ends with it joined, all workers gone and all work done. */
  lemma DestructorReturns(s: State)
    requires Reachable(s) && !CanMove(s) && |s.workers| > 0
    ensures s.dtor == Joined && AllExited(s) && s.queue == []
    ensures forall k: nat :: k in s.finished <==> k < |s.posted|
  {
    if s.dtor != Joined {
      NeverStuck(s);
    }
    ReachableInv(s);
    JoinedMeansDone(s);
  }
}
