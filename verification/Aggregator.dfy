/** The worker pool that runs the vision pipeline. Every step is one critical section or one atomic
    operation of one thread; the steps of different threads interleave freely. */
module Aggregator {

  const MAX_CV_PIPELINES := 2

  /** Accepted images are told apart by the order in which they were accepted. */
  datatype Run = Run(runId: nat, image: nat)

  /** Where a worker thread stands: running the pipeline, about to publish its run, about to look at
      the queue, on its way out after an empty queue, gone. */
  datatype Stage = Running(image: nat) | Publishing(run: Run) | Polling | Retiring | Done

  /** The aggregator, its workers, and the history of what became of every image. `threads` are the
      workers whose handles the aggregator still holds; `joining` are those a terminate call waits
      for. */
  datatype State = State(accepting: bool, queue: seq<nat>, active: int, workers: seq<Stage>, threads: set<nat>,
                         joining: set<nat>, joined: bool, results: seq<Run>, nextRunId: nat,
                         accepted: nat, popped: seq<Run>, discarded: seq<nat>)

  function Fresh(): State {
    State(true, [], 0, [], {}, {}, false, [], 0, 0, [], [])
  }

  datatype Step =
    | Submit(spawned: bool)
    | Process(w: nat)
    | Publish(w: nat)
    | Poll(w: nat)
    | Retire(w: nat)
    | TerminateEnter
    | TerminateReturn
    | PopAllRuns

  predicate AllDone(s: State, ws: set<nat>) {
    forall w | w in ws :: w < |s.workers| && s.workers[w].Done?
  }

  predicate Enabled(s: State, step: Step) {
    match step
    case Process(w) => w < |s.workers| && s.workers[w].Running?
    case Publish(w) => w < |s.workers| && s.workers[w].Publishing?
    case Poll(w) => w < |s.workers| && s.workers[w].Polling?
    case Retire(w) => w < |s.workers| && s.workers[w].Retiring?
    case TerminateReturn => s.joining != {} && AllDone(s, s.joining)
    case _ => true
  }

  function Next(s: State, step: Step): State
    requires Enabled(s, step)
  {
    match step
    case Submit(spawned) =>
      if !s.accepting then s
      else if s.active >= MAX_CV_PIPELINES then s.(queue := s.queue + [s.accepted], accepted := s.accepted + 1)
      else if !spawned then s
      else s.(active := s.active + 1, workers := s.workers + [Running(s.accepted)],
              threads := s.threads + {|s.workers|}, accepted := s.accepted + 1)
    case Process(w) =>
      s.(workers := s.workers[w := Publishing(Run(s.nextRunId, s.workers[w].image))], nextRunId := s.nextRunId + 1)
    case Publish(w) =>
      s.(workers := s.workers[w := Polling], results := s.results + [s.workers[w].run])
    case Poll(w) =>
      if s.queue == [] then s.(workers := s.workers[w := Retiring])
      else s.(workers := s.workers[w := Running(s.queue[0])], queue := s.queue[1..])
    case Retire(w) =>
      s.(workers := s.workers[w := Done], active := s.active - 1)
    case TerminateEnter =>
      s.(accepting := false, discarded := s.discarded + s.queue, queue := [], threads := {},
         joining := if s.threads == {} then s.joining else s.joining + s.threads)
    case TerminateReturn =>
      s.(joining := {}, joined := true)
    case PopAllRuns =>
      s.(popped := s.popped + s.results, results := [])
  }

  function Play(s: State, steps: seq<Step>): State
    decreases |steps|
  {
    if steps == [] then s
    else Play(if Enabled(s, steps[0]) then Next(s, steps[0]) else s, steps[1..])
  }

  // ----- counting over the workers

  function Carries(st: Stage, image: nat): nat {
    match st
    case Running(i) => if i == image then 1 else 0
    case Publishing(run) => if run.image == image then 1 else 0
    case _ => 0
  }

  function Bears(st: Stage, runId: nat): nat {
    if st.Publishing? && st.run.runId == runId then 1 else 0
  }

  function Images(runs: seq<Run>): seq<nat> {
    seq(|runs|, i requires 0 <= i < |runs| => runs[i].image)
  }

  function RunIds(runs: seq<Run>): seq<nat> {
    seq(|runs|, i requires 0 <= i < |runs| => runs[i].runId)
  }

  /** How many workers are at work on `image`. */
  function InFlight(ws: seq<Stage>, image: nat): nat {
    if ws == [] then 0 else InFlight(ws[..|ws| - 1], image) + Carries(ws[|ws| - 1], image)
  }

  /** How many workers are about to publish a run numbered `runId`. */
  function Unpublished(ws: seq<Stage>, runId: nat): nat {
    if ws == [] then 0 else Unpublished(ws[..|ws| - 1], runId) + Bears(ws[|ws| - 1], runId)
  }

  function Alive(ws: seq<Stage>): nat {
    if ws == [] then 0 else Alive(ws[..|ws| - 1]) + (if ws[|ws| - 1].Done? then 0 else 1)
  }

  lemma {:induction false} InFlightChanged(ws: seq<Stage>, w: nat, st: Stage, image: nat)
    requires w < |ws|
    ensures InFlight(ws[w := st], image) + Carries(ws[w], image) == InFlight(ws, image) + Carries(st, image)
  {
    var last := |ws| - 1;
    if w == last {
      assert ws[w := st][..last] == ws[..last];
    } else {
      assert ws[w := st][..last] == ws[..last][w := st];
      InFlightChanged(ws[..last], w, st, image);
    }
  }

  lemma {:induction false} UnpublishedChanged(ws: seq<Stage>, w: nat, st: Stage, runId: nat)
    requires w < |ws|
    ensures Unpublished(ws[w := st], runId) + Bears(ws[w], runId) == Unpublished(ws, runId) + Bears(st, runId)
  {
    var last := |ws| - 1;
    if w == last {
      assert ws[w := st][..last] == ws[..last];
    } else {
      assert ws[w := st][..last] == ws[..last][w := st];
      UnpublishedChanged(ws[..last], w, st, runId);
    }
  }

  lemma {:induction false} AliveChanged(ws: seq<Stage>, w: nat, st: Stage)
    requires w < |ws|
    ensures Alive(ws[w := st]) == Alive(ws) - (if ws[w].Done? then 0 else 1) + (if st.Done? then 0 else 1)
  {
    var last := |ws| - 1;
    if w == last {
      assert ws[w := st][..last] == ws[..last];
    } else {
      assert ws[w := st][..last] == ws[..last][w := st];
      AliveChanged(ws[..last], w, st);
    }
  }

  lemma WorkerAdded(ws: seq<Stage>, st: Stage, k: nat)
    ensures InFlight(ws + [st], k) == InFlight(ws, k) + Carries(st, k)
    ensures Unpublished(ws + [st], k) == Unpublished(ws, k) + Bears(st, k)
    ensures Alive(ws + [st]) == Alive(ws) + (if st.Done? then 0 else 1)
  {
    assert (ws + [st])[..|ws|] == ws;
  }

  // ----- what holds in every interleaving

  function Occurrences(xs: seq<nat>, x: nat): nat {
    multiset(xs)[x]
  }

  /** In how many places `image` is: in flight in a worker, queued, completed in a run, discarded. */
  function Places(s: State, image: nat): nat {
    InFlight(s.workers, image) + Occurrences(s.queue, image) +
    Occurrences(Images(s.popped + s.results), image) + Occurrences(s.discarded, image)
  }

  /** How many runs are numbered `runId`, about to be published or published. */
  function Bearers(s: State, runId: nat): nat {
    Unpublished(s.workers, runId) + Occurrences(RunIds(s.popped + s.results), runId)
  }

  /** Every accepted image is in exactly one place, every id handed out belongs to exactly one run. */
  ghost predicate Conserved(s: State) {
    && (forall image: nat :: Places(s, image) == if image < s.accepted then 1 else 0)
    && (forall runId: nat :: Bearers(s, runId) == if runId < s.nextRunId then 1 else 0)
  }

  predicate WorkersCounted(s: State) {
    s.active == Alive(s.workers) <= MAX_CV_PIPELINES
  }

  /** Waiting images are in the order of their acceptance, and older than any still to come. */
  predicate QueueInOrder(s: State) {
    && (forall i, j | 0 <= i < j < |s.queue| :: s.queue[i] < s.queue[j])
    && (forall i | 0 <= i < |s.queue| :: s.queue[i] < s.accepted)
  }

  predicate EveryWorker(s: State, ws: set<nat>) {
    (forall w | w in ws :: w < |s.workers|) && (forall w | 0 <= w < |s.workers| :: w in ws)
  }

  predicate NoneActive(s: State) {
    forall w | 0 <= w < |s.workers| :: s.workers[w].Done?
  }

  /** While images are accepted the aggregator holds every thread; once it was terminated it holds
      none, and they are all waited for or all gone. */
  predicate ThreadsHeld(s: State) {
    && (s.accepting ==> EveryWorker(s, s.threads) && s.joining == {} && !s.joined)
    && (!s.accepting ==> s.threads == {} && s.queue == [] && (EveryWorker(s, s.joining) || NoneActive(s)))
    && (s.joined ==> !s.accepting && NoneActive(s))
  }

  ghost predicate Inv(s: State) {
    Conserved(s) && WorkersCounted(s) && QueueInOrder(s) && ThreadsHeld(s)
  }

  lemma ListsSplit(a: seq<Run>, b: seq<Run>)
    ensures Images(a + b) == Images(a) + Images(b) && RunIds(a + b) == RunIds(a) + RunIds(b)
  {
  }

  lemma CountFirst(xs: seq<nat>, x: nat)
    requires xs != []
    ensures Occurrences(xs, x) == Occurrences(xs[1..], x) + if xs[0] == x then 1 else 0
  {
    assert xs == [xs[0]] + xs[1..];
  }

  lemma CountBoth(xs: seq<nat>, ys: seq<nat>, x: nat)
    ensures Occurrences(xs + ys, x) == Occurrences(xs, x) + Occurrences(ys, x)
  {
  }

  lemma NoOccurrences(x: nat)
    ensures Occurrences([], x) == 0
  {
  }

  lemma CountOne(y: nat, x: nat)
    ensures Occurrences([y], x) == if y == x then 1 else 0
  {
  }

  lemma PublishedLists(popped: seq<Run>, results: seq<Run>, run: Run, k: nat)
    ensures Occurrences(Images(popped + (results + [run])), k) ==
            Occurrences(Images(popped + results), k) + if run.image == k then 1 else 0
    ensures Occurrences(RunIds(popped + (results + [run])), k) ==
            Occurrences(RunIds(popped + results), k) + if run.runId == k then 1 else 0
  {
    hide Occurrences;
    ListsSplit(popped + results, [run]);
    assert popped + (results + [run]) == popped + results + [run];
    assert Images([run]) == [run.image] && RunIds([run]) == [run.runId];
    CountBoth(Images(popped + results), [run.image], k);
    CountBoth(RunIds(popped + results), [run.runId], k);
    CountOne(run.image, k);
    CountOne(run.runId, k);
  }

  /** One step, as seen from one image. */
  lemma StepMovesImage(s: State, step: Step, image: nat)
    requires Enabled(s, step)
    ensures var s' := Next(s, step);
            && s.accepted <= s'.accepted
            && Places(s', image) == Places(s, image) + (if s.accepted <= image < s'.accepted then 1 else 0)
  {
    hide InFlight, Images, Bearers, Occurrences;
    var s' := Next(s, step);
    match step {
      case Submit(_) =>
        WorkerAdded(s.workers, Running(s.accepted), image);
        CountBoth(s.queue, [s.accepted], image);
        CountOne(s.accepted, image);
      case Process(w) => WorkerMoves(s, s', w, image);
      case Publish(w) =>
        WorkerMoves(s, s', w, image);
        PublishedLists(s.popped, s.results, s.workers[w].run, image);
      case Poll(w) =>
        WorkerMoves(s, s', w, image);
        if s.queue != [] { CountFirst(s.queue, image); }
      case Retire(w) => WorkerMoves(s, s', w, image);
      case TerminateEnter =>
        CountBoth(s.discarded, s.queue, image);
        NoOccurrences(image);
      case TerminateReturn =>
      case PopAllRuns =>
        assert s'.popped + s'.results == s.popped + s.results;
    }
  }

  /** One step, as seen from one run id. */
  lemma StepMovesRunId(s: State, step: Step, runId: nat)
    requires Enabled(s, step)
    ensures var s' := Next(s, step);
            && s.nextRunId <= s'.nextRunId
            && Bearers(s', runId) == Bearers(s, runId) + (if s.nextRunId <= runId < s'.nextRunId then 1 else 0)
  {
    hide Unpublished, RunIds, Places, Occurrences;
    var s' := Next(s, step);
    match step {
      case Submit(_) => WorkerAdded(s.workers, Running(s.accepted), runId);
      case Process(w) => WorkerMoves(s, s', w, runId);
      case Publish(w) =>
        WorkerMoves(s, s', w, runId);
        PublishedLists(s.popped, s.results, s.workers[w].run, runId);
      case Poll(w) => WorkerMoves(s, s', w, runId);
      case Retire(w) => WorkerMoves(s, s', w, runId);
      case TerminateEnter =>
      case TerminateReturn =>
      case PopAllRuns =>
        assert s'.popped + s'.results == s.popped + s.results;
    }
  }

  lemma WorkerMoves(s: State, s': State, w: nat, k: nat)
    requires w < |s.workers| == |s'.workers| && s'.workers == s.workers[w := s'.workers[w]]
    ensures InFlight(s'.workers, k) + Carries(s.workers[w], k) == InFlight(s.workers, k) + Carries(s'.workers[w], k)
    ensures Unpublished(s'.workers, k) + Bears(s.workers[w], k) == Unpublished(s.workers, k) + Bears(s'.workers[w], k)
  {
    InFlightChanged(s.workers, w, s'.workers[w], k);
    UnpublishedChanged(s.workers, w, s'.workers[w], k);
  }

  lemma StepConserves(s: State, step: Step)
    requires Enabled(s, step) && Conserved(s)
    ensures Conserved(Next(s, step))
  {
    hide Places, Bearers, Next;
    var s' := Next(s, step);
    forall image: nat
      ensures Places(s', image) == if image < s'.accepted then 1 else 0
    {
      StepMovesImage(s, step, image);
    }
    forall runId: nat
      ensures Bearers(s', runId) == if runId < s'.nextRunId then 1 else 0
    {
      StepMovesRunId(s, step, runId);
    }
  }

  lemma StepCounts(s: State, step: Step)
    requires Enabled(s, step) && WorkersCounted(s)
    ensures WorkersCounted(Next(s, step))
  {
    var s' := Next(s, step);
    match step {
      case Submit(spawned) => WorkerAdded(s.workers, Running(s.accepted), 0);
      case Process(w) => AliveChanged(s.workers, w, s'.workers[w]);
      case Publish(w) => AliveChanged(s.workers, w, s'.workers[w]);
      case Poll(w) => AliveChanged(s.workers, w, s'.workers[w]);
      case Retire(w) => AliveChanged(s.workers, w, s'.workers[w]);
      case _ =>
    }
  }

  lemma StepHoldsThreads(s: State, step: Step)
    requires Enabled(s, step) && ThreadsHeld(s)
    ensures ThreadsHeld(Next(s, step))
  {
  }

  lemma StepOrdersQueue(s: State, step: Step)
    requires Enabled(s, step) && QueueInOrder(s)
    ensures QueueInOrder(Next(s, step))
  {
  }

  lemma StepKeepsInv(s: State, step: Step)
    requires Enabled(s, step) && Inv(s)
    ensures Inv(Next(s, step))
  {
    hide Conserved, WorkersCounted, ThreadsHeld, QueueInOrder, Next, Enabled;
    StepConserves(s, step);
    StepCounts(s, step);
    StepHoldsThreads(s, step);
    StepOrdersQueue(s, step);
  }

  /** All of it holds in every state that any interleaving of the threads can reach. */
  lemma {:induction false} EveryInterleaving(s: State, steps: seq<Step>)
    requires Inv(s)
    ensures Inv(Play(s, steps))
    decreases |steps|
  {
    hide Inv, Next, Enabled;
    if steps != [] {
      if Enabled(s, steps[0]) { StepKeepsInv(s, steps[0]); }
      EveryInterleaving(if Enabled(s, steps[0]) then Next(s, steps[0]) else s, steps[1..]);
    }
  }

  lemma FreshInv()
    ensures Inv(Fresh())
  {
  }

  // ----- consequences

  /** Images are numbered in the order in which they are accepted, and a submission is accepted exactly
      if images are accepted at all and it has to wait or its thread could be spawned. It then is last in
      the queue, or in the hands of a new worker; otherwise nothing happened. */
  lemma SubmissionAccepted(s: State, spawned: bool)
    ensures var t := Next(s, Submit(spawned)); var mustWait := s.active >= MAX_CV_PIPELINES;
            && (t.accepted == s.accepted + 1 <==> s.accepting && (mustWait || spawned))
            && (t.accepted != s.accepted + 1 ==> t == s)
            && (s.accepting && mustWait ==> t == s.(queue := s.queue + [s.accepted], accepted := t.accepted))
            && (s.accepting && !mustWait && spawned ==>
                  t.queue == s.queue && t.active == s.active + 1 && t.workers == s.workers + [Running(s.accepted)])
  {
  }

  function Submissions(steps: seq<Step>): nat
    decreases |steps|
  {
    if steps == [] then 0 else (if steps[0].Submit? then 1 else 0) + Submissions(steps[1..])
  }

  /** Nothing is terminated, and every thread that is wanted can be spawned. */
  predicate Smooth(steps: seq<Step>) {
    forall i | 0 <= i < |steps| :: steps[i] != TerminateEnter && (steps[i].Submit? ==> steps[i].spawned)
  }

  lemma SmoothStep(s: State, step: Step)
    requires s.accepting && step != TerminateEnter && (step.Submit? ==> step.spawned) && Enabled(s, step)
    ensures Next(s, step).accepting && Next(s, step).discarded == s.discarded
    ensures Next(s, step).accepted == s.accepted + (if step.Submit? then 1 else 0)
  {
  }

  lemma {:induction false} SmoothRun(s: State, steps: seq<Step>)
    requires s.accepting && Smooth(steps)
    ensures Play(s, steps).accepting && Play(s, steps).discarded == s.discarded
    ensures Play(s, steps).accepted == s.accepted + Submissions(steps)
    decreases |steps|
  {
    hide Next;
    if steps != [] {
      if Enabled(s, steps[0]) { SmoothStep(s, steps[0]); }
      SmoothRun(if Enabled(s, steps[0]) then Next(s, steps[0]) else s, steps[1..]);
    }
  }

  /** Until it is terminated, and as long as threads can be spawned, the aggregator has accepted every
      image ever submitted, discarded none, and each of them is in exactly one place. */
  lemma NoSubmissionIsLost(steps: seq<Step>)
    requires Smooth(steps)
    ensures var s := Play(Fresh(), steps);
            && s.accepted == Submissions(steps) && s.discarded == []
            && forall image: nat | image < Submissions(steps) :: Places(s, image) == 1
  {
    SmoothRun(Fresh(), steps);
    FreshInv();
    EveryInterleaving(Fresh(), steps);
  }

  lemma {:induction false} Twice(xs: seq<nat>, i: nat, j: nat)
    requires i < j < |xs| && xs[i] == xs[j]
    ensures multiset(xs)[xs[i]] >= 2
  {
    assert xs == xs[..j] + [xs[j]] + xs[j + 1..];
    assert xs[i] in xs[..j];
    assert multiset(xs) == multiset(xs[..j]) + multiset{xs[j]} + multiset(xs[j + 1..]);
  }

  /** In every interleaving: two completed runs have different ids and stem from different images,
      and a completed image is neither waiting, nor discarded, nor being worked on. */
  lemma RunsAreDistinct(steps: seq<Step>, i: nat, j: nat)
    requires var s := Play(Fresh(), steps); i < j < |s.popped + s.results|
    ensures var s := Play(Fresh(), steps); var runs := s.popped + s.results;
            && runs[i].runId != runs[j].runId && runs[i].image != runs[j].image
            && runs[i].image < s.accepted && runs[i].image !in s.queue && runs[i].image !in s.discarded
            && InFlight(s.workers, runs[i].image) == 0
  {
    FreshInv();
    EveryInterleaving(Fresh(), steps);
    var s := Play(Fresh(), steps);
    var runs := s.popped + s.results;
    var ids, images := RunIds(runs), Images(runs);
    assert Bearers(s, ids[i]) <= 1 && Places(s, images[i]) <= 1;
    if ids[i] == ids[j] { Twice(ids, i, j); }
    if images[i] == images[j] { Twice(images, i, j); }
    assert images[i] in multiset(images);
  }

  /** Published runs are only ever added to, and popping them loses none. */
  lemma {:induction false} RunsOnlyGrow(s: State, steps: seq<Step>)
    ensures s.popped + s.results <= Play(s, steps).popped + Play(s, steps).results
    decreases |steps|
  {
    if steps != [] {
      var t := if Enabled(s, steps[0]) then Next(s, steps[0]) else s;
      assert s.popped + s.results <= t.popped + t.results;
      RunsOnlyGrow(t, steps[1..]);
    }
  }

  /** Worker `w` in `t` is where it was in `s` or further on with the same image. */
  predicate NoNewImage(s: State, t: State, w: nat)
    requires w < |s.workers| && w < |t.workers|
  {
    && (t.workers[w].Running? ==> t.workers[w] == s.workers[w])
    && (t.workers[w].Publishing? ==> Carries(s.workers[w], t.workers[w].run.image) == 1)
    && (s.workers[w].Done? ==> t.workers[w].Done?)
  }

  lemma StepTakesNoImage(s: State, step: Step)
    requires Enabled(s, step) && s.queue == [] && !s.accepting
    ensures var t := Next(s, step);
            !t.accepting && |t.workers| == |s.workers| && t.accepted == s.accepted &&
            forall w | 0 <= w < |s.workers| :: NoNewImage(s, t, w)
  {
  }

  lemma NoNewImageSince(s: State, t: State, u: State, w: nat)
    requires w < |s.workers| == |t.workers| == |u.workers|
    requires NoNewImage(s, t, w) && NoNewImage(t, u, w)
    ensures NoNewImage(s, u, w)
  {
  }

  /** Once images are refused, the queue stays empty for ever, no worker is added, and none takes a
      new image: each one completes at most the image it has. */
  lemma {:induction false} AfterTerminate(s: State, steps: seq<Step>)
    requires Inv(s) && !s.accepting
    ensures var t := Play(s, steps);
            !t.accepting && t.queue == [] && |t.workers| == |s.workers| && t.accepted == s.accepted &&
            forall w | 0 <= w < |s.workers| :: NoNewImage(s, t, w)
    decreases |steps|
  {
    hide Conserved, WorkersCounted, QueueInOrder, Next, Enabled, NoNewImage;
    if steps == [] {
      forall w | 0 <= w < |s.workers| ensures NoNewImage(s, s, w) { StillThere(s, w); }
    } else if !Enabled(s, steps[0]) {
      AfterTerminate(s, steps[1..]);
    } else {
      var t := Next(s, steps[0]);
      StepKeepsInv(s, steps[0]);
      StepTakesNoImage(s, steps[0]);
      AfterTerminate(t, steps[1..]);
      var u := Play(t, steps[1..]);
      forall w | 0 <= w < |s.workers| ensures NoNewImage(s, u, w) { NoNewImageSince(s, t, u, w); }
    }
  }

  lemma StillThere(s: State, w: nat)
    requires w < |s.workers|
    ensures NoNewImage(s, s, w)
  {
  }

  lemma {:induction false} NoneAlive(ws: seq<Stage>)
    requires forall w | 0 <= w < |ws| :: ws[w].Done?
    ensures Alive(ws) == 0
  {
    if ws != [] { NoneAlive(ws[..|ws| - 1]); }
  }

  /** When the terminate call that took the threads returns, no worker is active, and none ever is
      again, whatever else goes on. */
  lemma JoinedMeansIdle(before: seq<Step>, after: seq<Step>)
    ensures var s := Play(Fresh(), before);
            Enabled(s, TerminateReturn) ==>
              var t := Play(Next(s, TerminateReturn), after);
              t.active == 0 && t.queue == [] && NoneActive(t)
  {
    FreshInv();
    EveryInterleaving(Fresh(), before);
    var s := Play(Fresh(), before);
    if Enabled(s, TerminateReturn) {
      var mid := Next(s, TerminateReturn);
      StepKeepsInv(s, TerminateReturn);
      AfterTerminate(mid, after);
      EveryInterleaving(mid, after);
      var t := Play(mid, after);
      forall w | 0 <= w < |t.workers| ensures t.workers[w].Done? { assert NoNewImage(mid, t, w); }
      NoneAlive(t.workers);
    }
  }

  // ----- stranded images

  /** Some worker will look at the queue before it leaves. */
  predicate WillLook(s: State) {
    exists w | 0 <= w < |s.workers| :: !s.workers[w].Retiring? && !s.workers[w].Done?
  }

  /** Images are waiting and no worker will look at the queue again. */
  predicate Stranded(s: State) {
    s.queue != [] && !WillLook(s)
  }

  /** The one way to strand an image: it is queued because enough workers count as active, while
      each of them has already found the queue empty. */
  lemma StrandingStep(s: State, step: Step)
    requires Enabled(s, step) && !Stranded(s)
    ensures Stranded(Next(s, step)) <==>
              step.Submit? && s.accepting && s.active >= MAX_CV_PIPELINES && !WillLook(s)
  {
    var t := Next(s, step);
    match step {
      case Submit(_) =>
        if |t.workers| > |s.workers| {
          assert t.workers[|s.workers|].Running?;
        }
        assert forall w | 0 <= w < |s.workers| :: t.workers[w] == s.workers[w];
      case Process(w) => assert t.workers[w].Publishing?;
      case Publish(w) => assert t.workers[w].Polling?;
      case Poll(w) =>
        if s.queue != [] { assert t.workers[w].Running?; }
      case Retire(w) =>
        if WillLook(s) {
          var v :| 0 <= v < |s.workers| && !s.workers[v].Retiring? && !s.workers[v].Done?;
          assert t.workers[v] == s.workers[v];
        }
      case _ =>
        assert t.workers == s.workers;
    }
  }

  lemma {:induction false} PlayInTwoParts(s: State, first: seq<Step>, second: seq<Step>)
    ensures Play(s, first + second) == Play(Play(s, first), second)
    decreases |first|
  {
    hide Next, Enabled;
    if first == [] {
      assert first + second == second;
    } else {
      assert (first + second)[1..] == first[1..] + second;
      PlayInTwoParts(if Enabled(s, first[0]) then Next(s, first[0]) else s, first[1..], second);
    }
  }

  function WorkThrough(w: nat): seq<Step> {
    [Process(w), Publish(w), Poll(w)]
  }

  lemma WorkedThrough(s: State, w: nat)
    requires w < |s.workers| && s.workers[w].Running? && s.queue == []
    ensures var t := Play(s, WorkThrough(w));
            t.workers == s.workers[w := Retiring] && t.queue == [] && t.active == s.active &&
            t.accepting == s.accepting && t.accepted == s.accepted
  {
    var s1 := Next(s, Process(w));
    var s2 := Next(s1, Publish(w));
    assert WorkThrough(w)[1..] == [Publish(w), Poll(w)];
    assert Play(s, WorkThrough(w)) == Play(s1, [Publish(w), Poll(w)]);
    assert [Publish(w), Poll(w)][1..] == [Poll(w)];
    assert Play(s1, [Publish(w), Poll(w)]) == Play(s2, [Poll(w)]);
    assert Play(s2, [Poll(w)]) == Play(Next(s2, Poll(w)), []);
  }

  lemma TwoAtWork()
    ensures var s := Play(Fresh(), [Submit(true), Submit(true)]);
            s.workers == [Running(0), Running(1)] && s.queue == [] && s.active == 2 && s.accepting && s.accepted == 2
  {
    var s1 := Next(Fresh(), Submit(true));
    assert [Submit(true), Submit(true)][1..] == [Submit(true)];
    assert Play(Fresh(), [Submit(true), Submit(true)]) == Play(s1, [Submit(true)]);
    assert Play(s1, [Submit(true)]) == Play(Next(s1, Submit(true)), []);
  }

  /** It happens: two workers find the queue empty, and a third image arrives before they have left. */
  lemma AnImageCanBeStranded()
    ensures var s := Play(Fresh(), [Submit(true), Submit(true)] + WorkThrough(0) + WorkThrough(1) + [Submit(true)]);
            Stranded(s) && s.queue == [2]
  {
    hide WorkThrough, Next, Enabled, WillLook;
    TwoAtWork();
    var steps := [Submit(true), Submit(true)];
    var s2 := Play(Fresh(), steps);
    WorkedThrough(s2, 0);
    PlayInTwoParts(Fresh(), steps, WorkThrough(0));
    var s5 := Play(s2, WorkThrough(0));
    WorkedThrough(s5, 1);
    PlayInTwoParts(Fresh(), steps + WorkThrough(0), WorkThrough(1));
    var s8 := Play(s5, WorkThrough(1));
    PlayInTwoParts(Fresh(), steps + WorkThrough(0) + WorkThrough(1), [Submit(true)]);
    QueuedTooLate(s8);
  }

  lemma QueuedTooLate(s: State)
    requires s.workers == [Retiring, Retiring] && s.queue == [] && s.active == 2 && s.accepting && s.accepted == 2
    ensures Stranded(Play(s, [Submit(true)])) && Play(s, [Submit(true)]).queue == [2]
  {
    var t := Next(s, Submit(true));
    assert Play(s, [Submit(true)]) == Play(t, []);
    assert t.workers == s.workers;
  }

  /** Nobody rescues a stranded image by itself: the workers that are left change nothing, only a
      later submission that spawns a worker, or a terminate call, does. */
  lemma StrandedUntilSubmitOrTerminate(s: State, step: Step)
    requires Enabled(s, step) && Stranded(s) && !step.TerminateEnter?
    requires step.Submit? ==> !(step.spawned && s.accepting && s.active < MAX_CV_PIPELINES)
    ensures Stranded(Next(s, step)) && s.queue <= Next(s, step).queue
  {
    var t := Next(s, step);
    assert forall w | 0 <= w < |s.workers| :: s.workers[w].Retiring? || s.workers[w].Done?;
    assert forall w | 0 <= w < |t.workers| :: t.workers[w].Retiring? || t.workers[w].Done?;
  }

  // ----- the object

  /** The aggregator with its fields updated in place. `workers` holds what every worker thread keeps
      in its own variables; the fields below it are history. */
  class CVAggregator {
    var acceptingImages: bool
    var overflowQueue: seq<nat>
    var numWorkerThreads: int
    var workerThreads: set<nat>
    var runs: seq<Run>
    var globalRunId: nat
    var workers: seq<Stage>
    var accepted: nat
    ghost var joining: set<nat>
    ghost var joined: bool
    ghost var popped: seq<Run>
    ghost var discarded: seq<nat>

    ghost function View(): State
      reads this
    {
      State(acceptingImages, overflowQueue, numWorkerThreads, workers, workerThreads, joining, joined, runs,
            globalRunId, accepted, popped, discarded)
    }

    constructor ()
      ensures View() == Fresh() && Inv(View())
    {
      acceptingImages, overflowQueue, numWorkerThreads, workerThreads := true, [], 0, {};
      runs, globalRunId, workers, accepted := [], 0, [], 0;
      joining, joined, popped, discarded := {}, false, [], [];
      new;
      FreshInv();
    }

    method RunPipeline(spawns: bool)
      requires Inv(View())
      modifies this
      ensures View() == Next(old(View()), Submit(spawns)) && Inv(View())
    {
      hide Inv;
      StepKeepsInv(View(), Submit(spawns));
      if !acceptingImages {
        return;
      }
      var activeWorkers := numWorkerThreads;
      if activeWorkers >= MAX_CV_PIPELINES {
        overflowQueue := overflowQueue + [accepted];
        accepted := accepted + 1;
        return;
      }
      numWorkerThreads := numWorkerThreads + 1;
      if spawns {
        workerThreads := workerThreads + {|workers|};
        workers := workers + [Running(accepted)];
        accepted := accepted + 1;
      } else {
        numWorkerThreads := numWorkerThreads - 1;
      }
    }

    /** Worker `w` runs the pipeline on its image and numbers the run. */
    method Process(w: nat)
      requires Inv(View()) && Enabled(View(), Step.Process(w))
      modifies `globalRunId, `workers
      ensures View() == Next(old(View()), Step.Process(w)) && Inv(View())
    {
      hide Inv;
      StepKeepsInv(View(), Step.Process(w));
      var run := Run(globalRunId, workers[w].image);
      globalRunId := globalRunId + 1;
      workers := workers[w := Publishing(run)];
    }

    method Publish(w: nat)
      requires Inv(View()) && Enabled(View(), Step.Publish(w))
      modifies `runs, `workers
      ensures View() == Next(old(View()), Step.Publish(w)) && Inv(View())
    {
      hide Inv;
      StepKeepsInv(View(), Step.Publish(w));
      runs := runs + [workers[w].run];
      workers := workers[w := Polling];
    }

    /** Worker `w` takes the next waiting image, or finds none and leaves its loop. */
    method Poll(w: nat)
      requires Inv(View()) && Enabled(View(), Step.Poll(w))
      modifies `overflowQueue, `workers
      ensures View() == Next(old(View()), Step.Poll(w)) && Inv(View())
    {
      hide Inv;
      StepKeepsInv(View(), Step.Poll(w));
      if overflowQueue == [] {
        workers := workers[w := Retiring];
      } else {
        workers := workers[w := Running(overflowQueue[0])];
        overflowQueue := overflowQueue[1..];
      }
    }

    method Retire(w: nat)
      requires Inv(View()) && Enabled(View(), Step.Retire(w))
      modifies `numWorkerThreads, `workers
      ensures View() == Next(old(View()), Step.Retire(w)) && Inv(View())
    {
      hide Inv;
      StepKeepsInv(View(), Step.Retire(w));
      numWorkerThreads := numWorkerThreads - 1;
      workers := workers[w := Done];
    }

    /** The critical section of terminate; returns the threads the caller then joins. */
    method TerminateEnter() returns (threads: set<nat>)
      requires Inv(View())
      modifies `acceptingImages, `overflowQueue, `workerThreads, `joining, `discarded
      ensures View() == Next(old(View()), Step.TerminateEnter) && Inv(View())
      ensures threads == old(workerThreads)
    {
      hide Inv;
      StepKeepsInv(View(), Step.TerminateEnter);
      acceptingImages := false;
      discarded := discarded + overflowQueue;
      overflowQueue := [];
      threads := workerThreads;
      if threads == {} {
        return;
      }
      joining := joining + threads;
      workerThreads := {};
    }

    method PopAllRuns() returns (out: seq<Run>)
      requires Inv(View())
      modifies `runs, `popped
      ensures View() == Next(old(View()), Step.PopAllRuns) && Inv(View())
      ensures out == old(runs) && popped == old(popped) + out
    {
      hide Inv;
      StepKeepsInv(View(), Step.PopAllRuns);
      out := runs;
      popped := popped + out;
      runs := [];
    }
  }
}
