/** The fan-out/collect protocol shared by MultiImageStore.Save, MultiImageStore.Exists,
    asyncProcessType.Process and MultiOCRCommand.Run.

    n workers run concurrently.  Each does its job (Act) and then sends exactly one message
    on one of two buffered channels of capacity n (Send).  The collector receives at most n
    messages, from whichever channel it finds ready, and returns as soon as one of them
    tells it to stop; otherwise it returns after n messages.  Workers keep running after
    an early return.
 */
module FanOut {
  import opened Pigeonhole

  datatype Channel = Errs | Results

  // What worker w will report: on which channel, and whether the collector returns on it.
  datatype Job = Job(channel: Channel, stops: bool)

  datatype Phase = Working | Acted | Sent

  datatype State = State(
    phase: seq<Phase>,
    errs: seq<nat>,      // channel contents: the senders' indices, oldest first
    results: seq<nat>,
    got: seq<nat>,       // senders of the messages received so far, in arrival order
    returned: bool)

  datatype Action = Act(w: nat) | Send(w: nat) | Receive(c: Channel) | Finish

  function Start(jobs: seq<Job>): State {
    State(seq(|jobs|, _ => Working), [], [], [], false)
  }

  function Contents(s: State, c: Channel): seq<nat> {
    if c.Errs? then s.errs else s.results
  }

  ghost predicate WellFormed(jobs: seq<Job>, s: State) {
    && |s.phase| == |jobs|
    && Bounded(s.got, |jobs|) && Bounded(s.errs, |jobs|) && Bounded(s.results, |jobs|)
  }

  // A send blocks while its channel is full; a receive blocks while both are empty.
  predicate Enabled(jobs: seq<Job>, s: State, a: Action)
    requires |s.phase| == |jobs|
  {
    match a
    case Act(w) => w < |jobs| && s.phase[w].Working?
    case Send(w) => w < |jobs| && s.phase[w].Acted? && |Contents(s, jobs[w].channel)| < |jobs|
    case Receive(c) => !s.returned && |s.got| < |jobs| && Contents(s, c) != []
    case Finish => !s.returned && |s.got| == |jobs|
  }

  ghost function Step(jobs: seq<Job>, s: State, a: Action): (s': State)
    requires WellFormed(jobs, s) && Enabled(jobs, s, a)
    ensures WellFormed(jobs, s')
  {
    match a
    case Act(w) => s.(phase := s.phase[w := Acted])
    case Send(w) =>
      var sent := s.(phase := s.phase[w := Sent]);
      if jobs[w].channel.Errs? then sent.(errs := s.errs + [w]) else sent.(results := s.results + [w])
    case Receive(c) =>
      var w := Contents(s, c)[0];
      var taken := if c.Errs? then s.(errs := s.errs[1..]) else s.(results := s.results[1..]);
      taken.(got := s.got + [w], returned := jobs[w].stops)
    case Finish => s.(returned := true)
  }

  // A schedule is legal when every action in it is enabled at its turn.
  ghost predicate Legal(jobs: seq<Job>, s: State, schedule: seq<Action>)
    requires WellFormed(jobs, s)
    decreases |schedule|
  {
    schedule == [] ||
    (Enabled(jobs, s, schedule[0]) && Legal(jobs, Step(jobs, s, schedule[0]), schedule[1..]))
  }

  ghost function Exec(jobs: seq<Job>, s: State, schedule: seq<Action>): (s': State)
    requires WellFormed(jobs, s) && Legal(jobs, s, schedule)
    ensures WellFormed(jobs, s')
    decreases |schedule|
  {
    if schedule == [] then s else Exec(jobs, Step(jobs, s, schedule[0]), schedule[1..])
  }

  // Every message is in exactly one place, and the collector never looks past a stop.
  ghost predicate Inv(jobs: seq<Job>, s: State) {
    && WellFormed(jobs, s)
    && Distinct(s.got) && Distinct(s.errs) && Distinct(s.results)
    && (forall w: nat :: w in s.got ==> w !in s.errs && w !in s.results)
    && (forall w: nat :: w in s.errs ==> jobs[w].channel.Errs?)
    && (forall w: nat :: w in s.results ==> jobs[w].channel.Results?)
    && (forall w: nat :: w < |jobs| ==>
          (s.phase[w].Sent? <==> w in s.got || w in s.errs || w in s.results))
    && (forall k :: 0 <= k < |s.got| && jobs[s.got[k]].stops ==> k == |s.got| - 1 && s.returned)
    && (s.returned ==> |s.got| == |jobs| || Stopped(jobs, s))
  }

  ghost predicate Stopped(jobs: seq<Job>, s: State)
    requires WellFormed(jobs, s)
  {
    s.got != [] && jobs[s.got[|s.got| - 1]].stops
  }

  lemma ReceiveKeepsInv(jobs: seq<Job>, s: State, c: Channel)
    requires Inv(jobs, s) && Enabled(jobs, s, Receive(c))
    ensures Inv(jobs, Step(jobs, s, Receive(c)))
  {
    var s' := Step(jobs, s, Receive(c));
    var q := Contents(s, c);
    assert q == [q[0]] + q[1..];
    assert q[0] !in q[1..];
    assert forall v: nat :: v in s'.got <==> v in s.got || v == q[0];
  }

  lemma SendKeepsInv(jobs: seq<Job>, s: State, w: nat)
    requires Inv(jobs, s) && Enabled(jobs, s, Send(w))
    ensures Inv(jobs, Step(jobs, s, Send(w)))
  {
    assert w !in s.got && w !in s.errs && w !in s.results;
  }

  lemma StepKeepsInv(jobs: seq<Job>, s: State, a: Action)
    requires Inv(jobs, s) && Enabled(jobs, s, a)
    ensures Inv(jobs, Step(jobs, s, a))
  {
    match a {
      case Act(w) =>
      case Send(w) => SendKeepsInv(jobs, s, w);
      case Receive(c) => ReceiveKeepsInv(jobs, s, c);
      case Finish =>
    }
  }

  lemma {:induction false} RunKeepsInv(jobs: seq<Job>, s: State, schedule: seq<Action>)
    requires Inv(jobs, s) && Legal(jobs, s, schedule)
    ensures Inv(jobs, Exec(jobs, s, schedule))
    decreases |schedule|
  {
    if schedule != [] {
      StepKeepsInv(jobs, s, schedule[0]);
      RunKeepsInv(jobs, Step(jobs, s, schedule[0]), schedule[1..]);
    }
  }

  ghost predicate Reachable(jobs: seq<Job>, s: State) {
    exists schedule :: Legal(jobs, Start(jobs), schedule) && s == Exec(jobs, Start(jobs), schedule)
  }

  lemma ReachableInv(jobs: seq<Job>, s: State)
    requires Reachable(jobs, s)
    ensures Inv(jobs, s)
  {
    var schedule :| Legal(jobs, Start(jobs), schedule) && s == Exec(jobs, Start(jobs), schedule);
    RunKeepsInv(jobs, Start(jobs), schedule);
  }

  // No worker ever waits: at every moment of every run, an unfinished worker can step,
  // whether or not the collector is still there to receive.
  lemma WorkersNeverBlock(jobs: seq<Job>, s: State, w: nat)
    requires Reachable(jobs, s) && w < |jobs|
    ensures |s.phase| == |jobs|
    ensures !s.phase[w].Sent? ==> Enabled(jobs, s, Act(w)) || Enabled(jobs, s, Send(w))
  {
    ReachableInv(jobs, s);
    if s.phase[w].Acted? {
      var q := Contents(s, jobs[w].channel);
      DistinctBounded(q + [w], |jobs|);
    }
  }

  // Steps still to come, at most.
  ghost function Work(phase: seq<Phase>): nat {
    if phase == [] then 0
    else (match phase[0] case Working => 2 case Acted => 1 case Sent => 0) + Work(phase[1..])
  }

  ghost function Rank(jobs: seq<Job>, s: State): int {
    Work(s.phase) + |jobs| - |s.got| + if s.returned then 0 else 1
  }

  lemma {:induction false} WorkUpdate(phase: seq<Phase>, w: nat, p: Phase)
    requires w < |phase|
    ensures Work(phase[w := p]) == Work(phase) - Work([phase[w]]) + Work([p])
  {
    if w > 0 {
      WorkUpdate(phase[1..], w - 1, p);
      assert phase[w := p][1..] == phase[1..][w - 1 := p];
    } else {
      assert phase[w := p][1..] == phase[1..];
    }
  }

  lemma {:induction false} WorkAtStart(n: nat)
    ensures Work(seq(n, _ => Working)) == 2 * n
  {
    if n > 0 {
      WorkAtStart(n - 1);
      assert seq(n, _ => Working)[1..] == seq(n - 1, _ => Working);
    }
  }

  lemma {:induction false} RunLowersRank(jobs: seq<Job>, s: State, schedule: seq<Action>)
    requires Inv(jobs, s) && Legal(jobs, s, schedule)
    ensures 0 <= Rank(jobs, Exec(jobs, s, schedule))
    ensures |schedule| + Rank(jobs, Exec(jobs, s, schedule)) <= Rank(jobs, s)
    decreases |schedule|
  {
    if schedule == [] {
      DistinctBounded(s.got, |jobs|);
    } else {
      var a := schedule[0];
      StepKeepsInv(jobs, s, a);
      match a {
        case Act(w) => WorkUpdate(s.phase, w, Acted);
        case Send(w) => WorkUpdate(s.phase, w, Sent);
        case Receive(c) =>
        case Finish =>
      }
      RunLowersRank(jobs, Step(jobs, s, a), schedule[1..]);
    }
  }

  // Every schedule ends: no run takes more than 3n + 1 steps.
  lemma RunsAreBounded(jobs: seq<Job>, schedule: seq<Action>)
    requires Legal(jobs, Start(jobs), schedule)
    ensures |schedule| <= 3 * |jobs| + 1
  {
    RunLowersRank(jobs, Start(jobs), schedule);
    WorkAtStart(|jobs|);
  }

  // No deadlock: a run that cannot be extended has returned, and all workers have finished.
  lemma StuckMeansFinished(jobs: seq<Job>, s: State)
    requires Reachable(jobs, s)
    requires |s.phase| == |jobs| && forall a :: !Enabled(jobs, s, a)
    ensures s.returned
    ensures forall w: nat :: w < |jobs| ==> s.phase[w].Sent?
  {
    ReachableInv(jobs, s);
    forall w: nat | w < |jobs| ensures s.phase[w].Sent? {
      WorkersNeverBlock(jobs, s, w);
    }
    if !s.returned {
      assert !Enabled(jobs, s, Finish) && !Enabled(jobs, s, Receive(Errs)) && !Enabled(jobs, s, Receive(Results));
      DistinctBounded(s.got, |jobs|);
      assert |s.got| < |jobs|;
      assert forall w: nat :: w < |jobs| ==> w in s.got;
      AllInMeansFull(s.got, |jobs|);
    }
  }

  // What a return means, in any schedule: the collector stopped early exactly when some
  // worker reports a stop, and otherwise it has heard from every worker.
  lemma ReturnMeaning(jobs: seq<Job>, s: State)
    requires Reachable(jobs, s) && s.returned
    ensures WellFormed(jobs, s) && Distinct(s.got)
    ensures Stopped(jobs, s) <==> exists w: nat :: w < |jobs| && jobs[w].stops
    ensures forall k :: 0 <= k < |s.got| - 1 ==> !jobs[s.got[k]].stops
    ensures !Stopped(jobs, s) ==>
              && |s.got| == |jobs|
              && forall w: nat :: w < |jobs| ==> w in s.got && s.phase[w].Sent?
  {
    ReachableInv(jobs, s);
    if |s.got| == |jobs| {
      DistinctBounded(s.got, |jobs|);
    }
    if Stopped(jobs, s) {
      assert s.got[|s.got| - 1] in s.got;
    } else {
      forall w: nat | w < |jobs| ensures !jobs[w].stops {
        assert w in s.got;
      }
    }
  }

  // Conversely any worker that reports a stop can be the one that ends the call.
  lemma AnyStopperCanDecide(jobs: seq<Job>, w: nat)
    requires w < |jobs| && jobs[w].stops
    ensures exists s :: Reachable(jobs, s) && s.returned && s.got == [w]
  {
    var c := jobs[w].channel;
    var schedule := [Act(w), Send(w), Receive(c)];
    var s1 := Step(jobs, Start(jobs), Act(w));
    var s2 := Step(jobs, s1, Send(w));
    var s3 := Step(jobs, s2, Receive(c));
    Unroll3(jobs, Start(jobs), Act(w), Send(w), Receive(c));
    assert Reachable(jobs, s3) && s3.got == [w];
  }

  lemma Unroll(jobs: seq<Job>, s: State, a: Action, rest: seq<Action>)
    requires WellFormed(jobs, s) && Enabled(jobs, s, a)
    requires Legal(jobs, Step(jobs, s, a), rest)
    ensures Legal(jobs, s, [a] + rest)
    ensures Exec(jobs, s, [a] + rest) == Exec(jobs, Step(jobs, s, a), rest)
  {
    assert ([a] + rest)[0] == a && ([a] + rest)[1..] == rest;
  }

  lemma Unroll3(jobs: seq<Job>, s: State, a: Action, b: Action, c: Action)
    requires WellFormed(jobs, s) && Enabled(jobs, s, a)
    requires Enabled(jobs, Step(jobs, s, a), b)
    requires Enabled(jobs, Step(jobs, Step(jobs, s, a), b), c)
    ensures Legal(jobs, s, [a, b, c])
    ensures Exec(jobs, s, [a, b, c]) == Step(jobs, Step(jobs, Step(jobs, s, a), b), c)
  {
    var s1 := Step(jobs, s, a);
    var s2 := Step(jobs, s1, b);
    Unroll(jobs, s2, c, []);
    Unroll(jobs, s1, b, [c] + []);
    Unroll(jobs, s, a, [b] + ([c] + []));
    assert [a, b, c] == [a] + ([b] + ([c] + []));
  }

  // ---------- Calls whose workers report only nil or an error ----------

  // The jobs of Save and of asyncProcessType.Process; ok[w] says whether worker w succeeds.
  function ErrorJobs(ok: seq<bool>): seq<Job> {
    seq(|ok|, w requires 0 <= w < |ok| => Job(Errs, !ok[w]))
  }

  datatype Verdict = Success | Failure(w: nat)

  // The loop returns an error when it receives one, and nil otherwise.
  ghost function VerdictOf(ok: seq<bool>, s: State): Verdict
    requires WellFormed(ErrorJobs(ok), s)
  {
    if Stopped(ErrorJobs(ok), s) then Failure(s.got[|s.got| - 1]) else Success
  }

  // Under every schedule the call succeeds exactly when all its workers did, and then none
  // of them is still at work; an error is that of a worker that failed.
  lemma SucceedsIffAllDo(ok: seq<bool>, s: State)
    requires Reachable(ErrorJobs(ok), s) && s.returned
    ensures WellFormed(ErrorJobs(ok), s)
    ensures VerdictOf(ok, s).Success? <==> forall w: nat :: w < |ok| ==> ok[w]
    ensures VerdictOf(ok, s).Success? ==> forall w: nat :: w < |ok| ==> s.phase[w].Sent?
    ensures VerdictOf(ok, s).Failure? ==> VerdictOf(ok, s).w < |ok| && !ok[VerdictOf(ok, s).w]
  {
    ReturnMeaning(ErrorJobs(ok), s);
    assert forall w: nat :: w < |ok| ==> ErrorJobs(ok)[w].stops == !ok[w];
  }
}
