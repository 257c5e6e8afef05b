/** MultiImageStore.Get: every store is asked concurrently, the first worker to put a token in
    the one-slot `done` channel publishes its reader on the one-slot `results` channel, and
    every other worker that opened a reader closes it.  The collector returns the first
    reader it receives, or the last error after n errors.
 */
module MultiGet {
  import opened Pigeonhole
  import opened Wrappers

  // Where worker w stands.  Losing workers found the token taken and will close their reader.
  datatype Pc = Fetching | Opened | Failed | Elected | Losing | Published | Closed | Reported

  // Gave(w): the caller got worker w's reader.  GaveUp(err): the caller got no reader but
  // the last error received, named by its sender (None when there was none).
  datatype Main = Collecting | Gave(w: nat) | GaveUp(err: Option<nat>)

  datatype State = State(
    pc: seq<Pc>,
    token: bool,         // `done` holds its one token
    results: seq<nat>,   // capacity 1
    errs: seq<nat>,      // capacity n
    seen: seq<nat>,      // senders of the errors received so far
    main: Main,
    closes: seq<nat>)    // how often worker w's reader has been closed

  datatype Action = Fetch(w: nat) | Elect(w: nat) | Publish(w: nat) | Close(w: nat) | Report(w: nat)
                  | TakeReader | TakeError | GiveUpNow

  // stores[w] is what store w answers: the stored bytes, or None for an error.
  type Stores = seq<Option<string>>

  function Start(stores: Stores): State {
    State(seq(|stores|, _ => Fetching), false, [], [], [], Collecting, seq(|stores|, _ => 0))
  }

  predicate Sized(stores: Stores, s: State) {
    |s.pc| == |stores| && |s.closes| == |stores|
  }

  predicate Enabled(stores: Stores, s: State, a: Action)
    requires Sized(stores, s)
  {
    match a
    case Fetch(w) => w < |stores| && s.pc[w].Fetching?
    case Elect(w) => w < |stores| && s.pc[w].Opened?
    case Publish(w) => w < |stores| && s.pc[w].Elected? && |s.results| < 1
    case Close(w) => w < |stores| && s.pc[w].Losing?
    case Report(w) => w < |stores| && s.pc[w].Failed? && |s.errs| < |stores|
    case TakeReader => s.main.Collecting? && |s.seen| < |stores| && s.results != []
    case TakeError => s.main.Collecting? && |s.seen| < |stores| && s.errs != []
    case GiveUpNow => s.main.Collecting? && |s.seen| == |stores|
  }

  function Step(stores: Stores, s: State, a: Action): (s': State)
    requires Sized(stores, s) && Enabled(stores, s, a)
    ensures Sized(stores, s')
  {
    match a
    case Fetch(w) => s.(pc := s.pc[w := if stores[w].Some? then Opened else Failed])
    case Elect(w) => s.(pc := s.pc[w := if s.token then Losing else Elected], token := true)
    case Publish(w) => s.(pc := s.pc[w := Published], results := s.results + [w])
    case Close(w) => s.(pc := s.pc[w := Closed], closes := s.closes[w := s.closes[w] + 1])
    case Report(w) => s.(pc := s.pc[w := Reported], errs := s.errs + [w])
    case TakeReader => s.(results := s.results[1..], main := Gave(s.results[0]))
    case TakeError => s.(errs := s.errs[1..], seen := s.seen + [s.errs[0]])
    case GiveUpNow => s.(main := GaveUp(if s.seen == [] then None else Some(s.seen[|s.seen| - 1])))
  }

  predicate Legal(stores: Stores, s: State, schedule: seq<Action>)
    requires Sized(stores, s)
    decreases |schedule|
  {
    schedule == [] ||
    (Enabled(stores, s, schedule[0]) && Legal(stores, Step(stores, s, schedule[0]), schedule[1..]))
  }

  function Exec(stores: Stores, s: State, schedule: seq<Action>): (s': State)
    requires Sized(stores, s) && Legal(stores, s, schedule)
    ensures Sized(stores, s')
    decreases |schedule|
  {
    if schedule == [] then s else Exec(stores, Step(stores, s, schedule[0]), schedule[1..])
  }

  // Worker w holds or held the token.
  predicate Winner(p: Pc) {
    p.Elected? || p.Published?
  }

  ghost predicate WorkersInv(stores: Stores, s: State) {
    && Sized(stores, s)
    && (forall w: nat :: w < |stores| ==>
          && s.closes[w] == (if s.pc[w].Closed? then 1 else 0)
          && (s.pc[w].Failed? || s.pc[w].Reported? ==> stores[w].None?)
          && (s.pc[w].Opened? || s.pc[w].Losing? || s.pc[w].Closed? || Winner(s.pc[w]) ==> stores[w].Some?)
          && (s.pc[w].Losing? || s.pc[w].Closed? || Winner(s.pc[w]) ==> s.token))
  }

  // The token has exactly one holder, and its reader is in at most one place.
  ghost predicate TokenInv(stores: Stores, s: State)
    requires Sized(stores, s)
  {
    && (s.token ==> exists w: nat :: w < |stores| && Winner(s.pc[w]))
    && (forall v: nat, w: nat :: v < |stores| && w < |stores| && Winner(s.pc[v]) && Winner(s.pc[w]) ==> v == w)
    && |s.results| <= 1
    && (forall k :: 0 <= k < |s.results| ==> s.results[k] < |stores| && s.pc[s.results[k]].Published?)
    && (forall w: nat :: w < |stores| && s.pc[w].Published? ==>
          if s.main.Gave? then s.results == [] && s.main.w == w else s.results == [w])
    && (s.main.Gave? ==> s.main.w < |stores| && s.pc[s.main.w].Published?)
  }

  // Every error sent is in exactly one place.
  ghost predicate ErrorsInv(stores: Stores, s: State)
    requires Sized(stores, s)
  {
    && Bounded(s.errs, |stores|) && Bounded(s.seen, |stores|)
    && Distinct(s.errs) && Distinct(s.seen)
    && (forall w: nat :: w in s.seen ==> w !in s.errs)
    && (forall w: nat :: w < |stores| ==> (s.pc[w].Reported? <==> w in s.errs || w in s.seen))
    && (s.main.GaveUp? ==>
          |s.seen| == |stores| && s.main.err == (if s.seen == [] then None else Some(s.seen[|s.seen| - 1])))
  }

  ghost predicate Inv(stores: Stores, s: State) {
    WorkersInv(stores, s) && TokenInv(stores, s) && ErrorsInv(stores, s)
  }

  lemma ElectKeepsTokenInv(stores: Stores, s: State, w: nat)
    requires Inv(stores, s) && Enabled(stores, s, Elect(w))
    ensures TokenInv(stores, Step(stores, s, Elect(w)))
  {
    var s' := Step(stores, s, Elect(w));
    if s.token {
      var h: nat :| h < |stores| && Winner(s.pc[h]);
      assert Winner(s'.pc[h]);
    } else {
      assert Winner(s'.pc[w]);
    }
  }

  lemma PublishKeepsTokenInv(stores: Stores, s: State, w: nat)
    requires Inv(stores, s) && Enabled(stores, s, Publish(w))
    ensures TokenInv(stores, Step(stores, s, Publish(w)))
  {
    assert Winner(s.pc[w]) && Winner(Step(stores, s, Publish(w)).pc[w]);
  }

  lemma StepKeepsTokenInv(stores: Stores, s: State, a: Action)
    requires Inv(stores, s) && Enabled(stores, s, a)
    ensures TokenInv(stores, Step(stores, s, a))
  {
    if a.Elect? {
      ElectKeepsTokenInv(stores, s, a.w);
    } else if a.Publish? {
      PublishKeepsTokenInv(stores, s, a.w);
    } else {
      var s' := Step(stores, s, a);
      assert forall w: nat :: w < |stores| ==> (Winner(s'.pc[w]) <==> Winner(s.pc[w]));
      assert forall w: nat :: w < |stores| ==> (s'.pc[w].Published? <==> s.pc[w].Published?);
    }
  }

  lemma ReportKeepsErrorsInv(stores: Stores, s: State, w: nat)
    requires Inv(stores, s) && Enabled(stores, s, Report(w))
    ensures ErrorsInv(stores, Step(stores, s, Report(w)))
  {
    assert w !in s.errs && w !in s.seen;
  }

  lemma TakeErrorKeepsErrorsInv(stores: Stores, s: State)
    requires Inv(stores, s) && Enabled(stores, s, TakeError)
    ensures ErrorsInv(stores, Step(stores, s, TakeError))
  {
    assert s.errs == [s.errs[0]] + s.errs[1..];
    assert s.errs[0] !in s.errs[1..];
  }

  lemma StepKeepsErrorsInv(stores: Stores, s: State, a: Action)
    requires Inv(stores, s) && Enabled(stores, s, a)
    ensures ErrorsInv(stores, Step(stores, s, a))
  {
    if a.Report? {
      ReportKeepsErrorsInv(stores, s, a.w);
    } else if a.TakeError? {
      TakeErrorKeepsErrorsInv(stores, s);
    } else {
      var s' := Step(stores, s, a);
      assert forall w: nat :: w < |stores| ==> (s'.pc[w].Reported? <==> s.pc[w].Reported?);
    }
  }

  lemma StepKeepsInv(stores: Stores, s: State, a: Action)
    requires Inv(stores, s) && Enabled(stores, s, a)
    ensures Inv(stores, Step(stores, s, a))
  {
    StepKeepsTokenInv(stores, s, a);
    StepKeepsErrorsInv(stores, s, a);
  }

  lemma {:induction false} RunKeepsInv(stores: Stores, s: State, schedule: seq<Action>)
    requires Inv(stores, s) && Legal(stores, s, schedule)
    ensures Inv(stores, Exec(stores, s, schedule))
    decreases |schedule|
  {
    if schedule != [] {
      StepKeepsInv(stores, s, schedule[0]);
      RunKeepsInv(stores, Step(stores, s, schedule[0]), schedule[1..]);
    }
  }

  ghost predicate Reachable(stores: Stores, s: State) {
    exists schedule :: Legal(stores, Start(stores), schedule) && s == Exec(stores, Start(stores), schedule)
  }

  lemma ReachableInv(stores: Stores, s: State)
    requires Reachable(stores, s)
    ensures Inv(stores, s)
  {
    var schedule :| Legal(stores, Start(stores), schedule) && s == Exec(stores, Start(stores), schedule);
    RunKeepsInv(stores, Start(stores), schedule);
  }

  // At most one worker ever publishes, in any schedule; its reader is either waiting in
  // `results` or with the caller, never both, and is never closed.
  lemma AtMostOnePublished(stores: Stores, s: State)
    requires Reachable(stores, s)
    ensures Sized(stores, s)
    ensures forall v: nat, w: nat ::
              v < |stores| && w < |stores| && s.pc[v].Published? && s.pc[w].Published? ==> v == w
    ensures forall w: nat :: w < |stores| && s.pc[w].Published? ==>
              s.closes[w] == 0 && ((s.results == [w]) != (s.main == Gave(w)))
  {
    ReachableInv(stores, s);
  }

  lemma SlotHoldsWinner(stores: Stores, s: State)
    requires Inv(stores, s)
    ensures s.results != [] ==>
              exists w: nat :: w < |stores| && s.pc[w].Published? && Winner(s.pc[w]) && s.results == [w]
  {
    if s.results != [] {
      assert s.pc[s.results[0]].Published?;
    }
  }

  // No goroutine of this call can be stuck on `errs`, `done` or `results`.
  lemma WorkersNeverBlock(stores: Stores, s: State, w: nat)
    requires Reachable(stores, s) && w < |stores|
    ensures Sized(stores, s)
    ensures s.pc[w].Published? || s.pc[w].Closed? || s.pc[w].Reported? ||
            exists a :: a in [Fetch(w), Elect(w), Publish(w), Close(w), Report(w)] && Enabled(stores, s, a)
  {
    ReachableInv(stores, s);
    var steps := [Fetch(w), Elect(w), Publish(w), Close(w), Report(w)];
    match s.pc[w]
    case Fetching => assert Enabled(stores, s, steps[0]);
    case Opened => assert Enabled(stores, s, steps[1]);
    case Elected =>
      SlotHoldsWinner(stores, s);
      assert Enabled(stores, s, steps[2]);
    case Losing => assert Enabled(stores, s, steps[3]);
    case Failed =>
      DistinctBounded(s.errs + [w], |stores|);
      assert Enabled(stores, s, steps[4]);
    case _ =>
  }

  ghost function Work(pc: seq<Pc>): nat {
    if pc == [] then 0 else WorkOf(pc[0]) + Work(pc[1..])
  }

  ghost function WorkOf(p: Pc): nat {
    match p
    case Fetching => 3
    case Opened => 2
    case Failed => 1
    case Elected => 1
    case Losing => 1
    case _ => 0
  }

  ghost function Rank(stores: Stores, s: State): int {
    Work(s.pc) + |stores| - |s.seen| + if s.main.Collecting? then 1 else 0
  }

  lemma {:induction false} WorkUpdate(pc: seq<Pc>, w: nat, p: Pc)
    requires w < |pc|
    ensures Work(pc[w := p]) == Work(pc) - WorkOf(pc[w]) + WorkOf(p)
  {
    if w > 0 {
      WorkUpdate(pc[1..], w - 1, p);
      assert pc[w := p][1..] == pc[1..][w - 1 := p];
    } else {
      assert pc[w := p][1..] == pc[1..];
    }
  }

  lemma {:induction false} WorkAtStart(n: nat)
    ensures Work(seq(n, _ => Fetching)) == 3 * n
  {
    if n > 0 {
      WorkAtStart(n - 1);
      assert seq(n, _ => Fetching)[1..] == seq(n - 1, _ => Fetching);
    }
  }

  lemma StepLowersRank(stores: Stores, s: State, a: Action)
    requires Inv(stores, s) && Enabled(stores, s, a)
    ensures Rank(stores, Step(stores, s, a)) < Rank(stores, s)
  {
    var s' := Step(stores, s, a);
    if a.Fetch? || a.Elect? || a.Publish? || a.Close? || a.Report? {
      WorkUpdate(s.pc, a.w, s'.pc[a.w]);
    }
  }

  lemma RankNotNegative(stores: Stores, s: State)
    requires Inv(stores, s)
    ensures 0 <= Rank(stores, s)
  {
    DistinctBounded(s.seen, |stores|);
  }

  lemma {:induction false} RunLowersRank(stores: Stores, s: State, schedule: seq<Action>)
    requires Inv(stores, s) && Legal(stores, s, schedule)
    ensures 0 <= Rank(stores, Exec(stores, s, schedule))
    ensures |schedule| + Rank(stores, Exec(stores, s, schedule)) <= Rank(stores, s)
    decreases |schedule|
  {
    if schedule == [] {
      RankNotNegative(stores, s);
    } else {
      StepKeepsInv(stores, s, schedule[0]);
      StepLowersRank(stores, s, schedule[0]);
      RunLowersRank(stores, Step(stores, s, schedule[0]), schedule[1..]);
    }
  }

  // Every schedule ends: no run takes more than 4n + 1 steps.
  lemma RunsAreBounded(stores: Stores, schedule: seq<Action>)
    requires Legal(stores, Start(stores), schedule)
    ensures |schedule| <= 4 * |stores| + 1
  {
    RunLowersRank(stores, Start(stores), schedule);
    WorkAtStart(|stores|);
  }

  // Whenever the call has returned, whatever the other workers are still doing: it gave a
  // reader exactly when some store answers with one, and otherwise the last of n errors
  // (no error at all only when there are no stores).
  lemma ReturnsReaderIffSomeStoreHasIt(stores: Stores, s: State)
    requires Reachable(stores, s) && !s.main.Collecting?
    ensures s.main.Gave? <==> exists w: nat :: w < |stores| && stores[w].Some?
    ensures s.main.Gave? ==> s.main.w < |stores| && stores[s.main.w].Some?
    ensures s.main.GaveUp? ==>
              && |s.seen| == |stores| && (forall w: nat :: w < |stores| ==> w in s.seen)
              && s.main.err == if |stores| == 0 then None else Some(s.seen[|stores| - 1])
  {
    ReachableInv(stores, s);
    if s.main.GaveUp? {
      DistinctBounded(s.seen, |stores|);
      assert forall w: nat :: w < |stores| ==> w in s.seen;
    }
  }

  // No deadlock and no leak: a run that cannot be extended has returned, and every reader
  // that was opened is either the one returned, unclosed, or has been closed exactly once.
  lemma StuckMeansNothingLost(stores: Stores, s: State)
    requires Reachable(stores, s)
    requires Sized(stores, s) && forall a :: !Enabled(stores, s, a)
    ensures !s.main.Collecting?
    ensures s.results == []
    ensures forall w: nat :: w < |stores| && stores[w].Some? ==>
              s.closes[w] == if s.main == Gave(w) then 0 else 1
    ensures forall w: nat :: w < |stores| && stores[w].None? ==> s.closes[w] == 0
  {
    ReachableInv(stores, s);
    forall w: nat | w < |stores| ensures s.pc[w].Published? || s.pc[w].Closed? || s.pc[w].Reported? {
      WorkersNeverBlock(stores, s, w);
    }
    assert !Enabled(stores, s, TakeReader) && !Enabled(stores, s, TakeError) && !Enabled(stores, s, GiveUpNow);
    if s.main.Collecting? {
      DistinctBounded(s.seen, |stores|);
      assert s.results == [] && s.errs == [];
      assert forall w: nat :: w < |stores| ==> s.pc[w].Reported?;
      AllInMeansFull(s.seen, |stores|);
    } else if s.main.GaveUp? {
      DistinctBounded(s.seen, |stores|);
      assert forall w: nat :: w < |stores| ==> w in s.seen;
      SlotHoldsWinner(stores, s);
    }
  }

  lemma Unroll(stores: Stores, s: State, a: Action, rest: seq<Action>)
    requires Sized(stores, s) && Enabled(stores, s, a)
    requires Legal(stores, Step(stores, s, a), rest)
    ensures Legal(stores, s, [a] + rest)
    ensures Exec(stores, s, [a] + rest) == Exec(stores, Step(stores, s, a), rest)
  {
    assert ([a] + rest)[0] == a && ([a] + rest)[1..] == rest;
  }

  // The workers whose errors were sent, in the order of sending.
  function ReportsIn(run: seq<Action>): seq<nat> {
    if run == [] then [] else (if run[0].Report? then [run[0].w] else []) + ReportsIn(run[1..])
  }

  lemma StepInOrder(stores: Stores, s: State, a: Action)
    requires Sized(stores, s) && Enabled(stores, s, a)
    ensures Step(stores, s, a).seen + Step(stores, s, a).errs == s.seen + s.errs + if a.Report? then [a.w] else []
  {
    if a.TakeError? {
      assert s.errs == [s.errs[0]] + s.errs[1..];
    }
  }

  // Errors are received in the order in which they are sent.
  lemma {:induction false} ErrorsInOrder(stores: Stores, s: State, run: seq<Action>)
    requires Sized(stores, s) && Legal(stores, s, run)
    ensures Exec(stores, s, run).seen + Exec(stores, s, run).errs == s.seen + s.errs + ReportsIn(run)
    decreases |run|
  {
    hide Step, Enabled;
    if run != [] {
      var sent := if run[0].Report? then [run[0].w] else [];
      StepInOrder(stores, s, run[0]);
      ErrorsInOrder(stores, Step(stores, s, run[0]), run[1..]);
      assert s.seen + s.errs + sent + ReportsIn(run[1..]) == s.seen + s.errs + (sent + ReportsIn(run[1..]));
    }
  }

  lemma AllAreSeen(stores: Stores, s: State)
    requires Inv(stores, s) && s.main.GaveUp?
    ensures |s.seen| == |stores| && s.errs == []
    ensures s.main.err == if stores == [] then None else Some(s.seen[|stores| - 1])
  {
    hide WorkersInv, TokenInv;
    var all := s.seen + s.errs;
    forall j, k | 0 <= j < k < |all| ensures all[j] != all[k] {
      assert j < |s.seen| <= k ==> s.seen[j] in s.seen && s.errs[k - |s.seen|] in s.errs;
    }
    DistinctBounded(all, |stores|);
  }

  lemma LastOfReports(stores: Stores, s: State, reports: seq<nat>)
    requires Inv(stores, s) && s.main.GaveUp? && s.seen + s.errs == reports
    ensures |reports| == |stores|
    ensures s.main.err == if stores == [] then None else Some(reports[|stores| - 1])
  {
    hide Inv;
    AllAreSeen(stores, s);
    assert s.seen + [] == s.seen;
  }

  // Which error a Get without a reader returns: that of the worker which was the last of all to
  // send one.
  lemma GivesUpWithTheLastError(stores: Stores, run: seq<Action>)
    requires Legal(stores, Start(stores), run) && Exec(stores, Start(stores), run).main.GaveUp?
    ensures |ReportsIn(run)| == |stores|
    ensures Exec(stores, Start(stores), run).main.err ==
            if stores == [] then None else Some(ReportsIn(run)[|stores| - 1])
  {
    hide Inv, Step, Enabled, Legal, ReportsIn;
    var start := Start(stores);
    var s := Exec(stores, start, run);
    InvAtStart(stores);
    RunKeepsInv(stores, start, run);
    ErrorsInOrder(stores, start, run);
    assert start.seen + start.errs + ReportsIn(run) == ReportsIn(run);
    LastOfReports(stores, s, ReportsIn(run));
  }

  lemma InvAtStart(stores: Stores)
    ensures Inv(stores, Start(stores))
  {
  }

  // The last step of a run that receives an error receives the last one seen.
  lemma {:induction false} LastReceived(stores: Stores, s: State, run: seq<Action>) returns (k: nat)
    requires Sized(stores, s) && Legal(stores, s, run) && TakeError in run
    ensures k < |run| && run[k] == TakeError && TakeError !in run[k + 1..]
    ensures Legal(stores, s, run[..k]) && Exec(stores, s, run[..k]).errs != []
    ensures var seen := Exec(stores, s, run).seen;
            seen != [] && seen[|seen| - 1] == Exec(stores, s, run[..k]).errs[0]
    decreases |run|
  {
    var s' := Step(stores, s, run[0]);
    if TakeError in run[1..] {
      var j := LastReceived(stores, s', run[1..]);
      k := j + 1;
      assert run[..k] == [run[0]] + run[1..][..j] && run[k + 1..] == run[1..][j + 1..];
      Unroll(stores, s, run[0], run[1..][..j]);
    } else {
      k := 0;
      SeenStays(stores, s', run[1..]);
    }
  }

  lemma {:induction false} SeenStays(stores: Stores, s: State, run: seq<Action>)
    requires Sized(stores, s) && Legal(stores, s, run) && TakeError !in run
    ensures Exec(stores, s, run).seen == s.seen
    decreases |run|
  {
    if run != [] {
      assert run[0] in run;
      SeenStays(stores, Step(stores, s, run[0]), run[1..]);
    }
  }

  // The same error at the receiving end: the one taken off `errs` by the last receive.
  lemma GivesUpWithTheLastReceived(stores: Stores, run: seq<Action>) returns (k: nat)
    requires Legal(stores, Start(stores), run) && Exec(stores, Start(stores), run).main.GaveUp? && stores != []
    ensures k < |run| && run[k] == TakeError && TakeError !in run[k + 1..]
    ensures Legal(stores, Start(stores), run[..k]) && Exec(stores, Start(stores), run[..k]).errs != []
    ensures Exec(stores, Start(stores), run).main.err == Some(Exec(stores, Start(stores), run[..k]).errs[0])
  {
    hide Inv, Step, Enabled, Legal;
    InvAtStart(stores);
    RunKeepsInv(stores, Start(stores), run);
    AllAreSeen(stores, Exec(stores, Start(stores), run));
    if TakeError !in run {
      SeenStays(stores, Start(stores), run);
    }
    k := LastReceived(stores, Start(stores), run);
  }

  // Any store that has a reader can be the one that answers.
  lemma AnyHolderCanAnswer(stores: Stores, w: nat)
    requires w < |stores| && stores[w].Some?
    ensures exists s :: Reachable(stores, s) && s.main == Gave(w)
  {
    var s1 := Step(stores, Start(stores), Fetch(w));
    var s2 := Step(stores, s1, Elect(w));
    var s3 := Step(stores, s2, Publish(w));
    var s4 := Step(stores, s3, TakeReader);
    Unroll(stores, s3, TakeReader, []);
    Unroll(stores, s2, Publish(w), [TakeReader] + []);
    Unroll(stores, s1, Elect(w), [Publish(w)] + ([TakeReader] + []));
    Unroll(stores, Start(stores), Fetch(w), [Elect(w)] + ([Publish(w)] + ([TakeReader] + [])));
    assert Reachable(stores, s4);
  }

  // Get's answer is the same bytes under every schedule exactly when all the stores that
  // answer hold the same bytes.
  lemma AnswerIsFixedIffHoldersAgree(stores: Stores)
    ensures (forall s, t :: Reachable(stores, s) && Reachable(stores, t) && s.main.Gave? && t.main.Gave? ==>
                s.main.w < |stores| && t.main.w < |stores| && stores[s.main.w] == stores[t.main.w])
       <==> (forall v: nat, w: nat :: v < |stores| && w < |stores| && stores[v].Some? && stores[w].Some? ==>
                stores[v] == stores[w])
  {
    hide Reachable;
    forall v: nat, w: nat | v < |stores| && w < |stores| && stores[v].Some? && stores[w].Some?
      ensures exists s, t :: Reachable(stores, s) && Reachable(stores, t) && s.main == Gave(v) && t.main == Gave(w)
    {
      AnyHolderCanAnswer(stores, v);
      AnyHolderCanAnswer(stores, w);
    }
    forall s | Reachable(stores, s) && s.main.Gave? ensures IsHolder(stores, s.main.w) {
      ReturnsReaderIffSomeStoreHasIt(stores, s);
    }
  }

  predicate IsHolder(stores: Stores, w: nat) {
    w < |stores| && stores[w].Some?
  }
}
