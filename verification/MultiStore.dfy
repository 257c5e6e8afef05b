/** MultiImageStore as a whole: Save, Exists and Get over n in-memory replicas. */
module MultiStore {
  import opened Wrappers
  import FanOut
  import MultiGet

  // ---------- Exists: errors on `errs`, answers on `results` ----------

  datatype Presence = Fault | Present | Absent

  function ExistsJobs(stores: seq<Presence>): seq<FanOut.Job> {
    seq(|stores|, w requires 0 <= w < |stores| =>
      match stores[w]
      case Fault => FanOut.Job(FanOut.Errs, true)
      case Present => FanOut.Job(FanOut.Results, true)
      case Absent => FanOut.Job(FanOut.Results, false))
  }

  datatype ExistsAnswer = Is(present: bool) | ExistsFailed(w: nat)

  ghost function ExistsResult(stores: seq<Presence>, s: FanOut.State): ExistsAnswer
    requires FanOut.WellFormed(ExistsJobs(stores), s)
  {
    if !FanOut.Stopped(ExistsJobs(stores), s) then Is(false)
    else
      var w := s.got[|s.got| - 1];
      if stores[w].Present? then Is(true) else ExistsFailed(w)
  }

  // Under every schedule Exists answers false exactly when every store says absent; it can
  // answer true exactly when some store says present, and can fail exactly when some store
  // fails.  So the answer is a race only when one store fails while another has the object.
  lemma ExistsAnswers(stores: seq<Presence>, s: FanOut.State)
    requires FanOut.Reachable(ExistsJobs(stores), s) && s.returned
    ensures FanOut.WellFormed(ExistsJobs(stores), s)
    ensures ExistsResult(stores, s) == Is(false) <==> forall w: nat :: w < |stores| ==> stores[w].Absent?
    ensures ExistsResult(stores, s) == Is(true) ==> exists w: nat :: w < |stores| && stores[w].Present?
    ensures ExistsResult(stores, s).ExistsFailed? ==>
              ExistsResult(stores, s).w < |stores| && stores[ExistsResult(stores, s).w].Fault?
  {
    var jobs := ExistsJobs(stores);
    FanOut.ReturnMeaning(jobs, s);
    assert forall w: nat :: w < |stores| ==> jobs[w].stops == !stores[w].Absent?;
  }

  lemma ExistsCanAnswer(stores: seq<Presence>, w: nat)
    requires w < |stores| && !stores[w].Absent?
    ensures exists s ::
              && FanOut.Reachable(ExistsJobs(stores), s) && FanOut.WellFormed(ExistsJobs(stores), s) && s.returned
              && ExistsResult(stores, s) == if stores[w].Present? then Is(true) else ExistsFailed(w)
  {
    var jobs := ExistsJobs(stores);
    FanOut.AnyStopperCanDecide(jobs, w);
    var s :| FanOut.Reachable(jobs, s) && s.returned && s.got == [w];
    FanOut.ReachableInv(jobs, s);
    assert FanOut.Stopped(jobs, s);
  }

  // ---------- n in-memory replicas ----------

  type Replica = map<string, string>

  function Stored(replicas: seq<Replica>, id: string): MultiGet.Stores {
    seq(|replicas|, w requires 0 <= w < |replicas| =>
      if id in replicas[w] then Some(replicas[w][id]) else None)
  }

  function Presences(replicas: seq<Replica>, id: string): seq<Presence> {
    seq(|replicas|, w requires 0 <= w < |replicas| => if id in replicas[w] then Present else Absent)
  }

  // A worker of Save that has acted has written its replica, if it could read the source.
  function Written(replicas: seq<Replica>, id: string, data: string, ok: seq<bool>, s: FanOut.State): (r: seq<Replica>)
    requires |ok| == |replicas| == |s.phase|
    ensures |r| == |replicas|
  {
    seq(|replicas|, w requires 0 <= w < |replicas| =>
      if ok[w] && !s.phase[w].Working? then replicas[w][id := data] else replicas[w])
  }

  // Presence and retrieval agree on any replicas whatever, even after failed saves: under
  // every pair of schedules Get returns a reader exactly when Exists answers true.
  lemma GetFindsIffExists(replicas: seq<Replica>, id: string, g: MultiGet.State, e: FanOut.State)
    requires MultiGet.Reachable(Stored(replicas, id), g) && !g.main.Collecting?
    requires FanOut.Reachable(ExistsJobs(Presences(replicas, id)), e) && e.returned
    ensures FanOut.WellFormed(ExistsJobs(Presences(replicas, id)), e)
    ensures g.main.Gave? <==> ExistsResult(Presences(replicas, id), e) == Is(true)
    ensures !ExistsResult(Presences(replicas, id), e).ExistsFailed?
  {
    MultiGet.ReturnsReaderIffSomeStoreHasIt(Stored(replicas, id), g);
    ExistsAnswers(Presences(replicas, id), e);
    assert forall w: nat :: w < |replicas| ==> (Stored(replicas, id)[w].Some? <==> id in replicas[w]);
    assert forall w: nat :: w < |replicas| ==> (Presences(replicas, id)[w].Present? <==> id in replicas[w]);
  }

  // ---------- Whole histories ----------

  // A call together with the schedule its workers and collector followed until it returned.
  datatype Call =
    | Save(id: string, data: string, ok: seq<bool>, saving: seq<FanOut.Action>)
    | Exists(id: string, asking: seq<FanOut.Action>)
    | Get(id: string, getting: seq<MultiGet.Action>)

  datatype Answer = SaveReturned(v: FanOut.Verdict) | ExistsReturned(e: ExistsAnswer) | Found(data: string) | NotFound

  ghost predicate Completes(replicas: seq<Replica>, call: Call) {
    match call
    case Save(_, _, ok, schedule) =>
      var jobs := FanOut.ErrorJobs(ok);
      && |ok| == |replicas|
      && FanOut.Legal(jobs, FanOut.Start(jobs), schedule)
      && FanOut.Exec(jobs, FanOut.Start(jobs), schedule).returned
    case Exists(id, schedule) =>
      var jobs := ExistsJobs(Presences(replicas, id));
      && FanOut.Legal(jobs, FanOut.Start(jobs), schedule)
      && FanOut.Exec(jobs, FanOut.Start(jobs), schedule).returned
    case Get(id, schedule) =>
      var stores := Stored(replicas, id);
      && MultiGet.Legal(stores, MultiGet.Start(stores), schedule)
      && !MultiGet.Exec(stores, MultiGet.Start(stores), schedule).main.Collecting?
  }

  // The replicas and the answer at the moment the call returns.  Workers that Exists or Get
  // leave behind only read, so they change nothing later.
  ghost function Serve(replicas: seq<Replica>, call: Call): (seq<Replica>, Answer)
    requires Completes(replicas, call)
  {
    match call
    case Save(id, data, ok, schedule) =>
      var s := FanOut.Exec(FanOut.ErrorJobs(ok), FanOut.Start(FanOut.ErrorJobs(ok)), schedule);
      (Written(replicas, id, data, ok, s), SaveReturned(FanOut.VerdictOf(ok, s)))
    case Exists(id, schedule) =>
      var jobs := ExistsJobs(Presences(replicas, id));
      (replicas, ExistsReturned(ExistsResult(Presences(replicas, id), FanOut.Exec(jobs, FanOut.Start(jobs), schedule))))
    case Get(id, schedule) =>
      var stores := Stored(replicas, id);
      var main := MultiGet.Exec(stores, MultiGet.Start(stores), schedule).main;
      (replicas, if main.Gave? && main.w < |replicas| && id in replicas[main.w]
                 then Found(replicas[main.w][id]) else NotFound)
  }

  // The specification: one map, no concurrency.
  function ServeOne(m: Replica, call: Call): (Replica, Answer) {
    match call
    case Save(id, data, _, _) => (m[id := data], SaveReturned(FanOut.Success))
    case Exists(id, _) => (m, ExistsReturned(Is(id in m)))
    case Get(id, _) => (m, if id in m then Found(m[id]) else NotFound)
  }

  ghost predicate Agree(replicas: seq<Replica>, m: Replica) {
    forall w :: 0 <= w < |replicas| ==> replicas[w] == m
  }

  lemma ServeRefinesOne(replicas: seq<Replica>, m: Replica, call: Call)
    requires |replicas| >= 1 && Agree(replicas, m) && Completes(replicas, call)
    requires !(Serve(replicas, call).1.SaveReturned? && Serve(replicas, call).1.v.Failure?)
    ensures Serve(replicas, call).1 == ServeOne(m, call).1
    ensures Agree(Serve(replicas, call).0, ServeOne(m, call).0)
  {
    match call {
      case Save(id, data, ok, schedule) =>
        var s := FanOut.Exec(FanOut.ErrorJobs(ok), FanOut.Start(FanOut.ErrorJobs(ok)), schedule);
        assert FanOut.Reachable(FanOut.ErrorJobs(ok), s);
        FanOut.SucceedsIffAllDo(ok, s);
      case Exists(id, schedule) =>
        var jobs := ExistsJobs(Presences(replicas, id));
        var s := FanOut.Exec(jobs, FanOut.Start(jobs), schedule);
        assert FanOut.Reachable(jobs, s);
        ExistsAnswers(Presences(replicas, id), s);
        assert Presences(replicas, id)[0].Absent? <==> id !in m;
      case Get(id, schedule) =>
        var stores := Stored(replicas, id);
        var s := MultiGet.Exec(stores, MultiGet.Start(stores), schedule);
        assert MultiGet.Reachable(stores, s);
        MultiGet.ReturnsReaderIffSomeStoreHasIt(stores, s);
        assert stores[0].Some? <==> id in m;
    }
  }

  ghost predicate History(replicas: seq<Replica>, calls: seq<Call>)
    decreases |calls|
  {
    calls == [] ||
    (&& Completes(replicas, calls[0])
     && !(Serve(replicas, calls[0]).1.SaveReturned? && Serve(replicas, calls[0]).1.v.Failure?)
     && History(Serve(replicas, calls[0]).0, calls[1..]))
  }

  ghost function Answers(replicas: seq<Replica>, calls: seq<Call>): seq<Answer>
    requires History(replicas, calls)
    decreases |calls|
  {
    if calls == [] then [] else
    var (after, answer) := Serve(replicas, calls[0]);
    [answer] + Answers(after, calls[1..])
  }

  function AnswersOfOne(m: Replica, calls: seq<Call>): seq<Answer>
    decreases |calls|
  {
    if calls == [] then [] else
    var (after, answer) := ServeOne(m, calls[0]);
    [answer] + AnswersOfOne(after, calls[1..])
  }

  // Refinement: over any history of calls that do not overlap, each following any schedule,
  // in which every Save returned success, n >= 1 replicas answer as one map does.
  lemma {:induction false} ReplicasRefineOneMap(replicas: seq<Replica>, m: Replica, calls: seq<Call>)
    requires |replicas| >= 1 && Agree(replicas, m) && History(replicas, calls)
    ensures Answers(replicas, calls) == AnswersOfOne(m, calls)
    decreases |calls|
  {
    if calls != [] {
      ServeRefinesOne(replicas, m, calls[0]);
      ReplicasRefineOneMap(Serve(replicas, calls[0]).0, ServeOne(m, calls[0]).0, calls[1..]);
    }
  }

  lemma {:induction false} AsManyAnswers(m: Replica, calls: seq<Call>)
    ensures |AnswersOfOne(m, calls)| == |calls|
    decreases |calls|
  {
    if calls != [] {
      AsManyAnswers(ServeOne(m, calls[0]).0, calls[1..]);
    }
  }

  // Nothing is saved under id.
  ghost predicate NoSaveOf(id: string, calls: seq<Call>) {
    forall call :: call in calls && call.Save? ==> call.id != id
  }

  lemma {:induction false} ReadsWhatWasThere(m: Replica, calls: seq<Call>)
    requires calls != [] && calls[|calls| - 1].Get? && NoSaveOf(calls[|calls| - 1].id, calls)
    ensures |AnswersOfOne(m, calls)| == |calls|
    ensures var id := calls[|calls| - 1].id;
            AnswersOfOne(m, calls)[|calls| - 1] == if id in m then Found(m[id]) else NotFound
    decreases |calls|
  {
    AsManyAnswers(m, calls);
    var rest, id := calls[1..], calls[|calls| - 1].id;
    if rest != [] {
      assert calls[0] in calls && forall call :: call in rest ==> call in calls;
      assert rest[|rest| - 1] == calls[|calls| - 1];
      var after := ServeOne(m, calls[0]).0;
      assert (id in after <==> id in m) && (id in m ==> after[id] == m[id]);
      hide ServeOne;
      ReadsWhatWasThere(after, rest);
    }
  }

  lemma {:induction false} ReadsTheLastSave(m: Replica, calls: seq<Call>, k: nat)
    requires k < |calls| - 1 && calls[k].Save? && calls[|calls| - 1].Get? && calls[|calls| - 1].id == calls[k].id
    requires NoSaveOf(calls[k].id, calls[k + 1..])
    ensures |AnswersOfOne(m, calls)| == |calls|
    ensures AnswersOfOne(m, calls)[|calls| - 1] == Found(calls[k].data)
    decreases |calls|
  {
    AsManyAnswers(m, calls);
    var after := ServeOne(m, calls[0]).0;
    if k == 0 {
      ReadsWhatWasThere(after, calls[1..]);
    } else {
      assert calls[1..][k..] == calls[k + 1..];
      ReadsTheLastSave(after, calls[1..], k - 1);
    }
  }

  // So a Get that ends a history of replicas returns the bytes of the last Save under its id,
  // and where there is none, what the replicas held at the start, if anything.
  lemma GetReturnsTheLastSave(replicas: seq<Replica>, m: Replica, calls: seq<Call>)
    requires |replicas| >= 1 && Agree(replicas, m) && History(replicas, calls)
    requires calls != [] && calls[|calls| - 1].Get?
    ensures |Answers(replicas, calls)| == |calls|
    ensures var id, answer := calls[|calls| - 1].id, Answers(replicas, calls)[|calls| - 1];
            && (NoSaveOf(id, calls) ==> answer == if id in m then Found(m[id]) else NotFound)
            && forall k :: 0 <= k < |calls| && calls[k].Save? && calls[k].id == id && NoSaveOf(id, calls[k + 1..]) ==>
                 answer == Found(calls[k].data)
  {
    var id := calls[|calls| - 1].id;
    ReplicasRefineOneMap(replicas, m, calls);
    AsManyAnswers(m, calls);
    if NoSaveOf(id, calls) {
      ReadsWhatWasThere(m, calls);
    }
    forall k: nat | k < |calls| && calls[k].Save? && calls[k].id == id && NoSaveOf(id, calls[k + 1..])
      ensures AnswersOfOne(m, calls)[|calls| - 1] == Found(calls[k].data)
    {
      ReadsTheLastSave(m, calls, k);
    }
  }

  // ---------- What a failed Save does ----------

  // Whatever readers Gets on these and on those replicas return hold the same bytes.
  ghost predicate SameBytes(stores1: MultiGet.Stores, stores2: MultiGet.Stores) {
    forall s, t ::
      MultiGet.Reachable(stores1, s) && MultiGet.Reachable(stores2, t) && s.main.Gave? && t.main.Gave? ==>
      s.main.w < |stores1| && t.main.w < |stores2| && stores1[s.main.w] == stores2[t.main.w]
  }

  // However a Save of `data` under `id` ends, when ok says which stores accept it: under every
  // id, at every moment after it has returned, all the bytes that are read are the same.  The
  // schedules go on after the return, so a later one may find what an earlier one did not.
  ghost predicate SaveIsHarmless(replicas: seq<Replica>, id: string, data: string, ok: seq<bool>) {
    forall saving1, saving2, key ::
      Completes(replicas, Save(id, data, ok, saving1)) && Completes(replicas, Save(id, data, ok, saving2)) ==>
      SameBytes(Stored(Serve(replicas, Save(id, data, ok, saving1)).0, key),
                Stored(Serve(replicas, Save(id, data, ok, saving2)).0, key))
  }

  predicate All(ok: seq<bool>, value: bool) {
    forall w :: 0 <= w < |ok| ==> ok[w] == value
  }

  // No store answers with other bytes than these.
  ghost predicate OnlyBytes(stores: MultiGet.Stores, value: string) {
    forall w: nat :: w < |stores| && stores[w].Some? ==> stores[w].value == value
  }

  lemma SameIfOnlyBytes(stores1: MultiGet.Stores, stores2: MultiGet.Stores, value: string)
    requires OnlyBytes(stores1, value) && OnlyBytes(stores2, value)
    ensures SameBytes(stores1, stores2)
  {
    forall s | MultiGet.Reachable(stores1, s) && s.main.Gave?
      ensures s.main.w < |stores1| && stores1[s.main.w] == Some(value)
    {
      MultiGet.ReturnsReaderIffSomeStoreHasIt(stores1, s);
    }
    forall t | MultiGet.Reachable(stores2, t) && t.main.Gave?
      ensures t.main.w < |stores2| && stores2[t.main.w] == Some(value)
    {
      MultiGet.ReturnsReaderIffSomeStoreHasIt(stores2, t);
    }
  }

  // The bytes that can be read under `key` after a harmless Save.
  function BytesAfter(m: Replica, id: string, data: string, ok: seq<bool>, key: string): string {
    if key == id && !All(ok, false) then data else if key in m then m[key] else ""
  }

  lemma HarmlessTo(replicas: seq<Replica>, m: Replica, save: Call, key: string)
    requires save.Save? && Agree(replicas, m) && Completes(replicas, save)
    requires save.id !in m || m[save.id] == save.data || All(save.ok, true) || All(save.ok, false)
    ensures OnlyBytes(Stored(Serve(replicas, save).0, key), BytesAfter(m, save.id, save.data, save.ok, key))
  {
    var jobs := FanOut.ErrorJobs(save.ok);
    var s := FanOut.Exec(jobs, FanOut.Start(jobs), save.saving);
    assert FanOut.Reachable(jobs, s);
    FanOut.SucceedsIffAllDo(save.ok, s);
  }

  // One store accepts new bytes for a stored id and another cannot: Save can return its error
  // with the replicas apart, and then two schedules of one Get return different bytes.
  lemma FailedSaveSplitsReaders(replicas: seq<Replica>, m: Replica, id: string, data: string, ok: seq<bool>,
                                w: nat, v: nat)
    requires |ok| == |replicas| && Agree(replicas, m) && id in m && m[id] != data
    requires w < |ok| && v < |ok| && ok[w] && !ok[v]
    ensures exists saving ::
              var save := Save(id, data, ok, saving);
              && Completes(replicas, save)
              && Serve(replicas, save).1 == SaveReturned(FanOut.Failure(v))
              && exists g1, g2 ::
                   && MultiGet.Reachable(Stored(Serve(replicas, save).0, id), g1)
                   && MultiGet.Reachable(Stored(Serve(replicas, save).0, id), g2)
                   && g1.main == MultiGet.Gave(w) && g2.main == MultiGet.Gave(v)
                   && Stored(Serve(replicas, save).0, id)[w] == Some(data)
                   && Stored(Serve(replicas, save).0, id)[v] == Some(m[id])
  {
    var jobs := FanOut.ErrorJobs(ok);
    var start := FanOut.Start(jobs);
    var tail := [FanOut.Act(v), FanOut.Send(v), FanOut.Receive(FanOut.Errs)];
    FanOut.Unroll3(jobs, FanOut.Step(jobs, start, FanOut.Act(w)), tail[0], tail[1], tail[2]);
    FanOut.Unroll(jobs, start, FanOut.Act(w), tail);
    var saving := [FanOut.Act(w)] + tail;
    var save := Save(id, data, ok, saving);
    assert Completes(replicas, save);
    var stores := Stored(Serve(replicas, save).0, id);
    assert stores[w] == Some(data) && stores[v] == Some(m[id]);
    MultiGet.AnyHolderCanAnswer(stores, w);
    MultiGet.AnyHolderCanAnswer(stores, v);
  }

  // On replicas that agree, a Save leaves the bytes read fixed exactly when the id is new, or
  // held these bytes already, or all stores accept the bytes, or none does.
  lemma SaveIsHarmlessIff(replicas: seq<Replica>, m: Replica, id: string, data: string, ok: seq<bool>)
    requires |ok| == |replicas| && Agree(replicas, m)
    ensures SaveIsHarmless(replicas, id, data, ok) <==>
            id !in m || m[id] == data || All(ok, true) || All(ok, false)
  {
    if id !in m || m[id] == data || All(ok, true) || All(ok, false) {
      forall saving1, saving2, key
        | Completes(replicas, Save(id, data, ok, saving1)) && Completes(replicas, Save(id, data, ok, saving2))
        ensures SameBytes(Stored(Serve(replicas, Save(id, data, ok, saving1)).0, key),
                          Stored(Serve(replicas, Save(id, data, ok, saving2)).0, key))
      {
        HarmlessTo(replicas, m, Save(id, data, ok, saving1), key);
        HarmlessTo(replicas, m, Save(id, data, ok, saving2), key);
        SameIfOnlyBytes(Stored(Serve(replicas, Save(id, data, ok, saving1)).0, key),
                        Stored(Serve(replicas, Save(id, data, ok, saving2)).0, key), BytesAfter(m, id, data, ok, key));
      }
    } else {
      var v: nat, w: nat :| v < |ok| && w < |ok| && ok[w] && !ok[v];
      FailedSaveSplitsReaders(replicas, m, id, data, ok, w, v);
      var saving :|
        var save := Save(id, data, ok, saving);
        && Completes(replicas, save)
        && exists g1, g2 ::
             && MultiGet.Reachable(Stored(Serve(replicas, save).0, id), g1)
             && MultiGet.Reachable(Stored(Serve(replicas, save).0, id), g2)
             && g1.main == MultiGet.Gave(w) && g2.main == MultiGet.Gave(v)
             && Stored(Serve(replicas, save).0, id)[w] == Some(data)
             && Stored(Serve(replicas, save).0, id)[v] == Some(m[id]);
      var stores := Stored(Serve(replicas, Save(id, data, ok, saving)).0, id);
      assert !SameBytes(stores, stores);
    }
  }
}
