/** Who writes which key.  Originals are stored under a hash, thumbnails under `owner/name`,
    and the generator looks a hash up some time before the upload that receives it saves.
    The steps of the generator, of any number of uploads and of on-the-fly thumbnail requests
    interleave freely over one in-memory store.
 */
module KeySpace {
  import opened Wrappers
  import opened HashGenerator

  datatype State = State(
    files: map<string, string>,      // the store
    offered: Option<string>,         // found absent by the generator, not yet received
    inFlight: multiset<string>,      // received by uploads that have not saved yet
    originals: map<string, string>)  // the bytes each original was first stored with

  datatype Action =
    | Check(id: string)                                   // drawn, and absent when looked up
    | Hand                                                // hashGetter passes it to an upload
    | SaveOriginal(id: string, data: string)
    | Abandon(id: string)                                 // the upload failed to save
    | SaveThumb(owner: string, name: string, data: string)

  function ThumbKey(owner: string, name: string): string {
    owner + "/" + name
  }

  // A thumbnail's owner has been found in the store: it is the upload's own hash, saved
  // before its thumbnails, or whatever id the thumbnail request named.
  predicate Enabled(s: State, a: Action) {
    match a
    case Check(id) => s.offered.None? && IsHash(id) && id !in s.files
    case Hand => s.offered.Some?
    case SaveOriginal(id, _) => id in s.inFlight
    case Abandon(id) => id in s.inFlight
    case SaveThumb(owner, _, _) => owner in s.files
  }

  function Step(s: State, a: Action): State
    requires Enabled(s, a)
  {
    match a
    case Check(id) => s.(offered := Some(id))
    case Hand => s.(offered := None, inFlight := s.inFlight + multiset{s.offered.value})
    case SaveOriginal(id, data) =>
      s.(files := s.files[id := data],
         inFlight := s.inFlight - multiset{id},
         originals := if id in s.originals then s.originals else s.originals[id := data])
    case Abandon(id) => s.(inFlight := s.inFlight - multiset{id})
    case SaveThumb(owner, name, data) => s.(files := s.files[ThumbKey(owner, name) := data])
  }

  predicate Legal(s: State, run: seq<Action>)
    decreases |run|
  {
    run == [] || (Enabled(s, run[0]) && Legal(Step(s, run[0]), run[1..]))
  }

  function Exec(s: State, run: seq<Action>): State
    requires Legal(s, run)
    decreases |run|
  {
    if run == [] then s else Exec(Step(s, run[0]), run[1..])
  }

  // No hash is found absent a second time while an upload still holds it.
  predicate NoRedraw(s: State, run: seq<Action>)
    requires Legal(s, run)
    decreases |run|
  {
    run == [] || ((run[0].Check? ==> run[0].id !in s.inFlight) && NoRedraw(Step(s, run[0]), run[1..]))
  }

  // Some original no longer reads as it was stored.
  ghost predicate Damaged(s: State) {
    exists id :: id in s.originals && (id !in s.files || s.files[id] != s.originals[id])
  }

  ghost predicate Inv(s: State) {
    && (forall id :: id in s.originals ==> IsHash(id) && id in s.files && s.files[id] == s.originals[id])
    && (forall id :: id in s.inFlight ==> IsHash(id) && id !in s.files && s.inFlight[id] == 1)
    && (s.offered.Some? ==>
          IsHash(s.offered.value) && s.offered.value !in s.files && s.offered.value !in s.inFlight)
  }

  // The two name spaces never meet.
  lemma ThumbKeyIsNoHash(owner: string, name: string)
    ensures !IsHash(ThumbKey(owner, name))
  {
    assert ThumbKey(owner, name)[|owner|] == '/';
  }

  lemma StepKeepsInv(s: State, a: Action)
    requires Inv(s) && Enabled(s, a)
    requires a.Check? ==> a.id !in s.inFlight
    ensures Inv(Step(s, a))
    ensures forall id :: id in s.originals ==> id in Step(s, a).originals && Step(s, a).originals[id] == s.originals[id]
  {
    if a.SaveThumb? {
      ThumbKeyIsNoHash(a.owner, a.name);
    }
  }

  lemma {:induction false} RunKeepsInv(s: State, run: seq<Action>)
    requires Inv(s) && Legal(s, run) && NoRedraw(s, run)
    ensures Inv(Exec(s, run))
    ensures forall id :: id in s.originals ==>
              id in Exec(s, run).originals && Exec(s, run).originals[id] == s.originals[id]
    decreases |run|
  {
    if run != [] {
      StepKeepsInv(s, run[0]);
      RunKeepsInv(Step(s, run[0]), run[1..]);
    }
  }

  // Over every run without a redraw, an original stored at any moment reads back with its
  // own bytes at every later moment.
  lemma OriginalsAreNeverOverwritten(before: seq<Action>, after: seq<Action>)
    requires Legal(Empty(), before) && NoRedraw(Empty(), before)
    requires Legal(Exec(Empty(), before), after) && NoRedraw(Exec(Empty(), before), after)
    ensures var mid := Exec(Empty(), before);
            var end := Exec(mid, after);
            forall id :: id in mid.originals ==> id in end.files && end.files[id] == mid.originals[id]
  {
    RunKeepsInv(Empty(), before);
    RunKeepsInv(Exec(Empty(), before), after);
  }

  function Empty(): State {
    State(map[], None, multiset{}, map[])
  }

  lemma Unroll(s: State, a: Action, rest: seq<Action>)
    requires Enabled(s, a) && Legal(Step(s, a), rest)
    ensures Legal(s, [a] + rest) && Exec(s, [a] + rest) == Exec(Step(s, a), rest)
    ensures NoRedraw(s, [a] + rest) <==> (a.Check? ==> a.id !in s.inFlight) && NoRedraw(Step(s, a), rest)
  {
    assert ([a] + rest)[0] == a && ([a] + rest)[1..] == rest;
  }

  // A turn of the generator over this store, from the strings sent before it to those sent
  // after it, is a run of the machine: nothing, or the Check of the string it has sent.
  lemma SentIsChecked(s: State, source: seq<Read>, length: int, before: seq<string>, after: seq<string>)
      returns (run: seq<Action>)
    requires s.offered.None?
    requires var id := Outcome(GoodBytes(source), length);
             after == before + if id in s.files then [] else [id]
    ensures Legal(s, run)
    ensures if after == before then run == [] else run == [Check(after[|after| - 1])]
    ensures Exec(s, run) == s.(offered := if after == before then None else Some(after[|after| - 1]))
  {
    var id := Outcome(GoodBytes(source), length);
    OutcomeIsHash(GoodBytes(source), length);
    run := [];
    if id !in s.files {
      assert |after| == |before| + 1;
      Unroll(s, Check(id), []);
      run := [Check(id)] + [];
    }
  }

  // One more step at the end of a run.
  lemma {:induction false} RunThen(s: State, run: seq<Action>, a: Action)
    requires Legal(s, run) && Enabled(Exec(s, run), a)
    ensures Legal(s, run + [a]) && Exec(s, run + [a]) == Step(Exec(s, run), a)
    ensures !a.Check? ==> (NoRedraw(s, run + [a]) <==> NoRedraw(s, run))
    decreases |run|
  {
    if run == [] {
      assert run + [a] == [a] && [a][1..] == [];
    } else {
      assert (run + [a])[1..] == run[1..] + [a];
      RunThen(Step(s, run[0]), run[1..], a);
    }
  }

  lemma TwoHoldersCanDamage(s: State, id: string)
    requires Inv(s) && Enabled(s, Check(id)) && id in s.inFlight
    ensures exists rest :: Legal(Step(s, Check(id)), rest) && NoRedraw(Step(s, Check(id)), rest)
                           && Damaged(Exec(Step(s, Check(id)), rest))
  {
    var checked := Step(s, Check(id));
    var handed := Step(checked, Hand);
    var first := Step(handed, SaveOriginal(id, "a"));
    var second := Step(first, SaveOriginal(id, "b"));
    Unroll(first, SaveOriginal(id, "b"), []);
    Unroll(handed, SaveOriginal(id, "a"), [SaveOriginal(id, "b")] + []);
    Unroll(checked, Hand, [SaveOriginal(id, "a")] + ([SaveOriginal(id, "b")] + []));
    assert id in second.originals && second.originals[id] == "a" && second.files[id] == "b";
    assert Damaged(second);
  }

  // The condition is exact: accepting a draw opens the way to damage, with no redraw after
  // it, if and only if an upload is holding the same hash at that moment.
  lemma RedrawIsTheOnlyDanger(s: State, id: string)
    requires Inv(s) && Enabled(s, Check(id))
    ensures id in s.inFlight <==>
            exists rest :: Legal(Step(s, Check(id)), rest) && NoRedraw(Step(s, Check(id)), rest)
                           && Damaged(Exec(Step(s, Check(id)), rest))
  {
    var checked := Step(s, Check(id));
    if id in s.inFlight {
      TwoHoldersCanDamage(s, id);
    } else {
      forall rest | Legal(checked, rest) && NoRedraw(checked, rest) ensures !Damaged(Exec(checked, rest)) {
        StepKeepsInv(s, Check(id));
        RunKeepsInv(checked, rest);
      }
    }
  }
}
