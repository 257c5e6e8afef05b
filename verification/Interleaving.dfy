/** Threads of atomic steps on temporary files and on the fields of one upload: which steps
    commute, which interleavings end alike, and what becomes of the one race, the order in which
    the two OCR commands deliver their texts.
 */
module Interleaving {
  import opened Wrappers
  import opened Commands
  import OcrText
  import MultiOcr

  // The places the processors share: temporary files, the thumbnails' paths, what each OCR
  // command has heard, whose result is first in the results channel, the upload's OCR text.
  datatype Cell = File(path: string) | ThumbPath(k: nat) | Heard(k: nat) | First | UploadText

  type State = map<Cell, string>

  datatype Op =
    | Convert(src: string, dst: string, command: Command)
    | Hear(k: nat, path: string, lower: string -> string)   // reading the recognised text
    | Remove(path: string)
    | Adopt(k: nat, path: string)                           // ThumbFile.SetPath
    | Arrive(meme: bool)                                    // the result is sent; the first one counts
    | Settle(speller: Option<OcrText.Speller>)              // the better text, SetOCRText
    | Note(meme: bool)                                      // an arrival known to be the first
    | Skip                                                  // an arrival known not to be

  // None: the step fails, because the file it needs is missing or the command fails on it.
  function Apply(op: Op, s: State): Option<State> {
    match op
    case Convert(src, dst, command) =>
      if File(src) in s && command(s[File(src)]).Some? then Some(s[File(dst) := command(s[File(src)]).value])
      else None
    case Hear(k, path, lower) =>
      if File(path) in s then Some(s[Heard(k) := lower(OcrText.TrimSpace(s[File(path)]))]) else None
    case Remove(path) => Some(s - {File(path)})
    case Adopt(k, path) => if File(path) in s then Some(s[ThumbPath(k) := path]) else None
    case Arrive(meme) => Some(if First in s then s else s[First := Label(meme)])
    case Settle(speller) =>
      if First in s && Heard(0) in s && Heard(1) in s
      then Some(s[UploadText := Settled(speller, s[First] == Label(true), s[Heard(0)], s[Heard(1)])])
      else None
    case Note(meme) => Some(s[First := Label(meme)])
    case Skip => Some(s)
  }

  function Label(meme: bool): string {
    if meme then "MemeOCR" else "StandardOCR"
  }

  // Whichever text arrives first wins a tie.
  function Settled(speller: Option<OcrText.Speller>, memeFirst: bool, meme: string, standard: string): string {
    if memeFirst then MultiOcr.BetterOf(speller, meme, standard) else MultiOcr.BetterOf(speller, standard, meme)
  }

  function Run(ops: seq<Op>, s: State): Option<State> {
    if ops == [] then Some(s)
    else
      var next := Apply(ops[0], s);
      if next.None? then None else Run(ops[1..], next.value)
  }

  function Writes(op: Op): set<Cell> {
    match op
    case Convert(_, dst, _) => {File(dst)}
    case Hear(k, _, _) => {Heard(k)}
    case Remove(path) => {File(path)}
    case Adopt(k, _) => {ThumbPath(k)}
    case Arrive(_) => {First}
    case Note(_) => {First}
    case Skip => {}
    case Settle(_) => {UploadText}
  }

  function Touches(op: Op): set<Cell> {
    match op
    case Convert(src, dst, _) => {File(src), File(dst)}
    case Hear(k, path, _) => {Heard(k), File(path)}
    case Remove(path) => {File(path)}
    case Adopt(k, path) => {ThumbPath(k), File(path)}
    case Arrive(_) => {First}
    case Note(_) => {First}
    case Skip => {}
    case Settle(_) => {UploadText, Heard(0), Heard(1), First}
  }

  ghost predicate Independent(a: Op, b: Op) {
    Writes(a) !! Touches(b) && Writes(b) !! Touches(a)
  }

  // ---------- Independent steps commute ----------

  lemma StepsCommute(a: Op, b: Op, s: State)
    requires Independent(a, b)
    ensures Run([a, b], s) == Run([b, a], s)
  {
    hide Apply, Run, Writes, Touches;
    WritesAreTouched(a);
    WritesAreTouched(b);
    RunTwo(a, b, s);
    RunTwo(b, a, s);
    var sa, sb := Apply(a, s), Apply(b, s);
    StepIsLocal(a, s);
    StepIsLocal(b, s);
    if sa.Some? && sb.Some? {
      AppliesAlike(b, s, sa.value);
      AppliesAlike(a, s, sb.value);
      var ab, ba := Apply(b, sa.value), Apply(a, sb.value);
      StepIsLocal(b, sa.value);
      StepIsLocal(a, sb.value);
      forall c ensures (c in ab.value <==> c in ba.value) && (c in ab.value ==> ab.value[c] == ba.value[c]) {
      }
      assert ab.value == ba.value;
    } else if sa.Some? {
      AppliesAlike(b, s, sa.value);
    } else if sb.Some? {
      AppliesAlike(a, s, sb.value);
    }
  }

  lemma RunTwo(a: Op, b: Op, s: State)
    ensures Run([a, b], s) == if Apply(a, s).None? then None else Apply(b, Apply(a, s).value)
  {
    assert [a, b][1..] == [b] && [b][1..] == [];
    if Apply(a, s).Some? && Apply(b, Apply(a, s).value).Some? {
      assert Run([b], Apply(a, s).value) == Run([], Apply(b, Apply(a, s).value).value);
    }
  }

  lemma WritesAreTouched(op: Op)
    ensures Writes(op) <= Touches(op)
  {
  }

  // A step changes only the cells it writes.
  lemma StepIsLocal(op: Op, s: State)
    ensures Apply(op, s).Some? ==> forall c :: c !in Writes(op) ==>
              (c in s <==> c in Apply(op, s).value) && (c in s ==> Apply(op, s).value[c] == s[c])
  {
  }

  // What a step does depends only on the cells it touches.
  lemma AppliesAlike(op: Op, s: State, t: State)
    requires forall c :: c in Touches(op) ==> (c in s <==> c in t) && (c in s ==> s[c] == t[c])
    ensures Apply(op, s).Some? <==> Apply(op, t).Some?
    ensures Apply(op, s).Some? ==> forall c :: c in Writes(op) ==>
              (c in Apply(op, s).value <==> c in Apply(op, t).value)
              && (c in Apply(op, s).value ==> Apply(op, s).value[c] == Apply(op, t).value[c])
  {
  }

  lemma {:induction false} RunConcat(a: seq<Op>, b: seq<Op>, s: State)
    ensures Run(a + b, s) == if Run(a, s).None? then None else Run(b, Run(a, s).value)
  {
    if a == [] {
      assert a + b == b;
    } else {
      assert (a + b)[0] == a[0] && (a + b)[1..] == a[1..] + b;
      if Apply(a[0], s).Some? {
        RunConcat(a[1..], b, Apply(a[0], s).value);
      }
    }
  }

  lemma {:induction false} MoveToFront(before: seq<Op>, a: Op, s: State)
    requires forall b :: b in before ==> Independent(a, b)
    ensures Run(before + [a], s) == Run([a] + before, s)
  {
    if before == [] {
      assert before + [a] == [a] == [a] + before;
    } else {
      var b, rest := before[0], before[1..];
      assert before == [b] + rest;
      assert before + [a] == [b] + (rest + [a]);
      assert [a] + before == [a, b] + rest;
      assert [b] + ([a] + rest) == [b, a] + rest;
      RunConcat([b], rest + [a], s);
      RunConcat([b], [a] + rest, s);
      RunConcat([a, b], rest, s);
      RunConcat([b, a], rest, s);
      StepsCommute(a, b, s);
      if Run([b], s).Some? {
        MoveToFront(rest, a, Run([b], s).value);
      }
    }
  }

  // ---------- Every interleaving is the sequence ----------

  function Concat(threads: seq<seq<Op>>): seq<Op> {
    if threads == [] then [] else threads[0] + Concat(threads[1..])
  }

  // (t, u): thread t takes no step before thread u has finished.
  type Waits = set<(nat, nat)>

  ghost predicate Ready(threads: seq<seq<Op>>, waits: Waits, t: nat) {
    forall u: nat :: u < |threads| && (t, u) in waits ==> threads[u] == []
  }

  // A schedule names the thread that takes each step, until all have finished.
  ghost predicate Complete(threads: seq<seq<Op>>, waits: Waits, schedule: seq<nat>)
    decreases |schedule|
  {
    if schedule == [] then forall t :: 0 <= t < |threads| ==> threads[t] == []
    else
      var t := schedule[0];
      && t < |threads| && threads[t] != [] && Ready(threads, waits, t)
      && Complete(threads[t := threads[t][1..]], waits, schedule[1..])
  }

  ghost function Merge(threads: seq<seq<Op>>, waits: Waits, schedule: seq<nat>): seq<Op>
    requires Complete(threads, waits, schedule)
    decreases |schedule|
  {
    if schedule == [] then []
    else
      var t := schedule[0];
      [threads[t][0]] + Merge(threads[t := threads[t][1..]], waits, schedule[1..])
  }

  // A thread waits only for earlier ones, and two threads neither of which waits for the other
  // do not meddle with each other.
  ghost predicate RaceFree(threads: seq<seq<Op>>, waits: Waits) {
    && (forall t: nat, u: nat :: (t, u) in waits ==> u < t)
    && (forall t: nat, u: nat, a, b ::
          u < t < |threads| && (t, u) !in waits && a in threads[t] && b in threads[u] ==> Independent(a, b))
  }

  lemma {:induction false} ConcatOfEmpties(threads: seq<seq<Op>>)
    requires forall t :: 0 <= t < |threads| ==> threads[t] == []
    ensures Concat(threads) == []
  {
    if threads != [] {
      ConcatOfEmpties(threads[1..]);
    }
  }

  // Taking the first step of thread t out of the sequence, with the steps that precede it.
  lemma {:induction false} TakeStep(threads: seq<seq<Op>>, t: nat) returns (before: seq<Op>, after: seq<Op>)
    requires t < |threads| && threads[t] != []
    ensures Concat(threads) == before + ([threads[t][0]] + after)
    ensures Concat(threads[t := threads[t][1..]]) == before + after
    ensures forall b :: b in before ==> exists u :: 0 <= u < t && b in threads[u]
  {
    var shorter := threads[t := threads[t][1..]];
    if t == 0 {
      before, after := [], threads[0][1..] + Concat(threads[1..]);
      assert threads[0] == [threads[0][0]] + threads[0][1..];
      assert shorter[1..] == threads[1..];
    } else {
      var before', after' := TakeStep(threads[1..], t - 1);
      before, after := threads[0] + before', after';
      assert shorter[1..] == threads[1..][t - 1 := threads[t][1..]];
      forall b | b in before ensures exists u :: 0 <= u < t && b in threads[u] {
        if b in before' && b !in threads[0] {
          var u :| 0 <= u < t - 1 && b in threads[1..][u];
          assert b in threads[u + 1];
        }
      }
    }
  }

  // Any interleaving of race-free threads ends exactly as running them one after another:
  // in the same state, or, failing, where the sequence fails too.
  lemma {:induction false} EveryInterleavingIsTheSequence(threads: seq<seq<Op>>, waits: Waits,
                                                          schedule: seq<nat>, s: State)
    requires RaceFree(threads, waits) && Complete(threads, waits, schedule)
    ensures Run(Merge(threads, waits, schedule), s) == Run(Concat(threads), s)
    decreases |schedule|
  {
    if schedule == [] {
      ConcatOfEmpties(threads);
    } else {
      var t := schedule[0];
      var a := threads[t][0];
      var shorter := threads[t := threads[t][1..]];
      var before, after := TakeStep(threads, t);
      SequenceFrom(threads, waits, t, before, after, s);
      RunConcat([a], Merge(shorter, waits, schedule[1..]), s);
      ShorterIsRaceFree(threads, waits, t);
      if Run([a], s).Some? {
        EveryInterleavingIsTheSequence(shorter, waits, schedule[1..], Run([a], s).value);
      }
    }
  }

  lemma ShorterIsRaceFree(threads: seq<seq<Op>>, waits: Waits, t: nat)
    requires RaceFree(threads, waits) && t < |threads| && threads[t] != []
    ensures RaceFree(threads[t := threads[t][1..]], waits)
  {
    var shorter := threads[t := threads[t][1..]];
    forall u, a | 0 <= u < |shorter| && a in shorter[u] ensures a in threads[u] {
      if u == t {
        assert a in threads[t][1..];
      }
    }
  }

  lemma SequenceFrom(threads: seq<seq<Op>>, waits: Waits, t: nat, before: seq<Op>, after: seq<Op>, s: State)
    requires RaceFree(threads, waits) && t < |threads| && threads[t] != [] && Ready(threads, waits, t)
    requires Concat(threads) == before + ([threads[t][0]] + after)
    requires forall b :: b in before ==> exists u :: 0 <= u < t && b in threads[u]
    ensures var first := Run([threads[t][0]], s);
            Run(Concat(threads), s) == if first.None? then None else Run(before + after, first.value)
  {
    var a := threads[t][0];
    forall b | b in before ensures Independent(a, b) {
      var u :| 0 <= u < t && b in threads[u];
      assert a in threads[t];
    }
    assert before + ([a] + after) == (before + [a]) + after;
    assert [a] + (before + after) == ([a] + before) + after;
    RunConcat(before + [a], after, s);
    RunConcat([a] + before, after, s);
    MoveToFront(before, a, s);
    RunConcat([a], before + after, s);
  }

  lemma RunStep(op: Op, rest: seq<Op>, s: State)
    ensures Run([op] + rest, s) == if Apply(op, s).None? then None else Run(rest, Apply(op, s).value)
  {
    assert ([op] + rest)[1..] == rest;
  }

  lemma {:induction false} ThreadOf(threads: seq<seq<Op>>, op: Op) returns (t: nat)
    requires op in Concat(threads)
    ensures t < |threads| && op in threads[t]
  {
    if op in threads[0] {
      t := 0;
    } else {
      t := ThreadOf(threads[1..], op);
      t := t + 1;
    }
  }

  lemma ConcatFromThree(threads: seq<seq<Op>>)
    requires |threads| >= 3
    ensures Concat(threads) == threads[0] + (threads[1] + (threads[2] + Concat(threads[3..])))
  {
    assert threads[1..][1..] == threads[2..] && threads[2..][1..] == threads[3..];
    assert Concat(threads[2..]) == threads[2] + Concat(threads[3..]);
    assert Concat(threads[1..]) == threads[1] + Concat(threads[2..]);
  }

  // ---------- Schedules ----------

  // Letting thread t run to its end first.
  lemma {:induction false} FinishThread(threads: seq<seq<Op>>, waits: Waits, t: nat, rest: seq<nat>)
      returns (schedule: seq<nat>)
    requires t < |threads| && (t, t) !in waits && Ready(threads, waits, t) && Complete(threads[t := []], waits, rest)
    ensures Complete(threads, waits, schedule)
    ensures Merge(threads, waits, schedule) == threads[t] + Merge(threads[t := []], waits, rest)
    decreases |threads[t]|
  {
    if threads[t] == [] {
      assert threads[t := []] == threads;
      schedule := rest;
    } else {
      var shorter := threads[t := threads[t][1..]];
      assert shorter[t := []] == threads[t := []];
      var later := FinishThread(shorter, waits, t, rest);
      schedule := [t] + later;
      assert schedule[1..] == later;
    }
  }

  // One schedule is the sequence itself.
  lemma {:induction false} InOrder(threads: seq<seq<Op>>, waits: Waits, k: nat) returns (schedule: seq<nat>)
    requires k <= |threads| && forall t :: 0 <= t < k ==> threads[t] == []
    requires forall t: nat, u: nat :: (t, u) in waits ==> u < t
    ensures Complete(threads, waits, schedule) && Merge(threads, waits, schedule) == Concat(threads[k..])
    decreases |threads| - k
  {
    if k == |threads| {
      schedule := [];
    } else {
      var later := InOrder(threads[k := []], waits, k + 1);
      assert threads[k := []][k + 1..] == threads[k + 1..] == threads[k..][1..];
      schedule := FinishThread(threads, waits, k, later);
    }
  }

  lemma {:induction false} RunKeepsAbsent(ops: seq<Op>, c: Cell, s: State)
    requires c !in s && forall op :: op in ops ==> c !in Writes(op)
    ensures Run(ops, s).Some? ==> c !in Run(ops, s).value
  {
    if ops != [] && Apply(ops[0], s).Some? {
      assert ops[0] in ops;
      RunKeepsAbsent(ops[1..], c, Apply(ops[0], s).value);
    }
  }

  // ---------- The race of the two arrivals ----------

  // Whose result arrives first in a list of steps.
  predicate MemeFirst(ops: seq<Op>) {
    ops == [] || if ops[0].Arrive? then ops[0].meme else MemeFirst(ops[1..])
  }

  // The step as it will turn out, when it is known who arrives first.
  function Fixed(op: Op, memeFirst: bool): Op {
    if !op.Arrive? then op else if op.meme == memeFirst then Note(memeFirst) else Skip
  }

  function FixAll(ops: seq<Op>, memeFirst: bool): (r: seq<Op>)
    ensures |r| == |ops|
  {
    seq(|ops|, i requires 0 <= i < |ops| => Fixed(ops[i], memeFirst))
  }

  function FixThreads(threads: seq<seq<Op>>, memeFirst: bool): (r: seq<seq<Op>>)
    ensures |r| == |threads|
  {
    seq(|threads|, t requires 0 <= t < |threads| => FixAll(threads[t], memeFirst))
  }

  // Once somebody has arrived, later arrivals change nothing.
  lemma {:induction false} FixAfterFirst(ops: seq<Op>, memeFirst: bool, s: State)
    requires First in s && s[First] == Label(memeFirst) && forall op :: op in ops ==> !op.Note?
    ensures Run(FixAll(ops, memeFirst), s) == Run(ops, s)
  {
    if ops != [] {
      assert ops[0] in ops;
      assert FixAll(ops, memeFirst)[1..] == FixAll(ops[1..], memeFirst);
      var next := Apply(ops[0], s);
      assert s[First := Label(memeFirst)] == s;
      assert next == Apply(Fixed(ops[0], memeFirst), s);
      if next.Some? {
        FixAfterFirst(ops[1..], memeFirst, next.value);
      }
    }
  }

  // Knowing who arrives first changes nothing either.
  lemma {:induction false} FixIsRun(ops: seq<Op>, s: State)
    requires First !in s && forall op :: op in ops ==> !op.Note?
    ensures Run(FixAll(ops, MemeFirst(ops)), s) == Run(ops, s)
  {
    if ops != [] {
      var memeFirst := MemeFirst(ops);
      assert FixAll(ops, memeFirst)[1..] == FixAll(ops[1..], memeFirst);
      assert ops[0] in ops;
      var next := Apply(ops[0], s);
      assert next == Apply(Fixed(ops[0], memeFirst), s);
      if next.Some? {
        if ops[0].Arrive? {
          FixAfterFirst(ops[1..], memeFirst, next.value);
        } else {
          FixIsRun(ops[1..], next.value);
        }
      }
    }
  }

  lemma {:induction false} FixMerge(threads: seq<seq<Op>>, waits: Waits, schedule: seq<nat>, memeFirst: bool)
    requires Complete(threads, waits, schedule)
    ensures Complete(FixThreads(threads, memeFirst), waits, schedule)
    ensures Merge(FixThreads(threads, memeFirst), waits, schedule) == FixAll(Merge(threads, waits, schedule), memeFirst)
    decreases |schedule|
  {
    var fixed := FixThreads(threads, memeFirst);
    if schedule != [] {
      var t := schedule[0];
      var shorter := threads[t := threads[t][1..]];
      FixMerge(shorter, waits, schedule[1..], memeFirst);
      assert fixed[t][1..] == FixAll(threads[t][1..], memeFirst);
      assert fixed[t := fixed[t][1..]] == FixThreads(shorter, memeFirst);
      assert Ready(fixed, waits, t);
    }
  }

  lemma {:induction false} MergeMember(threads: seq<seq<Op>>, waits: Waits, schedule: seq<nat>, op: Op) returns (t: nat)
    requires Complete(threads, waits, schedule) && op in Merge(threads, waits, schedule)
    ensures t < |threads| && op in threads[t]
    decreases |schedule|
  {
    t := schedule[0];
    if op != threads[t][0] {
      var shorter := threads[t := threads[t][1..]];
      var u := MergeMember(shorter, waits, schedule[1..], op);
      assert u == t ==> op in threads[t][1..];
      t := u;
    }
  }

  lemma {:induction false} MemeFirstSkips(a: seq<Op>, b: seq<Op>)
    requires forall op :: op in a ==> !op.Arrive?
    ensures MemeFirst(a + b) == MemeFirst(b)
  {
    if a == [] {
      assert a + b == b;
    } else {
      assert (a + b)[0] == a[0] && (a + b)[1..] == a[1..] + b && a[0] in a;
      MemeFirstSkips(a[1..], b);
    }
  }

  // Every interleaving, with the race settled as its schedule settles it: it ends as the
  // sequence of the threads in which that is known.
  lemma EveryInterleavingIsItsSequence(threads: seq<seq<Op>>, waits: Waits, schedule: seq<nat>, s: State)
    requires Complete(threads, waits, schedule) && First !in s
    requires forall t, op :: 0 <= t < |threads| && op in threads[t] ==> !op.Note?
    requires RaceFree(FixThreads(threads, MemeFirst(Merge(threads, waits, schedule))), waits)
    ensures Run(Merge(threads, waits, schedule), s)
         == Run(Concat(FixThreads(threads, MemeFirst(Merge(threads, waits, schedule)))), s)
  {
    var ops := Merge(threads, waits, schedule);
    var memeFirst := MemeFirst(ops);
    forall op | op in ops ensures !op.Note? {
      var t := MergeMember(threads, waits, schedule, op);
    }
    FixIsRun(ops, s);
    FixMerge(threads, waits, schedule, memeFirst);
    EveryInterleavingIsTheSequence(FixThreads(threads, memeFirst), waits, schedule, s);
  }
}
