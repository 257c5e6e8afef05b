/** The parallel stage of EverythingStrategy: the two OCR commands, the runner that waits for
    both, and one processor per thumbnail work on the same image at once.
 */
module ParallelStage {
  import opened Wrappers
  import opened Commands
  import opened Interleaving
  import OcrText
  import MultiOcr

  // The scratch files of the two OCR commands.
  const MEME_PICTURE := "meme.jpg"
  const MEME_TEXT := "meme.txt"
  const STANDARD_PICTURE := "standard.jpg"
  const STANDARD_TEXT := "standard.txt"

  const RESERVED := [MEME_PICTURE, MEME_TEXT, STANDARD_PICTURE, STANDARD_TEXT]

  function Beside(image: string, name: string): string {
    image + "_" + name
  }

  // Preprocess, recognise, read the text, delete both scratch files, send the result.
  function OcrCommand(image: string, k: nat, picture: string, text: string, ocr: Ocr, arrival: Op): seq<Op> {
    var p, t := Beside(image, picture), Beside(image, text);
    [Convert(image, p, ocr.gm), Convert(p, t, ocr.tesseract), Hear(k, t, ocr.lower), Remove(t), Remove(p), arrival]
  }

  function ThumbProcess(image: string, k: nat, thumb: Thumb): seq<Op> {
    var out := Beside(image, thumb.name);
    if thumb.circle then [Convert(image, out, thumb.gm), Convert(out, out, thumb.round), Adopt(k, out)]
    else [Convert(image, out, thumb.gm), Adopt(k, out)]
  }

  // What the stage is to do.
  datatype Plan = Plan(meme: Ocr, standard: Ocr, speller: Option<OcrText.Speller>, thumbs: seq<Thumb>)

  function MemeThread(image: string, plan: Plan, arrival: Op): seq<Op> {
    OcrCommand(image, 0, MEME_PICTURE, MEME_TEXT, plan.meme, arrival)
  }

  function StandardThread(image: string, plan: Plan, arrival: Op): seq<Op> {
    OcrCommand(image, 1, STANDARD_PICTURE, STANDARD_TEXT, plan.standard, arrival)
  }

  function RunnerThread(plan: Plan): seq<Op> {
    [Settle(plan.speller)]
  }

  // The OCR runner's two commands, the runner itself once it has both results, and the
  // thumbnails.  The commands' last steps are a0 and a1.
  function StageWith(image: string, plan: Plan, a0: Op, a1: Op): (threads: seq<seq<Op>>)
    ensures |threads| == 3 + |plan.thumbs|
  {
    [MemeThread(image, plan, a0), StandardThread(image, plan, a1), RunnerThread(plan)]
    + seq(|plan.thumbs|, k requires 0 <= k < |plan.thumbs| => ThumbProcess(image, k, plan.thumbs[k]))
  }

  const WAITS: Waits := {(2, 0), (2, 1)}

  // The stage itself: the schedule decides whose result arrives first.
  function Stage(image: string, plan: Plan): (threads: seq<seq<Op>>)
    ensures |threads| == 3 + |plan.thumbs|
  {
    StageWith(image, plan, Arrive(true), Arrive(false))
  }

  // The stage when it is known whose result arrives first.
  function OrderedStage(image: string, plan: Plan, memeFirst: bool): (threads: seq<seq<Op>>)
    ensures |threads| == 3 + |plan.thumbs|
  {
    StageWith(image, plan, Fixed(Arrive(true), memeFirst), Fixed(Arrive(false), memeFirst))
  }

  ghost predicate MemeArrivesFirst(image: string, plan: Plan, schedule: seq<nat>)
    requires Complete(Stage(image, plan), WAITS, schedule)
  {
    MemeFirst(Merge(Stage(image, plan), WAITS, schedule))
  }

  // Every command of the plan succeeds on this image.
  predicate Succeeds(plan: Plan, original: string) {
    Hears(plan.meme, plan.standard, original) && Drawable(plan.thumbs, original)
  }

  // The text the upload ends with, depending on whose result arrives first.
  function TextOf(plan: Plan, memeFirst: bool, original: string): string
    requires Hears(plan.meme, plan.standard, original)
  {
    Settled(plan.speller, memeFirst, Recognised(plan.meme, original).value, Recognised(plan.standard, original).value)
  }

  // The two texts differ after filtering, and have equally many words.
  predicate Tie(plan: Plan, original: string)
    requires Hears(plan.meme, plan.standard, original)
  {
    var meme, standard := Recognised(plan.meme, original).value, Recognised(plan.standard, original).value;
    && MultiOcr.Score(plan.speller, meme) == MultiOcr.Score(plan.speller, standard)
    && OcrText.Filtered(plan.speller, meme) != OcrText.Filtered(plan.speller, standard)
  }

  predicate Unreserved(names: seq<string>) {
    forall k :: 0 <= k < |names| ==> names[k] !in RESERVED
  }

  predicate AllDifferent(names: seq<string>) {
    forall j, k :: 0 <= j < k < |names| ==> names[j] != names[k]
  }

  predicate NamesOk(names: seq<string>) {
    Unreserved(names) && AllDifferent(names)
  }

  function Names(thumbs: seq<Thumb>): seq<string> {
    seq(|thumbs|, k requires 0 <= k < |thumbs| => thumbs[k].name)
  }

  function MemeScratch(image: string): set<Cell> {
    {File(Beside(image, MEME_PICTURE)), File(Beside(image, MEME_TEXT))}
  }

  function StandardScratch(image: string): set<Cell> {
    {File(Beside(image, STANDARD_PICTURE)), File(Beside(image, STANDARD_TEXT))}
  }

  // The cells thread t of the stage may write, when memeFirst says who notes its arrival.
  function Territory(image: string, thumbs: seq<Thumb>, memeFirst: bool, t: nat): set<Cell>
    requires t < 3 + |thumbs|
  {
    if t == 0 then MemeScratch(image) + {Heard(0)} + if memeFirst then {First} else {}
    else if t == 1 then StandardScratch(image) + {Heard(1)} + if memeFirst then {} else {First}
    else if t == 2 then {UploadText}
    else {File(Beside(image, thumbs[t - 3].name)), ThumbPath(t - 3)}
  }

  lemma BesideIsInjective(image: string, a: string, b: string)
    ensures Beside(image, a) == Beside(image, b) ==> a == b
    ensures Beside(image, a) != image
  {
    assert Beside(image, a)[|image| + 1..] == a;
    assert Beside(image, b)[|image| + 1..] == b;
  }

  // Each thread writes inside its territory, and reads nothing else but the image itself and,
  // in the runner, what it waits for.
  lemma StaysInside(image: string, plan: Plan, memeFirst: bool, t: nat, op: Op)
    requires t < 3 + |plan.thumbs| && op in OrderedStage(image, plan, memeFirst)[t]
    ensures Writes(op) <= Territory(image, plan.thumbs, memeFirst, t)
    ensures Touches(op) <= Territory(image, plan.thumbs, memeFirst, t)
                           + if t == 2 then {Heard(0), Heard(1), First} else {File(image)}
  {
    if t >= 3 {
      assert OrderedStage(image, plan, memeFirst)[t] == ThumbProcess(image, t - 3, plan.thumbs[t - 3]);
    }
  }

  lemma ReservedAreDifferent()
    ensures MEME_PICTURE != MEME_TEXT && STANDARD_PICTURE != STANDARD_TEXT
    ensures MEME_PICTURE != STANDARD_PICTURE && MEME_PICTURE != STANDARD_TEXT
    ensures MEME_TEXT != STANDARD_PICTURE && MEME_TEXT != STANDARD_TEXT
    ensures MEME_PICTURE in RESERVED && MEME_TEXT in RESERVED
    ensures STANDARD_PICTURE in RESERVED && STANDARD_TEXT in RESERVED
  {
    assert RESERVED[0] == MEME_PICTURE && RESERVED[1] == MEME_TEXT;
    assert RESERVED[2] == STANDARD_PICTURE && RESERVED[3] == STANDARD_TEXT;
    assert MEME_PICTURE[0] != STANDARD_PICTURE[0];
  }

  lemma ScratchFilesAreDifferent(image: string)
    ensures MemeScratch(image) !! StandardScratch(image)
    ensures File(image) !in MemeScratch(image) + StandardScratch(image)
    ensures forall c :: c in MemeScratch(image) + StandardScratch(image) ==> c.File?
  {
    ReservedAreDifferent();
    BesideIsInjective(image, MEME_PICTURE, STANDARD_PICTURE);
    BesideIsInjective(image, MEME_PICTURE, STANDARD_TEXT);
    BesideIsInjective(image, MEME_TEXT, STANDARD_PICTURE);
    BesideIsInjective(image, MEME_TEXT, STANDARD_TEXT);
    BesideIsInjective(image, STANDARD_PICTURE, MEME_PICTURE);
    BesideIsInjective(image, STANDARD_TEXT, MEME_TEXT);
  }

  lemma UnreservedIsNoScratch(image: string, name: string)
    requires name !in RESERVED
    ensures File(Beside(image, name)) !in MemeScratch(image) + StandardScratch(image)
  {
    ReservedAreDifferent();
    BesideIsInjective(image, name, MEME_PICTURE);
    BesideIsInjective(image, name, MEME_TEXT);
    BesideIsInjective(image, name, STANDARD_PICTURE);
    BesideIsInjective(image, name, STANDARD_TEXT);
  }

  lemma TerritoriesAreDisjoint(image: string, thumbs: seq<Thumb>, memeFirst: bool, t: nat, u: nat)
    requires NamesOk(Names(thumbs)) && t < 3 + |thumbs| && u < 3 + |thumbs| && t != u
    ensures Territory(image, thumbs, memeFirst, t) !! Territory(image, thumbs, memeFirst, u)
    ensures File(image) !in Territory(image, thumbs, memeFirst, t)
  {
    ScratchFilesAreDifferent(image);
    if t >= 3 {
      assert Names(thumbs)[t - 3] == thumbs[t - 3].name;
      UnreservedIsNoScratch(image, thumbs[t - 3].name);
      BesideIsInjective(image, thumbs[t - 3].name, thumbs[t - 3].name);
    }
    if u >= 3 {
      assert Names(thumbs)[u - 3] == thumbs[u - 3].name;
      UnreservedIsNoScratch(image, thumbs[u - 3].name);
    }
    if t >= 3 && u >= 3 {
      assert Names(thumbs)[t - 3] != Names(thumbs)[u - 3];
      BesideIsInjective(image, thumbs[t - 3].name, thumbs[u - 3].name);
    }
    hide Beside, MemeScratch, StandardScratch, Names, NamesOk;
  }

  lemma OrderedIsRaceFree(image: string, plan: Plan, memeFirst: bool)
    requires NamesOk(Names(plan.thumbs))
    ensures RaceFree(OrderedStage(image, plan, memeFirst), WAITS)
  {
    var threads := OrderedStage(image, plan, memeFirst);
    forall t: nat, u: nat, a, b | u < t < |threads| && (t, u) !in WAITS && a in threads[t] && b in threads[u]
      ensures Independent(a, b)
    {
      StaysInside(image, plan, memeFirst, t, a);
      StaysInside(image, plan, memeFirst, u, b);
      TerritoriesAreDisjoint(image, plan.thumbs, memeFirst, t, u);
      TerritoriesAreDisjoint(image, plan.thumbs, memeFirst, u, t);
    }
  }

  lemma OrderedIsFixed(image: string, plan: Plan, memeFirst: bool)
    ensures FixThreads(Stage(image, plan), memeFirst) == OrderedStage(image, plan, memeFirst)
    ensures forall t, op :: 0 <= t < |Stage(image, plan)| && op in Stage(image, plan)[t] ==> !op.Note?
  {
    var threads, ordered := Stage(image, plan), OrderedStage(image, plan, memeFirst);
    forall t | 0 <= t < |threads| ensures FixAll(threads[t], memeFirst) == ordered[t] {
      if t >= 3 {
        assert threads[t] == ThumbProcess(image, t - 3, plan.thumbs[t - 3]) == ordered[t];
      }
    }
  }

  // With distinct thumbnail names, none of them a scratch file's: an interleaving of the stage
  // decides nothing but whose result arrives first.  It ends as running OCR and the thumbnails
  // one after another with that known, failures included, and never changes the image.
  lemma ScheduleOnlyOrdersArrivals(image: string, plan: Plan, schedule: seq<nat>, s: State)
    requires NamesOk(Names(plan.thumbs)) && Complete(Stage(image, plan), WAITS, schedule) && First !in s
    ensures Run(Merge(Stage(image, plan), WAITS, schedule), s)
         == Run(Concat(OrderedStage(image, plan, MemeArrivesFirst(image, plan, schedule))), s)
    ensures forall op :: op in Concat(OrderedStage(image, plan, MemeArrivesFirst(image, plan, schedule))) ==>
              File(image) !in Writes(op)
  {
    var memeFirst := MemeArrivesFirst(image, plan, schedule);
    var threads := OrderedStage(image, plan, memeFirst);
    OrderedIsFixed(image, plan, memeFirst);
    OrderedIsRaceFree(image, plan, memeFirst);
    EveryInterleavingIsItsSequence(Stage(image, plan), WAITS, schedule, s);
    forall op | op in Concat(threads) ensures File(image) !in Writes(op) {
      var t := ThreadOf(threads, op);
      StaysInside(image, plan, memeFirst, t, op);
      TerritoriesAreDisjoint(image, plan.thumbs, memeFirst, t, if t == 0 then 1 else 0);
    }
  }

  // ---------- What the stage leaves behind ----------

  predicate IsArrival(op: Op) {
    op.Arrive? || op.Note? || op.Skip?
  }

  // Run one after the other from s, the steps a0 and a1 leave this in First.
  ghost predicate Says(a0: Op, a1: Op, memeFirst: bool, s: State) {
    || (a0 == Arrive(true) && a1 == Arrive(false) && memeFirst && First !in s)
    || (a0 == Fixed(Arrive(true), memeFirst) && a1 == Fixed(Arrive(false), memeFirst))
  }

  lemma OcrCommandEffect(image: string, k: nat, picture: string, text: string, ocr: Ocr, arrival: Op, s: State)
    requires File(image) in s && picture != text && Recognised(ocr, s[File(image)]).Some? && IsArrival(arrival)
    ensures Run(OcrCommand(image, k, picture, text, ocr, arrival), s)
         == Apply(arrival, (s - {File(Beside(image, picture)), File(Beside(image, text))})
                           [Heard(k) := Recognised(ocr, s[File(image)]).value])
  {
    var p, t := Beside(image, picture), Beside(image, text);
    BesideIsInjective(image, picture, text);
    hide Beside, OcrText.TrimSpace;
    var heard := Recognised(ocr, s[File(image)]).value;
    var s1 := s[File(p) := ocr.gm(s[File(image)]).value];
    var s2 := s1[File(t) := ocr.tesseract(s1[File(p)]).value];
    var s3 := s2[Heard(k) := heard];
    var s4 := s3 - {File(t)};
    var s5 := s4 - {File(p)};
    var ops5 := [arrival] + [];
    var ops4 := [Remove(p)] + ops5;
    var ops3 := [Remove(t)] + ops4;
    var ops2 := [Hear(k, t, ocr.lower)] + ops3;
    var ops1 := [Convert(p, t, ocr.tesseract)] + ops2;
    RunStep(arrival, [], s5);
    RunStep(Remove(p), ops5, s4);
    RunStep(Remove(t), ops4, s3);
    RunStep(Hear(k, t, ocr.lower), ops3, s2);
    RunStep(Convert(p, t, ocr.tesseract), ops2, s1);
    RunStep(Convert(image, p, ocr.gm), ops1, s);
    assert OcrCommand(image, k, picture, text, ocr, arrival) == [Convert(image, p, ocr.gm)] + ops1;
    assert s5 == (s - {File(p), File(t)})[Heard(k) := heard];
  }

  lemma ThumbEffect(image: string, k: nat, thumb: Thumb, s: State)
    requires File(image) in s && Picture(thumb, s[File(image)]).Some?
    ensures Run(ThumbProcess(image, k, thumb), s)
         == Some(s[File(Beside(image, thumb.name)) := Picture(thumb, s[File(image)]).value]
                 [ThumbPath(k) := Beside(image, thumb.name)])
  {
    var out := Beside(image, thumb.name);
    var first := Convert(image, out, thumb.gm);
    var s1 := s[File(out) := thumb.gm(s[File(image)]).value];
    if thumb.circle {
      var second := Convert(out, out, thumb.round);
      var s2 := s1[File(out) := thumb.round(s1[File(out)]).value];
      RunStep(Adopt(k, out), [], s2);
      RunStep(second, [Adopt(k, out)] + [], s1);
      RunStep(first, [second] + ([Adopt(k, out)] + []), s);
      assert ThumbProcess(image, k, thumb) == [first] + ([second] + ([Adopt(k, out)] + []));
      assert s2 == s[File(out) := Picture(thumb, s[File(image)]).value];
    } else {
      RunStep(Adopt(k, out), [], s1);
      RunStep(first, [Adopt(k, out)] + [], s);
      assert ThumbProcess(image, k, thumb) == [first] + ([Adopt(k, out)] + []);
    }
  }

  function ThumbThreads(image: string, thumbs: seq<Thumb>, k: nat): seq<seq<Op>>
    requires k <= |thumbs|
    decreases |thumbs| - k
  {
    if k == |thumbs| then [] else [ThumbProcess(image, k, thumbs[k])] + ThumbThreads(image, thumbs, k + 1)
  }

  // The thumbnails from k on are in place, and nothing else has changed.
  ghost predicate ThumbsInPlace(image: string, thumbs: seq<Thumb>, k: nat, s: State, r: State)
    requires File(image) in s
  {
    && (forall j :: k <= j < |thumbs| ==>
          && File(Beside(image, thumbs[j].name)) in r && ThumbPath(j) in r
          && Picture(thumbs[j], s[File(image)]) == Some(r[File(Beside(image, thumbs[j].name))])
          && r[ThumbPath(j)] == Beside(image, thumbs[j].name))
    && (forall c :: !IsThumbCell(image, thumbs, k, c) ==> (c in r <==> c in s) && (c in s ==> r[c] == s[c]))
  }

  // A cell that belongs to one of the thumbnails from k on.
  predicate IsThumbCell(image: string, thumbs: seq<Thumb>, k: nat, c: Cell) {
    exists j :: k <= j < |thumbs| && (c == File(Beside(image, thumbs[j].name)) || c == ThumbPath(j))
  }

  lemma OneMoreInPlace(image: string, thumbs: seq<Thumb>, k: nat, s: State, s1: State, r: State)
    requires File(image) in s && k < |thumbs| && AllDifferent(Names(thumbs))
    requires var out := Beside(image, thumbs[k].name);
             && Picture(thumbs[k], s[File(image)]).Some?
             && s1 == s[File(out) := Picture(thumbs[k], s[File(image)]).value][ThumbPath(k) := out]
    requires File(image) in s1 && s1[File(image)] == s[File(image)]
    requires ThumbsInPlace(image, thumbs, k + 1, s1, r)
    ensures ThumbsInPlace(image, thumbs, k, s, r)
  {
    hide Picture;
    var out := Beside(image, thumbs[k].name);
    forall j | k < j < |thumbs| ensures Beside(image, thumbs[j].name) != out {
      assert Names(thumbs)[k] != Names(thumbs)[j];
      BesideIsInjective(image, thumbs[j].name, thumbs[k].name);
    }
    hide Beside, Names;
    assert !IsThumbCell(image, thumbs, k + 1, File(out)) && !IsThumbCell(image, thumbs, k + 1, ThumbPath(k));
    forall c | !IsThumbCell(image, thumbs, k, c)
      ensures (c in r <==> c in s) && (c in s ==> r[c] == s[c])
    {
      assert c != File(out) && c != ThumbPath(k) && !IsThumbCell(image, thumbs, k + 1, c);
    }
  }

  lemma {:induction false} ThumbsEffect(image: string, thumbs: seq<Thumb>, k: nat, s: State) returns (r: State)
    requires File(image) in s && k <= |thumbs| && AllDifferent(Names(thumbs))
    requires forall j :: k <= j < |thumbs| ==> Picture(thumbs[j], s[File(image)]).Some?
    ensures Run(Concat(ThumbThreads(image, thumbs, k)), s) == Some(r)
    ensures ThumbsInPlace(image, thumbs, k, s, r)
    decreases |thumbs| - k
  {
    if k == |thumbs| {
      r := s;
    } else {
      var out := Beside(image, thumbs[k].name);
      ThumbEffect(image, k, thumbs[k], s);
      BesideIsInjective(image, thumbs[k].name, thumbs[k].name);
      var s1 := s[File(out) := Picture(thumbs[k], s[File(image)]).value][ThumbPath(k) := out];
      r := ThumbsEffect(image, thumbs, k + 1, s1);
      RunConcat(ThumbProcess(image, k, thumbs[k]), Concat(ThumbThreads(image, thumbs, k + 1)), s);
      OneMoreInPlace(image, thumbs, k, s, s1, r);
    }
  }

  lemma {:induction false} ThumbThreadsAre(image: string, thumbs: seq<Thumb>, k: nat)
    requires k <= |thumbs|
    ensures |ThumbThreads(image, thumbs, k)| == |thumbs| - k
    ensures forall j :: k <= j < |thumbs| ==> ThumbThreads(image, thumbs, k)[j - k] == ThumbProcess(image, j, thumbs[j])
    decreases |thumbs| - k
  {
    hide ThumbProcess;
    if k < |thumbs| {
      ThumbThreadsAre(image, thumbs, k + 1);
      forall j | k < j < |thumbs| ensures ThumbThreads(image, thumbs, k)[j - k] == ThumbProcess(image, j, thumbs[j]) {
        assert ThumbThreads(image, thumbs, k)[j - k] == ThumbThreads(image, thumbs, k + 1)[j - (k + 1)];
      }
    }
  }

  function Scratch(image: string): set<Cell> {
    MemeScratch(image) + StandardScratch(image)
  }

  lemma ScratchIsNotImage(image: string)
    ensures File(image) !in Scratch(image)
  {
    BesideIsInjective(image, MEME_PICTURE, MEME_PICTURE);
    BesideIsInjective(image, MEME_TEXT, MEME_TEXT);
    BesideIsInjective(image, STANDARD_PICTURE, STANDARD_PICTURE);
    BesideIsInjective(image, STANDARD_TEXT, STANDARD_TEXT);
  }

  // After OCR: the scratch files are gone, both commands have been heard, one of them first,
  // and the text is set.
  function AfterOcr(image: string, plan: Plan, memeFirst: bool, s: State): State
    requires File(image) in s && Hears(plan.meme, plan.standard, s[File(image)])
  {
    var original := s[File(image)];
    (s - Scratch(image))[Heard(0) := Recognised(plan.meme, original).value]
                        [Heard(1) := Recognised(plan.standard, original).value]
                        [First := Label(memeFirst)]
                        [UploadText := TextOf(plan, memeFirst, original)]
  }

  lemma MemeEffect(image: string, plan: Plan, arrival: Op, s: State)
    requires File(image) in s && Recognised(plan.meme, s[File(image)]).Some? && IsArrival(arrival)
    ensures Run(MemeThread(image, plan, arrival), s)
         == Apply(arrival, (s - MemeScratch(image))[Heard(0) := Recognised(plan.meme, s[File(image)]).value])
  {
    ReservedAreDifferent();
    OcrCommandEffect(image, 0, MEME_PICTURE, MEME_TEXT, plan.meme, arrival, s);
  }

  lemma StandardEffect(image: string, plan: Plan, arrival: Op, s: State)
    requires File(image) in s && Recognised(plan.standard, s[File(image)]).Some? && IsArrival(arrival)
    ensures Run(StandardThread(image, plan, arrival), s)
         == Apply(arrival, (s - StandardScratch(image))[Heard(1) := Recognised(plan.standard, s[File(image)]).value])
  {
    ReservedAreDifferent();
    OcrCommandEffect(image, 1, STANDARD_PICTURE, STANDARD_TEXT, plan.standard, arrival, s);
  }

  lemma OcrEffect(image: string, plan: Plan, a0: Op, a1: Op, memeFirst: bool, rest: seq<Op>, s: State)
    requires File(image) in s && Hears(plan.meme, plan.standard, s[File(image)]) && Says(a0, a1, memeFirst, s)
    ensures Run(MemeThread(image, plan, a0) + (StandardThread(image, plan, a1) + (RunnerThread(plan) + rest)), s)
         == Run(rest, AfterOcr(image, plan, memeFirst, s))
  {
    hide MemeThread, StandardThread, Recognised, Settled;
    var original := s[File(image)];
    ScratchIsNotImage(image);
    hide MemeScratch, StandardScratch;
    MemeEffect(image, plan, a0, s);
    var s1 := Apply(a0, (s - MemeScratch(image))[Heard(0) := Recognised(plan.meme, original).value]).value;
    StandardEffect(image, plan, a1, s1);
    var s2 := Apply(a1, (s1 - StandardScratch(image))[Heard(1) := Recognised(plan.standard, original).value]).value;
    RunConcat(MemeThread(image, plan, a0), StandardThread(image, plan, a1) + (RunnerThread(plan) + rest), s);
    RunConcat(StandardThread(image, plan, a1), RunnerThread(plan) + rest, s1);
    RunStep(Settle(plan.speller), rest, s2);
    SettledIsAfterOcr(image, plan, a0, a1, memeFirst, s, s1, s2);
  }

  lemma SettledIsAfterOcr(image: string, plan: Plan, a0: Op, a1: Op, memeFirst: bool, s: State, s1: State, s2: State)
    requires File(image) in s && Hears(plan.meme, plan.standard, s[File(image)]) && Says(a0, a1, memeFirst, s)
    requires Some(s1) == Apply(a0, (s - MemeScratch(image))[Heard(0) := Recognised(plan.meme, s[File(image)]).value])
    requires Some(s2)
          == Apply(a1, (s1 - StandardScratch(image))[Heard(1) := Recognised(plan.standard, s[File(image)]).value])
    ensures Apply(Settle(plan.speller), s2) == Some(AfterOcr(image, plan, memeFirst, s))
  {
    hide Recognised, Settled;
    assert First in s2 && s2[First] == Label(memeFirst);
    assert s2[UploadText := TextOf(plan, memeFirst, s[File(image)])] == AfterOcr(image, plan, memeFirst, s);
  }

  lemma ConcatOfStage(image: string, plan: Plan, a0: Op, a1: Op)
    ensures Concat(StageWith(image, plan, a0, a1))
         == MemeThread(image, plan, a0)
            + (StandardThread(image, plan, a1) + (RunnerThread(plan) + Concat(ThumbThreads(image, plan.thumbs, 0))))
  {
    var threads := StageWith(image, plan, a0, a1);
    ThumbThreadsAre(image, plan.thumbs, 0);
    ConcatFromThree(threads);
    assert threads[3..] == ThumbThreads(image, plan.thumbs, 0);
  }

  // One after another, when every command succeeds on the image: the stage succeeds, and
  // afterwards the image is as it was, the text is the better of the two recognised ones,
  // every thumbnail holds its picture, and no scratch file of OCR's is left.
  lemma SequenceOutcome(image: string, plan: Plan, a0: Op, a1: Op, memeFirst: bool, s: State) returns (r: State)
    requires File(image) in s && AllDifferent(Names(plan.thumbs)) && Succeeds(plan, s[File(image)])
    requires Says(a0, a1, memeFirst, s)
    ensures Run(Concat(StageWith(image, plan, a0, a1)), s) == Some(r)
    ensures File(image) in AfterOcr(image, plan, memeFirst, s)
    ensures ThumbsInPlace(image, plan.thumbs, 0, AfterOcr(image, plan, memeFirst, s), r)
  {
    ScratchIsNotImage(image);
    ConcatOfStage(image, plan, a0, a1);
    OcrEffect(image, plan, a0, a1, memeFirst, Concat(ThumbThreads(image, plan.thumbs, 0)), s);
    r := ThumbsEffect(image, plan.thumbs, 0, AfterOcr(image, plan, memeFirst, s));
  }

  // What every interleaving leaves when every command succeeds.
  lemma StageOutcome(image: string, plan: Plan, schedule: seq<nat>, s: State) returns (r: State)
    requires NamesOk(Names(plan.thumbs)) && Complete(Stage(image, plan), WAITS, schedule)
    requires First !in s && File(image) in s && Succeeds(plan, s[File(image)])
    ensures Run(Merge(Stage(image, plan), WAITS, schedule), s) == Some(r)
    ensures var after := AfterOcr(image, plan, MemeArrivesFirst(image, plan, schedule), s);
            File(image) in after && ThumbsInPlace(image, plan.thumbs, 0, after, r)
  {
    var memeFirst := MemeArrivesFirst(image, plan, schedule);
    ScheduleOnlyOrdersArrivals(image, plan, schedule, s);
    r := SequenceOutcome(image, plan, Fixed(Arrive(true), memeFirst), Fixed(Arrive(false), memeFirst), memeFirst, s);
  }

  // ---------- When the stage succeeds ----------

  lemma OcrCommandFails(image: string, k: nat, picture: string, text: string, ocr: Ocr, arrival: Op, s: State)
    requires File(image) in s && Recognised(ocr, s[File(image)]).None?
    ensures Run(OcrCommand(image, k, picture, text, ocr, arrival), s).None?
  {
    var p, t := Beside(image, picture), Beside(image, text);
    var ops := OcrCommand(image, k, picture, text, ocr, arrival);
    assert ops == [ops[0]] + ops[1..] && ops[1..] == [ops[1]] + ops[2..];
    RunStep(ops[0], ops[1..], s);
    if ocr.gm(s[File(image)]).Some? {
      RunStep(ops[1], ops[2..], Apply(ops[0], s).value);
    }
  }

  lemma ThumbFails(image: string, k: nat, thumb: Thumb, s: State)
    requires File(image) in s && Picture(thumb, s[File(image)]).None?
    ensures Run(ThumbProcess(image, k, thumb), s).None?
  {
    var ops := ThumbProcess(image, k, thumb);
    assert ops == [ops[0]] + ops[1..] && ops[1..] == [ops[1]] + ops[2..];
    RunStep(ops[0], ops[1..], s);
    if thumb.gm(s[File(image)]).Some? {
      RunStep(ops[1], ops[2..], Apply(ops[0], s).value);
    }
  }

  lemma {:induction false} ThumbsFail(image: string, thumbs: seq<Thumb>, k: nat, s: State)
    requires File(image) in s && exists j :: k <= j < |thumbs| && Picture(thumbs[j], s[File(image)]).None?
    ensures Run(Concat(ThumbThreads(image, thumbs, k)), s).None?
    decreases |thumbs| - k
  {
    RunConcat(ThumbProcess(image, k, thumbs[k]), Concat(ThumbThreads(image, thumbs, k + 1)), s);
    if Picture(thumbs[k], s[File(image)]).None? {
      ThumbFails(image, k, thumbs[k], s);
    } else {
      ThumbEffect(image, k, thumbs[k], s);
      BesideIsInjective(image, thumbs[k].name, thumbs[k].name);
      ThumbsFail(image, thumbs, k + 1, Run(ThumbProcess(image, k, thumbs[k]), s).value);
    }
  }

  lemma OneOcrFails(image: string, plan: Plan, a0: Op, a1: Op, rest: seq<Op>, s: State)
    requires File(image) in s && !Hears(plan.meme, plan.standard, s[File(image)]) && IsArrival(a0)
    ensures Run(MemeThread(image, plan, a0) + (StandardThread(image, plan, a1) + rest), s).None?
  {
    RunConcat(MemeThread(image, plan, a0), StandardThread(image, plan, a1) + rest, s);
    if Recognised(plan.meme, s[File(image)]).None? {
      OcrCommandFails(image, 0, MEME_PICTURE, MEME_TEXT, plan.meme, a0, s);
    } else {
      ScratchIsNotImage(image);
      MemeEffect(image, plan, a0, s);
      hide MemeThread, MemeScratch, OcrCommand, Recognised;
      var s1 := Run(MemeThread(image, plan, a0), s).value;
      OcrCommandFails(image, 1, STANDARD_PICTURE, STANDARD_TEXT, plan.standard, a1, s1);
      RunConcat(StandardThread(image, plan, a1), rest, s1);
    }
  }

  lemma SequenceFails(image: string, plan: Plan, memeFirst: bool, s: State)
    requires File(image) in s && !Succeeds(plan, s[File(image)])
    ensures Run(Concat(OrderedStage(image, plan, memeFirst)), s).None?
  {
    hide MemeThread, StandardThread, RunnerThread, Recognised, TextOf;
    var a0, a1 := Fixed(Arrive(true), memeFirst), Fixed(Arrive(false), memeFirst);
    var thumbs := Concat(ThumbThreads(image, plan.thumbs, 0));
    ConcatOfStage(image, plan, a0, a1);
    if !Hears(plan.meme, plan.standard, s[File(image)]) {
      OneOcrFails(image, plan, a0, a1, RunnerThread(plan) + thumbs, s);
    } else {
      ScratchIsNotImage(image);
      OcrEffect(image, plan, a0, a1, memeFirst, thumbs, s);
      ThumbsFail(image, plan.thumbs, 0, AfterOcr(image, plan, memeFirst, s));
    }
  }

  // Whether the stage succeeds does not depend on the schedule at all: under every one of
  // them it does exactly when every command succeeds on the image.
  lemma StageSucceedsIff(image: string, plan: Plan, schedule: seq<nat>, s: State)
    requires NamesOk(Names(plan.thumbs)) && Complete(Stage(image, plan), WAITS, schedule)
    requires First !in s && File(image) in s
    ensures Run(Merge(Stage(image, plan), WAITS, schedule), s).Some? <==> Succeeds(plan, s[File(image)])
  {
    if Succeeds(plan, s[File(image)]) {
      var r := StageOutcome(image, plan, schedule, s);
    } else {
      ScheduleOnlyOrdersArrivals(image, plan, schedule, s);
      SequenceFails(image, plan, MemeArrivesFirst(image, plan, schedule), s);
    }
  }

  // ---------- What the schedule can change, and exactly when ----------

  ghost predicate SameAt(a: State, b: State, c: Cell) {
    (c in a <==> c in b) && (c in a ==> a[c] == b[c])
  }

  // The same temporary files with the same contents, and the same thumbnail paths.
  ghost predicate SameFiles(a: Option<State>, b: Option<State>) {
    && (a.Some? <==> b.Some?)
    && (a.Some? ==> forall c: Cell :: c.File? || c.ThumbPath? ==> SameAt(a.value, b.value, c))
  }

  ghost predicate SameText(a: Option<State>, b: Option<State>) {
    (a.Some? <==> b.Some?) && (a.Some? ==> SameAt(a.value, b.value, UploadText))
  }

  // A start of the stage: the image holds these contents and no result has arrived.
  ghost predicate Starts(image: string, original: string, s: State) {
    First !in s && File(image) in s && s[File(image)] == original
  }

  ghost predicate FilesAreFree(image: string, plan: Plan, original: string) {
    forall schedule1, schedule2, s ::
      && Complete(Stage(image, plan), WAITS, schedule1) && Complete(Stage(image, plan), WAITS, schedule2)
      && Starts(image, original, s) ==>
      SameFiles(Run(Merge(Stage(image, plan), WAITS, schedule1), s),
                Run(Merge(Stage(image, plan), WAITS, schedule2), s))
  }

  ghost predicate TextIsFree(image: string, plan: Plan, original: string) {
    forall schedule1, schedule2, s ::
      && Complete(Stage(image, plan), WAITS, schedule1) && Complete(Stage(image, plan), WAITS, schedule2)
      && Starts(image, original, s) ==>
      SameText(Run(Merge(Stage(image, plan), WAITS, schedule1), s),
               Run(Merge(Stage(image, plan), WAITS, schedule2), s))
  }

  lemma PlaceOfCell(image: string, thumbs: seq<Thumb>, s1: State, s2: State, r1: State, r2: State, c: Cell)
    requires File(image) in s1 && File(image) in s2 && s1[File(image)] == s2[File(image)] && SameAt(s1, s2, c)
    requires ThumbsInPlace(image, thumbs, 0, s1, r1) && ThumbsInPlace(image, thumbs, 0, s2, r2)
    ensures SameAt(r1, r2, c)
  {
    hide Picture, Beside;
    if IsThumbCell(image, thumbs, 0, c) {
      var j :| 0 <= j < |thumbs| && (c == File(Beside(image, thumbs[j].name)) || c == ThumbPath(j));
      assert Picture(thumbs[j], s1[File(image)]) == Some(r1[File(Beside(image, thumbs[j].name))]);
      assert Picture(thumbs[j], s2[File(image)]) == Some(r2[File(Beside(image, thumbs[j].name))]);
    }
  }

  lemma OutcomesShareFiles(image: string, plan: Plan, f1: bool, f2: bool, s: State, r1: State, r2: State)
    requires File(image) in s && Succeeds(plan, s[File(image)])
    requires File(image) in AfterOcr(image, plan, f1, s) && File(image) in AfterOcr(image, plan, f2, s)
    requires ThumbsInPlace(image, plan.thumbs, 0, AfterOcr(image, plan, f1, s), r1)
    requires ThumbsInPlace(image, plan.thumbs, 0, AfterOcr(image, plan, f2, s), r2)
    ensures SameFiles(Some(r1), Some(r2))
  {
    var s1, s2 := AfterOcr(image, plan, f1, s), AfterOcr(image, plan, f2, s);
    forall c: Cell | c.File? || c.ThumbPath? ensures SameAt(s1, s2, c) {
      hide Recognised, TextOf, Scratch;
    }
    hide AfterOcr, ThumbsInPlace;
    forall c: Cell | c.File? || c.ThumbPath? ensures SameAt(r1, r2, c) {
      PlaceOfCell(image, plan.thumbs, s1, s2, r1, r2, c);
    }
  }

  lemma TextOfOutcome(image: string, plan: Plan, memeFirst: bool, s: State, r: State)
    requires File(image) in s && Succeeds(plan, s[File(image)]) && File(image) in AfterOcr(image, plan, memeFirst, s)
    requires ThumbsInPlace(image, plan.thumbs, 0, AfterOcr(image, plan, memeFirst, s), r)
    ensures UploadText in r && r[UploadText] == TextOf(plan, memeFirst, s[File(image)])
  {
    assert !IsThumbCell(image, plan.thumbs, 0, UploadText);
  }

  lemma TieIsTheRace(plan: Plan, original: string)
    requires Hears(plan.meme, plan.standard, original)
    ensures Tie(plan, original) <==> TextOf(plan, true, original) != TextOf(plan, false, original)
  {
  }

  lemma ArrivalIn(image: string, k: nat, picture: string, text: string, ocr: Ocr, meme: bool, rest: seq<Op>)
    ensures MemeFirst(OcrCommand(image, k, picture, text, ocr, Arrive(meme)) + rest) == meme
  {
    var ops := OcrCommand(image, k, picture, text, ocr, Arrive(meme));
    assert ops + rest == ops[..5] + ([Arrive(meme)] + rest);
    MemeFirstSkips(ops[..5], [Arrive(meme)] + rest);
  }

  // Either result can be the first.
  lemma EitherCanArriveFirst(image: string, plan: Plan, memeFirst: bool) returns (schedule: seq<nat>)
    ensures Complete(Stage(image, plan), WAITS, schedule)
    ensures MemeArrivesFirst(image, plan, schedule) == memeFirst
  {
    var threads := Stage(image, plan);
    if memeFirst {
      schedule := InOrder(threads, WAITS, 0);
      assert threads[0..] == threads;
      ArrivalIn(image, 0, MEME_PICTURE, MEME_TEXT, plan.meme, true, Concat(threads[1..]));
    } else {
      var others := threads[1 := []];
      var later := InOrder(others, WAITS, 0);
      schedule := FinishThread(threads, WAITS, 1, later);
      ArrivalIn(image, 1, STANDARD_PICTURE, STANDARD_TEXT, plan.standard, false, Merge(others, WAITS, later));
    }
  }

  // A thumbnail named like a scratch file: run before OCR, its file is deleted; run after, it stays.
  lemma ReservedNameClashes(image: string, plan: Plan, k: nat, s: State) returns (early: seq<nat>, late: seq<nat>)
    requires AllDifferent(Names(plan.thumbs)) && k < |plan.thumbs| && plan.thumbs[k].name in RESERVED
    requires First !in s && File(image) in s && Succeeds(plan, s[File(image)])
    ensures Complete(Stage(image, plan), WAITS, early) && Complete(Stage(image, plan), WAITS, late)
    ensures !SameFiles(Run(Merge(Stage(image, plan), WAITS, early), s), Run(Merge(Stage(image, plan), WAITS, late), s))
  {
    var threads := Stage(image, plan);
    var out := Beside(image, plan.thumbs[k].name);
    var others := threads[3 + k := []];
    var later := InOrder(others, WAITS, 0);
    assert others[0..] == others && threads[0..] == threads;
    early := FinishThread(threads, WAITS, 3 + k, later);
    late := InOrder(threads, WAITS, 0);
    var r := SequenceOutcome(image, plan, Arrive(true), Arrive(false), true, s);
    assert File(out) in r;
    ThumbFirst(image, plan, k, s);
    ClashIsSeen(Run(Merge(threads, WAITS, early), s), r, File(out));
  }

  lemma ClashIsSeen(early: Option<State>, late: State, c: Cell)
    requires c.File? && c in late && (early.Some? ==> c !in early.value)
    ensures !SameFiles(early, Some(late))
  {
    assert early.Some? ==> !SameAt(early.value, late, c);
  }

  // The thumbnail first, then the others in order: its file is not there at the end.
  lemma ThumbFirst(image: string, plan: Plan, k: nat, s: State)
    requires AllDifferent(Names(plan.thumbs)) && k < |plan.thumbs| && plan.thumbs[k].name in RESERVED
    requires First !in s && File(image) in s && Succeeds(plan, s[File(image)])
    ensures var r := Run(Stage(image, plan)[3 + k] + Concat(Stage(image, plan)[3 + k := []]), s);
            r.Some? ==> File(Beside(image, plan.thumbs[k].name)) !in r.value
  {
    hide MemeThread, StandardThread, Recognised, TextOf;
    var thumb := plan.thumbs[k];
    var threads := Stage(image, plan);
    var out := Beside(image, thumb.name);
    var others := threads[3 + k := []];
    ThumbEffect(image, k, thumb, s);
    BesideIsInjective(image, thumb.name, thumb.name);
    var s1 := s[File(out) := Picture(thumb, s[File(image)]).value][ThumbPath(k) := out];
    RunConcat(threads[3 + k], Concat(others), s);
    ConcatFromThree(others);
    OcrEffect(image, plan, Arrive(true), Arrive(false), true, Concat(others[3..]), s1);
    forall op | op in Concat(others[3..]) ensures File(out) !in Writes(op) {
      OthersLeaveAlone(image, plan, k, op);
    }
    assert File(out) in Scratch(image);
    RunKeepsAbsent(Concat(others[3..]), File(out), AfterOcr(image, plan, true, s1));
  }

  lemma OthersLeaveAlone(image: string, plan: Plan, k: nat, op: Op)
    requires AllDifferent(Names(plan.thumbs)) && k < |plan.thumbs|
    requires op in Concat(Stage(image, plan)[3 + k := []][3..])
    ensures File(Beside(image, plan.thumbs[k].name)) !in Writes(op)
  {
    var thumbs := plan.thumbs;
    var others := Stage(image, plan)[3 + k := []];
    var j := ThreadOf(others[3..], op);
    assert op in others[3 + j] && j != k;
    assert others[3 + j] == ThumbProcess(image, j, thumbs[j]);
    assert Names(thumbs)[j] != Names(thumbs)[k];
    BesideIsInjective(image, thumbs[j].name, thumbs[k].name);
  }

  lemma ReservedAre(thumbs: seq<Thumb>)
    ensures Unreserved(Names(thumbs)) <==>
            forall k :: 0 <= k < |thumbs| ==>
              thumbs[k].name !in {"meme.jpg", "meme.txt", "standard.jpg", "standard.txt"}
  {
    ReservedAreDifferent();
    assert forall k :: 0 <= k < |thumbs| ==> Names(thumbs)[k] == thumbs[k].name;
    assert forall name :: name in RESERVED <==> name in {"meme.jpg", "meme.txt", "standard.jpg", "standard.txt"};
  }

  // For distinct thumbnail names, and commands that succeed on the image: all interleavings
  // leave the same files and paths, from every state, if and only if no name is a scratch
  // file's.
  lemma FilesAreFreeIffUnreserved(image: string, plan: Plan, original: string)
    requires AllDifferent(Names(plan.thumbs)) && Succeeds(plan, original)
    ensures FilesAreFree(image, plan, original) <==> Unreserved(Names(plan.thumbs))
    ensures FilesAreFree(image, plan, original) <==>
            forall k :: 0 <= k < |plan.thumbs| ==>
              plan.thumbs[k].name !in {"meme.jpg", "meme.txt", "standard.jpg", "standard.txt"}
  {
    ReservedAre(plan.thumbs);
    if Unreserved(Names(plan.thumbs)) {
      forall schedule1, schedule2, s
        | && Complete(Stage(image, plan), WAITS, schedule1) && Complete(Stage(image, plan), WAITS, schedule2)
          && Starts(image, original, s)
        ensures SameFiles(Run(Merge(Stage(image, plan), WAITS, schedule1), s),
                          Run(Merge(Stage(image, plan), WAITS, schedule2), s))
      {
        var r1 := StageOutcome(image, plan, schedule1, s);
        var r2 := StageOutcome(image, plan, schedule2, s);
        OutcomesShareFiles(image, plan, MemeArrivesFirst(image, plan, schedule1),
                           MemeArrivesFirst(image, plan, schedule2), s, r1, r2);
      }
    } else {
      var k :| 0 <= k < |plan.thumbs| && Names(plan.thumbs)[k] in RESERVED;
      var s: State := map[File(image) := original];
      var early, late := ReservedNameClashes(image, plan, k, s);
      assert Starts(image, original, s);
    }
  }

  // Then all interleavings set the same text if and only if the two texts do not tie.
  lemma TextIsFreeIffNoTie(image: string, plan: Plan, original: string)
    requires NamesOk(Names(plan.thumbs)) && Succeeds(plan, original)
    ensures TextIsFree(image, plan, original) <==> !Tie(plan, original)
  {
    TieIsTheRace(plan, original);
    if Tie(plan, original) {
      var s: State := map[File(image) := original];
      var schedule1 := EitherCanArriveFirst(image, plan, true);
      var schedule2 := EitherCanArriveFirst(image, plan, false);
      var r1 := StageOutcome(image, plan, schedule1, s);
      var r2 := StageOutcome(image, plan, schedule2, s);
      TextOfOutcome(image, plan, true, s, r1);
      TextOfOutcome(image, plan, false, s, r2);
      assert Starts(image, original, s) && !SameText(Some(r1), Some(r2));
    } else {
      forall schedule1, schedule2, s
        | && Complete(Stage(image, plan), WAITS, schedule1) && Complete(Stage(image, plan), WAITS, schedule2)
          && Starts(image, original, s)
        ensures SameText(Run(Merge(Stage(image, plan), WAITS, schedule1), s),
                         Run(Merge(Stage(image, plan), WAITS, schedule2), s))
      {
        var r1 := StageOutcome(image, plan, schedule1, s);
        var r2 := StageOutcome(image, plan, schedule2, s);
        TextOfOutcome(image, plan, MemeArrivesFirst(image, plan, schedule1), s, r1);
        TextOfOutcome(image, plan, MemeArrivesFirst(image, plan, schedule2), s, r2);
      }
    }
  }

  // Together: the schedule changes nothing at all if and only if no thumbnail is named like a
  // scratch file and the two texts do not tie.
  lemma ScheduleFreeIff(image: string, plan: Plan, original: string)
    requires AllDifferent(Names(plan.thumbs)) && Succeeds(plan, original)
    ensures FilesAreFree(image, plan, original) && TextIsFree(image, plan, original) <==>
            Unreserved(Names(plan.thumbs)) && !Tie(plan, original)
  {
    FilesAreFreeIffUnreserved(image, plan, original);
    if Unreserved(Names(plan.thumbs)) {
      TextIsFreeIffNoTie(image, plan, original);
    }
  }
}
