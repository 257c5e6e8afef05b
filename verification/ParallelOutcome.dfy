/** From the parallel stage written in one order to the stage under every schedule: the tree of
    files that OCR followed by the thumbnails leave is what every interleaving of the same
    commands leaves, and the text is that of every interleaving in which the same OCR result
    arrives first.
 */
module ParallelOutcome {
  import opened Wrappers
  import opened Commands
  import opened Files
  import opened Interleaving
  import opened ParallelStage

  function AsState(files: Tree): (s: State)
    ensures forall p :: File(p) in s <==> p in files
    ensures forall p :: p in files ==> s[File(p)] == files[p]
    ensures forall c :: c in s ==> c.File?
  {
    map p | p in files :: File(p) := files[p]
  }

  // The state r holds exactly these files, this text, and thumbnail k at image_name.
  ghost predicate Holds(r: State, image: string, names: seq<string>, files: Tree, text: string) {
    && (forall p :: File(p) in r <==> p in files)
    && (forall p :: p in files ==> r[File(p)] == files[p])
    && UploadText in r && r[UploadText] == text
    && (forall k: nat :: ThumbPath(k) in r <==> k < |names|)
    && (forall k: nat :: k < |names| ==> r[ThumbPath(k)] == Beside(image, names[k]))
  }

  // In whatever order the plan's steps interleave, they succeed and take `before` to `after`;
  // the text they set is settled by which OCR result arrives first.
  ghost predicate EveryScheduleGives(image: string, plan: Plan, before: Tree, after: Tree, original: string) {
    && Hears(plan.meme, plan.standard, original)
    && forall schedule :: Complete(Stage(image, plan), WAITS, schedule) ==>
         var r := Run(Merge(Stage(image, plan), WAITS, schedule), AsState(before));
         && r.Some?
         && Holds(r.value, image, Names(plan.thumbs), after,
                  TextOf(plan, MemeArrivesFirst(image, plan, schedule), original))
  }

  ghost function Outs(image: string, names: seq<string>): set<string> {
    set k | 0 <= k < |names| :: Beside(image, names[k])
  }

  // Each thumbnail's file holds what its commands make of the image.
  ghost predicate Drawn(image: string, thumbs: seq<Thumb>, original: string, files: Tree) {
    forall k :: 0 <= k < |thumbs| ==>
      && Beside(image, thumbs[k].name) in files
      && Picture(thumbs[k], original) == Some(files[Beside(image, thumbs[k].name)])
  }

  // What the stage in one order leaves: the image and every thumbnail, and nothing else of
  // the upload's; other files as they were.
  ghost predicate LeftByOneOrder(image: string, root: string, plan: Plan, before: Tree, after: Tree) {
    && root <= image && NamesOk(Names(plan.thumbs))
    && Own(before, root) == {image} && Own(after, root) == {image} + Outs(image, Names(plan.thumbs))
    && Foreign(before, root) == Foreign(after, root)
    && image in before && image in after && before[image] == after[image]
    && Hears(plan.meme, plan.standard, before[image]) && Drawn(image, plan.thumbs, before[image], after)
  }

  ghost predicate AddsThumbs(image: string, thumbs: seq<Thumb>, before: Tree, after: Tree) {
    && (forall p :: p !in Outs(image, Names(thumbs)) ==>
          (p in before <==> p in after) && (p in before ==> before[p] == after[p]))
    && (forall name :: Beside(image, name) !in before)
    && image in before && Drawn(image, thumbs, before[image], after)
  }

  // Outside the thumbnails' files the two trees agree, and OCR's scratch files are in neither.
  lemma OnlyThumbsAdded(image: string, root: string, plan: Plan, before: Tree, after: Tree)
    requires LeftByOneOrder(image, root, plan, before, after)
    ensures AddsThumbs(image, plan.thumbs, before, after)
  {
    forall p | p !in Outs(image, Names(plan.thumbs))
      ensures (p in before <==> p in after) && (p in before ==> before[p] == after[p])
    {
      if root <= p {
        assert p in before <==> p in Own(before, root);
        assert p in after <==> p in Own(after, root);
      } else {
        assert p in before <==> p in Foreign(before, root);
        assert p in after <==> p in Foreign(after, root);
        assert p in before ==> Foreign(before, root)[p] == before[p];
        assert p in after ==> Foreign(after, root)[p] == after[p];
      }
    }
    forall name ensures Beside(image, name) !in before {
      BesideIsInjective(image, name, name);
      assert Beside(image, name)[..|root|] == image[..|root|];
      assert root <= Beside(image, name);
      assert Beside(image, name) in before ==> Beside(image, name) in Own(before, root);
    }
  }

  // The state s holds the files of `before`.
  ghost predicate Represents(s: State, before: Tree) {
    forall q :: (File(q) in s <==> q in before) && (q in before ==> s[File(q)] == before[q])
  }

  lemma FileHolds(image: string, thumbs: seq<Thumb>, before: Tree, after: Tree, s: State, r: State, p: string)
    requires AddsThumbs(image, thumbs, before, after) && Represents(s, before)
    requires File(image) in s && ThumbsInPlace(image, thumbs, 0, s, r)
    ensures (File(p) in r <==> p in after) && (p in after ==> r[File(p)] == after[p])
  {
    var names := Names(thumbs);
    if p in Outs(image, names) {
      var k :| 0 <= k < |names| && p == Beside(image, names[k]);
      assert thumbs[k].name == names[k];
    } else {
      forall j | 0 <= j < |thumbs| ensures Beside(image, thumbs[j].name) != p {
        assert Beside(image, names[j]) in Outs(image, names);
      }
      assert !IsThumbCell(image, thumbs, 0, File(p));
    }
  }

  lemma PathHolds(image: string, thumbs: seq<Thumb>, s: State, r: State, k: nat)
    requires ThumbPath(k) !in s && File(image) in s && ThumbsInPlace(image, thumbs, 0, s, r)
    ensures (ThumbPath(k) in r <==> k < |thumbs|) && (k < |thumbs| ==> r[ThumbPath(k)] == Beside(image, thumbs[k].name))
  {
    if k >= |thumbs| {
      assert !IsThumbCell(image, thumbs, 0, ThumbPath(k));
    }
  }

  lemma NoScratchIn(image: string, before: Tree)
    requires forall name :: Beside(image, name) !in before
    ensures forall q :: q in before ==> File(q) !in Scratch(image)
  {
  }

  // OCR's scratch files were not there, so deleting them changes nothing.
  lemma NoScratchBefore(image: string, plan: Plan, memeFirst: bool, before: Tree) returns (s: State)
    requires image in before && forall name :: Beside(image, name) !in before
    requires Hears(plan.meme, plan.standard, before[image])
    ensures s == AfterOcr(image, plan, memeFirst, AsState(before))
    ensures Represents(s, before) && forall k: nat :: ThumbPath(k) !in s
    ensures UploadText in s && s[UploadText] == TextOf(plan, memeFirst, before[image])
  {
    hide Recognised, TextOf, Label;
    s := AfterOcr(image, plan, memeFirst, AsState(before));
    NoScratchIn(image, before);
    hide Scratch, MemeScratch, StandardScratch;
  }

  lemma AllHold(image: string, thumbs: seq<Thumb>, before: Tree, after: Tree, s: State, r: State)
    requires AddsThumbs(image, thumbs, before, after) && Represents(s, before)
    requires (forall k: nat :: ThumbPath(k) !in s) && UploadText in s
    requires File(image) in s && ThumbsInPlace(image, thumbs, 0, s, r)
    ensures Holds(r, image, Names(thumbs), after, s[UploadText])
  {
    forall p ensures (File(p) in r <==> p in after) && (p in after ==> r[File(p)] == after[p]) {
      FileHolds(image, thumbs, before, after, s, r, p);
    }
    forall k: nat
      ensures ThumbPath(k) in r <==> k < |thumbs|
      ensures k < |thumbs| ==> r[ThumbPath(k)] == Beside(image, Names(thumbs)[k])
    {
      PathHolds(image, thumbs, s, r, k);
    }
    assert !IsThumbCell(image, thumbs, 0, UploadText);
  }

  lemma ScheduleGives(image: string, plan: Plan, before: Tree, after: Tree, schedule: seq<nat>) returns (r: State)
    requires NamesOk(Names(plan.thumbs)) && AddsThumbs(image, plan.thumbs, before, after)
    requires Hears(plan.meme, plan.standard, before[image]) && Complete(Stage(image, plan), WAITS, schedule)
    ensures Run(Merge(Stage(image, plan), WAITS, schedule), AsState(before)) == Some(r)
    ensures Holds(r, image, Names(plan.thumbs), after,
                  TextOf(plan, MemeArrivesFirst(image, plan, schedule), before[image]))
  {
    hide AfterOcr, Stage, TextOf, Recognised, Run, MemeArrivesFirst;
    assert Succeeds(plan, before[image]);
    var s := NoScratchBefore(image, plan, MemeArrivesFirst(image, plan, schedule), before);
    r := StageOutcome(image, plan, schedule, AsState(before));
    AllHold(image, plan.thumbs, before, after, s, r);
  }

  // What one order of the stage leaves, every order leaves: the same files and the same paths;
  // and the text that follows from which result arrives first.
  lemma OneOrderIsEveryOrder(image: string, root: string, plan: Plan, before: Tree, after: Tree)
    requires LeftByOneOrder(image, root, plan, before, after)
    ensures EveryScheduleGives(image, plan, before, after, before[image])
  {
    OnlyThumbsAdded(image, root, plan, before, after);
    forall schedule | Complete(Stage(image, plan), WAITS, schedule)
      ensures var r := Run(Merge(Stage(image, plan), WAITS, schedule), AsState(before));
              && r.Some?
              && Holds(r.value, image, Names(plan.thumbs), after,
                       TextOf(plan, MemeArrivesFirst(image, plan, schedule), before[image]))
    {
      var r := ScheduleGives(image, plan, before, after, schedule);
    }
  }

  // The texts that some schedule sets.
  ghost predicate SomeScheduleSets(image: string, plan: Plan, before: Tree, text: string) {
    exists schedule ::
      && Complete(Stage(image, plan), WAITS, schedule)
      && var r := Run(Merge(Stage(image, plan), WAITS, schedule), AsState(before));
         r.Some? && UploadText in r.value && r.value[UploadText] == text
  }

  // Nothing else would do: the tree every schedule gives is unique, and the texts the
  // schedules set are exactly the two that follow from the two orders of arrival.
  lemma OnlyTheseOutcomes(image: string, plan: Plan, before: Tree, original: string,
                          after1: Tree, after2: Tree, text: string)
    requires EveryScheduleGives(image, plan, before, after1, original)
    requires EveryScheduleGives(image, plan, before, after2, original)
    ensures after1 == after2
    ensures SomeScheduleSets(image, plan, before, text) <==>
            text in {TextOf(plan, true, original), TextOf(plan, false, original)}
  {
    var schedule1 := EitherCanArriveFirst(image, plan, true);
    var schedule2 := EitherCanArriveFirst(image, plan, false);
    var r := Run(Merge(Stage(image, plan), WAITS, schedule1), AsState(before)).value;
    forall p ensures (p in after1 <==> p in after2) && (p in after1 ==> after1[p] == after2[p]) {
      assert File(p) in r <==> p in after1;
      assert File(p) in r <==> p in after2;
    }
  }
}
