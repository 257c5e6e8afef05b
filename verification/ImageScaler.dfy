/** ImageScaler: two rounds of lower quality, then ever smaller percentages, until the file is
    under the target.
 */
module ImageScaler {
  import opened Wrappers
  import opened Commands
  import opened Files
  import opened UploadedFile

  const MIB := 1024 * 1024

  function StartPercent(excess: int): (percent: int)
    ensures percent in {30, 40, 60, 90}
  {
    if excess >= 15 * MIB then 30
    else if excess >= 10 * MIB then 40
    else if excess >= 5 * MIB then 60
    else 90
  }

  // The percentages tried: from `start` down in tens, never below zero.
  predicate IsCountdown(tries: seq<int>, start: int) {
    |tries| <= start / 10 + 1 && forall k :: 0 <= k < |tries| ==> tries[k] == start - 10 * k
  }

  // At most ten resizes, each by a multiple of ten between 0 and 90.
  lemma CountdownIsBounded(tries: seq<int>, excess: int)
    requires IsCountdown(tries, StartPercent(excess))
    ensures |tries| <= 10
    ensures forall k :: 0 <= k < |tries| ==> 0 <= tries[k] <= 90 && tries[k] % 10 == 0
  {
  }

  function Repeat(s: string, n: nat): string {
    if n == 0 then "" else Repeat(s, n - 1) + s
  }

  // ---------- The specification ----------

  // The contents after n resizes, by start, start - 10, ... percent.
  function Resized(tools: Tools, contents: string, start: int, n: nat): Option<string> {
    if n == 0 then Some(contents)
    else
      var before := Resized(tools, contents, start, n - 1);
      if before.None? then None else tools.resize(start - 10 * (n - 1))(before.value)
  }

  // After j resizes there is something left, and it is still too large.
  predicate TooLarge(tools: Tools, contents: string, start: int, target: int, j: nat) {
    var made := Resized(tools, contents, start, j);
    made.Some? && |made.value| > 0 && |made.value| >= target
  }

  // After n resizes, the last by at least 10%, the file fits, and it did not before.
  predicate IsFirstFit(tools: Tools, contents: string, start: int, target: int, n: nat) {
    && 1 <= n <= start / 10
    && Resized(tools, contents, start, n).Some? && 0 < |Resized(tools, contents, start, n).value| < target
    && forall j :: 1 <= j < n ==> TooLarge(tools, contents, start, target, j)
  }

  function AfterResizes(tools: Tools, image: Image, start: int, n: nat): Image
    requires Resized(tools, image.contents, start, n).Some?
  {
    Image(image.path + Repeat(RESIZED, n), image.mime, Resized(tools, image.contents, start, n).value)
  }

  ghost function Shrunk(tools: Tools, target: int, image: Image, start: int): Option<Image> {
    if exists n :: IsFirstFit(tools, image.contents, start, target, n) then
      var n :| IsFirstFit(tools, image.contents, start, target, n);
      Some(AfterResizes(tools, image, start, n))
    else None
  }

  ghost function ScaledJpeg(tools: Tools, target: int, image: Image): Option<Image> {
    var once := Link(image, QUALITY, tools.quality(90));
    if once.None? || |once.value.contents| < target then once
    else
      var twice := Link(once.value, QUALITY, tools.quality(70));
      if twice.None? || |twice.value.contents| < target then twice
      else Shrunk(tools, target, twice.value, StartPercent(|twice.value.contents| - target))
  }

  ghost function Scaled(tools: Tools, target: int, image: Image): Option<Image> {
    if JpegMime(image.mime) then ScaledJpeg(tools, target, image)
    else if PngMime(image.mime) then
      var jpeg := Link(image, JPEG, tools.jpeg);
      if jpeg.None? then None else ScaledJpeg(tools, target, jpeg.value.(mime := "image/jpeg"))
    else None
  }

  // ---------- What it promises ----------

  lemma FirstFitIsUnique(tools: Tools, contents: string, start: int, target: int, n: nat, m: nat)
    requires IsFirstFit(tools, contents, start, target, n) && IsFirstFit(tools, contents, start, target, m)
    ensures n == m
  {
    assert n < m ==> TooLarge(tools, contents, start, target, n);
    assert m < n ==> TooLarge(tools, contents, start, target, m);
  }

  lemma ShrunkAt(tools: Tools, target: int, image: Image, start: int, n: nat)
    requires IsFirstFit(tools, image.contents, start, target, n)
    ensures Shrunk(tools, target, image, start) == Some(AfterResizes(tools, image, start, n))
  {
    forall m: nat | IsFirstFit(tools, image.contents, start, target, m) ensures m == n {
      FirstFitIsUnique(tools, image.contents, start, target, n, m);
    }
  }

  // Nothing fits when the t-th resize fails, leaves nothing, or was by less than 10%.
  lemma NothingFits(tools: Tools, target: int, image: Image, start: int, t: nat)
    requires t >= 1 && forall j :: 1 <= j < t ==> TooLarge(tools, image.contents, start, target, j)
    requires var made := Resized(tools, image.contents, start, t);
             made.None? || made.value == "" || start - 10 * (t - 1) < 10
    ensures Shrunk(tools, target, image, start) == None
  {
    forall n: nat ensures !IsFirstFit(tools, image.contents, start, target, n) {
      assert 1 <= n < t ==> TooLarge(tools, image.contents, start, target, n);
      assert t < n && TooLarge(tools, image.contents, start, target, t) ==> start - 10 * (t - 1) < 10;
    }
  }

  // After n resizes that were not enough.
  ghost predicate InLoop(tools: Tools, target: int, first: Image, start: int, n: nat, now: Image) {
    && Resized(tools, first.contents, start, n).Some?
    && now == AfterResizes(tools, first, start, n)
    && forall j :: 1 <= j <= n ==> TooLarge(tools, first.contents, start, target, j)
  }

  // One more resize either ends the loop as specified or leaves it going.
  lemma OneMoreTry(tools: Tools, target: int, first: Image, start: int, n: nat, now: Image)
    requires start >= 0 && InLoop(tools, target, first, start, n, now)
    ensures var next := Link(now, RESIZED, tools.resize(start - 10 * n));
            if next.None? || next.value.contents == "" || start - 10 * n < 10 then
              Shrunk(tools, target, first, start) == None
            else if |next.value.contents| < target then
              Shrunk(tools, target, first, start) == next && IsFirstFit(tools, first.contents, start, target, n + 1)
            else
              InLoop(tools, target, first, start, n + 1, next.value)
  {
    var next := Link(now, RESIZED, tools.resize(start - 10 * n));
    assert next.Some? ==> next.value.contents == Resized(tools, first.contents, start, n + 1).value;
    assert first.path + Repeat(RESIZED, n) + RESIZED == first.path + Repeat(RESIZED, n + 1);
    if next.None? || next.value.contents == "" || start - 10 * n < 10 {
      NothingFits(tools, target, first, start, n + 1);
    } else if |next.value.contents| < target {
      ShrunkAt(tools, target, first, start, n + 1);
    } else {
      assert TooLarge(tools, first.contents, start, target, n + 1);
    }
  }

  // A success of the scaler: from JPEG or PNG to JPEG, strictly under the target, with the
  // path showing one of three ways there; after resizing the file is not empty.
  lemma ScaledFits(tools: Tools, target: int, image: Image) returns (n: nat)
    requires Scaled(tools, target, image).Some?
    ensures var after := Scaled(tools, target, image).value;
            var from := image.path + if PngMime(image.mime) then JPEG else "";
            && |after.contents| < target
            && JpegMime(after.mime) && (JpegMime(image.mime) || PngMime(image.mime))
            && (n == 0 ==> after.path in {from + QUALITY, from + QUALITY + QUALITY})
            && (n > 0 ==> n <= 9 && after.contents != "" && after.path == from + QUALITY + QUALITY + Repeat(RESIZED, n))
  {
    assert image.path + "" == image.path;
    var from := if PngMime(image.mime)
                then Image(image.path + JPEG, "image/jpeg", tools.jpeg(image.contents).value) else image;
    n := ScaledJpegFits(tools, target, from);
  }

  lemma ScaledJpegFits(tools: Tools, target: int, image: Image) returns (n: nat)
    requires ScaledJpeg(tools, target, image).Some?
    ensures var after := ScaledJpeg(tools, target, image).value;
            && |after.contents| < target && after.mime == image.mime
            && (n == 0 ==> after.path in {image.path + QUALITY, image.path + QUALITY + QUALITY})
            && (n > 0 ==> n <= 9 && after.contents != ""
                          && after.path == image.path + QUALITY + QUALITY + Repeat(RESIZED, n))
  {
    n := 0;
    var once := Link(image, QUALITY, tools.quality(90)).value;
    if |once.contents| >= target {
      var twice := Link(once, QUALITY, tools.quality(70)).value;
      if |twice.contents| >= target {
        var start := StartPercent(|twice.contents| - target);
        n :| IsFirstFit(tools, twice.contents, start, target, n);
        ShrunkAt(tools, target, twice, start, n);
      }
    }
  }

  // ---------- The specification in the commands' own terms ----------

  // trail[k + 1] is what the resize by start - 10 * k percent makes of trail[k].  The last is by
  // at least 10 percent and leaves a file that is not empty and fits; none before it does.
  ghost predicate IsTrail(tools: Tools, contents: string, start: int, target: int, trail: seq<string>) {
    && |trail| >= 2 && trail[0] == contents && start - 10 * (|trail| - 2) >= 10
    && (forall k :: 0 <= k < |trail| - 1 ==> tools.resize(start - 10 * k)(trail[k]) == Some(trail[k + 1]))
    && (forall k :: 1 <= k < |trail| - 1 ==> trail[k] != "" && |trail[k]| >= target)
    && 0 < |trail[|trail| - 1]| < target
  }

  lemma {:induction false} ResizedBefore(tools: Tools, contents: string, start: int, n: nat, k: nat)
    requires k <= n && Resized(tools, contents, start, n).Some?
    ensures Resized(tools, contents, start, k).Some?
  {
    if k < n {
      ResizedBefore(tools, contents, start, n - 1, k);
    }
  }

  lemma TrailOf(tools: Tools, contents: string, start: int, target: int, n: nat) returns (trail: seq<string>)
    requires IsFirstFit(tools, contents, start, target, n)
    ensures IsTrail(tools, contents, start, target, trail)
    ensures |trail| == n + 1 && Resized(tools, contents, start, n) == Some(trail[n])
  {
    forall k: nat | k <= n ensures Resized(tools, contents, start, k).Some? {
      ResizedBefore(tools, contents, start, n, k);
    }
    trail := seq(n + 1, k requires 0 <= k <= n => Resized(tools, contents, start, k).value);
    forall k | 0 <= k < n ensures tools.resize(start - 10 * k)(trail[k]) == Some(trail[k + 1]) {
      assert Resized(tools, contents, start, k + 1) == tools.resize(start - 10 * k)(trail[k]);
    }
    forall k | 1 <= k < n ensures trail[k] != "" && |trail[k]| >= target {
      assert TooLarge(tools, contents, start, target, k);
    }
  }

  lemma {:induction false} ResizedAlong(tools: Tools, contents: string, start: int, target: int, trail: seq<string>,
                                        k: nat)
    requires IsTrail(tools, contents, start, target, trail) && k < |trail|
    ensures Resized(tools, contents, start, k) == Some(trail[k])
  {
    if k > 0 {
      ResizedAlong(tools, contents, start, target, trail, k - 1);
      assert tools.resize(start - 10 * (k - 1))(trail[k - 1]) == Some(trail[k]);
    }
  }

  lemma FitOf(tools: Tools, contents: string, start: int, target: int, trail: seq<string>)
    requires IsTrail(tools, contents, start, target, trail)
    ensures IsFirstFit(tools, contents, start, target, |trail| - 1)
    ensures Resized(tools, contents, start, |trail| - 1) == Some(trail[|trail| - 1])
  {
    forall k: nat | k < |trail| ensures Resized(tools, contents, start, k) == Some(trail[k]) {
      ResizedAlong(tools, contents, start, target, trail, k);
    }
  }

  // The resizes succeed exactly when there is such a trail, and end with what it ends with.
  lemma ShrunkIff(tools: Tools, target: int, image: Image, start: int)
    ensures Shrunk(tools, target, image, start).Some? <==>
            exists trail :: IsTrail(tools, image.contents, start, target, trail)
    ensures forall trail :: IsTrail(tools, image.contents, start, target, trail) ==>
              Shrunk(tools, target, image, start)
              == Some(Image(image.path + Repeat("_rp", |trail| - 1), image.mime, trail[|trail| - 1]))
  {
    if Shrunk(tools, target, image, start).Some? {
      var n: nat :| IsFirstFit(tools, image.contents, start, target, n);
      var trail := TrailOf(tools, image.contents, start, target, n);
    }
    forall trail | IsTrail(tools, image.contents, start, target, trail)
      ensures Shrunk(tools, target, image, start)
              == Some(Image(image.path + Repeat("_rp", |trail| - 1), image.mime, trail[|trail| - 1]))
    {
      FitOf(tools, image.contents, start, target, trail);
      ShrunkAt(tools, target, image, start, |trail| - 1);
    }
  }

  // The path of n resizes is _rp n times over.
  lemma {:induction false} SuffixOfResizes(n: nat)
    ensures |Repeat("_rp", n)| == 3 * n
    ensures forall k :: 0 <= k < n ==> Repeat("_rp", n)[3 * k..3 * k + 3] == "_rp"
  {
    if n > 0 {
      SuffixOfResizes(n - 1);
      var before := Repeat("_rp", n - 1);
      assert forall k :: 0 <= k < n - 1 ==> Repeat("_rp", n)[3 * k..3 * k + 3] == before[3 * k..3 * k + 3];
      assert Repeat("_rp", n)[3 * (n - 1)..] == "_rp";
    }
  }

  // When a JPEG is scaled, and to what: quality 90 if that fits, quality 70 of it if that does,
  // and otherwise what the resizes end with, starting from 30, 40 or 60 percent when the file
  // is 15, 10 or 5 MiB too large, and else from 90.
  lemma JpegIsScaledIff(tools: Tools, target: int, image: Image)
    requires image.mime == "image/jpeg" || image.mime == "image/jpg"
    ensures var scaled := Scaled(tools, target, image);
            var q90 := tools.quality(90)(image.contents);
            if q90.None? then scaled == None
            else if |q90.value| < target then scaled == Some(Image(image.path + "_q", image.mime, q90.value))
            else
              var q70 := tools.quality(70)(q90.value);
              if q70.None? then scaled == None
              else if |q70.value| < target then scaled == Some(Image(image.path + "_q" + "_q", image.mime, q70.value))
              else
                var excess := |q70.value| - target;
                var start := if excess >= 15 * 1024 * 1024 then 30
                             else if excess >= 10 * 1024 * 1024 then 40
                             else if excess >= 5 * 1024 * 1024 then 60
                             else 90;
                && (scaled.Some? <==> exists trail :: IsTrail(tools, q70.value, start, target, trail))
                && forall trail :: IsTrail(tools, q70.value, start, target, trail) ==>
                     scaled == Some(Image(image.path + "_q" + "_q" + Repeat("_rp", |trail| - 1), image.mime,
                                          trail[|trail| - 1]))
  {
    var q90 := tools.quality(90)(image.contents);
    if q90.Some? && |q90.value| >= target {
      var q70 := tools.quality(70)(q90.value);
      if q70.Some? && |q70.value| >= target {
        ShrunkIff(tools, target, Image(image.path + "_q" + "_q", image.mime, q70.value),
                  StartPercent(|q70.value| - target));
      }
    }
  }

  // A PNG is scaled as the JPEG it is made into; nothing else is scaled.
  lemma OthersAreScaledIff(tools: Tools, target: int, image: Image)
    requires image.mime != "image/jpeg" && image.mime != "image/jpg"
    ensures image.mime != "image/png" ==> Scaled(tools, target, image) == None
    ensures image.mime == "image/png" ==>
              var jpeg := tools.jpeg(image.contents);
              Scaled(tools, target, image)
              == if jpeg.None? then None
                 else Scaled(tools, target, Image(image.path + "_jpg", "image/jpeg", jpeg.value))
  {
  }

  lemma JpegKeeps(tools: Tools, target: int, image: Image, p: string -> bool)
    requires (image.mime == "image/jpeg" || image.mime == "image/jpg") && p(image.contents)
    requires Scaled(tools, target, image).Some?
    requires Preserves(tools.quality(90), p) && Preserves(tools.quality(70), p)
    requires forall percent :: Preserves(tools.resize(percent), p)
    ensures p(Scaled(tools, target, image).value.contents)
  {
    JpegIsScaledIff(tools, target, image);
    var q90 := tools.quality(90)(image.contents).value;
    if |q90| >= target {
      var q70 := tools.quality(70)(q90).value;
      if |q70| >= target {
        var start := StartPercent(|q70| - target);
        var trail :| IsTrail(tools, q70, start, target, trail);
        TrailKeeps(tools, q70, start, target, trail, p, |trail| - 1);
      }
    }
  }

  lemma {:induction false} TrailKeeps(tools: Tools, contents: string, start: int, target: int, trail: seq<string>,
                                      p: string -> bool, k: nat)
    requires IsTrail(tools, contents, start, target, trail) && k < |trail| && p(contents)
    requires forall percent :: Preserves(tools.resize(percent), p)
    ensures p(trail[k])
  {
    if k > 0 {
      TrailKeeps(tools, contents, start, target, trail, p, k - 1);
      assert Preserves(tools.resize(start - 10 * (k - 1)), p);
      assert tools.resize(start - 10 * (k - 1))(trail[k - 1]) == Some(trail[k]);
    }
  }

  // Whatever the quality and resize commands preserve, scaling preserves, if making a JPEG of a
  // PNG does.
  lemma ScaledKeeps(tools: Tools, target: int, image: Image, p: string -> bool)
    requires Scaled(tools, target, image).Some?
    requires p(image.contents) || (image.mime == "image/png" && MakesAlways(tools.jpeg, p))
    requires image.mime == "image/png" ==> Preserves(tools.jpeg, p)
    requires Preserves(tools.quality(90), p) && Preserves(tools.quality(70), p)
    requires forall percent :: Preserves(tools.resize(percent), p)
    ensures p(Scaled(tools, target, image).value.contents)
  {
    if image.mime == "image/png" {
      OthersAreScaledIff(tools, target, image);
      var jpeg := Image(image.path + "_jpg", "image/jpeg", tools.jpeg(image.contents).value);
      JpegKeeps(tools, target, jpeg, p);
    } else {
      JpegKeeps(tools, target, image, p);
    }
  }

  // ---------- The code ----------

  // The loop: resize by ever smaller percentages until the file is small enough.
  method Shrink(image: Upload, tools: Tools, target: int, start: int, ghost root: string)
      returns (ok: bool, tries: seq<int>)
    requires image.Sole(root) && start >= 0
    modifies image`path, image.fs
    ensures Foreign(image.fs.files, root) == old(Foreign(image.fs.files, root))
    ensures image.Reached(root, Shrunk(tools, target, old(image.Now()), start), ok)
    ensures IsCountdown(tries, start)
    ensures ok ==> IsFirstFit(tools, old(image.Now()).contents, start, target, |tries|)
  {
    hide Own, Foreign, Shrunk, InLoop, IsFirstFit;
    tries := [];
    var percent := start;
    ghost var first := image.Now();
    LoopStarts(tools, target, first, start);
    while true
      invariant image.Sole(root)
      invariant Foreign(image.fs.files, root) == old(Foreign(image.fs.files, root))
      invariant InLoop(tools, target, first, start, |tries|, image.Now())
      invariant IsCountdown(tries, start)
      invariant percent == start - 10 * |tries| >= 0
      decreases percent
    {
      OneMoreTry(tools, target, first, start, |tries|, image.Now());
      tries := tries + [percent];
      ok := image.Advance(RESIZED, tools.resize(percent), root);
      if !ok {
        return;
      }
      var size, err := image.FileSize();
      if err {
        return false, tries;
      } else if size == 0 || percent < 10 {
        SoleIsOneStray(image, root);
        return false, tries;
      } else if size < target {
        return;
      }
      percent := percent - 10;
    }
  }

  lemma LoopStarts(tools: Tools, target: int, first: Image, start: int)
    ensures InLoop(tools, target, first, start, 0, first)
  {
    assert first.path + Repeat(RESIZED, 0) == first.path;
  }

  lemma SoleIsOneStray(image: Upload, root: string)
    requires image.Sole(root)
    ensures image.OneStray(root)
  {
  }

  // `tries` are the resizes made after both rounds of lower quality.
  method ScaleJpeg(image: Upload, tools: Tools, target: int, ghost root: string) returns (ok: bool, tries: seq<int>)
    requires image.Sole(root)
    modifies image`path, image.fs
    ensures Foreign(image.fs.files, root) == old(Foreign(image.fs.files, root))
    ensures image.Reached(root, ScaledJpeg(tools, target, old(image.Now())), ok)
    ensures tries != [] ==>
              var twice := Both(tools.quality(90), tools.quality(70), old(image.Now()).contents);
              twice.Some? && |twice.value| >= target && IsCountdown(tries, StartPercent(|twice.value| - target))
  {
    hide Own, Foreign, Shrunk;
    tries := [];
    ok := image.Advance(QUALITY, tools.quality(90), root);
    if !ok {
      return;
    }
    var size, err := image.FileSize();
    if size < target {
      return;
    }
    ok := image.Advance(QUALITY, tools.quality(70), root);
    if !ok {
      return;
    }
    size, err := image.FileSize();
    if size < target {
      return;
    }
    var percent := 90;
    if size - target >= 15 * MIB {
      percent := 30;
    } else if size - target >= 10 * MIB {
      percent := 40;
    } else if size - target >= 5 * MIB {
      percent := 60;
    }
    ok, tries := Shrink(image, tools, target, percent, root);
  }

  method Scale(image: Upload, tools: Tools, target: int, ghost root: string) returns (ok: bool)
    requires image.Sole(root)
    modifies image`path, image`mime, image.fs
    ensures Foreign(image.fs.files, root) == old(Foreign(image.fs.files, root))
    ensures image.Reached(root, Scaled(tools, target, old(image.Now())), ok)
  {
    var tries;
    if image.IsJpeg() {
      ok, tries := ScaleJpeg(image, tools, target, root);
    } else if image.IsPng() {
      ok := image.Advance(JPEG, tools.jpeg, root);
      if ok {
        image.mime := "image/jpeg";
        ok, tries := ScaleJpeg(image, tools, target, root);
      }
    } else {
      SoleIsOneStray(image, root);
      ok := false;
    }
  }
}
