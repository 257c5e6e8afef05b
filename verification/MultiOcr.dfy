/** MultiOCRCommand.Run: all commands at once, keeping the text with the most words. */
module MultiOcr {
  import opened Wrappers
  import opened OcrText
  import FanOut

  function Score(speller: Option<Speller>, text: string): nat {
    LongWords(Tokens(Filtered(speller, text)))
  }

  function Scores(speller: Option<Speller>, texts: seq<string>): (scores: seq<nat>)
    ensures |scores| == |texts|
  {
    if texts == [] then [] else [Score(speller, texts[0])] + Scores(speller, texts[1..])
  }

  lemma {:induction false} ScoreAt(speller: Option<Speller>, texts: seq<string>, k: nat)
    requires k < |texts|
    ensures Scores(speller, texts)[k] == Score(speller, texts[k])
  {
    if k > 0 {
      ScoreAt(speller, texts[1..], k - 1);
    }
  }

  // The first of the highest.
  predicate IsEarliestBest(scores: seq<nat>, b: nat) {
    && b < |scores|
    && (forall k :: 0 <= k < |scores| ==> scores[k] <= scores[b])
    && (forall k :: 0 <= k < b ==> scores[k] < scores[b])
  }

  // Of two texts the first, unless the second has more words; filtered.
  function BetterOf(speller: Option<Speller>, first: string, second: string): string {
    Filtered(speller, if Score(speller, second) > Score(speller, first) then second else first)
  }

  lemma EarliestBestOfTwo(speller: Option<Speller>, first: string, second: string, b: nat)
    requires IsEarliestBest(Scores(speller, [first, second]), b)
    ensures Filtered(speller, [first, second][b]) == BetterOf(speller, first, second)
  {
    ScoreAt(speller, [first, second], 0);
    ScoreAt(speller, [first, second], 1);
  }

  // The words of a text: its tokens of more than one character.
  ghost function WordsIn(text: string): nat {
    |LongPositions(Tokens(text))|
  }

  // The better of two texts is the second, filtered, when that has more words than the first,
  // filtered; and otherwise the first.
  lemma BetterIsWordier(speller: Option<Speller>, first: string, second: string)
    ensures BetterOf(speller, first, second) ==
            if WordsIn(Filtered(speller, second)) > WordsIn(Filtered(speller, first))
            then Filtered(speller, second) else Filtered(speller, first)
  {
    LongWordsCounts(Tokens(Filtered(speller, first)));
    LongWordsCounts(Tokens(Filtered(speller, second)));
  }

  method Weigh(result: OcrResult, speller: Option<Speller>) returns (count: nat)
    modifies result`text
    ensures result.text == Filtered(speller, old(result.text))
    ensures count == Score(speller, old(result.text))
  {
    result.RemoveNonWords(speller);
    count := result.WordCount(result.text);
  }

  // Where the collector stands after i results.
  ghost predicate BestSoFar(scores: seq<nat>, i: nat, max: int, at: nat)
    requires i <= |scores|
  {
    if i == 0 then max == -1
    else
      && at < i && max == scores[at]
      && (forall k :: 0 <= k < i ==> scores[k] <= max)
      && (forall k :: 0 <= k < at ==> scores[k] < max)
  }

  // The collector loop on results in the order in which they arrive (no errors among them),
  // whose texts are `texts`.  Each result is filtered in place; `best` is null only when
  // there is none.
  method Collect(results: seq<OcrResult>, speller: Option<Speller>, ghost texts: seq<string>)
      returns (best: OcrResult?, ghost at: nat)
    requires forall j, k :: 0 <= j < k < |results| ==> results[j] != results[k]
    requires |texts| == |results| && forall k :: 0 <= k < |results| ==> results[k].text == texts[k]
    modifies results
    ensures forall k :: 0 <= k < |results| ==> results[k].text == Filtered(speller, texts[k])
    ensures best == null <==> results == []
    ensures results != [] ==> IsEarliestBest(Scores(speller, texts), at) && best == results[at]
  {
    hide Score, Filtered;
    var max: int := -1;
    best, at := null, 0;
    ghost var scores := Scores(speller, texts);
    for i := 0 to |results|
      invariant forall k :: 0 <= k < i ==> results[k].text == Filtered(speller, texts[k])
      invariant forall k :: i <= k < |results| ==> results[k].text == texts[k]
      invariant BestSoFar(scores, i, max, at)
      invariant best == if i == 0 then null else results[at]
    {
      var count := Weigh(results[i], speller);
      ScoreAt(speller, texts, i);
      if count > max {
        best, max, at := results[i], count, i;
      }
    }
  }

  // outcomes[w] is what command w ends with: its text, or None for an error.
  function Jobs(outcomes: seq<Option<string>>): seq<FanOut.Job> {
    seq(|outcomes|, w requires 0 <= w < |outcomes| =>
      if outcomes[w].Some? then FanOut.Job(FanOut.Results, false) else FanOut.Job(FanOut.Errs, true))
  }

  // The texts the collector has seen, in arrival order.
  ghost function Arrived(outcomes: seq<Option<string>>, got: seq<nat>): seq<string>
    requires forall k :: 0 <= k < |got| ==> got[k] < |outcomes| && outcomes[got[k]].Some?
  {
    seq(|got|, k requires 0 <= k < |got| => outcomes[got[k]].value)
  }

  // Run over every schedule: an error exactly when some command fails; otherwise every
  // command's text has arrived once, and the earliest best of the arrivals scores at least
  // as much as every command.
  lemma RunPicksTheBestOfAll(outcomes: seq<Option<string>>, speller: Option<Speller>, s: FanOut.State)
    requires FanOut.Reachable(Jobs(outcomes), s) && s.returned
    ensures FanOut.WellFormed(Jobs(outcomes), s)
    ensures FanOut.Stopped(Jobs(outcomes), s) <==> exists w: nat :: w < |outcomes| && outcomes[w].None?
    ensures !FanOut.Stopped(Jobs(outcomes), s) ==>
              && |s.got| == |outcomes|
              && (forall k :: 0 <= k < |s.got| ==> s.got[k] < |outcomes| && outcomes[s.got[k]].Some?)
              && (forall w: nat :: w < |outcomes| ==> w in s.got)
    ensures !FanOut.Stopped(Jobs(outcomes), s) ==>
              forall b: nat :: IsEarliestBest(Scores(speller, Arrived(outcomes, s.got)), b) ==>
                forall w: nat :: w < |outcomes| ==>
                  Score(speller, outcomes[w].value) <= Score(speller, outcomes[s.got[b]].value)
  {
    var jobs := Jobs(outcomes);
    FanOut.ReturnMeaning(jobs, s);
    assert forall w: nat :: w < |outcomes| ==> jobs[w].stops == outcomes[w].None?;
    if !FanOut.Stopped(jobs, s) {
      forall k | 0 <= k < |s.got| ensures s.got[k] < |outcomes| && outcomes[s.got[k]].Some? {
        assert s.got[k] in s.got && !jobs[s.got[k]].stops;
      }
      var scores := Scores(speller, Arrived(outcomes, s.got));
      forall b: nat, w: nat | IsEarliestBest(scores, b) && w < |outcomes|
        ensures Score(speller, outcomes[w].value) <= Score(speller, outcomes[s.got[b]].value)
      {
        assert w in s.got;
        var k :| 0 <= k < |s.got| && s.got[k] == w;
        ScoreAt(speller, Arrived(outcomes, s.got), k);
        ScoreAt(speller, Arrived(outcomes, s.got), b);
        assert scores[k] <= scores[b];
      }
    }
  }
}
