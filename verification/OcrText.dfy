/** The word filter of OCRResult: tokenise by \w+, keep what looks like a word, join again. */
module OcrText {
  import opened Wrappers

  predicate IsWordChar(c: char) {
    '0' <= c <= '9' || 'A' <= c <= 'Z' || 'a' <= c <= 'z' || c == '_'
  }

  predicate AllWordChars(s: string) {
    forall k :: 0 <= k < |s| ==> IsWordChar(s[k])
  }

  predicate IsWord(w: string) {
    w != "" && AllWordChars(w)
  }

  predicate AreWords(ws: seq<string>) {
    forall k :: 0 <= k < |ws| ==> IsWord(ws[k])
  }

  function RunLength(s: string): (k: nat)
    ensures k <= |s|
  {
    if s == "" || !IsWordChar(s[0]) then 0 else 1 + RunLength(s[1..])
  }

  // FindAllString for \b(\w+)\b: the maximal runs of word characters, in order.
  function Tokens(s: string): seq<string>
    decreases |s|
  {
    if s == "" then []
    else if !IsWordChar(s[0]) then Tokens(s[1..])
    else [s[..RunLength(s)]] + Tokens(s[RunLength(s)..])
  }

  function Join(ws: seq<string>): string {
    if ws == [] then "" else if |ws| == 1 then ws[0] else ws[0] + (" " + Join(ws[1..]))
  }

  lemma {:induction false} RunIsMaximal(s: string)
    ensures AllWordChars(s[..RunLength(s)])
    ensures RunLength(s) < |s| ==> !IsWordChar(s[RunLength(s)])
  {
    if s != "" && IsWordChar(s[0]) {
      RunIsMaximal(s[1..]);
      assert s[..RunLength(s)] == [s[0]] + s[1..][..RunLength(s[1..])];
    }
  }

  lemma {:induction false} TokensAreWords(s: string)
    ensures AreWords(Tokens(s))
    decreases |s|
  {
    if s != "" {
      if IsWordChar(s[0]) {
        RunIsMaximal(s);
        TokensAreWords(s[RunLength(s)..]);
      } else {
        TokensAreWords(s[1..]);
      }
    }
  }

  // ---------- Tokenising and joining undo each other ----------

  lemma {:induction false} RunOfWord(w: string, rest: string)
    requires AllWordChars(w)
    requires rest == "" || !IsWordChar(rest[0])
    ensures RunLength(w + rest) == |w|
  {
    if w == "" {
      assert w + rest == rest;
    } else {
      assert (w + rest)[1..] == w[1..] + rest;
      RunOfWord(w[1..], rest);
    }
  }

  lemma TokensOfWord(w: string, rest: string)
    requires IsWord(w)
    requires rest == "" || !IsWordChar(rest[0])
    ensures Tokens(w + rest) == [w] + Tokens(rest)
  {
    RunOfWord(w, rest);
    assert (w + rest)[..|w|] == w && (w + rest)[|w|..] == rest;
  }

  lemma {:induction false} TokensOfJoin(ws: seq<string>)
    requires AreWords(ws)
    ensures Tokens(Join(ws)) == ws
  {
    if |ws| == 1 {
      TokensOfWord(ws[0], "");
      assert ws[0] + "" == ws[0];
    } else if |ws| > 1 {
      var rest := " " + Join(ws[1..]);
      TokensOfWord(ws[0], rest);
      assert rest[1..] == Join(ws[1..]);
      TokensOfJoin(ws[1..]);
    }
  }

  // Together with TokensOfWord this fixes Tokens completely: a character that is not a word
  // character separates what lies on its two sides.
  lemma {:induction false} TokensSplit(a: string, sep: char, b: string)
    requires !IsWordChar(sep)
    ensures Tokens(a + ([sep] + b)) == Tokens(a) + Tokens(b)
    decreases |a|
  {
    var rest := [sep] + b;
    var s := a + rest;
    assert rest[1..] == b;
    if a == "" {
      assert s == rest;
    } else if !IsWordChar(a[0]) {
      assert s[1..] == a[1..] + rest;
      TokensSplit(a[1..], sep, b);
    } else {
      var k := RunLength(a);
      RunIsMaximal(a);
      RunOfWord(a[..k], a[k..]);
      assert a == a[..k] + a[k..] && s == a[..k] + (a[k..] + rest);
      TokensOfWord(a[..k], a[k..]);
      TokensOfWord(a[..k], a[k..] + rest);
      TokensSplit(a[k..], sep, b);
    }
  }

  // ---------- The filter ----------

  type Speller = string -> bool

  // \d{3,} somewhere in the word.
  predicate HasThreeDigits(w: string) {
    exists k :: 0 <= k < |w| - 2 && '0' <= w[k] <= '9' && '0' <= w[k + 1] <= '9' && '0' <= w[k + 2] <= '9'
  }

  predicate Keep(check: Speller, w: string) {
    HasThreeDigits(w) || (if |w| == 1 then w == "a" || w == "i" else check(w))
  }

  function Kept(check: Speller, ws: seq<string>): seq<string> {
    if ws == [] then []
    else (if Keep(check, ws[0]) then [ws[0]] else []) + Kept(check, ws[1..])
  }

  function Filter(check: Speller, text: string): string {
    Join(Kept(check, Tokens(text)))
  }

  // Words of more than one character.
  function LongWords(ws: seq<string>): nat {
    if ws == [] then 0 else (if |ws[0]| > 1 then 1 else 0) + LongWords(ws[1..])
  }

  predicate Subsequence<T(==)>(a: seq<T>, b: seq<T>) {
    a == [] || (b != [] && ((a[0] == b[0] && Subsequence(a[1..], b[1..])) || Subsequence(a, b[1..])))
  }

  lemma {:induction false} KeptKept(check: Speller, ws: seq<string>)
    ensures Kept(check, Kept(check, ws)) == Kept(check, ws)
  {
    if ws != [] {
      var rest := Kept(check, ws[1..]);
      KeptKept(check, ws[1..]);
      assert ([ws[0]] + rest)[0] == ws[0] && ([ws[0]] + rest)[1..] == rest;
      assert [] + rest == rest;
    }
  }

  lemma {:induction false} KeptIsSubsequence(check: Speller, ws: seq<string>)
    ensures Subsequence(Kept(check, ws), ws)
    ensures LongWords(Kept(check, ws)) <= LongWords(ws)
  {
    if ws != [] {
      var rest := Kept(check, ws[1..]);
      KeptIsSubsequence(check, ws[1..]);
      assert ([ws[0]] + rest)[1..] == rest;
      assert [] + rest == rest;
    }
  }

  lemma FilterKeepsASubsequence(check: Speller, text: string)
    ensures Tokens(Filter(check, text)) == Kept(check, Tokens(text))
    ensures Subsequence(Tokens(Filter(check, text)), Tokens(text))
    ensures forall w :: w in Tokens(Filter(check, text)) <==> w in Tokens(text) && Keep(check, w)
    ensures LongWords(Tokens(Filter(check, text))) <= LongWords(Tokens(text))
  {
    KeptAreWords(check, text);
    KeptMembers(check, Tokens(text));
    TokensOfJoin(Kept(check, Tokens(text)));
    KeptIsSubsequence(check, Tokens(text));
  }

  lemma {:induction false} KeptMembers(check: Speller, ws: seq<string>)
    ensures forall w :: w in Kept(check, ws) <==> w in ws && Keep(check, w)
    ensures AreWords(ws) ==> AreWords(Kept(check, ws))
  {
    if ws != [] {
      KeptMembers(check, ws[1..]);
    }
  }

  lemma KeptAreWords(check: Speller, text: string)
    ensures AreWords(Kept(check, Tokens(text)))
  {
    TokensAreWords(text);
    KeptMembers(check, Tokens(text));
  }

  // Filtering twice is filtering once, for any fixed speller.
  lemma FilterIsIdempotent(check: Speller, text: string)
    ensures Filter(check, Filter(check, text)) == Filter(check, text)
  {
    FilterKeepsASubsequence(check, text);
    KeptKept(check, Tokens(text));
  }

  // ---------- The code ----------

  // unicode.IsSpace.
  predicate IsSpace(c: char) {
    var n := c as int;
    || 0x09 <= n <= 0x0D || n == 0x20 || n == 0x85 || n == 0xA0
    || n == 0x1680 || 0x2000 <= n <= 0x200A || n == 0x2028 || n == 0x2029 || n == 0x202F || n == 0x205F || n == 0x3000
  }

  function TrimLeft(s: string): string {
    if s != "" && IsSpace(s[0]) then TrimLeft(s[1..]) else s
  }

  function TrimRight(s: string): string {
    if s != "" && IsSpace(s[|s| - 1]) then TrimRight(s[..|s| - 1]) else s
  }

  function TrimSpace(s: string): string {
    TrimRight(TrimLeft(s))
  }

  // Every word preceded by a space, as the loop builds them.
  function Spaced(ws: seq<string>): string {
    if ws == [] then "" else " " + ws[0] + Spaced(ws[1..])
  }

  lemma {:induction false} SpacedIsJoined(ws: seq<string>)
    requires AreWords(ws) && ws != []
    ensures Spaced(ws) == " " + Join(ws)
    ensures Join(ws) != "" && IsWordChar(Join(ws)[0]) && IsWordChar(Join(ws)[|Join(ws)| - 1])
  {
    if |ws| == 1 {
      assert Spaced(ws) == " " + ws[0] + "";
    } else {
      SpacedIsJoined(ws[1..]);
      assert " " + ws[0] + (" " + Join(ws[1..])) == " " + (ws[0] + (" " + Join(ws[1..])));
    }
  }

  lemma TrimSpaced(ws: seq<string>)
    requires AreWords(ws)
    ensures TrimSpace(Spaced(ws)) == Join(ws)
  {
    if ws != [] {
      SpacedIsJoined(ws);
      assert (" " + Join(ws))[1..] == Join(ws);
      assert TrimLeft(Join(ws)) == Join(ws) == TrimRight(Join(ws));
      assert TrimLeft(" " + Join(ws)) == TrimLeft(Join(ws));
    }
  }

  lemma {:induction false} SpacedAppend(ws: seq<string>, w: string)
    ensures Spaced(ws + [w]) == Spaced(ws) + (" " + w)
  {
    if ws == [] {
      assert ws + [w] == [w] && [w][1..] == [];
      assert Spaced([w]) == " " + w + "" == Spaced(ws) + (" " + w);
    } else {
      assert (ws + [w])[1..] == ws[1..] + [w];
      SpacedAppend(ws[1..], w);
      assert " " + ws[0] + (Spaced(ws[1..]) + (" " + w)) == (" " + ws[0] + Spaced(ws[1..])) + (" " + w);
    }
  }

  lemma {:induction false} KeptAppend(check: Speller, ws: seq<string>, w: string)
    ensures Kept(check, ws + [w]) == if Keep(check, w) then Kept(check, ws) + [w] else Kept(check, ws)
  {
    if ws != [] {
      var head := if Keep(check, ws[0]) then [ws[0]] else [];
      assert (ws + [w])[1..] == ws[1..] + [w];
      KeptAppend(check, ws[1..], w);
      assert head + (Kept(check, ws[1..]) + [w]) == (head + Kept(check, ws[1..])) + [w];
    }
  }

  lemma {:induction false} LongWordsAppend(ws: seq<string>, w: string)
    ensures LongWords(ws + [w]) == LongWords(ws) + if |w| > 1 then 1 else 0
  {
    if ws != [] {
      assert (ws + [w])[1..] == ws[1..] + [w];
      LongWordsAppend(ws[1..], w);
    }
  }

  // What the filter leaves when the speller could not be created (None): the text as it was.
  function Filtered(speller: Option<Speller>, text: string): string {
    if speller.None? then text else Filter(speller.value, text)
  }

  // ---------- The filter and the trim in literal terms ----------

  // Of single characters exactly the letters, digits and the underscore are tokens.
  lemma OneCharacter(c: char)
    ensures Tokens([c]) ==
            if '0' <= c <= '9' || 'A' <= c <= 'Z' || 'a' <= c <= 'z' || c == '_' then [[c]] else []
  {
    assert [c][1..] == "" && RunLength("") == 0 && Tokens("") == [];
    assert IsWordChar(c) ==> RunLength([c]) == 1 && [c][..1] == [c];
  }

  // Which tokens survive: those with three digits in a row, of the single characters a and i,
  // and of the rest what the speller knows.  Without a speller the text is as it was.
  lemma WordSurvivesIff(check: Speller, text: string, w: string)
    ensures w in Tokens(Filtered(Some(check), text)) <==>
            w in Tokens(text) &&
            if exists k :: 0 <= k < |w| - 2 && '0' <= w[k] <= '9' && '0' <= w[k + 1] <= '9' && '0' <= w[k + 2] <= '9'
            then true
            else if |w| == 1 then w in {"a", "i"}
            else check(w)
    ensures Filtered(None, text) == text
  {
    FilterKeepsASubsequence(check, text);
  }

  lemma {:induction false} KeptCounts(check: Speller, ws: seq<string>, w: string)
    ensures multiset(Kept(check, ws))[w] == if Keep(check, w) then multiset(ws)[w] else 0
  {
    if ws != [] {
      assert ws == [ws[0]] + ws[1..];
      KeptCounts(check, ws[1..], w);
    }
  }

  // A token that survives does so as often as it occurs.
  lemma SurvivorsKeepTheirCount(check: Speller, text: string, w: string)
    requires w in Tokens(Filtered(Some(check), text))
    ensures multiset(Tokens(Filtered(Some(check), text)))[w] == multiset(Tokens(text))[w]
  {
    FilterKeepsASubsequence(check, text);
    KeptCounts(check, Tokens(text), w);
  }

  // The surviving tokens are joined by single spaces.
  lemma FilteredIsJoined(check: Speller, text: string)
    ensures Filtered(Some(check), text) == Join(Tokens(Filtered(Some(check), text)))
  {
    FilterKeepsASubsequence(check, text);
  }

  lemma {:induction false} JoinAppend(ws: seq<string>, w: string)
    ensures Join(ws + [w]) == if ws == [] then w else Join(ws) + (" " + w)
  {
    if ws == [] {
      assert ws + [w] == [w];
    } else {
      assert (ws + [w])[0] == ws[0] && (ws + [w])[1..] == ws[1..] + [w];
      JoinAppend(ws[1..], w);
      if |ws| > 1 {
        assert ws[0] + (" " + (Join(ws[1..]) + (" " + w))) == (ws[0] + (" " + Join(ws[1..]))) + (" " + w);
      }
    }
  }

  // The positions of the words of more than one character.
  ghost function LongPositions(ws: seq<string>): set<nat> {
    set k: nat | k < |ws| && |ws[k]| >= 2
  }

  lemma {:induction false} LongWordsCounts(ws: seq<string>)
    ensures LongWords(ws) == |LongPositions(ws)|
  {
    if ws != [] {
      var n := |ws| - 1;
      LongWordsCounts(ws[..n]);
      LongWordsAppend(ws[..n], ws[n]);
      assert ws[..n] + [ws[n]] == ws;
      assert LongPositions(ws) == LongPositions(ws[..n]) + if |ws[n]| >= 2 then {n} else {};
    }
  }

  // Unicode's white space.
  const WHITE_SPACE := {0x09, 0x0A, 0x0B, 0x0C, 0x0D, 0x20, 0x85, 0xA0, 0x1680, 0x2000, 0x2001, 0x2002, 0x2003, 0x2004,
                        0x2005, 0x2006, 0x2007, 0x2008, 0x2009, 0x200A, 0x2028, 0x2029, 0x202F, 0x205F, 0x3000}

  predicate AllSpace(s: string) {
    forall k :: 0 <= k < |s| ==> s[k] as int in WHITE_SPACE
  }

  lemma SpaceIsWhite(c: char)
    ensures IsSpace(c) <==> c as int in WHITE_SPACE
  {
  }

  lemma {:induction false} TrimLeftIs(s: string) returns (a: string)
    ensures s == a + TrimLeft(s) && AllSpace(a)
    ensures TrimLeft(s) != "" ==> TrimLeft(s)[0] as int !in WHITE_SPACE
  {
    a := "";
    if s != "" {
      SpaceIsWhite(s[0]);
      if IsSpace(s[0]) {
        a := TrimLeftIs(s[1..]);
        a := [s[0]] + a;
      }
    }
  }

  lemma {:induction false} TrimRightIs(s: string) returns (b: string)
    ensures s == TrimRight(s) + b && AllSpace(b)
    ensures TrimRight(s) != "" ==> TrimRight(s)[|TrimRight(s)| - 1] as int !in WHITE_SPACE
  {
    b := "";
    if s != "" {
      var n := |s| - 1;
      SpaceIsWhite(s[n]);
      if IsSpace(s[n]) {
        b := TrimRightIs(s[..n]);
        b := b + [s[n]];
        assert s == s[..n] + [s[n]];
      }
    }
  }

  // Trimming takes white space off both ends, and all of it.
  lemma TrimSpaceIs(s: string) returns (a: string, b: string)
    ensures s == a + (TrimSpace(s) + b) && AllSpace(a) && AllSpace(b)
    ensures var t := TrimSpace(s);
            t != "" ==> t[0] as int !in WHITE_SPACE && t[|t| - 1] as int !in WHITE_SPACE
  {
    a := TrimLeftIs(s);
    b := TrimRightIs(TrimLeft(s));
    assert TrimSpace(s) != "" ==> TrimSpace(s)[0] == TrimLeft(s)[0];
  }

  class OcrResult {
    const kind: string
    var text: string

    constructor (kind: string, text: string)
      ensures this.kind == kind && this.text == text
    {
      this.kind, this.text := kind, text;
    }

    method RemoveNonWords(speller: Option<Speller>)
      modifies this`text
      ensures text == Filtered(speller, old(text))
    {
      if speller.None? {
        return;
      }
      var check := speller.value;
      var words := Tokens(text);
      KeptAreWords(check, text);
      var str := "";
      var i := 0;
      while i < |words|
        invariant 0 <= i <= |words|
        invariant str == Spaced(Kept(check, words[..i]))
      {
        var word := words[i];
        KeptAppend(check, words[..i], word);
        SpacedAppend(Kept(check, words[..i]), word);
        assert words[..i + 1] == words[..i] + [word];
        if HasThreeDigits(word) {
          str := str + (" " + word);
        } else if |word| == 1 {
          if word == "a" || word == "i" {
            str := str + (" " + word);
          }
        } else if check(word) {
          str := str + (" " + word);
        }
        i := i + 1;
      }
      assert words[..|words|] == words;
      TrimSpaced(Kept(check, words));
      text := TrimSpace(str);
    }

    method WordCount(blob: string) returns (count: nat)
      ensures count == LongWords(Tokens(blob))
    {
      var words := Tokens(blob);
      count := 0;
      var i := 0;
      while i < |words|
        invariant 0 <= i <= |words|
        invariant count == LongWords(words[..i])
      {
        LongWordsAppend(words[..i], words[i]);
        assert words[..i + 1] == words[..i] + [words[i]];
        if |words[i]| > 1 {
          count := count + 1;
        }
        i := i + 1;
      }
      assert words[..|words|] == words;
    }
  }
}
