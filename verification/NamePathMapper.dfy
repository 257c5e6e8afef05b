/** NamePathMapper.mapToPath: two whole-string replacements one after the other, then an
    optional regular expression.
 */
module NamePathMapper {
  import opened HashGenerator
  import opened Wrappers

  const NAME := "${ImageName}"
  const SIZE := "${ImageSize}"

  // strings.Replace(s, old, with, -1): every non-overlapping occurrence, from the left.
  function ReplaceAll(s: string, pattern: string, with: string): string
    requires pattern != ""
  {
    if s == "" then ""
    else if pattern <= s then with + ReplaceAll(s[|pattern|..], pattern, with)
    else [s[0]] + ReplaceAll(s[1..], pattern, with)
  }

  function MapPlain(template: string, id: string, size: string): string {
    ReplaceAll(ReplaceAll(template, NAME, id), SIZE, size)
  }

  // ---------- Templates by their meaning ----------

  // Group(d) is a reference ${d} to a group of the regular expression, d one character.
  datatype Piece = Lit(text: string) | Name | Size | Group(d: char)

  predicate Free(c: char, s: string) {
    forall k :: 0 <= k < |s| ==> s[k] != c
  }

  predicate Plain(t: seq<Piece>) {
    forall k :: 0 <= k < |t| ==> (t[k].Lit? ==> Free('$', t[k].text)) && (t[k].Group? ==> '0' <= t[k].d <= '9')
  }

  function GroupText(d: char): string {
    ['$', '{', d, '}']
  }

  // The template's text with `name` and `size` standing for the two placeholders.
  function Fill(t: seq<Piece>, name: string, size: string): string {
    if t == [] then "" else PieceText(t[0], name, size) + Fill(t[1..], name, size)
  }

  function PieceText(p: Piece, name: string, size: string): string {
    match p
    case Lit(text) => text
    case Name => name
    case Size => size
    case Group(d) => GroupText(d)
  }

  lemma FillCons(p: Piece, t: seq<Piece>, name: string, size: string)
    ensures Fill([p] + t, name, size) == PieceText(p, name, size) + Fill(t, name, size)
  {
    assert ([p] + t)[1..] == t;
  }

  function Text(t: seq<Piece>): string {
    Fill(t, NAME, SIZE)
  }

  // No occurrence of p can begin inside s, whatever text follows s.
  predicate NoStart(p: string, s: string) {
    forall k :: 0 <= k < |s| ==> !(p <= s[k..]) && !(s[k..] <= p)
  }

  // ---------- Replacement passes over text in which the placeholder cannot begin ----------

  lemma PrefixOfConcat(p: string, a: string, b: string)
    requires p <= a + b
    ensures p <= a || a <= p
  {
    if |p| <= |a| {
      assert p == (a + b)[..|p|] == a[..|p|];
    } else {
      assert a == (a + b)[..|a|] == p[..|a|];
    }
  }

  lemma {:induction false} SkipNoStart(p: string, a: string, b: string, with: string)
    requires p != "" && NoStart(p, a)
    ensures ReplaceAll(a + b, p, with) == a + ReplaceAll(b, p, with)
  {
    if a == "" {
      assert a + b == b;
    } else {
      var s := a + b;
      assert a[0..] == a;
      if p <= s {
        PrefixOfConcat(p, a, b);
        assert false;
      }
      assert s[1..] == a[1..] + b;
      assert forall k :: 0 <= k < |a[1..]| ==> a[1..][k..] == a[k + 1..];
      SkipNoStart(p, a[1..], b, with);
      assert [a[0]] + (a[1..] + ReplaceAll(b, p, with)) == a + ReplaceAll(b, p, with);
    }
  }

  lemma TakeMatch(p: string, b: string, with: string)
    requires p != ""
    ensures ReplaceAll(p + b, p, with) == with + ReplaceAll(b, p, with)
  {
    assert (p + b)[|p|..] == b;
  }

  lemma DollarFreeHasNoStart(p: string, s: string)
    requires p != "" && p[0] == '$' && Free('$', s)
    ensures NoStart(p, s)
  {
  }

  // Text that starts with the one '$' it contains, and differs from p later, hides no start of p.
  lemma OneDollarHasNoStart(p: string, s: string, k: nat)
    requires p != "" && p[0] == '$' && s != "" && Free('$', s[1..])
    requires k < |p| && k < |s| && p[k] != s[k]
    ensures NoStart(p, s)
  {
    forall j | 0 < j < |s| ensures s[j] != '$' {
      assert s[1..][j - 1] == s[j];
    }
  }

  lemma FirstPassPiece(p: Piece, rest: string, id: string)
    requires Plain([p])
    ensures ReplaceAll(PieceText(p, NAME, SIZE) + rest, NAME, id) == PieceText(p, id, SIZE) + ReplaceAll(rest, NAME, id)
  {
    assert [p][0] == p;
    match p {
      case Lit(text) =>
        DollarFreeHasNoStart(NAME, text);
        SkipNoStart(NAME, text, rest, id);
      case Name =>
        TakeMatch(NAME, rest, id);
      case Size =>
        OneDollarHasNoStart(NAME, SIZE, 7);
        SkipNoStart(NAME, SIZE, rest, id);
      case Group(d) =>
        OneDollarHasNoStart(NAME, GroupText(d), 2);
        SkipNoStart(NAME, GroupText(d), rest, id);
    }
  }

  lemma SecondPassPiece(p: Piece, rest: string, id: string, size: string)
    requires Plain([p]) && NoStart(SIZE, id)
    ensures ReplaceAll(PieceText(p, id, SIZE) + rest, SIZE, size)
         == PieceText(p, id, size) + ReplaceAll(rest, SIZE, size)
  {
    assert [p][0] == p;
    match p {
      case Lit(text) =>
        DollarFreeHasNoStart(SIZE, text);
        SkipNoStart(SIZE, text, rest, size);
      case Name =>
        SkipNoStart(SIZE, id, rest, size);
      case Size =>
        TakeMatch(SIZE, rest, size);
      case Group(d) =>
        OneDollarHasNoStart(SIZE, GroupText(d), 2);
        SkipNoStart(SIZE, GroupText(d), rest, size);
    }
  }

  lemma {:induction false} FirstPass(t: seq<Piece>, id: string)
    requires Plain(t)
    ensures ReplaceAll(Text(t), NAME, id) == Fill(t, id, SIZE)
  {
    if t != [] {
      FirstPass(t[1..], id);
      FirstPassPiece(t[0], Text(t[1..]), id);
    }
  }

  lemma {:induction false} SecondPass(t: seq<Piece>, id: string, size: string)
    requires Plain(t) && NoStart(SIZE, id)
    ensures ReplaceAll(Fill(t, id, SIZE), SIZE, size) == Fill(t, id, size)
  {
    if t != [] {
      SecondPass(t[1..], id, size);
      SecondPassPiece(t[0], Fill(t[1..], id, SIZE), id, size);
    }
  }

  // ---------- When two passes are one simultaneous substitution ----------

  lemma {:induction false} ReplaceByNothingShortens(a: string, p: string, b: string)
    requires p != ""
    ensures |ReplaceAll(a + p + b, p, "")| < |a + p + b|
    decreases |a|
  {
    var s := a + p + b;
    ReplaceByNothingNeverLengthens(s[|p|..], p);
    assert a == "" ==> s == p + b;
    if !(p <= s) {
      assert s[1..] == a[1..] + p + b;
      ReplaceByNothingShortens(a[1..], p, b);
    }
  }

  lemma {:induction false} ReplaceByNothingNeverLengthens(s: string, p: string)
    requires p != ""
    ensures |ReplaceAll(s, p, "")| <= |s|
    decreases |s|
  {
    if s != "" {
      if p <= s {
        ReplaceByNothingNeverLengthens(s[|p|..], p);
      } else {
        ReplaceByNothingNeverLengthens(s[1..], p);
      }
    }
  }

  // Literal text that, put after the id, completes the placeholder begun at position k.
  lemma CompletePlaceholder(id: string, k: nat) returns (tail: string, extra: string)
    requires k < |id| && (SIZE <= id[k..] || id[k..] <= SIZE)
    ensures Free('$', tail) && id + tail == id[..k] + SIZE + extra
  {
    var end := id[k..];
    assert id == id[..k] + end;
    if SIZE <= end {
      tail, extra := "", end[|SIZE|..];
      assert end == SIZE + extra;
    } else {
      tail, extra := SIZE[|end|..], "";
      assert SIZE == end + tail;
      assert Free('$', SIZE[1..]);
      forall j | 0 <= j < |tail| ensures tail[j] != '$' {
        assert tail[j] == SIZE[1..][|end| - 1 + j];
      }
    }
  }

  // A template and a size for which the two passes of mapToPath go wrong on an id in which
  // the size placeholder can begin.
  lemma TwoPassesCanDiffer(id: string, k: nat) returns (t: seq<Piece>)
    requires k < |id| && (SIZE <= id[k..] || id[k..] <= SIZE)
    ensures Plain(t) && MapPlain(Text(t), id, "") != Fill(t, id, "")
  {
    var tail, extra := CompletePlaceholder(id, k);
    t := [Name] + ([Lit(tail)] + []);
    FirstPass(t, id);
    FillNameLit(tail, id, SIZE);
    FillNameLit(tail, id, "");
    ReplaceByNothingShortens(id[..k], SIZE, extra);
  }

  lemma FillNameLit(tail: string, name: string, size: string)
    ensures Fill([Name] + ([Lit(tail)] + []), name, size) == name + tail
  {
    FillCons(Lit(tail), [], name, size);
    FillCons(Name, [Lit(tail)] + [], name, size);
    assert tail + "" == tail;
  }

  // For every id: the two passes equal one simultaneous substitution, over all templates and
  // all sizes, if and only if the size placeholder cannot begin inside the id.
  lemma TwoPassesAreOneSubstitution(id: string)
    ensures NoStart(SIZE, id) <==>
            forall t, size :: Plain(t) ==> MapPlain(Text(t), id, size) == Fill(t, id, size)
  {
    if NoStart(SIZE, id) {
      forall t, size | Plain(t) ensures MapPlain(Text(t), id, size) == Fill(t, id, size) {
        FirstPass(t, id);
        SecondPass(t, id, size);
      }
    } else {
      var k :| 0 <= k < |id| && (SIZE <= id[k..] || id[k..] <= SIZE);
      var t := TwoPassesCanDiffer(id, k);
    }
  }

  // ---------- Occurrences ----------

  predicate Occurs(p: string, s: string) {
    exists k :: 0 <= k <= |s| && p <= s[k..]
  }

  lemma OccursInPart(p: string, a: string, b: string)
    ensures Occurs(p, a) || Occurs(p, b) ==> Occurs(p, a + b)
  {
    if Occurs(p, a) {
      var k :| 0 <= k <= |a| && p <= a[k..];
      assert (a + b)[k..] == a[k..] + b;
    } else if Occurs(p, b) {
      var k :| 0 <= k <= |b| && p <= b[k..];
      assert (a + b)[|a| + k..] == b[k..];
    }
  }

  lemma OccursInTail(p: string, s: string)
    requires s != ""
    ensures Occurs(p, s[1..]) ==> Occurs(p, s)
    ensures p <= s ==> Occurs(p, s)
  {
    OccursInPart(p, s[..1], s[1..]);
    assert s[..1] + s[1..] == s == s[0..];
  }

  lemma PrefixOfCons(p: string, c: char, t: string)
    requires p != ""
    ensures p <= [c] + t <==> p[0] == c && p[1..] <= t
  {
    assert ([c] + t)[1..] == t;
    assert p == [p[0]] + p[1..];
  }

  lemma OccursInside(p: string, a: string, b: string)
    ensures Occurs(p, a + (p + b))
  {
    assert (a + (p + b))[|a|..] == p + b;
  }

  lemma Split(p: string, s: string) returns (a: string, b: string)
    requires Occurs(p, s)
    ensures s == a + (p + b)
  {
    var k :| 0 <= k <= |s| && p <= s[k..];
    a, b := s[..k], s[k..][|p|..];
  }

  lemma {:induction false} NothingToReplace(s: string, p: string, with: string)
    requires p != "" && !Occurs(p, s)
    ensures ReplaceAll(s, p, with) == s
  {
    if s != "" {
      OccursInTail(p, s);
      NothingToReplace(s[1..], p, with);
    }
  }

  // No occurrence can begin earlier and reach into this one, because the placeholder's first
  // character stands nowhere else in it.
  lemma NoEarlierStart(a: string, p: string, b: string)
    requires p != "" && Free(p[0], p[1..]) && a != "" && !Occurs(p, a)
    ensures !(p <= a + (p + b))
  {
    var s := a + (p + b);
    if |p| <= |a| {
      OccursInTail(p, a);
      assert s[..|p|] == a[..|p|];
    } else {
      assert s[|a|] == p[0] && p[|a|] == p[1..][|a| - 1];
    }
  }

  lemma {:induction false} FirstReplaced(a: string, p: string, b: string, with: string)
    requires p != "" && Free(p[0], p[1..]) && !Occurs(p, a)
    ensures ReplaceAll(a + (p + b), p, with) == a + (with + ReplaceAll(b, p, with))
  {
    var s := a + (p + b);
    if a == "" {
      assert s == p + b;
      TakeMatch(p, b, with);
    } else {
      NoEarlierStart(a, p, b);
      OccursInTail(p, a);
      assert s[1..] == a[1..] + (p + b);
      FirstReplaced(a[1..], p, b, with);
    }
  }

  // Text free of the placeholder's first character and of the replacement's is not made by
  // replacing.
  lemma {:induction false} PrefixWasThere(q: string, t: string, p: string, with: string)
    requires p != "" && with != "" && with[0] !in q
    requires q <= ReplaceAll(t, p, with)
    ensures q <= t
  {
    if q != "" && t != "" {
      assert q[0] == ReplaceAll(t, p, with)[0] && q[0] != with[0];
      if p <= t {
        assert false;
      }
      PrefixOfCons(q, t[0], ReplaceAll(t[1..], p, with));
      PrefixWasThere(q[1..], t[1..], p, with);
      PrefixOfCons(q, t[0], t[1..]);
      assert t == [t[0]] + t[1..];
    }
  }

  // A replacement that shares no start with the placeholder leaves no occurrence of it.
  lemma {:induction false} NoneLeft(s: string, p: string, with: string)
    requires p != "" && with != "" && with[0] !in p && Free(p[0], with)
    ensures !Occurs(p, ReplaceAll(s, p, with))
    decreases |s|
  {
    var r := ReplaceAll(s, p, with);
    if s != "" {
      var head, rest := if p <= s then with else [s[0]], if p <= s then s[|p|..] else s[1..];
      NoneLeft(rest, p, with);
      var r' := ReplaceAll(rest, p, with);
      assert r == head + r';
      forall k | 0 <= k <= |r| ensures !(p <= r[k..]) {
        if k >= |head| {
          assert r[k..] == r'[k - |head|..];
        } else if p <= s {
          assert r[k..][0] == with[k];
        } else {
          assert r[0..] == r;
          PrefixOfCons(p, s[0], r');
          PrefixOfCons(p, s[0], rest);
          assert s == [s[0]] + rest;
          if p[1..] <= r' {
            PrefixWasThere(p[1..], rest, p, with);
          }
        }
      }
    }
  }

  lemma {:induction false} ReplacementOccurs(s: string, p: string, with: string)
    requires p != "" && Occurs(p, s)
    ensures Occurs(with, ReplaceAll(s, p, with))
    decreases |s|
  {
    if p <= s {
      OccursInside(with, "", ReplaceAll(s[|p|..], p, with));
      assert "" + (with + ReplaceAll(s[|p|..], p, with)) == ReplaceAll(s, p, with);
    } else {
      var k :| 0 <= k <= |s| && p <= s[k..];
      assert s[0..] == s;
      assert s[k..] == s[1..][k - 1..];
      ReplacementOccurs(s[1..], p, with);
      assert ReplaceAll(s, p, with) == [s[0]] + ReplaceAll(s[1..], p, with);
      hide ReplaceAll, Occurs;
      OccursInPart(with, [s[0]], ReplaceAll(s[1..], p, with));
    }
  }

  // ---------- The plain configuration ----------

  // ${ImageSize}/${ImageName}
  const PLAIN := SIZE + ("/" + NAME)

  function PlainTemplate(): (t: seq<Piece>)
    ensures Plain(t)
  {
    [Size] + ([Lit("/")] + ([Name] + []))
  }

  lemma FillPlain(name: string, size: string)
    ensures Fill(PlainTemplate(), name, size) == size + ("/" + name)
  {
    FillCons(Name, [], name, size);
    FillCons(Lit("/"), [Name] + [], name, size);
    FillCons(Size, [Lit("/")] + ([Name] + []), name, size);
    assert name + "" == name;
  }

  // For every id and every size: the second pass also rewrites the id.
  lemma PlainPath(id: string, size: string)
    ensures MapPlain(PLAIN, id, size) == size + ("/" + ReplaceAll(id, SIZE, size))
  {
    FillPlain(NAME, SIZE);
    assert Text(PlainTemplate()) == PLAIN;
    FirstPass(PlainTemplate(), id);
    FillPlain(id, SIZE);
    TakeMatch(SIZE, "/" + id, size);
    DollarFreeHasNoStart(SIZE, "/");
    SkipNoStart(SIZE, "/", id, size);
  }

  lemma FirstSlash(a: string, b: string)
    requires Free('/', a)
    ensures var s := a + ("/" + b); s[|a|] == '/' && forall k :: 0 <= k < |a| ==> s[k] != '/'
  {
  }

  lemma SplitAtSlash(a: string, b: string, c: string, d: string)
    requires Free('/', a) && Free('/', c) && a + ("/" + b) == c + ("/" + d)
    ensures a == c && b == d
  {
    var s := a + ("/" + b);
    FirstSlash(a, b);
    FirstSlash(c, d);
    assert |a| == |c|;
    assert a == s[..|a|] == c;
    assert b == s[|a| + 1..] == d;
  }

  // Two objects share a path exactly when their sizes are equal and their ids are, once the
  // placeholder in them has been replaced.
  lemma PlainPathsCollideIff(id1: string, size1: string, id2: string, size2: string)
    requires Free('/', size1) && Free('/', size2)
    ensures MapPlain(PLAIN, id1, size1) == MapPlain(PLAIN, id2, size2) <==>
            size1 == size2 && ReplaceAll(id1, SIZE, size1) == ReplaceAll(id2, SIZE, size2)
  {
    PlainPath(id1, size1);
    PlainPath(id2, size2);
    if MapPlain(PLAIN, id1, size1) == MapPlain(PLAIN, id2, size2) {
      SplitAtSlash(size1, ReplaceAll(id1, SIZE, size1), size2, ReplaceAll(id2, SIZE, size2));
    }
  }

  // Ids without the placeholder never share a path.
  lemma PlainPathsAreDistinct(id1: string, size1: string, id2: string, size2: string)
    requires !Occurs(SIZE, id1) && !Occurs(SIZE, id2) && Free('/', size1) && Free('/', size2)
    ensures MapPlain(PLAIN, id1, size1) == MapPlain(PLAIN, id2, size2) <==> id1 == id2 && size1 == size2
  {
    PlainPathsCollideIff(id1, size1, id2, size2);
    NothingToReplace(id1, SIZE, size1);
    NothingToReplace(id2, SIZE, size2);
  }

  // The two sizes the server gives its objects.
  const ORIGINAL := "original"
  const THUMBNAIL := "thumbnail"

  // A size like these: no '$', no '/', and a first letter that ${ImageSize} does not have.
  predicate Ordinary(size: string) {
    Free('$', size) && Free('/', size) && size != "" && size[0] !in SIZE
  }

  lemma ServerSizesAreOrdinary()
    ensures Ordinary(ORIGINAL) && Ordinary(THUMBNAIL)
    ensures Matches(ORIGINAL) && Matches(THUMBNAIL)
  {
    assert forall k :: 0 <= k < |SIZE| ==> SIZE[k] != 'o' && SIZE[k] != 't';
  }

  // No other object, of this or any other size, has the path of this one.
  ghost predicate OwnPath(id: string, size: string) {
    forall id2, size2 :: Free('/', size2) && MapPlain(PLAIN, id2, size2) == MapPlain(PLAIN, id, size) ==>
      id2 == id && size2 == size
  }

  // An object has its path to itself exactly when its id contains neither the placeholder
  // nor the size that would replace it.
  lemma OwnPathIff(id: string, size: string)
    requires Ordinary(size)
    ensures OwnPath(id, size) <==> !Occurs(SIZE, id) && !Occurs(size, id)
  {
    if Occurs(SIZE, id) {
      SharesWithReplaced(id, size);
    } else if Occurs(size, id) {
      var id2 := SharesWithPlaceholder(id, size);
    } else {
      forall id2, size2 | Free('/', size2) && MapPlain(PLAIN, id2, size2) == MapPlain(PLAIN, id, size)
        ensures id2 == id && size2 == size
      {
        PlainPathsCollideIff(id2, size2, id, size);
        NothingToReplace(id, SIZE, size);
        if Occurs(SIZE, id2) {
          ReplacementOccurs(id2, SIZE, size);
          assert false;
        }
        NothingToReplace(id2, SIZE, size);
      }
    }
  }

  lemma SharesWithReplaced(id: string, size: string)
    requires Ordinary(size) && Occurs(SIZE, id)
    ensures ReplaceAll(id, SIZE, size) != id
    ensures MapPlain(PLAIN, ReplaceAll(id, SIZE, size), size) == MapPlain(PLAIN, id, size)
  {
    var id2 := ReplaceAll(id, SIZE, size);
    NoneLeft(id, SIZE, size);
    NothingToReplace(id2, SIZE, size);
    PlainPath(id, size);
    PlainPath(id2, size);
  }

  lemma SharesWithPlaceholder(id: string, size: string) returns (id2: string)
    requires Ordinary(size) && !Occurs(SIZE, id) && Occurs(size, id)
    ensures id2 != id && MapPlain(PLAIN, id2, size) == MapPlain(PLAIN, id, size)
  {
    var a, b := Split(size, id);
    id2 := a + (SIZE + b);
    OccursInPart(SIZE, a, size + b);
    OccursInPart(SIZE, size, b);
    FirstReplaced(a, SIZE, b, size);
    NothingToReplace(b, SIZE, size);
    NothingToReplace(id, SIZE, size);
    OccursInside(SIZE, a, b);
    PlainPath(id, size);
    PlainPath(id2, size);
  }

  // ---------- The regular expression of the sharded configuration ----------

  // ^([a-zA-Z0-9])([a-zA-Z0-9]).* : two alphanumerics at the start, then the rest of the line.
  predicate Matches(id: string) {
    |id| >= 2 && Allowable(id[0] as int) && Allowable(id[1] as int)
  }

  lemma MatchesIs(id: string)
    ensures Matches(id) <==>
            && |id| >= 2
            && ('0' <= id[0] <= '9' || 'A' <= id[0] <= 'Z' || 'a' <= id[0] <= 'z')
            && ('0' <= id[1] <= '9' || 'A' <= id[1] <= 'Z' || 'a' <= id[1] <= 'z')
  {
  }

  function LineEnd(id: string): (k: nat)
    ensures k <= |id| && (forall j :: 0 <= j < k ==> id[j] != '\n') && (k < |id| ==> id[k] == '\n')
  {
    if id == "" || id[0] == '\n' then 0 else 1 + LineEnd(id[1..])
  }

  // What a match offers to the replacement text: $0, $1 and $2.  `letter` says which
  // characters outside ASCII are letters or digits.
  datatype Match = Match(whole: string, first: string, second: string, letter: char -> bool)

  function MatchOf(id: string, letter: char -> bool): Match
    requires Matches(id)
  {
    Match(id[..LineEnd(id)], [id[0]], [id[1]], letter)
  }

  predicate IsNameChar(m: Match, c: char) {
    Allowable(c as int) || c == '_' || (c as int >= 128 && m.letter(c))
  }

  function NameLength(m: Match, s: string): (k: nat)
    ensures k <= |s|
  {
    if s == "" || !IsNameChar(m, s[0]) then 0 else 1 + NameLength(m, s[1..])
  }

  // What follows a '$': `name` or `{name}`, with its length, or None when malformed.
  function Reference(m: Match, s: string): (r: Option<(string, nat)>)
    ensures r.Some? ==> 0 < r.value.1 <= |s|
  {
    if s != "" && s[0] == '{' then
      var n := NameLength(m, s[1..]);
      if 0 < n < |s| - 1 && s[n + 1] == '}' then Some((s[1..n + 1], n + 2)) else None
    else
      var n := NameLength(m, s);
      if n > 0 then Some((s[..n], n)) else None
  }

  // Groups that do not exist expand to nothing; a number with leading zeros is no group.
  function Referent(m: Match, name: string): string {
    if name == "0" then m.whole
    else if name == "1" then m.first
    else if name == "2" then m.second
    else ""
  }

  // regexp.Expand: `$$` is a '$', a reference is its group, a malformed one is left as it is.
  function Expand(s: string, m: Match): string
    decreases |s|
  {
    if s == "" then ""
    else if s[0] != '$' then [s[0]] + Expand(s[1..], m)
    else if |s| > 1 && s[1] == '$' then "$" + Expand(s[2..], m)
    else
      var r := Reference(m, s[1..]);
      if r.None? then "$" + Expand(s[1..], m)
      else Referent(m, r.value.0) + Expand(s[1..][r.value.1..], m)
  }

  // ReplaceAllString: the one match is replaced, the unmatched remainder copied; an id that
  // does not match is copied whole.
  function MapSharded(template: string, id: string, size: string, letter: char -> bool): string {
    if Matches(id)
    then Expand(MapPlain(template, id, size), MatchOf(id, letter)) + id[LineEnd(id)..]
    else id
  }

  lemma {:induction false} ExpandSkips(a: string, b: string, m: Match)
    requires Free('$', a)
    ensures Expand(a + b, m) == a + Expand(b, m)
  {
    if a == "" {
      assert a + b == b;
    } else {
      assert (a + b)[0] == a[0] && (a + b)[1..] == a[1..] + b;
      ExpandSkips(a[1..], b, m);
      assert [a[0]] + (a[1..] + Expand(b, m)) == a + Expand(b, m);
    }
  }

  lemma ExpandGroup(d: char, b: string, m: Match)
    requires '0' <= d <= '9'
    ensures Expand(GroupText(d) + b, m) == Referent(m, [d]) + Expand(b, m)
  {
    var s := GroupText(d) + b;
    var rest := s[1..];
    assert rest[0] == '{' && rest[1] == d && rest[2] == '}';
    assert rest[1..][0] == d && rest[1..][1..][0] == '}';
    assert NameLength(m, rest[1..][1..]) == 0;
    assert NameLength(m, rest[1..]) == 1;
    assert rest[1..2] == [d];
    assert rest[3..] == b;
  }

  // ---------- The expansion in literal terms ----------

  // Letters, digits and the underscore, and outside ASCII what counts as a letter.
  predicate IsName(m: Match, s: string) {
    forall k :: 0 <= k < |s| ==>
      || '0' <= s[k] <= '9' || 'A' <= s[k] <= 'Z' || 'a' <= s[k] <= 'z' || s[k] == '_'
      || (s[k] as int >= 128 && m.letter(s[k]))
  }

  lemma {:induction false} NameRun(m: Match, name: string, b: string)
    requires IsName(m, name) && (b == "" || !IsName(m, b[..1]))
    ensures NameLength(m, name + b) == |name|
  {
    if name == "" {
      assert name + b == b;
      assert b != "" ==> b[..1][0] == b[0];
    } else {
      assert (name + b)[1..] == name[1..] + b;
      NameRun(m, name[1..], b);
    }
  }

  // `$$` stands for '$'.
  lemma EscapeExpands(b: string, m: Match)
    ensures Expand("$$" + b, m) == "$" + Expand(b, m)
  {
    assert ("$$" + b)[2..] == b;
  }

  // `${name}` stands for the group of that number, or for nothing.
  lemma BracedExpands(name: string, b: string, m: Match)
    requires name != "" && IsName(m, name)
    ensures Expand("${" + (name + ("}" + b)), m) ==
            (if name == "0" then m.whole else if name == "1" then m.first else if name == "2" then m.second else "")
            + Expand(b, m)
  {
    var s := "${" + (name + ("}" + b));
    var rest := s[1..];
    assert s[1] == '{';
    assert rest[1..] == name + ("}" + b);
    assert ("}" + b)[..1] == "}" && !IsName(m, "}") by { assert "}"[0] == '}'; }
    NameRun(m, name, "}" + b);
    assert rest[1..|name| + 1] == name && rest[|name| + 1] == '}';
    assert rest[|name| + 2..] == b;
  }

  // `$name` takes as many characters as it can.
  lemma BareExpands(name: string, b: string, m: Match)
    requires name != "" && IsName(m, name) && (b == "" || !IsName(m, b[..1]))
    ensures Expand("$" + (name + b), m) ==
            (if name == "0" then m.whole else if name == "1" then m.first else if name == "2" then m.second else "")
            + Expand(b, m)
  {
    var s := "$" + (name + b);
    var rest := s[1..];
    assert rest == name + b && rest[0] == name[0];
    NameRun(m, name, b);
    assert rest[..|name|] == name && rest[|name|..] == b;
  }

  // A '$' that begins neither stands for itself: at the end, before another character, and
  // before a brace that is not closed right after a name.
  lemma LoneDollarExpands(b: string, m: Match)
    requires b == "" || (b[0] != '$' && b[0] != '{' && !IsName(m, b[..1]))
    ensures Expand("$" + b, m) == "$" + Expand(b, m)
  {
    assert ("$" + b)[1..] == b;
    assert b != "" ==> b[..1][0] == b[0];
    assert b + "" == b;
    NameRun(m, "", b);
    assert "" + b == b;
  }

  lemma OpenBraceExpands(name: string, b: string, m: Match)
    requires IsName(m, name) && (b == "" || !IsName(m, b[..1]))
    requires name == "" || b == "" || b[0] != '}'
    ensures Expand("${" + (name + b), m) == "${" + Expand(name + b, m)
  {
    var s := "${" + (name + b);
    var rest := s[1..];
    assert s[1] == '{';
    assert rest[1..] == name + b && rest == "{" + (name + b);
    NameRun(m, name, b);
    assert Reference(m, rest).None?;
    ExpandSkips("{", name + b, m);
    assert "$" + ("{" + Expand(name + b, m)) == "${" + Expand(name + b, m);
  }

  // What a match offers: the first line, and the id's first two characters.
  lemma MatchIs(id: string, letter: char -> bool)
    requires Matches(id)
    ensures var m := MatchOf(id, letter);
            && m.first == [id[0]] && m.second == [id[1]]
            && m.whole <= id && '\n' !in m.whole && (|m.whole| < |id| ==> id[|m.whole|] == '\n')
  {
  }

  // The shipped templates.
  lemma PlainIs()
    ensures PLAIN == "${ImageSize}/${ImageName}"
  {
  }

  lemma ShardedIs()
    ensures SHARDED == "${ImageSize}/${1}/${2}/${ImageName}"
  {
    NameTail();
    GroupTail('2', "/${ImageName}", "${2}/${ImageName}");
    GroupTail('1', "/${2}/${ImageName}", "${1}/${2}/${ImageName}");
    SizeHead();
  }

  lemma NameTail()
    ensures "/" + NAME == "/${ImageName}"
  {
  }

  lemma GroupTail(d: char, tail: string, r: string)
    requires r == ['$', '{', d, '}'] + tail
    ensures GroupText(d) + tail == r
  {
  }

  lemma SizeHead()
    ensures SIZE + "/${1}/${2}/${ImageName}" == "${ImageSize}/${1}/${2}/${ImageName}"
  {
  }

  // ${ImageSize}/${1}/${2}/${ImageName}
  const SHARDED := SIZE + ("/" + (GroupText('1') + ("/" + (GroupText('2') + ("/" + NAME)))))

  function ShardedTemplate(): (t: seq<Piece>)
    ensures Plain(t)
  {
    [Size] + ([Lit("/")] + ([Group('1')] + ([Lit("/")] + ([Group('2')] + ([Lit("/")] + ([Name] + []))))))
  }

  lemma FillSharded(name: string, size: string)
    ensures Fill(ShardedTemplate(), name, size)
         == size + ("/" + (GroupText('1') + ("/" + (GroupText('2') + ("/" + name)))))
  {
    var t0 := [Name] + [];
    var t1 := [Lit("/")] + t0;
    var t2 := [Group('2')] + t1;
    var t3 := [Lit("/")] + t2;
    var t4 := [Group('1')] + t3;
    var t5 := [Lit("/")] + t4;
    FillCons(Name, [], name, size);
    FillCons(Lit("/"), t0, name, size);
    FillCons(Group('2'), t1, name, size);
    FillCons(Lit("/"), t2, name, size);
    FillCons(Group('1'), t3, name, size);
    FillCons(Lit("/"), t4, name, size);
    FillCons(Size, t5, name, size);
    assert name + "" == name;
  }

  // "/${d}/" + rest, in the second pass and in the expansion.
  lemma SlashGroup(d: char, rest: string, size: string, m: Match)
    requires d == '1' || d == '2'
    ensures ReplaceAll("/" + (GroupText(d) + rest), SIZE, size) == "/" + (GroupText(d) + ReplaceAll(rest, SIZE, size))
    ensures Expand("/" + (GroupText(d) + rest), m)
         == "/" + ((if d == '1' then m.first else m.second) + Expand(rest, m))
  {
    DollarFreeHasNoStart(SIZE, "/");
    SkipNoStart(SIZE, "/", GroupText(d) + rest, size);
    OneDollarHasNoStart(SIZE, GroupText(d), 2);
    SkipNoStart(SIZE, GroupText(d), rest, size);
    ExpandGroup(d, rest, m);
    ExpandSkips("/", GroupText(d) + rest, m);
  }

  lemma Assoc(a: string, b: string, c: string)
    ensures (a + b) + c == a + (b + c)
  {
  }

  // For every id, with references or without.
  lemma ShardedFill(id: string, size: string, m: Match)
    ensures MapPlain(SHARDED, id, size)
         == size + ("/" + (GroupText('1') + ("/" + (GroupText('2') + ("/" + ReplaceAll(id, SIZE, size))))))
  {
    FillSharded(NAME, SIZE);
    assert Text(ShardedTemplate()) == SHARDED;
    FirstPass(ShardedTemplate(), id);
    FillSharded(id, SIZE);
    var t3 := "/" + id;
    var t2 := "/" + (GroupText('2') + t3);
    TakeMatch(SIZE, "/" + (GroupText('1') + t2), size);
    SlashGroup('1', t2, size, m);
    SlashGroup('2', t3, size, m);
    DollarFreeHasNoStart(SIZE, "/");
    SkipNoStart(SIZE, "/", id, size);
  }

  // The last element of a sharded path: the id after both replacements and the expansion,
  // then a copy of what it has after its first line.
  function LastElement(id: string, size: string, letter: char -> bool): string
    requires Matches(id)
  {
    Expand(ReplaceAll(id, SIZE, size), MatchOf(id, letter)) + id[LineEnd(id)..]
  }

  lemma ShardedPath(id: string, size: string, letter: char -> bool)
    requires Free('$', size) && Matches(id)
    ensures MapSharded(SHARDED, id, size, letter)
         == size + ("/" + ([id[0]] + ("/" + ([id[1]] + ("/" + LastElement(id, size, letter))))))
  {
    var m, after := MatchOf(id, letter), id[LineEnd(id)..];
    var name := ReplaceAll(id, SIZE, size);
    ShardedFill(id, size, m);
    ExpandSharded(name, size, m);
    var x6 := Expand(name, m);
    var x5 := "/" + x6;
    var x4 := [id[1]] + x5;
    var x3 := "/" + x4;
    var x2 := [id[0]] + x3;
    var x1 := "/" + x2;
    Assoc(size, x1, after);
    Assoc("/", x2, after);
    Assoc([id[0]], x3, after);
    Assoc("/", x4, after);
    Assoc([id[1]], x5, after);
    Assoc("/", x6, after);
  }

  lemma ExpandSharded(name: string, size: string, m: Match)
    requires Free('$', size)
    ensures Expand(size + ("/" + (GroupText('1') + ("/" + (GroupText('2') + ("/" + name))))), m)
         == size + ("/" + (m.first + ("/" + (m.second + ("/" + Expand(name, m))))))
  {
    var t3 := "/" + name;
    var t2 := "/" + (GroupText('2') + t3);
    var t1 := "/" + (GroupText('1') + t2);
    ExpandSkips("/", name, m);
    SlashGroup('2', t3, "", m);
    SlashGroup('1', t2, "", m);
    ExpandSkips(size, t1, m);
  }

  // Two matching objects share a path exactly when their sizes, the first two characters of
  // their ids and the last elements are equal.
  lemma MatchedPathsCollideIff(id1: string, size1: string, id2: string, size2: string, letter: char -> bool)
    requires Matches(id1) && Matches(id2)
    requires Free('$', size1) && Free('$', size2) && Free('/', size1) && Free('/', size2)
    ensures MapSharded(SHARDED, id1, size1, letter) == MapSharded(SHARDED, id2, size2, letter) <==>
            && size1 == size2 && id1[..2] == id2[..2]
            && LastElement(id1, size1, letter) == LastElement(id2, size2, letter)
  {
    ShardedPath(id1, size1, letter);
    ShardedPath(id2, size2, letter);
    var last1, last2 := LastElement(id1, size1, letter), LastElement(id2, size2, letter);
    assert id1[..2] == [id1[0], id1[1]] && id2[..2] == [id2[0], id2[1]];
    if MapSharded(SHARDED, id1, size1, letter) == MapSharded(SHARDED, id2, size2, letter) {
      SplitAtSlash(size1, Shards(id1[0], id1[1], last1), size2, Shards(id2[0], id2[1], last2));
      ShardsAreInjective(id1[0], id1[1], last1, id2[0], id2[1], last2);
    }
  }

  function Shards(c: char, d: char, last: string): string {
    [c] + ("/" + ([d] + ("/" + last)))
  }

  lemma ShardsAreInjective(c1: char, d1: char, last1: string, c2: char, d2: char, last2: string)
    requires Shards(c1, d1, last1) == Shards(c2, d2, last2)
    ensures c1 == c2 && d1 == d2 && last1 == last2
  {
    var r1, r2 := Shards(c1, d1, last1), Shards(c2, d2, last2);
    assert r1[0] == c1 && r1[2] == d1 && r2[0] == c2 && r2[2] == d2;
    assert last1 == r1[4..] == r2[4..] == last2;
  }

  // A path begins with its size.
  lemma PathMatchesAsSize(id: string, size: string, letter: char -> bool)
    requires Matches(id) && Free('$', size) && Free('/', size)
    ensures Matches(MapSharded(SHARDED, id, size, letter)) <==> Matches(size)
  {
    ShardedPath(id, size, letter);
    var path := MapSharded(SHARDED, id, size, letter);
    assert path[|size|] == '/' && forall k :: 0 <= k < |size| ==> path[k] == size[k];
  }

  // An id that does not match is its own path, and meets the path of a matching one only when
  // the size of that one does not begin with two alphanumerics.
  lemma MatchedMeetsUnmatchedIff(id: string, size: string, letter: char -> bool)
    requires Matches(id) && Free('$', size) && Free('/', size)
    ensures !Matches(size) <==>
            exists id2, size2 ::
              !Matches(id2) && MapSharded(SHARDED, id2, size2, letter) == MapSharded(SHARDED, id, size, letter)
  {
    PathMatchesAsSize(id, size, letter);
    if !Matches(size) {
      var path := MapSharded(SHARDED, id, size, letter);
      assert MapSharded(SHARDED, path, size, letter) == path;
    }
  }

  // Any two objects whose sizes begin like that: they share a path exactly when both match and
  // agree as above, or neither matches and their ids are equal, whatever their sizes.
  lemma ShardedPathsCollideIff(id1: string, size1: string, id2: string, size2: string, letter: char -> bool)
    requires Free('$', size1) && Free('$', size2) && Free('/', size1) && Free('/', size2)
    requires Matches(size1) && Matches(size2)
    ensures MapSharded(SHARDED, id1, size1, letter) == MapSharded(SHARDED, id2, size2, letter) <==>
            && (Matches(id1) <==> Matches(id2))
            && if Matches(id1) then
                 && size1 == size2 && id1[..2] == id2[..2]
                 && LastElement(id1, size1, letter) == LastElement(id2, size2, letter)
               else
                 id1 == id2
  {
    if Matches(id1) {
      PathMatchesAsSize(id1, size1, letter);
    }
    if Matches(id2) {
      PathMatchesAsSize(id2, size2, letter);
    }
    if Matches(id1) && Matches(id2) {
      MatchedPathsCollideIff(id1, size1, id2, size2, letter);
    }
  }

  lemma LineEndOfDoubled(id: string)
    ensures LineEnd(id + id[LineEnd(id)..]) == LineEnd(id)
  {
    var e := LineEnd(id);
    var s := id + id[e..];
    assert e == |id| ==> s == id;
    assert forall k :: 0 <= k < e ==> s[k] == id[k];
    assert e < |id| ==> s[e] == '\n';
  }

  // Reading an id back from an id with its lines past the first repeated.
  lemma DoubledIsInjective(id1: string, id2: string)
    requires id1 + id1[LineEnd(id1)..] == id2 + id2[LineEnd(id2)..]
    ensures id1 == id2
  {
    LineEndOfDoubled(id1);
    LineEndOfDoubled(id2);
    var s := id1 + id1[LineEnd(id1)..];
    assert |id1| == |id2|;
    assert id1 == s[..|id1|] == id2;
  }

  lemma LastOfDollarFree(id: string, size: string, letter: char -> bool)
    requires Free('$', id) && Matches(id)
    ensures LastElement(id, size, letter) == id + id[LineEnd(id)..]
  {
    DollarFreeHasNoStart(SIZE, id);
    assert id + "" == id;
    SkipNoStart(SIZE, id, "", size);
    ExpandSkips(id, "", MatchOf(id, letter));
  }

  // Ids without '$' never share a sharded path.
  lemma ShardedPathsAreDistinct(id1: string, size1: string, id2: string, size2: string, letter: char -> bool)
    requires Matches(id1) && Matches(id2) && Free('$', id1) && Free('$', id2)
    requires Free('$', size1) && Free('$', size2) && Free('/', size1) && Free('/', size2)
    ensures MapSharded(SHARDED, id1, size1, letter) == MapSharded(SHARDED, id2, size2, letter) <==>
            id1 == id2 && size1 == size2
  {
    MatchedPathsCollideIff(id1, size1, id2, size2, letter);
    LastOfDollarFree(id1, size1, letter);
    LastOfDollarFree(id2, size2, letter);
    if MapSharded(SHARDED, id1, size1, letter) == MapSharded(SHARDED, id2, size2, letter) {
      DoubledIsInjective(id1, id2);
    }
  }

  // ---------- Which characters are dangerous in a sharded path ----------

  predicate Over(s: string, cs: set<char>) {
    forall k :: 0 <= k < |s| ==> s[k] in cs
  }

  lemma TooShortToOccur(s: string)
    requires |s| < |SIZE|
    ensures !Occurs(SIZE, s)
  {
  }

  // Two different texts with one expansion.
  lemma DollarsExpandAlike(size: string, m: Match)
    ensures Expand(ReplaceAll("$", SIZE, size), m) == Expand(ReplaceAll("$$", SIZE, size), m) == "$"
  {
    TooShortToOccur("$");
    TooShortToOccur("$$");
    NothingToReplace("$", SIZE, size);
    NothingToReplace("$$", SIZE, size);
    assert "$"[1..] == "" && "$$"[2..] == "";
    assert Reference(m, "").None?;
  }

  lemma LastOfSuffix(a: string, b: string, size: string, letter: char -> bool)
    requires Matches(a) && Free('$', a) && LineEnd(a + b) == |a + b|
    ensures Matches(a + b)
    ensures LastElement(a + b, size, letter) == a + Expand(ReplaceAll(b, SIZE, size), MatchOf(a + b, letter))
  {
    DollarFreeHasNoStart(SIZE, a);
    SkipNoStart(SIZE, a, b, size);
    ExpandSkips(a, ReplaceAll(b, SIZE, size), MatchOf(a + b, letter));
  }

  // All matching ids over these characters have different paths.
  ghost predicate SeparatesIds(cs: set<char>, size: string, letter: char -> bool) {
    forall id1, id2 ::
      && Over(id1, cs) && Over(id2, cs) && Matches(id1) && Matches(id2)
      && MapSharded(SHARDED, id1, size, letter) == MapSharded(SHARDED, id2, size, letter) ==>
      id1 == id2
  }

  // For every set of characters from which a matching id can be made: all such ids have
  // different paths if and only if '$' is not among the characters.
  lemma IdsSeparatedIff(cs: set<char>, size: string, letter: char -> bool)
    requires Free('$', size) && Free('/', size)
    requires exists c :: c in cs && Allowable(c as int)
    ensures SeparatesIds(cs, size, letter) <==> '$' !in cs
  {
    if '$' !in cs {
      forall id1, id2
        | && Over(id1, cs) && Over(id2, cs) && Matches(id1) && Matches(id2)
          && MapSharded(SHARDED, id1, size, letter) == MapSharded(SHARDED, id2, size, letter)
        ensures id1 == id2
      {
        ShardedPathsAreDistinct(id1, size, id2, size, letter);
      }
    } else {
      var c :| c in cs && Allowable(c as int);
      var a := [c, c];
      SuffixesCollide(a, size, letter);
      assert Over(a + "$", cs) && Over(a + "$$", cs) && a + "$" != a + "$$";
      assert Matches(a + "$") && Matches(a + "$$");
    }
  }

  lemma SuffixesCollide(a: string, size: string, letter: char -> bool)
    requires Free('$', size) && Free('/', size) && Matches(a) && Free('$', a) && Free('\n', a)
    ensures MapSharded(SHARDED, a + "$", size, letter) == MapSharded(SHARDED, a + "$$", size, letter)
  {
    LastOfSuffix(a, "$", size, letter);
    LastOfSuffix(a, "$$", size, letter);
    DollarsExpandAlike(size, MatchOf(a + "$", letter));
    DollarsExpandAlike(size, MatchOf(a + "$$", letter));
    assert (a + "$")[..2] == a[..2] == (a + "$$")[..2];
    MatchedPathsCollideIff(a + "$", size, a + "$$", size, letter);
  }

  // No matching id without '$' has its path to itself: a reference to a group that does not
  // exist expands to nothing.
  lemma NoShardedPathIsOwn(id: string, size: string, letter: char -> bool) returns (id2: string)
    requires Free('$', size) && Free('/', size) && Matches(id) && Free('$', id)
    ensures id2 != id && Matches(id2)
    ensures MapSharded(SHARDED, id2, size, letter) == MapSharded(SHARDED, id, size, letter)
  {
    var a, b := id[..2], id[2..];
    id2 := a + (GroupText('9') + b);
    assert id == a + b && |id2| == |id| + 4;
    LineEndAfter(id, id2);
    var m := MatchOf(id2, letter);
    assert Free('$', a) && Free('$', b);
    VanishingReference(a, b, size, m);
    LastOfDollarFree(id, size, letter);
    MatchedPathsCollideIff(id2, size, id, size, letter);
  }

  lemma LineEndAfter(id: string, id2: string)
    requires Matches(id) && id2 == id[..2] + (GroupText('9') + id[2..])
    ensures LineEnd(id2) == LineEnd(id) + 4 && id2[LineEnd(id2)..] == id[LineEnd(id)..]
  {
    assert forall k :: 2 <= k < |id| ==> id2[k + 4] == id[k];
    assert forall k :: 0 <= k < 6 ==> id2[k] != '\n';
    assert id[0] != '\n' && id[1] != '\n';
    var e := LineEnd(id);
    assert forall k :: 6 <= k < e + 4 ==> id2[k] == id[k - 4];
    assert e < |id| ==> id2[e + 4] == id[e];
  }

  lemma DollarFreeIsFixed(s: string, size: string, m: Match)
    requires Free('$', s)
    ensures ReplaceAll(s, SIZE, size) == s && Expand(s, m) == s
  {
    DollarFreeHasNoStart(SIZE, s);
    assert s + "" == s;
    SkipNoStart(SIZE, s, "", size);
    ExpandSkips(s, "", m);
  }

  lemma ReferenceIsNoPlaceholder(a: string, d: char, b: string, size: string)
    requires Free('$', a) && Free('$', b) && '0' <= d <= '9'
    ensures ReplaceAll(a + (GroupText(d) + b), SIZE, size) == a + (GroupText(d) + b)
  {
    var group := GroupText(d);
    DollarFreeHasNoStart(SIZE, a);
    OneDollarHasNoStart(SIZE, group, 2);
    SkipNoStart(SIZE, a, group + b, size);
    SkipNoStart(SIZE, group, b, size);
    DollarFreeIsFixed(b, size, Match("", "", "", _ => false));
  }

  lemma VanishingReference(a: string, b: string, size: string, m: Match)
    requires Free('$', a) && Free('$', b)
    ensures Expand(ReplaceAll(a + (GroupText('9') + b), SIZE, size), m) == a + b
  {
    ReferenceIsNoPlaceholder(a, '9', b, size);
    DollarFreeIsFixed(b, size, m);
    ExpandGroup('9', b, m);
    assert Referent(m, ['9']) + b == b;
    hide ReplaceAll, Expand, Referent, GroupText;
    ExpandSkips(a, GroupText('9') + b, m);
  }

  // The sharded configuration separates the sizes of an id exactly when the id matches.
  lemma SizesSeparatedIffMatched(id: string, size1: string, size2: string, letter: char -> bool)
    requires Free('$', size1) && Free('$', size2) && Free('/', size1) && Free('/', size2)
    requires size1 != size2
    ensures MapSharded(SHARDED, id, size1, letter) != MapSharded(SHARDED, id, size2, letter) <==> Matches(id)
  {
    if Matches(id) {
      MatchedPathsCollideIff(id, size1, id, size2, letter);
    }
  }

  // ---------- The keys the server stores under ----------

  lemma HashIsPlain(hash: string)
    requires IsHash(hash)
    ensures Free('$', hash) && Free('/', hash) && NoStart(SIZE, hash)
  {
    assert forall k :: 0 <= k < |hash| ==> Allowable(hash[k] as int);
    DollarFreeHasNoStart(SIZE, hash);
  }

  lemma ReplaceInKey(hash: string, name: string, size: string)
    requires IsHash(hash)
    ensures ReplaceAll(hash + ("/" + name), SIZE, size) == hash + ("/" + ReplaceAll(name, SIZE, size))
  {
    HashIsPlain(hash);
    SkipNoStart(SIZE, hash, "/" + name, size);
    DollarFreeHasNoStart(SIZE, "/");
    SkipNoStart(SIZE, "/", name, size);
  }

  // In the plain configuration thumbnails of different uploads never share a path, and two of
  // one upload do exactly when their names are equal once the placeholder is replaced.
  lemma ThumbPathsCollideIff(hash1: string, name1: string, hash2: string, name2: string, size: string)
    requires IsHash(hash1) && IsHash(hash2) && Free('/', size)
    ensures MapPlain(PLAIN, hash1 + ("/" + name1), size) == MapPlain(PLAIN, hash2 + ("/" + name2), size) <==>
            hash1 == hash2 && ReplaceAll(name1, SIZE, size) == ReplaceAll(name2, SIZE, size)
  {
    ReplaceInKey(hash1, name1, size);
    ReplaceInKey(hash2, name2, size);
    PlainPathsCollideIff(hash1 + ("/" + name1), size, hash2 + ("/" + name2), size);
    HashIsPlain(hash1);
    HashIsPlain(hash2);
    var n1, n2 := ReplaceAll(name1, SIZE, size), ReplaceAll(name2, SIZE, size);
    if hash1 + ("/" + n1) == hash2 + ("/" + n2) {
      SplitAtSlash(hash1, n1, hash2, n2);
    }
  }

  // What a thumbnail's name becomes in the sharded configuration.
  function ThumbElement(hash: string, name: string, size: string, letter: char -> bool): string
    requires Matches(hash + ("/" + name))
  {
    var id := hash + ("/" + name);
    Expand(ReplaceAll(name, SIZE, size), MatchOf(id, letter)) + id[LineEnd(id)..]
  }

  lemma HashMatches(hash: string, name: string)
    requires IsHash(hash) && |hash| >= 2
    ensures Matches(hash + ("/" + name)) && (hash + ("/" + name))[..2] == hash[..2]
  {
  }

  lemma LastOfThumb(hash: string, name: string, size: string, letter: char -> bool)
    requires IsHash(hash) && |hash| >= 2
    ensures Matches(hash + ("/" + name))
    ensures LastElement(hash + ("/" + name), size, letter) == hash + ("/" + ThumbElement(hash, name, size, letter))
  {
    var id := hash + ("/" + name);
    HashMatches(hash, name);
    var m, after := MatchOf(id, letter), id[LineEnd(id)..];
    var x := Expand(ReplaceAll(name, SIZE, size), m);
    HashIsPlain(hash);
    ReplaceInKey(hash, name, size);
    ExpandSkips("/", ReplaceAll(name, SIZE, size), m);
    ExpandSkips(hash, "/" + ReplaceAll(name, SIZE, size), m);
    Assoc(hash, "/" + x, after);
    Assoc("/", x, after);
  }

  // The path of a thumbnail.
  function ShardedThumb(hash: string, name: string, size: string, letter: char -> bool): string {
    MapSharded(SHARDED, hash + ("/" + name), size, letter)
  }

  // In the sharded configuration too, thumbnails of different uploads never share a path, and
  // two of one upload do exactly when their last elements are equal.
  lemma ShardedThumbsCollideIff(hash1: string, name1: string, hash2: string, name2: string, size: string,
                                letter: char -> bool)
    requires IsHash(hash1) && IsHash(hash2) && |hash1| >= 2 && |hash2| >= 2 && Free('$', size) && Free('/', size)
    ensures Matches(hash1 + ("/" + name1)) && Matches(hash2 + ("/" + name2))
    ensures ShardedThumb(hash1, name1, size, letter) == ShardedThumb(hash2, name2, size, letter) <==>
            hash1 == hash2 && ThumbElement(hash1, name1, size, letter) == ThumbElement(hash2, name2, size, letter)
  {
    LastOfThumb(hash1, name1, size, letter);
    LastOfThumb(hash2, name2, size, letter);
    HashMatches(hash1, name1);
    HashMatches(hash2, name2);
    MatchedPathsCollideIff(hash1 + ("/" + name1), size, hash2 + ("/" + name2), size, letter);
    HashIsPlain(hash1);
    HashIsPlain(hash2);
    var t1, t2 := ThumbElement(hash1, name1, size, letter), ThumbElement(hash2, name2, size, letter);
    if hash1 + ("/" + t1) == hash2 + ("/" + t2) {
      SplitAtSlash(hash1, t1, hash2, t2);
    }
  }

  // All thumbnails with names over these characters, of all uploads, have different paths.
  ghost predicate SeparatesThumbs(cs: set<char>, size: string, letter: char -> bool) {
    forall hash1, name1, hash2, name2 ::
      && IsHash(hash1) && IsHash(hash2) && |hash1| >= 2 && |hash2| >= 2 && Over(name1, cs) && Over(name2, cs)
      && ShardedThumb(hash1, name1, size, letter) == ShardedThumb(hash2, name2, size, letter) ==>
      hash1 == hash2 && name1 == name2
  }

  // For every set of characters: the names over it are safe if and only if it lacks '$'.
  lemma ThumbsSeparatedIff(cs: set<char>, size: string, letter: char -> bool)
    requires Free('$', size) && Free('/', size)
    ensures SeparatesThumbs(cs, size, letter) <==> '$' !in cs
  {
    hide ShardedThumb;
    if '$' in cs {
      DollarNamesCollide("ab", size, letter);
      assert Over("$", cs) && Over("$$", cs) && IsHash("ab");
    } else {
      forall hash1, name1, hash2, name2
        | && IsHash(hash1) && IsHash(hash2) && |hash1| >= 2 && |hash2| >= 2 && Over(name1, cs) && Over(name2, cs)
          && ShardedThumb(hash1, name1, size, letter) == ShardedThumb(hash2, name2, size, letter)
        ensures hash1 == hash2 && name1 == name2
      {
        PlainNamesDiffer(hash1, name1, hash2, name2, size, letter);
      }
    }
  }

  lemma PlainNamesDiffer(hash1: string, name1: string, hash2: string, name2: string, size: string,
                         letter: char -> bool)
    requires IsHash(hash1) && IsHash(hash2) && |hash1| >= 2 && |hash2| >= 2 && Free('$', size) && Free('/', size)
    requires Free('$', name1) && Free('$', name2)
    requires ShardedThumb(hash1, name1, size, letter) == ShardedThumb(hash2, name2, size, letter)
    ensures hash1 == hash2 && name1 == name2
  {
    HashMatches(hash1, name1);
    HashMatches(hash2, name2);
    HashIsPlain(hash1);
    HashIsPlain(hash2);
    ShardedPathsAreDistinct(hash1 + ("/" + name1), size, hash2 + ("/" + name2), size, letter);
    SplitAtSlash(hash1, name1, hash2, name2);
  }

  // Under every hash the thumbnails named $ and $$ collide,
  lemma DollarNamesCollide(hash: string, size: string, letter: char -> bool)
    requires IsHash(hash) && |hash| >= 2 && Free('$', size) && Free('/', size)
    ensures ShardedThumb(hash, "$", size, letter) == ShardedThumb(hash, "$$", size, letter)
  {
    HashHasNoLines(hash);
    ShardedThumbsCollideIff(hash, "$", hash, "$$", size, letter);
    DollarsExpandAlike(size, MatchOf(hash + ("/" + "$"), letter));
    DollarsExpandAlike(size, MatchOf(hash + ("/" + "$$"), letter));
  }

  // and so do the one named ${1} and the one named by the hash's first character.
  lemma ReferencesCollide(hash: string, size: string, letter: char -> bool)
    requires IsHash(hash) && |hash| >= 2 && Free('$', size) && Free('/', size)
    ensures ShardedThumb(hash, GroupText('1'), size, letter) == ShardedThumb(hash, [hash[0]], size, letter)
  {
    hide ReplaceAll, Expand, ShardedThumb, LineEnd;
    var group, first := GroupText('1'), [hash[0]];
    HashHasNoLines(hash);
    HashIsPlain(hash);
    ShardedThumbsCollideIff(hash, group, hash, first, size, letter);
    GroupExpands(first, size, MatchOf(hash + ("/" + group), letter));
    GroupExpands(first, size, MatchOf(hash + ("/" + first), letter));
  }

  lemma GroupExpands(first: string, size: string, m: Match)
    requires m.first == first && Free('$', first)
    ensures Expand(ReplaceAll(GroupText('1'), SIZE, size), m) == first
    ensures Expand(ReplaceAll(first, SIZE, size), m) == first
  {
    var group := GroupText('1');
    ReferenceIsNoPlaceholder("", '1', "", size);
    assert "" + (group + "") == group && m.first + "" == first;
    ExpandGroup('1', "", m);
    assert group + "" == group;
    DollarFreeIsFixed(first, size, m);
  }

  lemma HashHasNoLines(hash: string)
    requires IsHash(hash)
    ensures forall name :: Free('\n', name) ==> LineEnd(hash + ("/" + name)) == |hash + ("/" + name)|
  {
    forall name | Free('\n', name) ensures LineEnd(hash + ("/" + name)) == |hash + ("/" + name)| {
      var id := hash + ("/" + name);
      assert forall k :: 0 <= k < |hash| ==> Allowable(hash[k] as int);
      assert forall k :: 0 <= k < |id| ==> id[k] != '\n';
    }
  }

  // Whatever its name, a thumbnail never has the path of an original, in either configuration.
  lemma ThumbNeverMeetsOriginal(hash1: string, name: string, hash2: string, letter: char -> bool)
    requires IsHash(hash1) && IsHash(hash2) && |hash1| >= 2 && |hash2| >= 2
    ensures MapPlain(PLAIN, hash1 + ("/" + name), THUMBNAIL) != MapPlain(PLAIN, hash2, ORIGINAL)
    ensures MapSharded(SHARDED, hash1 + ("/" + name), THUMBNAIL, letter) != MapSharded(SHARDED, hash2, ORIGINAL, letter)
  {
    ServerSizesAreOrdinary();
    PlainPathsCollideIff(hash1 + ("/" + name), THUMBNAIL, hash2, ORIGINAL);
    MatchedPathsCollideIff(hash1 + ("/" + name), THUMBNAIL, hash2, ORIGINAL, letter);
  }
}
