/** HashGenerator picks no string over another: over all byte streams of a given length, every
    alphanumeric string of the configured length is produced by equally many of them.
 */
module HashUniform {
  import opened HashGenerator
  import opened Pigeonhole

  // ---------- Counting ----------

  ghost function Image<X, Y>(xs: set<X>, f: X -> Y): set<Y> {
    set x | x in xs :: f(x)
  }

  lemma {:induction false} ImageSize<X, Y>(xs: set<X>, f: X -> Y)
    requires forall x, y :: x in xs && y in xs && f(x) == f(y) ==> x == y
    ensures |Image(xs, f)| == |xs|
  {
    if xs != {} {
      var x :| x in xs;
      ImageSize(xs - {x}, f);
      assert Image(xs, f) == Image(xs - {x}, f) + {f(x)};
      assert f(x) !in Image(xs - {x}, f);
    }
  }

  ghost function Fibre<X, K>(xs: set<X>, f: X -> K, k: K): set<X> {
    set x | x in xs && f(x) == k
  }

  // Fibres of equal size c over a set of keys make up a set of size |keys| * c.
  lemma {:induction false} EqualFibres<X, K>(xs: set<X>, keys: set<K>, f: X -> K, c: nat)
    requires forall x :: x in xs ==> f(x) in keys
    requires forall k :: k in keys ==> |Fibre(xs, f, k)| == c
    ensures |xs| == |keys| * c
  {
    if keys == {} {
      assert xs == {};
    } else {
      var k :| k in keys;
      var fibre := Fibre(xs, f, k);
      forall k' | k' in keys - {k} ensures |Fibre(xs - fibre, f, k')| == c {
        assert Fibre(xs - fibre, f, k') == Fibre(xs, f, k');
      }
      EqualFibres(xs - fibre, keys - {k}, f, c);
      SizeOfRest(xs, fibre);
      SizeOfRest(keys, {k});
      OneMore(|keys - {k}|, c);
    }
  }

  lemma OneMore(n: nat, c: nat)
    ensures (n + 1) * c == n * c + c
  {
  }

  lemma SizeOfRest<X>(a: set<X>, b: set<X>)
    requires b <= a
    ensures |a - b| == |a| - |b|
  {
    assert a == b + (a - b);
  }

  // ---------- The finite sets involved ----------

  // All byte streams of length n.
  ghost function Streams(n: nat): (r: set<seq<byte>>)
    ensures forall x :: x in r <==> |x| == n
  {
    if n == 0 then {[]}
    else
      var r := set b: byte, x | x in Streams(n - 1) :: [b] + x;
      assert forall x: seq<byte> :: |x| == n ==> x == [x[0]] + x[1..];
      r
  }

  ghost function Alphabet(): set<char> {
    set c: char | IsHashChar(c)
  }

  predicate IsHashChar(c: char) {
    Allowable(c as int)
  }

  ghost function CharsFrom(lo: nat, n: nat): set<char>
    requires lo + n <= 128
  {
    if n == 0 then {} else CharsFrom(lo, n - 1) + {(lo + n - 1) as char}
  }

  lemma {:induction false} CharsFromSize(lo: nat, n: nat)
    requires lo + n <= 128
    ensures |CharsFrom(lo, n)| == n
    ensures forall c: char :: c in CharsFrom(lo, n) <==> lo <= c as int < lo + n
  {
    if n > 0 {
      CharsFromSize(lo, n - 1);
    }
  }

  lemma AlphabetParts(digits: set<char>, upper: set<char>, lower: set<char>)
    requires |digits| == 10 && |upper| == 26 && |lower| == 26
    requires forall c :: c in digits <==> 48 <= c as int <= 57
    requires forall c :: c in upper <==> 65 <= c as int <= 90
    requires forall c :: c in lower <==> 97 <= c as int <= 122
    ensures |Alphabet()| == 62
  {
    assert Alphabet() == digits + upper + lower;
  }

  lemma AlphabetSize()
    ensures |Alphabet()| == 62
  {
    CharsFromSize(48, 10);
    CharsFromSize(65, 26);
    CharsFromSize(97, 26);
    AlphabetParts(CharsFrom(48, 10), CharsFrom(65, 26), CharsFrom(97, 26));
  }

  // All alphanumeric strings of the given length.
  ghost function Hashes(length: nat): (r: set<string>)
    ensures forall s :: s in r <==> |s| == length && IsHash(s)
  {
    if length == 0 then {[]}
    else
      var r := set c, s | c in Alphabet() && s in Hashes(length - 1) :: [c] + s;
      assert forall s: string :: |s| == length ==> s == [s[0]] + s[1..];
      r
  }

  function Power(b: nat, e: nat): nat {
    if e == 0 then 1 else b * Power(b, e - 1)
  }

  function FirstChar(s: string): char {
    if s == [] then '0' else s[0]
  }

  lemma HashesStartingWith(length: nat, c: char)
    requires length > 0 && c in Alphabet()
    ensures |Fibre(Hashes(length), FirstChar, c)| == |Hashes(length - 1)|
  {
    var rest := Hashes(length - 1);
    var prepend := (s: string) => [c] + s;
    forall s, t | s in rest && t in rest && prepend(s) == prepend(t) ensures s == t {
      assert s == prepend(s)[1..] == prepend(t)[1..] == t;
    }
    ImageSize(rest, prepend);
    var image := Image(rest, prepend);
    forall s ensures s in Fibre(Hashes(length), FirstChar, c) <==> s in image {
      if s in Fibre(Hashes(length), FirstChar, c) {
        assert s == prepend(s[1..]) && s[1..] in rest;
      }
    }
    assert Fibre(Hashes(length), FirstChar, c) == image;
  }

  lemma OneLonger(length: nat)
    requires length > 0
    ensures |Hashes(length)| == |Alphabet()| * |Hashes(length - 1)|
  {
    forall c | c in Alphabet() ensures |Fibre(Hashes(length), FirstChar, c)| == |Hashes(length - 1)| {
      HashesStartingWith(length, c);
    }
    EqualFibres(Hashes(length), Alphabet(), FirstChar, |Hashes(length - 1)|);
  }

  lemma {:induction false} HashesSize(length: nat)
    ensures |Hashes(length)| == Power(62, length)
  {
    if length > 0 {
      HashesSize(length - 1);
      OneLonger(length);
      AlphabetSize();
    }
  }

  // ---------- The involution ----------

  function Transpose(c: int, a: int, b: int): int {
    if c == a then b else if c == b then a else c
  }

  // Exchange s[j] and t[j] in the j-th accepted byte of the stream, for each j, keeping the
  // dropped lowest bit, the rejected bytes, and everything past the last accepted byte needed.
  ghost function Swap(x: seq<byte>, s: string, t: string): (y: seq<byte>)
    requires |s| == |t| && IsHash(s) && IsHash(t)
    ensures |y| == |x|
  {
    if x == [] || s == [] then x
    else if Allowable(x[0] / 2) then
      [2 * Transpose(x[0] / 2, s[0] as int, t[0] as int) + x[0] % 2] + Swap(x[1..], s[1..], t[1..])
    else [x[0]] + Swap(x[1..], s, t)
  }

  lemma {:induction false} SwapIsInvolution(x: seq<byte>, s: string, t: string)
    requires |s| == |t| && IsHash(s) && IsHash(t)
    ensures Swap(Swap(x, s, t), s, t) == x
  {
    if x != [] && s != [] {
      var y := Swap(x, s, t);
      if Allowable(x[0] / 2) {
        SwapIsInvolution(x[1..], s[1..], t[1..]);
        assert y[0] / 2 == Transpose(x[0] / 2, s[0] as int, t[0] as int);
        assert y[1..] == Swap(x[1..], s[1..], t[1..]);
      } else {
        SwapIsInvolution(x[1..], s, t);
        assert y[1..] == Swap(x[1..], s, t);
      }
    }
  }

  lemma {:induction false} SwapMovesOutcome(x: seq<byte>, s: string, t: string)
    requires |s| == |t| && IsHash(s) && IsHash(t)
    requires Outcome(x, |s|) == s
    ensures Outcome(Swap(x, s, t), |s|) == t
  {
    if x != [] && s != [] {
      var y := Swap(x, s, t);
      if Allowable(x[0] / 2) {
        assert Accepted(x)[0] == s[0] && Accepted(x)[1..] == Accepted(x[1..]);
        SwapMovesOutcome(x[1..], s[1..], t[1..]);
        assert y[0] / 2 == Transpose(x[0] / 2, s[0] as int, t[0] as int) == t[0] as int;
        assert y[1..] == Swap(x[1..], s[1..], t[1..]);
        assert Accepted(y) == [t[0]] + Accepted(y[1..]);
      } else {
        SwapMovesOutcome(x[1..], s, t);
        assert y[1..] == Swap(x[1..], s, t);
      }
    }
  }

  // ---------- No bias ----------

  // The streams of n bytes from which the generator draws s.
  ghost function Drawing(n: nat, s: string): set<seq<byte>> {
    set x | x in Streams(n) && Outcome(x, |s|) == s
  }

  // The streams of n bytes that fill a string of the given length.
  ghost function Filling(n: nat, length: nat): set<seq<byte>> {
    set x | x in Streams(n) && |Outcome(x, length)| == length
  }

  lemma NoMoreStreams(n: nat, s: string, t: string)
    requires |s| == |t| && IsHash(s) && IsHash(t)
    ensures |Drawing(n, s)| <= |Drawing(n, t)|
  {
    var f := (x: seq<byte>) => Swap(x, s, t);
    forall x, y | x in Drawing(n, s) && y in Drawing(n, s) && f(x) == f(y) ensures x == y {
      SwapIsInvolution(x, s, t);
      SwapIsInvolution(y, s, t);
    }
    ImageSize(Drawing(n, s), f);
    var image := Image(Drawing(n, s), f);
    forall y | y in image ensures y in Drawing(n, t) {
      var x :| x in Drawing(n, s) && y == f(x);
      SwapMovesOutcome(x, s, t);
    }
    SubsetSize(image, Drawing(n, t));
  }

  // The streams of 10n bytes are exactly what n successful reads deliver, each by one way of
  // cutting it into batches; so counting streams counts the generator's runs of n reads.
  lemma {:induction false} StreamsAreReads(n: nat, x: seq<byte>) returns (source: seq<Read>)
    requires |x| == n * BATCH
    ensures |source| == n && (forall k :: 0 <= k < n ==> source[k].Bytes?) && GoodBytes(source) == x
    ensures forall other: seq<Read> ::
              |other| == n && (forall k :: 0 <= k < n ==> other[k].Bytes?) && GoodBytes(other) == x ==>
              other == source
  {
    if n == 0 {
      source := [];
    } else {
      var rest := StreamsAreReads(n - 1, x[BATCH..]);
      source := [Bytes(x[..BATCH])] + rest;
      assert source[1..] == rest && x == x[..BATCH] + x[BATCH..];
      forall other: seq<Read> | |other| == n && (forall k :: 0 <= k < n ==> other[k].Bytes?) && GoodBytes(other) == x
        ensures other == source
      {
        assert GoodBytes(other) == other[0].bs + GoodBytes(other[1..]);
        assert other[0].bs == x[..BATCH] && GoodBytes(other[1..]) == x[BATCH..];
        assert other[1..] == rest;
        assert other == [other[0]] + other[1..];
      }
    }
  }

  // Any two strings of the same length are drawn from equally many streams.
  lemma NoBias(n: nat, s: string, t: string)
    requires |s| == |t| && IsHash(s) && IsHash(t)
    ensures |Drawing(n, s)| == |Drawing(n, t)|
  {
    NoMoreStreams(n, s, t);
    NoMoreStreams(n, t, s);
  }

  lemma FibreIsDrawing(n: nat, length: nat, t: string, draw: seq<byte> -> string)
    requires |t| == length && forall x :: draw(x) == Outcome(x, length)
    ensures Fibre(Filling(n, length), draw, t) == Drawing(n, t)
  {
  }

  // Among the streams long enough to fill a string, each string has exactly its share of
  // one in 62 to the power `length`.
  lemma EachHashHasItsShare(n: nat, s: string)
    requires IsHash(s)
    ensures |Filling(n, |s|)| == Power(62, |s|) * |Drawing(n, s)|
  {
    var full := Filling(n, |s|);
    var draw := (x: seq<byte>) => Outcome(x, |s|);
    HashesSize(|s|);
    forall t | t in Hashes(|s|) ensures |Fibre(full, draw, t)| == |Drawing(n, s)| {
      NoBias(n, s, t);
      FibreIsDrawing(n, |s|, t, draw);
    }
    hide Power, Outcome, Streams, Fibre, Drawing;
    EqualFibres(full, Hashes(|s|), draw, |Drawing(n, s)|);
  }
}
