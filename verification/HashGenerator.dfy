/** HashGenerator: strings of `length` alphanumeric characters by rejection sampling of random
    bytes read ten at a time, sent only when absent from the store.
 */
module HashGenerator {
  import opened MemoryStore

  type byte = b: int | 0 <= b < 256

  const BATCH := 10

  type Batch = bs: seq<byte> | |bs| == BATCH witness [0, 0, 0, 0, 0, 0, 0, 0, 0, 0]

  // One call of rand.Read.
  datatype Read = Bytes(bs: Batch) | Failed

  predicate Allowable(b: int) {
    48 <= b <= 57 || 65 <= b <= 90 || 97 <= b <= 122
  }

  predicate IsHash(s: string) {
    forall k :: 0 <= k < |s| ==> Allowable(s[k] as int)
  }

  // ---------- The specification ----------

  // A byte's character: half of it, when that is alphanumeric.
  function Char(b: byte): string {
    if Allowable(b / 2) then [(b / 2) as char] else []
  }

  // The alphanumeric characters of the halved byte stream, in order.
  function Accepted(stream: seq<byte>): (s: string)
    ensures IsHash(s)
  {
    if stream == [] then [] else Char(stream[0]) + Accepted(stream[1..])
  }

  function Take<T>(s: seq<T>, n: int): seq<T> {
    if n <= 0 then [] else if n <= |s| then s[..n] else s
  }

  // The first `length` of them, or as many as there are.
  function Outcome(stream: seq<byte>, length: int): string {
    Take(Accepted(stream), length)
  }

  // What the source delivers before its first failed read.
  function GoodBytes(source: seq<Read>): seq<byte> {
    if source == [] || source[0].Failed? then [] else source[0].bs + GoodBytes(source[1..])
  }

  lemma {:induction false} AcceptedConcat(a: seq<byte>, b: seq<byte>)
    ensures Accepted(a + b) == Accepted(a) + Accepted(b)
  {
    if a == [] {
      assert a + b == b;
    } else {
      hide Char, IsHash;
      AcceptedConcat(a[1..], b);
      assert (a + b)[1..] == a[1..] + b && (a + b)[0] == a[0];
      var head := Char(a[0]);
      assert (head + Accepted(a[1..])) + Accepted(b) == head + (Accepted(a[1..]) + Accepted(b));
    }
  }

  lemma TakeOfTake<T>(a: seq<T>, b: seq<T>, n: int)
    ensures Take(Take(a, n) + b, n) == Take(a + b, n)
  {
  }

  // The alphabet is always respected, and the length is missed only when the source fails
  // before it has delivered enough acceptable bytes.
  lemma OutcomeIsHash(stream: seq<byte>, length: int)
    ensures IsHash(Outcome(stream, length))
    ensures length >= 0 ==> (|Outcome(stream, length)| == length <==> |Accepted(stream)| >= length)
    ensures Outcome(stream, length) <= Accepted(stream)
  {
  }

  // ---------- The specification in literal terms ----------

  lemma AlphabetIs(c: char)
    ensures IsHash([c]) <==> '0' <= c <= '9' || 'A' <= c <= 'Z' || 'a' <= c <= 'z'
  {
    assert [c][0] == c;
  }

  // A letter or digit comes from the two bytes that are twice its code, or one more.
  lemma LetterAccepted(c: char, bit: int)
    requires '0' <= c <= '9' || 'A' <= c <= 'Z' || 'a' <= c <= 'z'
    requires bit == 0 || bit == 1
    ensures Accepted([2 * c as int + bit]) == [c]
  {
    var b: byte := 2 * c as int + bit;
    assert b / 2 == c as int && [b][1..] == [] && Accepted([]) == "";
  }

  // Every other byte is rejected.  With AcceptedConcat this says what any stream gives.
  lemma OtherByteRejected(b: byte)
    requires forall c: char :: IsHash([c]) ==> b != 2 * c as int && b != 2 * c as int + 1
    ensures Accepted([b]) == ""
  {
    var c := (b / 2) as char;
    assert Allowable(b / 2) ==> IsHash([c]);
    assert b == 2 * c as int || b == 2 * c as int + 1;
    assert [b][1..] == [] && Accepted([]) == "";
  }

  // The bytes of n good reads, up to a failed one or the end, in the order they were read.
  lemma {:induction false} GoodBytesAre(source: seq<Read>, n: nat)
    requires n <= |source| && (forall k :: 0 <= k < n ==> source[k].Bytes?)
    requires n < |source| ==> source[n].Failed?
    ensures |GoodBytes(source)| == 10 * n
    ensures forall k, j :: 0 <= k < n && 0 <= j < 10 ==> GoodBytes(source)[10 * k + j] == source[k].bs[j]
  {
    if n > 0 {
      GoodBytesAre(source[1..], n - 1);
      forall k, j | 0 <= k < n && 0 <= j < 10 ensures GoodBytes(source)[10 * k + j] == source[k].bs[j] {
        if k > 0 {
          assert GoodBytes(source)[10 * k + j] == GoodBytes(source[1..])[10 * (k - 1) + j];
          assert source[k] == source[1..][k - 1];
        }
      }
    }
  }

  // ---------- The code ----------

  // The string after i bytes of a batch.
  function After(before: string, bs: Batch, length: int, i: nat): string
    requires i <= BATCH
  {
    Take(before + Accepted(bs[..i]), length)
  }

  lemma NextByte(before: string, bs: Batch, length: int, i: nat)
    requires i < BATCH
    ensures After(before, bs, length, i + 1) == Take(After(before, bs, length, i) + Char(bs[i]), length)
  {
    hide IsHash, Char;
    AcceptedConcat(bs[..i], [bs[i]]);
    assert bs[..i] + [bs[i]] == bs[..i + 1] && [bs[i]][1..] == [];
    assert Accepted([bs[i]]) == Char(bs[i]);
    assert before + (Accepted(bs[..i]) + Char(bs[i])) == (before + Accepted(bs[..i])) + Char(bs[i]);
    TakeOfTake(before + Accepted(bs[..i]), Char(bs[i]), length);
  }

  lemma FullStays(before: string, bs: Batch, length: int, i: nat)
    requires i <= BATCH && |After(before, bs, length, i)| == length
    ensures Take(before + Accepted(bs), length) == After(before, bs, length, i)
  {
    AcceptedConcat(bs[..i], bs[i..]);
    assert bs[..i] + bs[i..] == bs;
  }

  // The inner loop: add a batch's acceptable characters until the string is long enough.
  method AddBatch(before: string, bs: Batch, length: int) returns (str: string)
    requires |before| <= length
    ensures str == Take(before + Accepted(bs), length)
  {
    str := before;
    var i := 0;
    assert before + "" == before;
    while i < BATCH
      invariant 0 <= i <= BATCH && |str| <= length
      invariant str == After(before, bs, length, i)
    {
      if |str| == length {
        FullStays(before, bs, length, i);
        return;
      }
      NextByte(before, bs, length, i);
      hide After;
      var b := bs[i] / 2;
      if Allowable(b) {
        str := str + [b as char];
      }
      i := i + 1;
    }
    assert bs[..BATCH] == bs;
  }

  lemma NextBatch(seen: seq<byte>, bs: seq<byte>, length: int)
    ensures Outcome(seen + bs, length) == Take(Outcome(seen, length) + Accepted(bs), length)
  {
    AcceptedConcat(seen, bs);
    TakeOfTake(Accepted(seen), Accepted(bs), length);
  }

  // Once the string is long enough, the rest of the stream does not matter.
  lemma Enough(seen: seq<byte>, rest: seq<byte>, length: int)
    requires |Outcome(seen, length)| >= length
    ensures Outcome(seen + rest, length) == Outcome(seen, length)
  {
    AcceptedConcat(seen, rest);
  }

  // The first n reads were needed: no fewer already fill the string.
  ghost predicate NoneWasted(source: seq<Read>, n: nat, length: int)
    requires n <= |source|
  {
    forall k :: 0 <= k < n ==> |Outcome(GoodBytes(source[..k]), length)| < length
  }

  predicate AllGood(source: seq<Read>, n: nat)
    requires n <= |source|
  {
    forall k :: 0 <= k < n ==> source[k].Bytes?
  }

  // The bytes of n good reads come first; those of the reads after them follow.
  lemma {:induction false} GoodPrefix(source: seq<Read>, n: nat)
    requires n <= |source| && AllGood(source, n)
    ensures GoodBytes(source) == GoodBytes(source[..n]) + GoodBytes(source[n..])
  {
    if n == 0 {
      assert source[0..] == source;
    } else {
      GoodPrefix(source[1..], n - 1);
      assert source[n..] == source[1..][n - 1..] && source[..n][1..] == source[1..][..n - 1];
    }
  }

  lemma NextRead(source: seq<Read>, n: nat)
    requires n < |source| && AllGood(source, n)
    ensures source[n].Failed? ==> GoodBytes(source) == GoodBytes(source[..n])
    ensures source[n].Bytes? ==> GoodBytes(source[..n + 1]) == GoodBytes(source[..n]) + source[n].bs
  {
    GoodPrefix(source, n);
    var next := source[..n + 1];
    GoodPrefix(next, n);
    assert next[..n] == source[..n] && next[n..] == [source[n]] && [source[n]][1..] == [];
  }

  lemma OneMoreNeeded(source: seq<Read>, n: nat, length: int)
    requires n < |source| && NoneWasted(source, n, length)
    requires |Outcome(GoodBytes(source[..n]), length)| < length
    ensures NoneWasted(source, n + 1, length)
  {
  }

  // One string.  The source is the sequence of reads still to come; a source that has no
  // more to give fails, and a failed read ends the string early.  The batch boundaries
  // leave no trace in the result, and no batch is read that is not needed.
  method Draw(source: seq<Read>, length: int) returns (str: string, used: nat)
    ensures used <= |source|
    ensures str == Outcome(GoodBytes(source), length)
    ensures |str| < length ==> used == |source| || (used > 0 && source[used - 1].Failed?)
    ensures NoneWasted(source, used, length)
  {
    str, used := "", 0;
    while |str| < length
      invariant used <= |source| && AllGood(source, used)
      invariant str == Outcome(GoodBytes(source[..used]), length)
      invariant NoneWasted(source, used, length)
      decreases |source| - used
    {
      if used == |source| {
        assert source[..used] == source;
        return;
      }
      var read := source[used];
      NextRead(source, used);
      OneMoreNeeded(source, used, length);
      if read.Failed? {
        used := used + 1;
        return;
      }
      NextBatch(GoodBytes(source[..used]), read.bs, length);
      used := used + 1;
      str := AddBatch(str, read.bs, length);
    }
    GoodPrefix(source, used);
    Enough(GoodBytes(source[..used]), GoodBytes(source[used..]), length);
  }

  class Generator {
    const length: int
    const store: InMemoryImageStore
    var sent: seq<string>   // the strings handed to hashGetter, in order

    constructor (length: int, store: InMemoryImageStore)
      ensures this.length == length && this.store == store && sent == []
    {
      this.length, this.store, sent := length, store, [];
    }

    // One turn of the endless loop: draw, look the string up, and send it only if absent.
    method Turn(source: seq<Read>) returns (used: nat)
      modifies this`sent
      ensures used <= |source| && NoneWasted(source, used, length)
      ensures var id := Outcome(GoodBytes(source), length);
              sent == old(sent) + if id in store.files then [] else [id]
    {
      var str;
      str, used := Draw(source, length);
      var present := store.Exists(str);
      if !present {
        sent := sent + [str];
      }
    }
  }
}
