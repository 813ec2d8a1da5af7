/**
 * Run-length decompression. A compressed string is a concatenation of tokens, in one way
 * only; decoding it expands the tokens if the result fits. The library holds the decoder
 * twice, and both copies are proved against this one description.
 */
module Rle {
  import opened Bytes

  /** `count` copies of a byte, or up to 127 bytes verbatim. A count of zero is allowed and stands for nothing. */
  datatype Token = Run(count: bv7, value: byte) | Span(data: seq<byte>) {
    predicate WellFormed() {
      Span? ==> |data| <= 127
    }
  }

  ghost predicate AllWellFormed(tokens: seq<Token>) {
    forall i :: 0 <= i < |tokens| ==> tokens[i].WellFormed()
  }

  // ----- tags -----

  predicate IsRun(tag: byte) {
    tag & 0x80 != 0
  }

  function RunCount(tag: byte): bv7 {
    (tag & 0x7F) as bv7
  }

  function Count(c: bv7): (n: nat)
    ensures n <= 127
  {
    c as int
  }

  function RunTag(c: bv7): byte {
    0x80 | (c as byte)
  }

  function SpanCount(n: nat): bv7
    requires n <= 127
  {
    n as bv7
  }

  function SpanTag(n: nat): byte
    requires n <= 127
  {
    SpanCount(n) as byte
  }

  lemma TagFields(c: bv7)
    ensures IsRun(RunTag(c)) && RunCount(RunTag(c)) == c
    ensures !IsRun(c as byte) && RunCount(c as byte) == c
  {
  }

  lemma TagOfFields(tag: byte)
    ensures tag == if IsRun(tag) then RunTag(RunCount(tag)) else RunCount(tag) as byte
  {
  }

  lemma SpanCountModulo(n: nat)
    requires n <= 127
    ensures Count(SpanCount(n)) == n % 128
  {
  }

  lemma SpanCountValue(n: nat)
    requires n <= 127
    ensures Count(SpanCount(n)) == n
  {
    hide Count, SpanCount;
    SpanCountModulo(n);
  }

  lemma CountSpan(c: bv7)
    ensures SpanCount(Count(c)) == c
  {
  }

  // ----- cutting and expanding -----

  function Prepend(tokens: seq<Token>, rest: Option<seq<Token>>): Option<seq<Token>> {
    match rest
    case None => None
    case Some(more) => Some(tokens + more)
  }

  /** How many bytes the first token takes. */
  function FirstSize(src: seq<byte>): (n: nat)
    requires src != []
    ensures n >= 1
  {
    if IsRun(src[0]) then 2 else 1 + Count(RunCount(src[0]))
  }

  function FirstToken(src: seq<byte>): (t: Token)
    requires src != [] && FirstSize(src) <= |src|
    ensures t.WellFormed()
  {
    if IsRun(src[0]) then Run(RunCount(src[0]), src[1]) else Span(src[1..FirstSize(src)])
  }

  function ReadTokens(src: seq<byte>): Option<seq<Token>>
    decreases |src|
  {
    if src == [] then Some([])
    else if FirstSize(src) > |src| then None
    else Prepend([FirstToken(src)], ReadTokens(src[FirstSize(src)..]))
  }

  function Repeated(b: byte, n: nat): (s: seq<byte>)
    ensures |s| == n && forall i :: 0 <= i < n ==> s[i] == b
  {
    seq(n, _ => b)
  }

  function ExpandToken(t: Token): seq<byte> {
    match t
    case Run(count, value) => Repeated(value, Count(count))
    case Span(data) => data
  }

  function Expand(tokens: seq<Token>): seq<byte> {
    if tokens == [] then [] else ExpandToken(tokens[0]) + Expand(tokens[1..])
  }

  /** What a compressed string stands for within a capacity. */
  function Decoded(src: seq<byte>, capacity: nat): Option<seq<byte>> {
    match ReadTokens(src)
    case None => None
    case Some(tokens) => if |Expand(tokens)| <= capacity then Some(Expand(tokens)) else None
  }

  lemma {:induction false} ExpandConcat(a: seq<Token>, b: seq<Token>)
    ensures Expand(a + b) == Expand(a) + Expand(b)
    decreases |a|
  {
    hide ExpandToken;
    if a == [] {
      assert a + b == b;
    } else {
      assert (a + b)[1..] == a[1..] + b;
      ExpandConcat(a[1..], b);
    }
  }

  lemma ExpandOne(t: Token)
    ensures Expand([t]) == ExpandToken(t)
  {
    hide ExpandToken;
    assert [t][1..] == [];
  }

  lemma PrependTwice(a: seq<Token>, b: seq<Token>, rest: Option<seq<Token>>)
    ensures Prepend(a, Prepend(b, rest)) == Prepend(a + b, rest)
  {
    if rest.Some? {
      assert a + (b + rest.value) == (a + b) + rest.value;
    }
  }

  // ----- composition -----

  lemma {:induction false} ReadConcat(a: seq<byte>, b: seq<byte>)
    requires ReadTokens(a).Some?
    ensures ReadTokens(a + b) == Prepend(ReadTokens(a).value, ReadTokens(b))
    decreases |a|
  {
    hide IsRun, Count, RunCount;
    if a == [] {
      assert a + b == b;
      assert ReadTokens(b).Some? ==> [] + ReadTokens(b).value == ReadTokens(b).value;
    } else {
      var n := FirstSize(a);
      assert FirstSize(a + b) == n;
      assert (a + b)[n..] == a[n..] + b;
      assert (a + b)[1..n] == a[1..n];
      ReadConcat(a[n..], b);
      PrependTwice([FirstToken(a)], ReadTokens(a[n..]).value, ReadTokens(b));
    }
  }

  /** A decodable prefix can be split off: the whole decodes exactly when the rest decodes into the room left. */
  lemma DecodeConcat(a: seq<byte>, b: seq<byte>, capacity: nat)
    requires Decoded(a, capacity).Some?
    ensures var u := Decoded(a, capacity).value;
            && |u| <= capacity
            && Decoded(a + b, capacity)
            == match Decoded(b, capacity - |u|) { case None => None case Some(v) => Some(u + v) }
  {
    hide ReadTokens, Expand;
    ReadConcat(a, b);
    if ReadTokens(b).Some? {
      ExpandConcat(ReadTokens(a).value, ReadTokens(b).value);
    }
  }

  // ----- printing tokens -----

  function WriteToken(t: Token): seq<byte>
    requires t.WellFormed()
  {
    match t
    case Run(count, value) => [RunTag(count), value]
    case Span(data) => [SpanTag(|data|)] + data
  }

  function WriteTokens(tokens: seq<Token>): seq<byte>
    requires AllWellFormed(tokens)
  {
    if tokens == [] then [] else WriteToken(tokens[0]) + WriteTokens(tokens[1..])
  }

  lemma FirstOfWritten(t: Token, rest: seq<byte>)
    requires t.WellFormed()
    ensures var src := WriteToken(t) + rest;
            && FirstSize(src) == |WriteToken(t)|
            && FirstToken(src) == t
            && src[FirstSize(src)..] == rest
  {
    hide IsRun, RunCount, Count, RunTag, SpanCount;
    var src := WriteToken(t) + rest;
    match t
    case Run(count, value) =>
      TagFields(count);
      assert src[0] == RunTag(count);
    case Span(data) =>
      TagFields(SpanCount(|data|));
      SpanCountValue(|data|);
      assert src[0] == SpanTag(|data|);
      assert src[1..1 + |data|] == data;
  }

  /** Cutting undoes printing, for every list of tokens. */
  lemma {:induction false} WriteThenRead(tokens: seq<Token>)
    requires AllWellFormed(tokens)
    ensures ReadTokens(WriteTokens(tokens)) == Some(tokens)
    decreases |tokens|
  {
    hide WriteToken, FirstSize, FirstToken;
    if tokens != [] {
      FirstOfWritten(tokens[0], WriteTokens(tokens[1..]));
      WriteThenRead(tokens[1..]);
      var src := WriteTokens(tokens);
      assert FirstSize(src) <= |src|;
      assert [tokens[0]] + tokens[1..] == tokens;
    }
  }

  lemma WriteFirst(src: seq<byte>)
    requires src != [] && FirstSize(src) <= |src|
    ensures WriteToken(FirstToken(src)) + src[FirstSize(src)..] == src
  {
    hide IsRun, RunCount, Count, RunTag, SpanCount;
    TagOfFields(src[0]);
    CountSpan(RunCount(src[0]));
  }

  /** Printing undoes cutting: a string has at most one reading. */
  lemma {:induction false} ReadThenWrite(src: seq<byte>)
    requires ReadTokens(src).Some?
    ensures AllWellFormed(ReadTokens(src).value)
    ensures WriteTokens(ReadTokens(src).value) == src
    decreases |src|
  {
    hide WriteToken, FirstSize, FirstToken;
    if src != [] {
      var rest := src[FirstSize(src)..];
      ReadThenWrite(rest);
      WriteFirst(src);
      var tokens := ReadTokens(src).value;
      assert tokens[0] == FirstToken(src) && tokens[1..] == ReadTokens(rest).value;
    }
  }

  /** Decoding a printed token list gives its expansion when that fits, and fails otherwise. */
  lemma {:induction false} WriteThenDecode(tokens: seq<Token>, capacity: nat)
    requires AllWellFormed(tokens)
    ensures Decoded(WriteTokens(tokens), capacity)
         == if |Expand(tokens)| <= capacity then Some(Expand(tokens)) else None
  {
    hide WriteTokens, Expand;
    WriteThenRead(tokens);
  }

  // ----- the expansion bound -----

  lemma {:induction false} ReadBound(src: seq<byte>)
    ensures ReadTokens(src).Some? ==> 2 * |Expand(ReadTokens(src).value)| <= 127 * |src|
    decreases |src|
  {
    hide IsRun, RunCount, Count;
    if src != [] && FirstSize(src) <= |src| {
      var rest := src[FirstSize(src)..];
      ReadBound(rest);
      if ReadTokens(rest).Some? {
        var tokens := ReadTokens(src).value;
        assert tokens[0] == FirstToken(src) && tokens[1..] == ReadTokens(rest).value;
        assert 2 * |ExpandToken(FirstToken(src))| <= 127 * FirstSize(src);
      }
    }
  }

  /** Two input bytes never produce more than a hundred and twenty-seven output bytes. */
  lemma ExpansionBound(src: seq<byte>, capacity: nat)
    ensures Decoded(src, capacity).Some? ==> 2 * |Decoded(src, capacity).value| <= 127 * |src|
  {
    hide ReadTokens, Expand;
    if Decoded(src, capacity).Some? {
      ReadBound(src);
    }
  }

  // ----- the two decoders -----

  /** The tokens read so far explain the output so far, and `rest` is what the rest of the input holds. */
  ghost predicate Progress(src: seq<byte>, done: seq<Token>, rest: Option<seq<Token>>, out: seq<byte>) {
    ReadTokens(src) == Prepend(done, rest) && out == Expand(done)
  }

  lemma ProgressStart(src: seq<byte>)
    ensures Progress(src, [], ReadTokens(src), [])
  {
    hide ReadTokens;
    if ReadTokens(src).Some? {
      assert [] + ReadTokens(src).value == ReadTokens(src).value;
    }
  }

  /** One token: either it is cut off, or it overflows, or the decoder takes it. */
  lemma ProgressToken(src: seq<byte>, rp: nat, done: seq<Token>, out: seq<byte>, capacity: nat)
    requires rp < |src| && Progress(src, done, ReadTokens(src[rp..]), out)
    ensures var size := FirstSize(src[rp..]);
            if rp + size > |src| then Decoded(src, capacity) == None
            else
              var t := FirstToken(src[rp..]);
              && Progress(src, done + [t], ReadTokens(src[rp + size..]), out + ExpandToken(t))
              && (|out| + |ExpandToken(t)| > capacity ==> Decoded(src, capacity) == None)
  {
    hide FirstSize, FirstToken, ExpandToken, Expand;
    var rest := src[rp..];
    if FirstSize(rest) <= |rest| {
      var t, more := FirstToken(rest), ReadTokens(src[rp + FirstSize(rest)..]);
      assert rest[FirstSize(rest)..] == src[rp + FirstSize(rest)..];
      PrependTwice(done, [t], more);
      ExpandConcat(done, [t]);
      ExpandOne(t);
      if more.Some? {
        ExpandConcat(done + [t], more.value);
      }
    }
  }

  lemma ProgressEnd(src: seq<byte>, done: seq<Token>, out: seq<byte>, capacity: nat)
    requires Progress(src, done, ReadTokens([]), out) && |out| <= capacity
    ensures Decoded(src, capacity) == Some(out)
  {
    hide Expand;
    assert done + [] == done;
  }

  /** What the bits of a tag say about the first token of the rest of the input. */
  lemma ReadTag(rest: seq<byte>)
    requires rest != []
    ensures var tag := rest[0];
            && (tag & 0x80 != 0) == IsRun(tag)
            && FirstSize(rest) == (if IsRun(tag) then 2 else 1 + Count(RunCount(tag)))
            && (FirstSize(rest) <= |rest| ==>
                  ExpandToken(FirstToken(rest))
                  == if IsRun(tag) then Repeated(rest[1], Count(RunCount(tag))) else rest[1..FirstSize(rest)])
  {
    hide Count, RunCount;
  }

  /**
   * The decoder behind the compression dispatch; `prior` is the caller's length variable,
   * which only success overwrites.
   */
  method DecompressRle(src: seq<byte>, dest: array<byte>, maxDestLen: nat, prior: nat) returns (ok: bool, outLen: nat)
    requires maxDestLen <= dest.Length
    modifies dest
    ensures ok ==> outLen <= maxDestLen && Decoded(src, maxDestLen) == Some(dest[..outLen])
    ensures ok ==> forall j :: outLen <= j < dest.Length ==> dest[j] == old(dest[j])
    ensures !ok ==> Decoded(src, maxDestLen) == None && outLen == prior
    ensures forall j :: maxDestLen <= j < dest.Length ==> dest[j] == old(dest[j])
  {
    hide Progress, ReadTokens, Decoded, FirstSize, FirstToken, ExpandToken, IsRun, RunCount, Count;
    var rp: nat, wp: nat := 0, 0;
    ghost var done: seq<Token> := [];
    ProgressStart(src);
    assert src[0..] == src && dest[..0] == [];
    while rp < |src|
      invariant rp <= |src| && wp <= maxDestLen
      invariant Progress(src, done, ReadTokens(src[rp..]), dest[..wp])
      invariant forall j :: wp <= j < dest.Length ==> dest[j] == old(dest[j])
      decreases |src| - rp
    {
      ghost var rest, out := src[rp..], dest[..wp];
      ReadTag(rest);
      ProgressToken(src, rp, done, out, maxDestLen);
      var tag := src[rp];
      rp := rp + 1;
      if IsRun(tag) {
        var count := Count(RunCount(tag));
        if rp >= |src| { return false, prior; }
        var value := src[rp];
        rp := rp + 1;
        done := done + [FirstToken(rest)];
        if count == 0 {
          assert out + Repeated(value, 0) == out;
          continue;
        }
        if wp + count > maxDestLen { return false, prior; }
        forall i | 0 <= i < count { dest[wp + i] := value; }
        assert dest[..wp + count] == out + Repeated(value, count);
        wp := wp + count;
      } else {
        var count := Count(RunCount(tag));
        if count == 0 {
          done := done + [FirstToken(rest)];
          assert out + rest[1..1] == out;
          continue;
        }
        if rp + count > |src| { return false, prior; }
        if wp + count > maxDestLen { return false, prior; }
        forall i | 0 <= i < count { dest[wp + i] := src[rp + i]; }
        assert dest[..wp + count] == out + rest[1..1 + count];
        done := done + [FirstToken(rest)];
        rp := rp + count;
        wp := wp + count;
      }
    }
    assert src[rp..] == [];
    ProgressEnd(src, done, dest[..wp], maxDestLen);
    return true, wp;
  }

  /** The decoder behind compressed session data. */
  method DecompressPayload(src: seq<byte>, dest: array<byte>, maxDestLen: nat, prior: nat)
    returns (ok: bool, outLen: nat)
    requires maxDestLen <= dest.Length
    modifies dest
    ensures ok ==> outLen <= maxDestLen && Decoded(src, maxDestLen) == Some(dest[..outLen])
    ensures ok ==> forall j :: outLen <= j < dest.Length ==> dest[j] == old(dest[j])
    ensures !ok ==> Decoded(src, maxDestLen) == None && outLen == prior
    ensures forall j :: maxDestLen <= j < dest.Length ==> dest[j] == old(dest[j])
  {
    hide Progress, ReadTokens, Decoded, FirstSize, FirstToken, ExpandToken, IsRun, RunCount, Count;
    var rp: nat, wp: nat := 0, 0;
    ghost var done: seq<Token> := [];
    ProgressStart(src);
    assert src[0..] == src && dest[..0] == [];
    while rp < |src|
      invariant rp <= |src| && wp <= maxDestLen
      invariant Progress(src, done, ReadTokens(src[rp..]), dest[..wp])
      invariant forall j :: wp <= j < dest.Length ==> dest[j] == old(dest[j])
      decreases |src| - rp
    {
      ghost var rest, out := src[rp..], dest[..wp];
      ReadTag(rest);
      ProgressToken(src, rp, done, out, maxDestLen);
      var tag := src[rp];
      rp := rp + 1;
      if IsRun(tag) {
        var count := Count(RunCount(tag));
        if rp >= |src| { return false, prior; }
        var value := src[rp];
        rp := rp + 1;
        done := done + [FirstToken(rest)];
        if count == 0 {
          assert out + Repeated(value, 0) == out;
          continue;
        }
        if wp + count > maxDestLen { return false, prior; }
        forall i | 0 <= i < count { dest[wp + i] := value; }
        assert dest[..wp + count] == out + Repeated(value, count);
        wp := wp + count;
      } else {
        var count := Count(RunCount(tag));
        if count == 0 {
          done := done + [FirstToken(rest)];
          assert out + rest[1..1] == out;
          continue;
        }
        if rp + count > |src| { return false, prior; }
        if wp + count > maxDestLen { return false, prior; }
        forall i | 0 <= i < count { dest[wp + i] := src[rp + i]; }
        assert dest[..wp + count] == out + rest[1..1 + count];
        done := done + [FirstToken(rest)];
        rp := rp + count;
        wp := wp + count;
      }
    }
    assert src[rp..] == [];
    ProgressEnd(src, done, dest[..wp], maxDestLen);
    return true, wp;
  }

  // ----- the bytes themselves -----

  lemma TagNumber(tag: byte)
    ensures IsRun(tag) <==> tag as int >= 128
    ensures Count(RunCount(tag)) == (tag as int) % 128
  {
    hide Count, RunCount;
    TagCount(tag);
    TagTop(tag);
  }

  lemma TagTop(tag: byte)
    ensures tag & 0x80 != 0 <==> tag as int >= 128
  {
  }

  lemma LowBits(tag: byte)
    ensures ((tag & 0x7F) as bv7) as int == (tag as int) % 128
  {
  }

  lemma CountNumber(c: bv7)
    ensures Count(c) == c as int
  {
  }

  lemma CountField(tag: byte)
    ensures RunCount(tag) == (tag & 0x7F) as bv7
  {
  }

  lemma TagCount(tag: byte)
    ensures Count(RunCount(tag)) == (tag as int) % 128
  {
    hide Count, RunCount;
    LowBits(tag);
    CountField(tag);
    CountNumber((tag & 0x7F) as bv7);
  }

  lemma ReadOne(src: seq<byte>)
    requires src != []
    ensures ReadTokens(src)
         == if FirstSize(src) > |src| then None
            else Prepend([FirstToken(src)], ReadTokens(src[FirstSize(src)..]))
    ensures ReadTokens([]) == Some([])
  {
    hide FirstSize, FirstToken;
  }

  lemma DecodeOne(src: seq<byte>, capacity: nat)
    requires src != [] && FirstSize(src) == |src|
    ensures var out := ExpandToken(FirstToken(src));
            Decoded(src, capacity) == if |out| <= capacity then Some(out) else None
  {
    hide FirstSize, FirstToken, ReadTokens, ExpandToken, Expand;
    ReadOne(src);
    assert src[|src|..] == [];
    assert [FirstToken(src)] + [] == [FirstToken(src)];
    ExpandOne(FirstToken(src));
  }

  /** A first byte from 128 on: the next byte, as many times as the first exceeds 128. */
  lemma RunMeaning(tag: byte, b: byte, capacity: nat)
    requires tag as int >= 128
    ensures var n := tag as int - 128;
            if n > capacity then Decoded([tag, b], capacity) == None
            else
              && Decoded([tag, b], capacity).Some?
              && |Decoded([tag, b], capacity).value| == n
              && forall i :: 0 <= i < n ==> Decoded([tag, b], capacity).value[i] == b
    ensures Decoded([tag], capacity) == None
  {
    hide IsRun, Count, RunCount, ReadTokens, Decoded;
    TagNumber(tag);
    DecodeOne([tag, b], capacity);
    ReadOne([tag]);
    DecodeRefused([tag], capacity);
  }

  lemma DecodeRefused(src: seq<byte>, capacity: nat)
    ensures ReadTokens(src) == None ==> Decoded(src, capacity) == None
  {
  }

  /** A first byte below 128: so many bytes as they stand; fewer are refused. */
  lemma SpanMeaning(tag: byte, data: seq<byte>, capacity: nat)
    requires tag as int < 128
    ensures |data| < tag as int ==> Decoded([tag] + data, capacity) == None
    ensures |data| == tag as int ==>
              Decoded([tag] + data, capacity) == if |data| <= capacity then Some(data) else None
  {
    hide IsRun, Count, RunCount, ReadTokens, Decoded, Expand;
    TagNumber(tag);
    var src := [tag] + data;
    if |data| < tag as int {
      ReadOne(src);
      DecodeRefused(src, capacity);
    } else if |data| == tag as int {
      DecodeOne(src, capacity);
      assert src[1..FirstSize(src)] == data;
    }
  }
}
