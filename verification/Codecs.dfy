/** The varint and delta codecs: what each one's decoder makes of its encoder's output. */
module Codecs {
  import opened Bytes

  // ===== varint: 32-bit words in groups of seven bits, low group first =====

  function Or(x: bv32, y: bv32): bv32 { x | y }

  function Group(w: bv32): bv32 { w & 0x7F }

  function NextGroups(w: bv32): bv32 { w >> 7 }

  /** The place of group k in a word. */
  function Place(w: bv32, k: nat): bv32
    requires k < 5
  {
    if k == 0 then w else if k == 1 then w << 7 else if k == 2 then w << 14 else if k == 3 then w << 21 else w << 28
  }

  /** How many groups a word needs. */
  function Groups(w: bv32): (n: nat)
    ensures 1 <= n <= 5
  {
    if w < 0x80 then 1 else if w < 0x4000 then 2 else if w < 0x20_0000 then 3 else if w < 0x1000_0000 then 4 else 5
  }

  lemma GroupsStep(w: bv32)
    ensures w >= 0x80 ==> Groups(NextGroups(w)) == Groups(w) - 1
    ensures w < 0x80 <==> Groups(w) == 1
  {
  }

  function FinalByte(w: bv32): byte { (w & 0x7F) as byte }

  function MoreByte(w: bv32): byte { ((w & 0x7F) | 0x80) as byte }

  function EncodeWord(w: bv32): seq<byte>
    decreases Groups(w)
  {
    if w >= 0x80 then
      GroupsStep(w);
      [MoreByte(w)] + EncodeWord(NextGroups(w))
    else [FinalByte(w)]
  }

  datatype Word = TooLong | Word(value: bv32, rest: seq<byte>)

  predicate Continues(b: byte) { b & 0x80 != 0 }

  function Payload(b: byte): bv32 { (b & 0x7F) as bv32 }

  /** Reads groups from position k of a word on; input that ends in the middle of a word is accepted as it is. */
  function ReadWord(src: seq<byte>, value: bv32, k: nat): (w: Word)
    requires k < 5
    ensures w.Word? && src != [] ==> |w.rest| < |src|
    decreases |src|
  {
    if src == [] then Word(value, [])
    else
      var more := Or(value, Place(Payload(src[0]), k));
      if !Continues(src[0]) then Word(more, src[1..])
      else if k == 4 then TooLong
      else ReadWord(src[1..], more, k + 1)
  }

  lemma EncodedBytes(w: bv32)
    ensures !Continues(FinalByte(w)) && Payload(FinalByte(w)) == Group(w)
    ensures Continues(MoreByte(w)) && Payload(MoreByte(w)) == Group(w)
  {
  }

  lemma Regroup(w: bv32, k: nat)
    requires k < 4
    ensures Or(Place(Group(w), k), Place(NextGroups(w), k + 1)) == Place(w, k)
  {
    if
    case k == 0 => RegroupAt0(w);
    case k == 1 => RegroupAt1(w);
    case k == 2 => RegroupAt2(w);
    case k == 3 => RegroupAt3(w);
  }

  lemma RegroupAt0(w: bv32)
    ensures (w & 0x7F) | ((w >> 7) << 7) == w
  {
  }

  lemma RegroupAt1(w: bv32)
    ensures ((w & 0x7F) << 7) | ((w >> 7) << 14) == w << 7
  {
  }

  lemma RegroupAt2(w: bv32)
    ensures ((w & 0x7F) << 14) | ((w >> 7) << 21) == w << 14
  {
  }

  lemma RegroupAt3(w: bv32)
    ensures ((w & 0x7F) << 21) | ((w >> 7) << 28) == w << 21
  {
  }

  lemma SmallGroup(w: bv32)
    ensures w < 0x80 ==> Group(w) == w
  {
  }

  lemma OrAssociative(x: bv32, y: bv32, z: bv32)
    ensures Or(Or(x, y), z) == Or(x, Or(y, z))
  {
  }

  lemma OrZero(x: bv32)
    ensures Or(0, x) == x
  {
  }

  /** Reading the groups of a word, placed at k, adds exactly that word. */
  lemma {:induction false} ReadEncodedAt(w: bv32, rest: seq<byte>, value: bv32, k: nat)
    requires k + Groups(w) <= 5
    ensures ReadWord(EncodeWord(w) + rest, value, k) == Word(Or(value, Place(w, k)), rest)
    decreases Groups(w)
  {
    hide Or, Place, Group, Groups, NextGroups, FinalByte, MoreByte, Continues, Payload;
    GroupsStep(w);
    EncodedBytes(w);
    var src := EncodeWord(w) + rest;
    if w >= 0x80 {
      assert src[1..] == EncodeWord(NextGroups(w)) + rest;
      ReadEncodedAt(NextGroups(w), rest, Or(value, Place(Group(w), k)), k + 1);
      OrAssociative(value, Place(Group(w), k), Place(NextGroups(w), k + 1));
      Regroup(w, k);
    } else {
      SmallGroup(w);
      assert src[1..] == rest;
    }
  }

  lemma ReadEncoded(w: bv32, rest: seq<byte>)
    ensures ReadWord(EncodeWord(w) + rest, 0, 0) == Word(w, rest)
  {
    hide Or, Groups;
    ReadEncodedAt(w, rest, 0, 0);
    OrZero(w);
  }

  /** A word is refused exactly when five bytes in a row ask for another group. */
  lemma {:induction false} TooLongExactly(src: seq<byte>, value: bv32, k: nat)
    requires k < 5
    ensures ReadWord(src, value, k) == TooLong
       <==> |src| >= 5 - k && forall i :: 0 <= i < 5 - k ==> Continues(src[i])
    decreases |src|
  {
    hide Or, Place, Payload, Continues;
    if src != [] && Continues(src[0]) && k < 4 {
      var more := Or(value, Place(Payload(src[0]), k));
      TooLongExactly(src[1..], more, k + 1);
      assert forall i :: 0 <= i < 4 - k && i < |src| - 1 ==> src[1..][i] == src[i + 1];
      if |src| >= 5 - k && forall i :: 0 <= i < 4 - k ==> Continues(src[1..][i]) {
        forall i | 0 <= i < 5 - k
          ensures Continues(src[i])
        {
          if i > 0 { assert src[1..][i - 1] == src[i]; }
        }
      }
    }
  }

  // ----- whole buffers -----

  /** The bytes a decoder writes for a word, low byte first. */
  function LowFirst(w: bv32): (s: seq<byte>)
    ensures |s| == 4
  {
    [(w & 0xFF) as byte, ((w >> 8) & 0xFF) as byte, ((w >> 16) & 0xFF) as byte, ((w >> 24) & 0xFF) as byte]
  }

  function EncodeWords(data: seq<byte>): seq<byte>
    decreases |data|
  {
    if |data| < 4 then [] else EncodeWord(ReadBE32(data[0], data[1], data[2], data[3])) + EncodeWords(data[4..])
  }

  function DecodeWords(src: seq<byte>): Option<seq<byte>>
    decreases |src|
  {
    if src == [] then Some([])
    else
      match ReadWord(src, 0, 0)
      case TooLong => None
      case Word(w, rest) =>
        match DecodeWords(rest)
        case None => None
        case Some(more) => Some(LowFirst(w) + more)
  }

  /** The whole four-byte words of a buffer, each with its bytes reversed. */
  function ReversedWords(data: seq<byte>): seq<byte>
    decreases |data|
  {
    if |data| < 4 then [] else [data[3], data[2], data[1], data[0]] + ReversedWords(data[4..])
  }

  lemma WordBytes(b0: byte, b1: byte, b2: byte, b3: byte)
    ensures LowFirst(ReadBE32(b0, b1, b2, b3)) == [b3, b2, b1, b0]
  {
  }

  lemma EncodeWordNonempty(w: bv32)
    ensures EncodeWord(w) != []
  {
    hide MoreByte, FinalByte, NextGroups, Groups;
  }

  /** Decoding an encoded buffer gives its whole words with their bytes reversed. */
  lemma {:induction false} VarintRoundTrip(data: seq<byte>)
    ensures DecodeWords(EncodeWords(data)) == Some(ReversedWords(data))
    ensures |data| >= 4 ==> EncodeWords(data) != []
    decreases |data|
  {
    hide EncodeWord, ReadWord, ReadBE32, LowFirst;
    if |data| >= 4 {
      var w := ReadBE32(data[0], data[1], data[2], data[3]);
      ReadEncoded(w, EncodeWords(data[4..]));
      EncodeWordNonempty(w);
      WordBytes(data[0], data[1], data[2], data[3]);
      VarintRoundTrip(data[4..]);
    }
  }

  lemma ReversedStep(data: seq<byte>)
    ensures ReversedWords(data)
         == if |data| < 4 then [] else [data[3], data[2], data[1], data[0]] + ReversedWords(data[4..])
  {
  }

  /** The whole words of a buffer are its first word and the whole words after it. */
  lemma WholeWords(data: seq<byte>)
    requires |data| >= 4
    ensures data[..|data| / 4 * 4]
         == [data[0], data[1], data[2], data[3]] + data[4..][..|data[4..]| / 4 * 4]
  {
  }

  lemma {:induction false} ReversedTwice(data: seq<byte>)
    ensures |ReversedWords(data)| == |data| / 4 * 4
    ensures ReversedWords(ReversedWords(data)) == data[..|data| / 4 * 4]
    decreases |data|
  {
    hide ReversedWords;
    var r := ReversedWords(data);
    ReversedStep(data);
    ReversedStep(r);
    if |data| >= 4 {
      ReversedTwice(data[4..]);
      WholeWords(data);
      assert r[4..] == ReversedWords(data[4..]);
    }
  }

  /** Two round trips restore every whole word. */
  lemma {:induction false} VarintTwice(data: seq<byte>)
    ensures DecodeWords(EncodeWords(ReversedWords(data))) == Some(data[..|data| / 4 * 4])
  {
    hide ReversedWords, DecodeWords, EncodeWords;
    VarintRoundTrip(ReversedWords(data));
    ReversedTwice(data);
  }

  method EncodeVarint(data: seq<byte>) returns (ok: bool, out: seq<byte>)
    ensures out == EncodeWords(data) && ok == (|data| >= 4)
  {
    hide EncodeWord, ReadBE32;
    out := [];
    var i := 0;
    assert data[0..] == data;
    while i + 4 <= |data|
      invariant 0 <= i <= |data|
      invariant out + EncodeWords(data[i..]) == EncodeWords(data)
      invariant i >= 4 ==> out != []
      invariant i == 0 || i >= 4
      decreases |data| - i
    {
      var rest := data[i..];
      var word := ReadBE32(data[i], data[i + 1], data[i + 2], data[i + 3]);
      ghost var before := out;
      out := WriteWord(word, out);
      EncodeWordNonempty(word);
      assert rest[4..] == data[i + 4..];
      assert EncodeWords(rest) == EncodeWord(word) + EncodeWords(data[i + 4..]);
      assert before + (EncodeWord(word) + EncodeWords(data[i + 4..])) == out + EncodeWords(data[i + 4..]);
      i := i + 4;
    }
    assert out + [] == out;
    return out != [], out;
  }

  /** The inner loop of the encoder. */
  method WriteWord(word: bv32, prior: seq<byte>) returns (out: seq<byte>)
    ensures out == prior + EncodeWord(word)
  {
    hide MoreByte, FinalByte, NextGroups, Groups;
    var val := word;
    out := prior;
    while val >= 0x80
      invariant out + EncodeWord(val) == prior + EncodeWord(word)
      decreases Groups(val)
    {
      GroupsStep(val);
      assert EncodeWord(val) == [MoreByte(val)] + EncodeWord(NextGroups(val));
      assert out + ([MoreByte(val)] + EncodeWord(NextGroups(val)))
          == (out + [MoreByte(val)]) + EncodeWord(NextGroups(val));
      out := out + [MoreByte(val)];
      val := NextGroups(val);
    }
    out := out + [FinalByte(val)];
  }

  method DecodeVarint(src: seq<byte>) returns (ok: bool, out: seq<byte>)
    ensures ok == (src != [] && DecodeWords(src).Some?)
    ensures ok ==> Some(out) == DecodeWords(src)
  {
    hide ReadWord, LowFirst;
    out := [];
    var i := 0;
    assert src[0..] == src && Joined([], DecodeWords(src)) == DecodeWords(src) by { JoinedNothing(DecodeWords(src)); }
    while i < |src|
      invariant 0 <= i <= |src|
      invariant DecodeWords(src) == Joined(out, DecodeWords(src[i..]))
      invariant i > 0 <==> out != []
      decreases |src| - i
    {
      var fits, val;
      ghost var start := i;
      fits, val, i := ReadGroups(src, i);
      if !fits { return false, out; }
      JoinedTwice(out, LowFirst(val), DecodeWords(src[i..]));
      out := out + LowFirst(val);
    }
    assert src[i..] == [] && out + [] == out;
    return out != [], out;
  }

  function Joined(front: seq<byte>, rest: Option<seq<byte>>): Option<seq<byte>> {
    match rest
    case None => None
    case Some(more) => Some(front + more)
  }

  lemma JoinedNothing(rest: Option<seq<byte>>)
    ensures Joined([], rest) == rest
  {
    if rest.Some? {
      assert [] + rest.value == rest.value;
    }
  }

  lemma JoinedTwice(a: seq<byte>, b: seq<byte>, rest: Option<seq<byte>>)
    ensures Joined(a, Joined(b, rest)) == Joined(a + b, rest)
  {
    if rest.Some? {
      assert a + (b + rest.value) == (a + b) + rest.value;
    }
  }

  lemma ReadWordUnfold(src: seq<byte>, value: bv32, k: nat)
    requires k < 5
    ensures ReadWord(src, value, k)
         == if src == [] then Word(value, [])
            else if !Continues(src[0]) then Word(Or(value, Place(Payload(src[0]), k)), src[1..])
            else if k == 4 then TooLong
            else ReadWord(src[1..], Or(value, Place(Payload(src[0]), k)), k + 1)
  {
    hide Or, Place, Payload, Continues;
  }

  /** The inner loop of the decoder; the shift distance is seven times the group number. */
  method ReadGroups(src: seq<byte>, start: nat) returns (fits: bool, val: bv32, i: nat)
    requires start < |src|
    ensures fits == ReadWord(src[start..], 0, 0).Word?
    ensures fits ==> start < i <= |src| && ReadWord(src[start..], 0, 0) == Word(val, src[i..])
  {
    hide ReadWord, Or, Place, Payload, Continues;
    val := 0;
    i := start;
    var k := 0;
    while i < |src|
      invariant start <= i <= |src| && 0 <= k < 5
      invariant k > 0 ==> i > start
      invariant ReadWord(src[start..], 0, 0) == ReadWord(src[i..], val, k)
      decreases |src| - i
    {
      ReadWordUnfold(src[i..], val, k);
      assert src[i..][1..] == src[i + 1..];
      var b := src[i];
      i := i + 1;
      val := Or(val, Place(Payload(b), k));
      if !Continues(b) {
        return true, val, i;
      }
      if k == 4 { return false, val, i; }
      k := k + 1;
    }
    ReadWordUnfold(src[i..], val, k);
    return true, val, i;
  }

  // ===== delta: differences modulo 256 =====

  function Plus(a: byte, b: byte): byte { a + b }

  function Minus(a: byte, b: byte): byte { a - b }

  function Differences(base: byte, data: seq<byte>): (d: seq<byte>)
    ensures |d| == |data|
    decreases |data|
  {
    if data == [] then [] else [Minus(data[0], base)] + Differences(data[0], data[1..])
  }

  function RunningSums(base: byte, deltas: seq<byte>): (s: seq<byte>)
    ensures |s| == |deltas|
    decreases |deltas|
  {
    if deltas == [] then [] else [Plus(base, deltas[0])] + RunningSums(Plus(base, deltas[0]), deltas[1..])
  }

  lemma PlusMinus(a: byte, b: byte)
    ensures Plus(a, Minus(b, a)) == b && Minus(Plus(a, b), a) == b
  {
  }

  /** Running sums undo differences. */
  lemma {:induction false} SumsOfDifferences(base: byte, data: seq<byte>)
    ensures RunningSums(base, Differences(base, data)) == data
    decreases |data|
  {
    hide Plus, Minus;
    if data != [] {
      PlusMinus(base, data[0]);
      SumsOfDifferences(data[0], data[1..]);
      assert Differences(base, data)[1..] == Differences(data[0], data[1..]);
    }
  }

  /** Differences undo running sums. */
  lemma {:induction false} DifferencesOfSums(base: byte, deltas: seq<byte>)
    ensures Differences(base, RunningSums(base, deltas)) == deltas
    decreases |deltas|
  {
    hide Plus, Minus;
    if deltas != [] {
      var first := Plus(base, deltas[0]);
      PlusMinus(base, deltas[0]);
      DifferencesOfSums(first, deltas[1..]);
      assert RunningSums(base, deltas)[1..] == RunningSums(first, deltas[1..]);
    }
  }

  function Encoded(data: seq<byte>): seq<byte>
    requires data != []
  {
    [0, data[0]] + Differences(data[0], data[1..])
  }

  /** What the delta decoder makes of a buffer: its first byte has no influence. */
  function Decoded(src: seq<byte>): Option<seq<byte>> {
    if |src| < 2 then None else Some(RunningSums(src[1], src[2..]))
  }

  /** Decoding an encoded buffer gives it back without its first byte. */
  lemma DeltaRoundTrip(data: seq<byte>)
    requires data != []
    ensures Decoded(Encoded(data)) == Some(data[1..])
  {
    hide RunningSums, Differences;
    SumsOfDifferences(data[0], data[1..]);
    assert Encoded(data)[2..] == Differences(data[0], data[1..]);
  }

  /**
   * The byte the decoder drops is all that is missing: with it, encoding undoes decoding up to
   * the unused first byte.
   */
  lemma DeltaReencode(src: seq<byte>)
    requires |src| >= 2
    ensures Encoded([src[1]] + Decoded(src).value) == [0] + src[1..]
  {
    hide RunningSums, Differences;
    DifferencesOfSums(src[1], src[2..]);
    assert ([src[1]] + Decoded(src).value)[1..] == Decoded(src).value;
  }

  method EncodeDelta(data: seq<byte>) returns (ok: bool, out: seq<byte>)
    ensures ok == (data != [])
    ensures ok ==> out == Encoded(data)
  {
    hide Differences, Minus;
    out := [];
    if |data| == 0 { return false, out; }
    out := [0, data[0]];
    for i := 1 to |data|
      invariant out + Differences(data[i - 1], data[i..]) == Encoded(data)
    {
      DifferencesUnfold(data[i - 1], data[i..]);
      assert data[i..][1..] == data[i + 1..];
      var d := SignedDifference(data[i], data[i - 1]);
      assert out + ([d] + Differences(data[i], data[i + 1..])) == (out + [d]) + Differences(data[i], data[i + 1..]);
      out := out + [d];
    }
    DifferencesUnfold(data[|data| - 1], data[|data|..]);
    assert out + [] == out;
    return true, out;
  }

  lemma DifferencesUnfold(base: byte, data: seq<byte>)
    ensures Differences(base, data)
         == if data == [] then [] else [Minus(data[0], base)] + Differences(data[0], data[1..])
  {
  }

  lemma SumsUnfold(base: byte, deltas: seq<byte>)
    ensures RunningSums(base, deltas)
         == if deltas == [] then [] else [Plus(base, deltas[0])] + RunningSums(Plus(base, deltas[0]), deltas[1..])
  {
  }

  /** A 16-bit difference of two bytes, cut down to eight bits. */
  method SignedDifference(x: byte, y: byte) returns (d: byte)
    ensures d == Minus(x, y)
  {
    d := (((x as bv16) - (y as bv16)) & 0xFF) as byte;
  }

  /** A signed byte widened to sixteen bits. */
  function SignExtended(b: byte): bv16 {
    if b >= 0x80 then 0xFF00 | (b as bv16) else b as bv16
  }

  /** The 16-bit accumulator after one signed delta, wrapping. */
  function Widened(prev: bv16, delta: byte): bv16 {
    prev + SignExtended(delta)
  }

  function LowByte(x: bv16): byte {
    (x & 0xFF) as byte
  }

  lemma SignedSum(prev: bv16, delta: byte)
    ensures LowByte(Widened(prev, delta)) == Plus(LowByte(prev), delta)
  {
  }

  lemma LowByteOfField(hi: byte, lo: byte)
    ensures LowByte(ReadBE16(hi, lo)) == lo
  {
  }

  method DecodeDelta(src: seq<byte>) returns (ok: bool, out: seq<byte>)
    ensures ok == Decoded(src).Some?
    ensures ok ==> Some(out) == Decoded(src)
  {
    hide RunningSums, Widened, LowByte, ReadBE16, Plus;
    out := [];
    if |src| < 2 { return false, out; }
    var prev := ReadBE16(src[0], src[1]);
    LowByteOfField(src[0], src[1]);
    for i := 2 to |src|
      invariant out + RunningSums(LowByte(prev), src[i..]) == RunningSums(src[1], src[2..])
    {
      SumsUnfold(LowByte(prev), src[i..]);
      assert src[i..][1..] == src[i + 1..];
      SignedSum(prev, src[i]);
      ghost var tail := RunningSums(Plus(LowByte(prev), src[i]), src[i + 1..]);
      prev := Widened(prev, src[i]);
      assert out + ([LowByte(prev)] + tail) == (out + [LowByte(prev)]) + tail;
      out := out + [LowByte(prev)];
    }
    SumsUnfold(LowByte(prev), src[|src|..]);
    assert out + [] == out;
    return true, out;
  }

  // ===== in numbers =====

  /** What groups of seven bits spell, the first group lowest. */
  function Leb(bytes: seq<byte>): nat {
    if bytes == [] then 0 else (bytes[0] as int) % 128 + 128 * Leb(bytes[1..])
  }

  /** All bytes but the last are 128 or more. */
  ghost predicate LebShape(bytes: seq<byte>) {
    && bytes != []
    && (forall i :: 0 <= i < |bytes| - 1 ==> bytes[i] as int >= 128)
    && bytes[|bytes| - 1] as int < 128
  }

  function FirstGroup(w: bv32): bv7 { (w & 0x7F) as bv7 }

  function LaterGroups(w: bv32): bv25 { (w >> 7) as bv25 }

  function JoinGroups(q: bv25, r: bv7): bv32 { ((q as bv32) << 7) | (r as bv32) }

  lemma JoinedNumber(q: bv25, r: bv7)
    ensures (((q as bv32) << 7) | (r as bv32)) as int == 128 * (q as int) + (r as int)
  {
  }

  lemma JoinedField(q: bv25, r: bv7)
    ensures JoinGroups(q, r) == ((q as bv32) << 7) | (r as bv32)
  {
  }

  lemma JoinGroupsNumber(q: bv25, r: bv7)
    ensures JoinGroups(q, r) as int == 128 * (q as int) + (r as int)
  {
    hide JoinGroups;
    JoinedNumber(q, r);
    JoinedField(q, r);
  }

  lemma WordGroups(w: bv32)
    ensures w == JoinGroups(LaterGroups(w), FirstGroup(w))
  {
  }

  lemma WordLater(w: bv32)
    ensures NextGroups(w) == LaterGroups(w) as bv32
  {
  }

  lemma WidenGroups(q: bv25)
    ensures (q as bv32) as int == q as int
  {
  }

  lemma MoreOfGroup(w: bv32)
    ensures MoreByte(w) == 0x80 | (FirstGroup(w) as byte)
    ensures FinalByte(w) == FirstGroup(w) as byte
  {
  }

  lemma MarkedGroup(r: bv7)
    ensures (0x80 | (r as byte)) as int == 128 + r as int
    ensures (r as byte) as int == r as int < 128
  {
  }

  lemma WordNumbers(w: bv32)
    ensures w as int == 128 * (NextGroups(w) as int) + (FinalByte(w) as int)
    ensures FinalByte(w) as int < 128
    ensures MoreByte(w) as int == 128 + (FinalByte(w) as int)
  {
    hide NextGroups, FinalByte, MoreByte, FirstGroup, LaterGroups, JoinGroups;
    WordGroups(w);
    WordLater(w);
    JoinGroupsNumber(LaterGroups(w), FirstGroup(w));
    WidenGroups(LaterGroups(w));
    MoreOfGroup(w);
    MarkedGroup(FirstGroup(w));
  }

  lemma SmallWord(w: bv32)
    ensures w < 0x80 <==> w as int < 128
  {
  }

  lemma EncodeWordStep(w: bv32)
    ensures EncodeWord(w) == if w >= 0x80 then [MoreByte(w)] + EncodeWord(NextGroups(w)) else [FinalByte(w)]
  {
    hide MoreByte, FinalByte, NextGroups, Groups;
  }

  lemma LebOne(b: byte)
    requires Number(b) < 128
    ensures LebShape([b]) && Leb([b]) == Number(b)
  {
    hide Leb;
    LebStep([b]);
    assert [b][1..] == [];
  }

  lemma ShapeMore(b: byte, rest: seq<byte>)
    requires LebShape(rest) && Number(b) >= 128
    ensures LebShape([b] + rest) && ([b] + rest)[|rest|] == rest[|rest| - 1]
  {
  }

  lemma LebMore(b: byte, rest: seq<byte>, n: nat)
    requires LebShape(rest) && n < 128 && Number(b) == 128 + n
    ensures LebShape([b] + rest) && Leb([b] + rest) == n + 128 * Leb(rest)
    ensures ([b] + rest)[|rest|] == rest[|rest| - 1]
  {
    hide Leb, LebShape, Number;
    ShapeMore(b, rest);
    LebNonempty(rest);
    LebStep([b] + rest);
    assert ([b] + rest)[1..] == rest;
  }

  lemma EncodedNumbers(w: bv32)
    ensures WordNumber(w) == 128 * WordNumber(NextGroups(w)) + Number(FinalByte(w))
    ensures Number(FinalByte(w)) < 128 && Number(MoreByte(w)) == 128 + Number(FinalByte(w))
    ensures w < 0x80 <==> WordNumber(w) < 128
  {
    hide NextGroups, FinalByte, MoreByte;
    WordNumbers(w);
    SmallWord(w);
  }

  lemma {:induction false} EncodedWord(w: bv32)
    ensures LebShape(EncodeWord(w)) && Leb(EncodeWord(w)) == WordNumber(w)
    ensures WordNumber(w) > 0 ==> Number(EncodeWord(w)[|EncodeWord(w)| - 1]) != 0
    ensures WordNumber(w) == 0 ==> |EncodeWord(w)| == 1
    decreases WordNumber(w)
  {
    hide EncodeWord, MoreByte, FinalByte, NextGroups, Leb, LebShape, Number, WordNumber;
    EncodeWordStep(w);
    EncodedNumbers(w);
    LebNonempty(EncodeWord(w));
    if w >= 0x80 {
      EncodedWord(NextGroups(w));
      LebNonempty(EncodeWord(NextGroups(w)));
      LebMore(MoreByte(w), EncodeWord(NextGroups(w)), Number(FinalByte(w)));
    } else {
      LebOne(FinalByte(w));
    }
  }

  /** An encoded word spells the word in base 128, marks every byte but the last, and is as short as it can be. */
  lemma EncodedWordMeaning(w: bv32)
    ensures LebShape(EncodeWord(w)) && Leb(EncodeWord(w)) == w as int
    ensures w as int > 0 ==> EncodeWord(w)[|EncodeWord(w)| - 1] as int != 0
    ensures w as int == 0 ==> |EncodeWord(w)| == 1
  {
    hide EncodeWord, Leb, LebShape;
    EncodedWord(w);
    LebNonempty(EncodeWord(w));
  }

  lemma LebNonempty(bytes: seq<byte>)
    ensures LebShape(bytes) ==> bytes != []
  {
  }

  /** Encoding goes word by word, each word four bytes, high byte first; what is left over is dropped. */
  lemma EncodeMeaning(data: seq<byte>)
    ensures |data| < 4 ==> EncodeWords(data) == []
    ensures |data| >= 4 ==>
              exists e :: && EncodeWords(data) == e + EncodeWords(data[4..])
                          && LebShape(e) && (|e| > 1 ==> e[|e| - 1] as int != 0)
                          && Leb(e) == 0x100_0000 * (data[0] as int) + 0x1_0000 * (data[1] as int)
                                     + 256 * (data[2] as int) + (data[3] as int)
  {
    hide EncodeWord, ReadBE32, Leb, LebShape;
    if |data| >= 4 {
      var w := ReadBE32(data[0], data[1], data[2], data[3]);
      BE32Value(data[0], data[1], data[2], data[3]);
      EncodedWordMeaning(w);
      assert EncodeWords(data) == EncodeWord(w) + EncodeWords(data[4..]);
    }
  }

  // ----- reading groups -----

  function Weight(k: nat): nat
    requires k <= 4
  {
    if k == 0 then 1 else if k == 1 then 128 else if k == 2 then 16384 else if k == 3 then 2097152 else 268435456
  }

  lemma Join1(q: bv7, r: bv7)
    ensures ((r as bv32) | ((q as bv32) << 7)) as int == (r as int) + 128 * (q as int)
  {
  }

  lemma Join2(q: bv7, r: bv14)
    ensures ((r as bv32) | ((q as bv32) << 14)) as int == (r as int) + 16384 * (q as int)
  {
  }

  lemma Join3(q: bv7, r: bv21)
    ensures ((r as bv32) | ((q as bv32) << 21)) as int == (r as int) + 2097152 * (q as int)
  {
  }

  lemma Join4(q: bv4, r: bv28)
    ensures ((r as bv32) | ((q as bv32) << 28)) as int == (r as int) + 268435456 * (q as int)
  {
  }

  lemma LowFour(q: bv7)
    ensures ((q & 0xF) as bv4) as int == (q as int) % 16
    ensures (q as bv32) << 28 == (((q & 0xF) as bv4) as bv32) << 28
  {
  }

  lemma PayloadNumber(b: byte)
    ensures ((b & 0x7F) as bv7) as int == (b as int) % 128
    ensures Continues(b) <==> b as int >= 128
  {
  }

  lemma PayloadField(b: byte)
    ensures Payload(b) == ((b & 0x7F) as bv7) as bv32
  {
  }

  lemma Narrow7(v: bv32)
    requires v as int < 128
    ensures v == ((v & 0x7F) as bv7) as bv32 && ((v & 0x7F) as bv7) as int == v as int
  {
  }

  lemma Narrow14(v: bv32)
    requires v as int < 16384
    ensures v == ((v & 0x3FFF) as bv14) as bv32 && ((v & 0x3FFF) as bv14) as int == v as int
  {
  }

  lemma Narrow21(v: bv32)
    requires v as int < 2097152
    ensures v == ((v & 0x1F_FFFF) as bv21) as bv32 && ((v & 0x1F_FFFF) as bv21) as int == v as int
  {
  }

  lemma Narrow28(v: bv32)
    requires v as int < 268435456
    ensures v == ((v & 0xFFF_FFFF) as bv28) as bv32 && ((v & 0xFFF_FFFF) as bv28) as int == v as int
  {
  }

  lemma Placed0(v: bv32, q: bv32)
    ensures Or(v, Place(q, 0)) == v | q
  {
  }

  lemma Placed1(v: bv32, q: bv32)
    ensures Or(v, Place(q, 1)) == v | (q << 7)
  {
  }

  lemma Placed2(v: bv32, q: bv32)
    ensures Or(v, Place(q, 2)) == v | (q << 14)
  {
  }

  lemma Placed3(v: bv32, q: bv32)
    ensures Or(v, Place(q, 3)) == v | (q << 21)
  {
  }

  lemma Placed4(v: bv32, q: bv32)
    ensures Or(v, Place(q, 4)) == v | (q << 28)
  {
  }

  lemma OrGroup(q: bv7)
    ensures ((0 as bv32) | (q as bv32)) as int == q as int
  {
  }

  lemma IsZero(v: bv32)
    ensures v as int < 1 <==> v == 0
  {
  }

  lemma PlaceGroup0(v: bv32, q: bv7)
    requires v as int < 1
    ensures Or(v, Place(q as bv32, 0)) as int == v as int + q as int
  {
    hide Or, Place;
    Placed0(v, q as bv32);
    IsZero(v);
    OrGroup(q);
  }

  lemma PlaceGroup1(v: bv32, q: bv7)
    requires v as int < 128
    ensures Or(v, Place(q as bv32, 1)) as int == v as int + 128 * (q as int)
  {
    hide Or, Place;
    Placed1(v, q as bv32);
    Narrow7(v);
    Join1(q, (v & 0x7F) as bv7);
  }

  lemma PlaceGroup2(v: bv32, q: bv7)
    requires v as int < 16384
    ensures Or(v, Place(q as bv32, 2)) as int == v as int + 16384 * (q as int)
  {
    hide Or, Place;
    Placed2(v, q as bv32);
    Narrow14(v);
    Join2(q, (v & 0x3FFF) as bv14);
  }

  lemma PlaceGroup3(v: bv32, q: bv7)
    requires v as int < 2097152
    ensures Or(v, Place(q as bv32, 3)) as int == v as int + 2097152 * (q as int)
  {
    hide Or, Place;
    Placed3(v, q as bv32);
    Narrow21(v);
    Join3(q, (v & 0x1F_FFFF) as bv21);
  }

  lemma PlaceGroup4(v: bv32, q: bv7)
    requires v as int < 268435456
    ensures Or(v, Place(q as bv32, 4)) as int == v as int + 268435456 * ((q as int) % 16)
  {
    hide Or, Place;
    Placed4(v, q as bv32);
    Narrow28(v);
    LowFour(q);
    Join4((q & 0xF) as bv4, (v & 0xFFF_FFFF) as bv28);
  }

  /** A group placed above what has been read so far adds its weight; the fifth one loses its upper bits. */
  lemma PlaceGroup(v: bv32, q: bv7, k: nat)
    requires k < 5 && v as int < Weight(k)
    ensures k < 4 ==> Or(v, Place(q as bv32, k)) as int == v as int + Weight(k) * (q as int)
    ensures k == 4 ==> Or(v, Place(q as bv32, k)) as int == v as int + 268435456 * ((q as int) % 16)
  {
    hide Or, Place;
    if
    case k == 0 => PlaceGroup0(v, q);
    case k == 1 => PlaceGroup1(v, q);
    case k == 2 => PlaceGroup2(v, q);
    case k == 3 => PlaceGroup3(v, q);
    case k == 4 => PlaceGroup4(v, q);
  }

  function GroupOf(b: byte): bv7 { (b & 0x7F) as bv7 }

  function Number(b: byte): (n: nat)
    ensures n < 256
  {
    b as int
  }

  function WordNumber(w: bv32): nat { w as int }

  lemma GroupNumber(b: byte)
    ensures GroupOf(b) as int == (b as int) % 128
    ensures Payload(b) == GroupOf(b) as bv32
    ensures Continues(b) <==> b as int >= 128
  {
    hide Continues, Payload;
    PayloadNumber(b);
    PayloadField(b);
  }

  lemma PlaceNumber(b: byte, v: bv32, k: nat)
    requires k < 5 && WordNumber(v) < Weight(k)
    ensures var more, q := WordNumber(Or(v, Place(Payload(b), k))), Number(b) % 128;
            && (k < 4 ==> more == WordNumber(v) + Weight(k) * q)
            && (k == 4 ==> more == WordNumber(v) + 268435456 * (q % 16))
    ensures Continues(b) <==> Number(b) >= 128
  {
    hide Or, Place, Payload, Continues, GroupOf, Weight;
    GroupNumber(b);
    PlaceGroup(v, GroupOf(b), k);
  }

  /** One byte of a word, in numbers. */
  lemma GroupRead(b: byte, v: bv32, k: nat)
    requires k < 5 && WordNumber(v) < Weight(k)
    ensures var more := WordNumber(Or(v, Place(Payload(b), k)));
            && more == (WordNumber(v) + Weight(k) * (Number(b) % 128)) % 0x1_0000_0000
            && (k < 4 ==> more == WordNumber(v) + Weight(k) * (Number(b) % 128) < Weight(k + 1))
    ensures Continues(b) <==> Number(b) >= 128
  {
    hide Or, Place, Payload, Continues, Weight, Number, WordNumber;
    PlaceNumber(b, v, k);
    LastGroup(WordNumber(v), Number(b) % 128, k);
    if k < 4 {
      WeighGroups(WordNumber(v), Number(b) % 128, 0, k);
    }
  }

  lemma {:induction false} GroupsRead(bytes: seq<byte>, rest: seq<byte>, v: bv32, k: nat)
    requires k < 5 && WordNumber(v) < Weight(k) && 1 <= |bytes| <= 5 - k
    requires forall i :: 0 <= i < |bytes| - 1 ==> Number(bytes[i]) >= 128
    requires Number(bytes[|bytes| - 1]) < 128 || (rest == [] && k + |bytes| < 5)
    ensures ReadWord(bytes + rest, v, k).Word? && ReadWord(bytes + rest, v, k).rest == rest
    ensures WordNumber(ReadWord(bytes + rest, v, k).value)
         == (WordNumber(v) + Weight(k) * Leb(bytes)) % 0x1_0000_0000
    decreases |bytes|
  {
    hide Or, Place, Payload, Continues, ReadWord, Leb, Weight, Number, WordNumber;
    var src, tail := bytes + rest, bytes[1..];
    ReadWordUnfold(src, v, k);
    GroupRead(bytes[0], v, k);
    var more := Or(v, Place(Payload(bytes[0]), k));
    assert src[1..] == tail + rest && src[0] == bytes[0];
    LebStep(bytes);
    if |bytes| == 1 {
      assert tail == [] && tail + rest == rest;
      if Number(bytes[0]) >= 128 {
        ReadWordUnfold([], more, k + 1);
      }
    } else {
      assert tail[|tail| - 1] == bytes[|bytes| - 1];
      GroupsRead(tail, rest, more, k + 1);
      WeighGroups(WordNumber(v), Number(bytes[0]) % 128, Leb(tail), k);
    }
  }

  /** The value of groups from position k on, cut to 32 bits. */
  lemma GroupsMeaning(bytes: seq<byte>, rest: seq<byte>)
    requires 1 <= |bytes| <= 5
    requires forall i :: 0 <= i < |bytes| - 1 ==> bytes[i] as int >= 128
    requires bytes[|bytes| - 1] as int < 128 || (rest == [] && |bytes| < 5)
    ensures ReadWord(bytes + rest, 0, 0).Word? && ReadWord(bytes + rest, 0, 0).rest == rest
    ensures ReadWord(bytes + rest, 0, 0).value as int == Leb(bytes) % 0x1_0000_0000
  {
    hide ReadWord, Leb;
    GroupsRead(bytes, rest, 0, 0);
  }

  lemma LebStep(bytes: seq<byte>)
    requires bytes != []
    ensures Leb(bytes) == Number(bytes[0]) % 128 + 128 * Leb(bytes[1..])
    ensures Leb([]) == 0
  {
  }

  lemma LastGroup(v: nat, q: nat, k: nat)
    requires k < 5 && v < Weight(k) && q < 128
    ensures k < 4 ==> (v + Weight(k) * q) % 0x1_0000_0000 == v + Weight(k) * q
    ensures k == 4 ==> (v + Weight(k) * q) % 0x1_0000_0000 == v + 268435456 * (q % 16)
  {
    if k == 4 {
      assert q == 16 * (q / 16) + q % 16;
      assert v + 268435456 * q == (v + 268435456 * (q % 16)) + 0x1_0000_0000 * (q / 16);
    }
  }

  lemma WeighGroups(v: nat, q: nat, more: nat, k: nat)
    requires k < 4 && v < Weight(k) && q < 128
    ensures v + Weight(k) * q < Weight(k + 1)
    ensures (v + Weight(k) * q) + Weight(k + 1) * more == v + Weight(k) * (q + 128 * more)
  {
    if
    case k == 0 => case k == 1 => case k == 2 => case k == 3 =>
  }

  lemma LowFirstReversed(v: bv32)
    ensures LowFirst(v) == [BE32(v)[3], BE32(v)[2], BE32(v)[1], BE32(v)[0]]
  {
  }

  /** Four bytes spell a number, the first one lowest. */
  function LowFirstNumber(s: seq<byte>): nat
    requires |s| == 4
  {
    (s[0] as int) + 256 * (s[1] as int) + 0x1_0000 * (s[2] as int) + 0x100_0000 * (s[3] as int)
  }

  lemma LowFirstValue(v: bv32)
    ensures LowFirstNumber(LowFirst(v)) == v as int
  {
    hide LowFirst, BE32, ReadBE32;
    var b := BE32(v);
    LowFirstReversed(v);
    BE32RoundTrip(v, 0, 0, 0, 0);
    BE32Value(b[0], b[1], b[2], b[3]);
  }

  /** Up to five groups that end with a byte below 128 give four bytes of output, whatever follows. */
  lemma DecodeMeaning(bytes: seq<byte>, rest: seq<byte>)
    requires LebShape(bytes) && |bytes| <= 5
    ensures DecodeWords(rest) == None ==> DecodeWords(bytes + rest) == None
    ensures DecodeWords(rest).Some? ==>
              exists out: seq<byte> :: && |out| == 4
                                       && LowFirstNumber(out) == Leb(bytes) % 0x1_0000_0000
                                       && DecodeWords(bytes + rest) == Some(out + DecodeWords(rest).value)
  {
    hide ReadWord, LowFirst, Leb, LowFirstNumber;
    GroupsMeaning(bytes, rest);
    var w := ReadWord(bytes + rest, 0, 0);
    DecodeStep(bytes + rest);
    LowFirstValue(w.value);
  }

  lemma DecodeStep(src: seq<byte>)
    requires src != []
    ensures DecodeWords(src)
         == match ReadWord(src, 0, 0)
            case TooLong => None
            case Word(w, rest) =>
              match DecodeWords(rest)
              case None => None
              case Some(more) => Some(LowFirst(w) + more)
    ensures DecodeWords([]) == Some([])
  {
    hide ReadWord, LowFirst;
  }

  /** Input may end in the middle of a word: up to four groups that all ask for another still give four bytes. */
  lemma DecodeMidWord(bytes: seq<byte>)
    requires 1 <= |bytes| <= 4 && forall i :: 0 <= i < |bytes| ==> bytes[i] as int >= 128
    ensures exists out: seq<byte> :: && |out| == 4 && LowFirstNumber(out) == Leb(bytes) % 0x1_0000_0000
                                     && DecodeWords(bytes) == Some(out)
  {
    hide ReadWord, LowFirst, Leb, LowFirstNumber;
    GroupsMeaning(bytes, []);
    assert bytes + [] == bytes;
    var w := ReadWord(bytes, 0, 0);
    DecodeStep(bytes);
    LowFirstValue(w.value);
    assert LowFirst(w.value) + [] == LowFirst(w.value);
  }

  /** Five bytes in a row that ask for another group refuse the input. */
  lemma DecodeRefused(src: seq<byte>)
    requires |src| >= 5 && forall i :: 0 <= i < 5 ==> src[i] as int >= 128
    ensures DecodeWords(src) == None
  {
    hide ReadWord, LowFirst, Continues;
    forall i | 0 <= i < 5
      ensures Continues(src[i])
    {
      PayloadNumber(src[i]);
    }
    TooLongExactly(src, 0, 0);
    DecodeStep(src);
  }

  // ----- differences -----

  lemma WideSum(a: byte, b: byte)
    ensures ((a as bv9) + (b as bv9)) as int == a as int + b as int
  {
  }

  lemma LowOfNine(x: bv9)
    ensures ((x & 0xFF) as byte) as int == (x as int) % 256
  {
  }

  lemma PlusLow(a: byte, b: byte)
    ensures Plus(a, b) == ((((a as bv9) + (b as bv9)) & 0xFF) as byte)
  {
  }

  lemma PlusNumber(a: byte, b: byte)
    ensures Number(Plus(a, b)) == (Number(a) + Number(b)) % 256
  {
    hide Plus;
    WideSum(a, b);
    LowOfNine((a as bv9) + (b as bv9));
    PlusLow(a, b);
  }

  lemma MinusNumber(a: byte, b: byte)
    ensures Number(Minus(a, b)) == (Number(a) - Number(b)) % 256
  {
    hide Plus, Minus, Number;
    PlusMinus(b, a);
    PlusNumber(b, Minus(a, b));
    Difference(Number(a), Number(b), Number(Minus(a, b)));
  }

  lemma Difference(a: nat, b: nat, d: nat)
    requires a < 256 && b < 256 && d < 256 && a == (b + d) % 256
    ensures d == (a - b) % 256
  {
  }

  lemma {:induction false} DifferenceAt(base: byte, data: seq<byte>, k: nat)
    requires k < |data|
    ensures Differences(base, data)[k] as int
         == (data[k] as int - (if k == 0 then base else data[k - 1]) as int) % 256
    decreases |data|
  {
    hide Minus;
    MinusNumber(data[0], base);
    if k > 0 {
      DifferenceAt(data[0], data[1..], k - 1);
    }
  }

  /** A zero, the first byte as it is, and then every byte less the one before it, modulo 256. */
  lemma DeltaEncodeMeaning(data: seq<byte>)
    requires data != []
    ensures var e := Encoded(data);
            && |e| == |data| + 1 && e[0] == 0 && e[1] == data[0]
            && forall k :: 1 <= k < |data| ==> e[k + 1] as int == (data[k] as int - data[k - 1] as int) % 256
  {
    hide Differences;
    forall k | 1 <= k < |data|
      ensures Encoded(data)[k + 1] as int == (data[k] as int - data[k - 1] as int) % 256
    {
      DifferenceAt(data[0], data[1..], k - 1);
    }
  }

  lemma {:induction false} SumAt(base: byte, deltas: seq<byte>, k: nat)
    requires k < |deltas|
    ensures var sums := RunningSums(base, deltas);
            sums[k] as int == ((if k == 0 then base else sums[k - 1]) as int + deltas[k] as int) % 256
    decreases |deltas|
  {
    hide Plus;
    PlusNumber(base, deltas[0]);
    if k > 0 {
      SumAt(Plus(base, deltas[0]), deltas[1..], k - 1);
    }
  }

  /** From the second byte on, every byte is added to the sum so far, modulo 256; the first has no influence. */
  lemma DeltaDecodeMeaning(src: seq<byte>)
    ensures |src| < 2 ==> Decoded(src) == None
    ensures |src| >= 2 ==>
              && Decoded(src).Some?
              && var out := Decoded(src).value;
              && |out| == |src| - 2
              && forall k :: 0 <= k < |out| ==>
                               out[k] as int
                               == ((if k == 0 then src[1] else out[k - 1]) as int + src[k + 2] as int) % 256
  {
    hide RunningSums;
    if |src| >= 2 {
      forall k | 0 <= k < |src| - 2
        ensures var sums := RunningSums(src[1], src[2..]);
                sums[k] as int == ((if k == 0 then src[1] else sums[k - 1]) as int + src[k + 2] as int) % 256
      {
        SumAt(src[1], src[2..], k);
      }
    }
  }
}
