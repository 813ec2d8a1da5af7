/**
 * LZSS decompression. The reference reading of a compressed string is in two stages that
 * know nothing of windows: cut it into tokens, then expand them, a match copying from a
 * distance back in the output. The decoder interleaves the stages and keeps only the last
 * 4096 bytes in a ring.
 */
module Lzss {
  import opened Bytes

  const WINDOW_SIZE := 4096
  const MIN_MATCH := 3

  /** A literal byte, or a match with its two wire fields. */
  datatype Token = Literal(value: byte) | Match(offset: bv12, lengthCode: bv4)

  function OffsetValue(offset: bv12): (n: nat)
    ensures n < WINDOW_SIZE
    ensures n == 0 <==> offset == 0
  {
    offset as int
  }

  /** How far back a match reaches; offset zero means the whole window. */
  function Distance(offset: bv12): (d: nat)
    ensures 1 <= d <= WINDOW_SIZE
  {
    if OffsetValue(offset) == 0 then WINDOW_SIZE else OffsetValue(offset)
  }

  function Length(lengthCode: bv4): (n: nat)
    ensures MIN_MATCH <= n <= 18
  {
    lengthCode as int + MIN_MATCH
  }

  // ----- expanding tokens -----

  /** The byte d places back; before the start of the output lie zeros. */
  function Back(out: seq<byte>, d: nat): byte
    requires d >= 1
  {
    if d <= |out| then out[|out| - d] else 0
  }

  function CopyBack(out: seq<byte>, d: nat, n: nat): seq<byte>
    requires d >= 1
    decreases n
  {
    if n == 0 then out else CopyBack(out + [Back(out, d)], d, n - 1)
  }

  function Apply(out: seq<byte>, t: Token): seq<byte> {
    match t
    case Literal(b) => out + [b]
    case Match(offset, lengthCode) => CopyBack(out, Distance(offset), Length(lengthCode))
  }

  function Expand(out: seq<byte>, tokens: seq<Token>): seq<byte>
    decreases |tokens|
  {
    if tokens == [] then out else Expand(Apply(out, tokens[0]), tokens[1..])
  }

  /** The byte at j repeats the one d places before it; before the start lie zeros. */
  predicate RepeatsAt(r: seq<byte>, j: nat, d: nat)
    requires j < |r|
  {
    r[j] == if d <= j then r[j - d] else 0
  }

  ghost predicate Repeats(r: seq<byte>, from: nat, d: nat) {
    forall j :: from <= j < |r| ==> RepeatsAt(r, j, d)
  }

  lemma RepeatsOneEarlier(r: seq<byte>, out: seq<byte>, d: nat)
    requires d >= 1 && |out| < |r|
    requires r[..|out| + 1] == out + [Back(out, d)]
    ensures r[..|out|] == out && RepeatsAt(r, |out|, d)
  {
    var next := out + [Back(out, d)];
    assert forall j :: 0 <= j <= |out| ==> r[j] == r[..|out| + 1][j];
    assert r[..|out|] == next[..|out|];
  }

  /** A match keeps the output, adds n bytes, and makes them repeat at distance d, even where it overlaps itself. */
  lemma {:induction false} CopyBackRepeats(out: seq<byte>, d: nat, n: nat)
    requires d >= 1
    ensures |CopyBack(out, d, n)| == |out| + n
    ensures CopyBack(out, d, n)[..|out|] == out
    ensures Repeats(CopyBack(out, d, n), |out|, d)
    decreases n
  {
    hide Back, RepeatsAt;
    if n == 0 {
      assert out[..|out|] == out;
    } else {
      CopyBackRepeats(out + [Back(out, d)], d, n - 1);
      RepeatsOneEarlier(CopyBack(out, d, n), out, d);
    }
  }

  function TokenLength(t: Token): nat {
    match t
    case Literal(_) => 1
    case Match(_, lengthCode) => Length(lengthCode)
  }

  function TotalLength(tokens: seq<Token>): nat {
    if tokens == [] then 0 else TokenLength(tokens[0]) + TotalLength(tokens[1..])
  }

  lemma ApplyLength(out: seq<byte>, t: Token)
    ensures |Apply(out, t)| == |out| + TokenLength(t)
  {
    if t.Match? {
      CopyBackRepeats(out, Distance(t.offset), Length(t.lengthCode));
    }
  }

  lemma {:induction false} ExpandLength(out: seq<byte>, tokens: seq<Token>)
    ensures |Expand(out, tokens)| == |out| + TotalLength(tokens)
    decreases |tokens|
  {
    hide Apply, TokenLength;
    if tokens != [] {
      ApplyLength(out, tokens[0]);
      ExpandLength(Apply(out, tokens[0]), tokens[1..]);
    }
  }

  lemma {:induction false} ExpandConcat(out: seq<byte>, a: seq<Token>, b: seq<Token>)
    ensures Expand(out, a + b) == Expand(Expand(out, a), b)
    decreases |a|
  {
    hide Apply;
    if a == [] {
      assert a + b == b;
    } else {
      assert (a + b)[1..] == a[1..] + b;
      ExpandConcat(Apply(out, a[0]), a[1..], b);
    }
  }

  // ----- cutting the input into tokens -----

  function ReadMatch(hiAndLength: byte, lo: byte): (t: Token)
    ensures t.Match?
  {
    Match((((hiAndLength >> 4) & 0x0F) as bv12 << 8) | (lo as bv12), (hiAndLength & 0x0F) as bv4)
  }

  function Prepend(tokens: seq<Token>, rest: Option<seq<Token>>): Option<seq<Token>> {
    match rest
    case None => None
    case Some(more) => Some(tokens + more)
  }

  lemma PrependTwice(a: seq<Token>, b: seq<Token>, rest: Option<seq<Token>>)
    ensures Prepend(a, Prepend(b, rest)) == Prepend(a + b, rest)
  {
    if rest.Some? {
      assert a + (b + rest.value) == (a + b) + rest.value;
    }
  }

  /** Groups of a control byte and up to eight tokens, until the input is used up; None when a match is cut off. */
  function ReadGroups(src: seq<byte>): Option<seq<Token>>
    decreases |src|, 0
  {
    if src == [] then Some([]) else ReadGroup(src[0], 8, src[1..])
  }

  /** The last `left` tokens of a group, most significant control bit first, and the groups after it. */
  function ReadGroup(control: byte, left: nat, src: seq<byte>): Option<seq<Token>>
    requires left <= 8
    decreases |src|, 1
  {
    if left == 0 || src == [] then ReadGroups(src)
    else if ByteBit(control, 8 - left) then
      if |src| < 2 then None
      else Prepend([ReadMatch(src[0], src[1])], ReadGroup(control, left - 1, src[2..]))
    else Prepend([Literal(src[0])], ReadGroup(control, left - 1, src[1..]))
  }

  /** One token of a group. */
  lemma ReadStep(control: byte, left: nat, src: seq<byte>)
    requires left <= 8
    ensures ReadGroup(control, left, src)
         == if left == 0 || src == [] then ReadGroups(src)
            else if ByteBit(control, 8 - left) then
              if |src| < 2 then None
              else Prepend([ReadMatch(src[0], src[1])], ReadGroup(control, left - 1, src[2..]))
            else Prepend([Literal(src[0])], ReadGroup(control, left - 1, src[1..]))
  {
    hide ByteBit, ReadMatch;
  }

  lemma ReadGroupsStep(src: seq<byte>)
    ensures ReadGroups(src) == if src == [] then Some([]) else ReadGroup(src[0], 8, src[1..])
  {
    hide ReadGroup;
  }

  /** What a compressed string stands for within a capacity. */
  function Decoded(src: seq<byte>, capacity: nat): Option<seq<byte>> {
    match ReadGroups(src)
    case None => None
    case Some(tokens) => if |Expand([], tokens)| <= capacity then Some(Expand([], tokens)) else None
  }

  // ----- the expansion bound -----

  lemma {:induction false} GroupsBound(src: seq<byte>)
    ensures ReadGroups(src).Some? ==> 17 * TotalLength(ReadGroups(src).value) <= 144 * |src|
    decreases |src|, 0
  {
    hide ByteBit, ReadMatch, TokenLength;
    if src != [] {
      GroupBound(src[0], 8, src[1..]);
    }
  }

  lemma {:induction false} GroupBound(control: byte, left: nat, src: seq<byte>)
    requires left <= 8
    ensures ReadGroup(control, left, src).Some?
        ==> 17 * TotalLength(ReadGroup(control, left, src).value) <= 144 * |src| + 18 * left
    decreases |src|, 1
  {
    hide ByteBit, ReadMatch, Length;
    if left == 0 || src == [] {
      GroupsBound(src);
    } else {
      var used := if ByteBit(control, 8 - left) then 2 else 1;
      if used <= |src| {
        var rest := ReadGroup(control, left - 1, src[used..]);
        GroupBound(control, left - 1, src[used..]);
        if rest.Some? {
          var tokens := ReadGroup(control, left, src).value;
          assert tokens[1..] == rest.value;
          assert TotalLength(tokens) == TokenLength(tokens[0]) + TotalLength(rest.value);
        }
      }
    }
  }

  /** Seventeen input bytes never produce more than a hundred and forty-four output bytes. */
  lemma ExpansionBound(src: seq<byte>, capacity: nat)
    ensures Decoded(src, capacity).Some? ==> 17 * |Decoded(src, capacity).value| <= 144 * |src|
  {
    hide ReadGroups, Expand;
    if Decoded(src, capacity).Some? {
      GroupsBound(src);
      ExpandLength([], ReadGroups(src).value);
    }
  }

  // ----- printing tokens -----

  function WriteToken(t: Token): seq<byte> {
    match t
    case Literal(b) => [b]
    case Match(offset, lengthCode) =>
      [((((offset >> 8) & 0x0F) as byte) << 4) | (lengthCode as byte), (offset & 0xFF) as byte]
  }

  function WriteTokens(tokens: seq<Token>): seq<byte> {
    if tokens == [] then [] else WriteToken(tokens[0]) + WriteTokens(tokens[1..])
  }

  function ControlBits(tokens: seq<Token>): (bits: seq<bool>)
    ensures |bits| == 8
  {
    seq(8, i => 0 <= i < |tokens| && tokens[i].Match?)
  }

  /** Control bytes and tokens, eight to a group; the last group may be short. */
  function Serialize(tokens: seq<Token>): seq<byte>
    decreases |tokens|
  {
    if tokens == [] then []
    else
      var n := if |tokens| < 8 then |tokens| else 8;
      [MakeByte(ControlBits(tokens[..n]))] + WriteTokens(tokens[..n]) + Serialize(tokens[n..])
  }

  lemma ReadWrittenMatch(offset: bv12, lengthCode: bv4)
    ensures var w := WriteToken(Match(offset, lengthCode));
            ReadMatch(w[0], w[1]) == Match(offset, lengthCode)
  {
  }

  /** The last `left` control bits of a group name the kinds of the tokens. */
  ghost predicate Controls(control: byte, left: nat, tokens: seq<Token>)
    requires |tokens| <= left <= 8
  {
    forall i :: 0 <= i < |tokens| ==> ByteBit(control, 8 - left + i) == tokens[i].Match?
  }

  lemma ControlsRest(control: byte, left: nat, tokens: seq<Token>)
    requires 0 < |tokens| <= left <= 8 && Controls(control, left, tokens)
    ensures ByteBit(control, 8 - left) == tokens[0].Match?
    ensures Controls(control, left - 1, tokens[1..])
  {
    hide ByteBit;
    assert ByteBit(control, 8 - left + 0) == tokens[0].Match?;
    forall i | 0 <= i < |tokens| - 1
      ensures ByteBit(control, 8 - (left - 1) + i) == tokens[1..][i].Match?
    {
      assert ByteBit(control, 8 - left + (i + 1)) == tokens[i + 1].Match?;
    }
  }

  /** Printed tokens are read back one by one, whatever follows them. */
  lemma {:induction false} ReadWritten(control: byte, left: nat, tokens: seq<Token>, rest: seq<byte>)
    requires |tokens| <= left <= 8 && Controls(control, left, tokens)
    ensures ReadGroup(control, left, WriteTokens(tokens) + rest)
         == Prepend(tokens, ReadGroup(control, left - |tokens|, rest))
    decreases |tokens|
  {
    hide ByteBit, Controls, ReadMatch, ReadGroup, ReadGroups;
    var src := WriteTokens(tokens) + rest;
    var after := ReadGroup(control, left - |tokens|, rest);
    if tokens == [] {
      assert src == rest;
      assert after.Some? ==> [] + after.value == after.value;
    } else {
      var t := tokens[0];
      var tail := WriteTokens(tokens[1..]) + rest;
      ReadStep(control, left, src);
      ControlsRest(control, left, tokens);
      assert src == WriteToken(t) + tail;
      if t.Match? {
        ReadWrittenMatch(t.offset, t.lengthCode);
        assert src[2..] == tail;
      } else {
        assert src[1..] == tail;
      }
      ReadWritten(control, left - 1, tokens[1..], rest);
      PrependTwice([t], tokens[1..], after);
      assert [t] + tokens[1..] == tokens;
    }
  }

  lemma ReadWrittenGroup(control: byte, left: nat, tokens: seq<Token>, rest: seq<byte>)
    requires |tokens| <= left <= 8 && Controls(control, left, tokens)
    requires |tokens| == left || rest == []
    ensures ReadGroup(control, left, WriteTokens(tokens) + rest) == Prepend(tokens, ReadGroups(rest))
  {
    hide ByteBit, Controls, ReadGroup, ReadGroups;
    ReadWritten(control, left, tokens, rest);
    ReadStep(control, left - |tokens|, rest);
  }

  /** Cutting undoes printing, for every list of tokens. */
  lemma {:induction false} ReadSerialized(tokens: seq<Token>)
    ensures ReadGroups(Serialize(tokens)) == Some(tokens)
    decreases |tokens|
  {
    hide ByteBit, MakeByte, Controls, ReadGroup, WriteTokens, ControlBits, ByteBits;
    if tokens != [] {
      var n := if |tokens| < 8 then |tokens| else 8;
      var group, rest := tokens[..n], Serialize(tokens[n..]);
      var control := MakeByte(ControlBits(group));
      ControlOfGroup(group);
      ReadWrittenGroup(control, 8, group, rest);
      var src := Serialize(tokens);
      assert src == [control] + (WriteTokens(group) + rest);
      assert src[1..] == WriteTokens(group) + rest;
      ReadSerialized(tokens[n..]);
      assert group + tokens[n..] == tokens;
    }
  }

  lemma ControlOfGroup(group: seq<Token>)
    requires |group| <= 8
    ensures Controls(MakeByte(ControlBits(group)), 8, group)
  {
    hide ByteBit, MakeByte, ByteBits;
    MakeByteBits(ControlBits(group));
    var control := MakeByte(ControlBits(group));
    assert forall i :: 0 <= i < 8 ==> ByteBits(control)[i] == ControlBits(group)[i];
  }

  /** Decoding a printed token list gives its expansion when that fits, and fails otherwise. */
  lemma SerializeThenDecode(tokens: seq<Token>, capacity: nat)
    ensures Decoded(Serialize(tokens), capacity)
         == if |Expand([], tokens)| <= capacity then Some(Expand([], tokens)) else None
  {
    hide Serialize, Expand;
    ReadSerialized(tokens);
  }

  function Literals(data: seq<byte>): (tokens: seq<Token>)
    ensures |tokens| == |data|
  {
    seq(|data|, i requires 0 <= i < |data| => Literal(data[i]))
  }

  lemma {:induction false} ExpandLiterals(out: seq<byte>, data: seq<byte>)
    ensures Expand(out, Literals(data)) == out + data
    decreases |data|
  {
    if data != [] {
      assert Literals(data)[1..] == Literals(data[1..]);
      ExpandLiterals(out + [data[0]], data[1..]);
    }
  }

  /** An encoder that emits only literals is undone on every byte string. */
  lemma LiteralRoundTrip(data: seq<byte>, capacity: nat)
    requires |data| <= capacity
    ensures Decoded(Serialize(Literals(data)), capacity) == Some(data)
  {
    hide Serialize, Expand;
    SerializeThenDecode(Literals(data), capacity);
    ExpandLiterals([], data);
    assert [] + data == data;
  }

  // ----- inputs that are cut short -----

  lemma WriteReadMatch(hiAndLength: byte, lo: byte)
    ensures WriteToken(ReadMatch(hiAndLength, lo)) == [hiAndLength, lo]
  {
  }

  /** What a group reads, taken apart: its own tokens as printed, and the groups after it. */
  lemma {:induction false} ReadSplits(control: byte, left: nat, src: seq<byte>)
    returns (group: seq<Token>, rest: seq<byte>)
    requires left <= 8 && ReadGroup(control, left, src).Some?
    ensures |group| <= left && Controls(control, left, group)
    ensures |group| == left || rest == []
    ensures src == WriteTokens(group) + rest
    ensures ReadGroups(rest).Some? && ReadGroup(control, left, src).value == group + ReadGroups(rest).value
    decreases |src|
  {
    hide ByteBit, ReadMatch, WriteToken, ReadGroup, ReadGroups, Controls;
    ReadStep(control, left, src);
    if left == 0 || src == [] {
      group, rest := [], src;
      NothingControlled(control, left);
    } else {
      var used := if ByteBit(control, 8 - left) then 2 else 1;
      var t := if used == 2 then ReadMatch(src[0], src[1]) else Literal(src[0]);
      var more;
      more, rest := ReadSplits(control, left - 1, src[used..]);
      group := [t] + more;
      ControlsFirst(control, left, t, more);
      TokenBytes(src, used);
      assert group[1..] == more;
      assert WriteTokens(group) == WriteToken(t) + WriteTokens(more);
      assert src == src[..used] + src[used..];
      assert [t] + (more + ReadGroups(rest).value) == group + ReadGroups(rest).value;
    }
  }

  lemma TokenBytes(src: seq<byte>, used: nat)
    requires 1 <= used <= 2 && used <= |src|
    ensures WriteToken(if used == 2 then ReadMatch(src[0], src[1]) else Literal(src[0])) == src[..used]
  {
    hide ReadMatch;
    if used == 2 {
      WriteReadMatch(src[0], src[1]);
      assert src[..2] == [src[0], src[1]];
    }
  }

  lemma NothingControlled(control: byte, left: nat)
    requires left <= 8
    ensures Controls(control, left, [])
  {
  }

  lemma ControlsFirst(control: byte, left: nat, t: Token, more: seq<Token>)
    requires |more| < left <= 8 && Controls(control, left - 1, more)
    requires ByteBit(control, 8 - left) == t.Match?
    ensures Controls(control, left, [t] + more)
  {
    hide ByteBit;
    var tokens := [t] + more;
    forall i | 0 <= i < |tokens|
      ensures ByteBit(control, 8 - left + i) == tokens[i].Match?
    {
      if i > 0 {
        assert ByteBit(control, 8 - (left - 1) + (i - 1)) == more[i - 1].Match?;
      }
    }
  }

  lemma ControlsPrefix(control: byte, left: nat, tokens: seq<Token>, m: nat)
    requires |tokens| <= left <= 8 && Controls(control, left, tokens) && m <= |tokens|
    ensures Controls(control, left, tokens[..m])
  {
    hide ByteBit;
  }

  lemma ControlsAt(control: byte, left: nat, tokens: seq<Token>, m: nat)
    requires |tokens| <= left <= 8 && Controls(control, left, tokens) && m < |tokens|
    ensures ByteBit(control, 8 - left + m) == tokens[m].Match?
  {
    hide ByteBit;
  }

  /** Where the printed form of the first k tokens ends: also where token k - 1 ends in the printed form of them all. */
  function End(tokens: seq<Token>, k: nat): nat
    requires k <= |tokens|
  {
    |Serialize(tokens[..k])|
  }

  /** Of the tokens, exactly the first m end within n bytes. */
  predicate EndsWithin(tokens: seq<Token>, n: nat, m: nat) {
    m <= |tokens| && End(tokens, m) <= n && (m < |tokens| ==> n < End(tokens, m + 1))
  }

  /** How many of the tokens end within n bytes. */
  function EndedBy(tokens: seq<Token>, n: nat): (m: nat)
    ensures EndsWithin(tokens, n, m)
    decreases |tokens|
  {
    assert tokens[..|tokens|] == tokens;
    if End(tokens, |tokens|) <= n then |tokens|
    else
      var shorter := tokens[..|tokens| - 1];
      assert forall k :: 0 <= k <= |shorter| ==> shorter[..k] == tokens[..k];
      EndedBy(shorter, n)
  }

  /** Token m is a match, and n bytes end between its two. */
  predicate BetweenBytes(tokens: seq<Token>, n: nat, m: nat) {
    m < |tokens| && tokens[m].Match? && n + 1 == End(tokens, m + 1)
  }

  ghost predicate CutsMatch(tokens: seq<Token>, n: nat) {
    exists k: nat :: BetweenBytes(tokens, n, k)
  }

  lemma {:induction false} WriteConcat(a: seq<Token>, b: seq<Token>)
    ensures WriteTokens(a + b) == WriteTokens(a) + WriteTokens(b)
    decreases |a|
  {
    hide WriteToken;
    if a == [] {
      assert a + b == b;
    } else {
      assert (a + b)[1..] == a[1..] + b;
      WriteConcat(a[1..], b);
    }
  }

  lemma WriteOne(t: Token)
    ensures WriteTokens([t]) == WriteToken(t)
  {
    hide WriteToken;
    assert [t][1..] == [];
  }

  lemma WritePrefix(tokens: seq<Token>, k: nat)
    requires k <= |tokens|
    ensures WriteTokens(tokens[..k]) <= WriteTokens(tokens)
  {
    hide WriteTokens;
    assert tokens == tokens[..k] + tokens[k..];
    WriteConcat(tokens[..k], tokens[k..]);
  }

  lemma WriteAppend(tokens: seq<Token>, t: Token)
    ensures WriteTokens(tokens + [t]) == WriteTokens(tokens) + WriteToken(t)
  {
    hide WriteTokens, WriteToken;
    WriteConcat(tokens, [t]);
    WriteOne(t);
  }

  lemma TakeOneMore(tokens: seq<Token>, m: nat)
    requires m < |tokens|
    ensures tokens[..m + 1] == tokens[..m] + [tokens[m]]
  {
  }

  lemma WriteOneMore(tokens: seq<Token>, m: nat)
    requires m < |tokens|
    ensures WriteTokens(tokens[..m + 1]) == WriteTokens(tokens[..m]) + WriteToken(tokens[m])
  {
    hide *;
    TakeOneMore(tokens, m);
    WriteAppend(tokens[..m], tokens[m]);
  }

  lemma PrefixBytes(all: seq<byte>, a: seq<byte>, b: seq<byte>, n: nat)
    requires a + b <= all && |a| <= n <= |a| + |b|
    ensures n <= |all| && all[..n] == a + b[..n - |a|]
  {
    assert all[..n] == (a + b)[..n];
  }

  /** A prefix of a group that ends within it, with m tokens whole. */
  lemma CutGroup(control: byte, left: nat, tokens: seq<Token>, n: nat, m: nat)
    requires |tokens| <= left <= 8 && Controls(control, left, tokens) && m < |tokens|
    requires |WriteTokens(tokens[..m])| <= n < |WriteTokens(tokens[..m + 1])|
    ensures n <= |WriteTokens(tokens)|
    ensures ReadGroup(control, left, WriteTokens(tokens)[..n])
         == if n == |WriteTokens(tokens[..m])| then Some(tokens[..m]) else None
    ensures n > |WriteTokens(tokens[..m])| <==> tokens[m].Match? && n + 1 == |WriteTokens(tokens[..m + 1])|
  {
    hide ByteBit, Controls, ReadMatch, ReadGroup, ReadGroups, WriteTokens;
    ReadGroupsStep([]);
    WriteOneMore(tokens, m);
    WritePrefix(tokens, m + 1);
    var whole := WriteTokens(tokens[..m]);
    var after := WriteToken(tokens[m])[..n - |whole|];
    PrefixBytes(WriteTokens(tokens), whole, WriteToken(tokens[m]), n);
    ControlsPrefix(control, left, tokens, m);
    ControlsAt(control, left, tokens, m);
    ReadWritten(control, left, tokens[..m], after);
    ReadStep(control, left - m, after);
    assert tokens[..m] + [] == tokens[..m];
  }

  lemma SerializeStep(tokens: seq<Token>)
    ensures var n := if |tokens| < 8 then |tokens| else 8;
            |Serialize(tokens)|
            == if tokens == [] then 0 else 1 + |WriteTokens(tokens[..n])| + |Serialize(tokens[n..])|
  {
    hide WriteTokens, MakeByte, ControlBits;
  }

  /** Where tokens end, group by group. */
  lemma EndInGroup(tokens: seq<Token>, k: nat)
    requires k <= |tokens|
    ensures k == 0 ==> End(tokens, k) == 0
    ensures 0 < k <= 8 ==> End(tokens, k) == 1 + |WriteTokens(tokens[..k])|
    ensures k > 8 ==> End(tokens, k) == 1 + |WriteTokens(tokens[..8])| + End(tokens[8..], k - 8)
  {
    hide Serialize, WriteTokens, MakeByte, ControlBits;
    SerializeStep([]);
    SerializeStep(tokens[..k]);
    if 0 < k <= 8 {
      assert tokens[..k][..k] == tokens[..k] && tokens[..k][k..] == [];
    } else if k > 8 {
      assert tokens[..k][..8] == tokens[..8] && tokens[..k][8..] == tokens[8..][..k - 8];
    }
  }

  lemma EndInsideGroup(tokens: seq<Token>, group: seq<Token>, later: seq<Token>, k: nat)
    requires tokens == group + later && |group| <= 8 && 0 < k <= |group|
    ensures tokens[..k] == group[..k]
    ensures End(tokens, k) == 1 + |WriteTokens(group[..k])| <= 1 + |WriteTokens(group)|
  {
    hide End, WriteTokens;
    EndInGroup(tokens, k);
    assert tokens[..k] == group[..k];
    WritePrefix(group, k);
  }

  lemma EndPastGroup(tokens: seq<Token>, group: seq<Token>, later: seq<Token>, k: nat)
    requires tokens == group + later && 0 < |group| <= 8 && (|group| == 8 || later == [])
    requires |group| <= k <= |tokens|
    ensures End(tokens, k) == 1 + |WriteTokens(group)| + End(later, k - |group|)
  {
    hide End, WriteTokens;
    EndInGroup(tokens, k);
    EndInGroup(later, 0);
    if k == |group| {
      assert tokens[..k] == group;
    } else {
      assert tokens[..8] == group && tokens[8..] == later;
    }
  }

  /** In terms of the first group and what follows it: which tokens end within n bytes, and whether one is cut. */
  lemma EndsBeyond(tokens: seq<Token>, group: seq<Token>, later: seq<Token>, n: nat, m: nat)
    requires tokens == group + later && |group| <= 8 && (|group| == 8 || later == [])
    requires EndsWithin(tokens, n, m) && n >= 1 + |WriteTokens(group)|
    ensures |group| <= m
    ensures var rest := n - 1 - |WriteTokens(group)|;
            && EndsWithin(later, rest, m - |group|)
            && (BetweenBytes(tokens, n, m) <==> BetweenBytes(later, rest, m - |group|))
  {
    hide End, WriteTokens;
    if m < |group| {
      EndInsideGroup(tokens, group, later, m + 1);
    } else if |group| == 0 {
      EndInGroup(later, 0);
    } else {
      EndPastGroup(tokens, group, later, m);
      if m < |tokens| {
        EndPastGroup(tokens, group, later, m + 1);
        assert tokens[m] == later[m - |group|];
      }
    }
  }

  lemma EndsInside(tokens: seq<Token>, group: seq<Token>, later: seq<Token>, n: nat, m: nat)
    requires tokens == group + later && |group| <= 8 && (|group| == 8 || later == [])
    requires EndsWithin(tokens, n, m) && 1 <= n < 1 + |WriteTokens(group)|
    ensures m < |group| && tokens[..m] == group[..m]
    ensures |WriteTokens(group[..m])| <= n - 1 < |WriteTokens(group[..m + 1])|
    ensures BetweenBytes(tokens, n, m) <==> group[m].Match? && n == |WriteTokens(group[..m + 1])|
  {
    hide End, WriteTokens;
    WriteNothing();
    if m >= |group| {
      EndPastGroup(tokens, group, later, m);
    } else {
      EndInsideGroup(tokens, group, later, m + 1);
      if m > 0 {
        EndInsideGroup(tokens, group, later, m);
      } else {
        assert group[..0] == [];
      }
    }
  }

  lemma WriteNothing()
    ensures WriteTokens([]) == []
  {
  }

  /**
   * Cutting a readable input short: what is left reads as the tokens that are whole, unless
   * the cut falls between the two bytes of a match, and only then it is refused.
   */
  lemma {:induction false} CutShort(src: seq<byte>, n: nat, m: nat)
    requires ReadGroups(src).Some? && n <= |src|
    requires EndsWithin(ReadGroups(src).value, n, m)
    ensures var tokens := ReadGroups(src).value;
            ReadGroups(src[..n]) == if BetweenBytes(tokens, n, m) then None else Some(tokens[..m])
    decreases |src|
  {
    hide ByteBit, Controls, ReadMatch, ReadGroup, ReadGroups, WriteTokens, End, Prepend;
    var tokens := ReadGroups(src).value;
    ReadGroupsStep([]);
    if n == 0 {
      CutToNothing(tokens, m);
      assert src[..0] == [];
    } else {
      ReadGroupsStep(src);
      var group, rest := ReadSplits(src[0], 8, src[1..]);
      var later, cut := ReadGroups(rest).value, src[..n];
      assert tokens == group + later;
      ReadGroupsStep(cut);
      assert cut[0] == src[0] && cut[1..] == src[1..][..n - 1];
      if n - 1 < |WriteTokens(group)| {
        EndsInside(tokens, group, later, n, m);
        CutGroup(src[0], 8, group, n - 1, m);
        assert src[1..][..n - 1] == WriteTokens(group)[..n - 1];
      } else {
        var left := n - 1 - |WriteTokens(group)|;
        EndsBeyond(tokens, group, later, n, m);
        assert src[1..][..n - 1] == WriteTokens(group) + rest[..left];
        ReadWrittenGroup(src[0], 8, group, rest[..left]);
        CutShort(rest, left, m - |group|);
        PrependPrefix(group, later, m);
      }
    }
  }

  lemma PrependPrefix(group: seq<Token>, later: seq<Token>, m: nat)
    requires |group| <= m <= |group| + |later|
    ensures Prepend(group, Some(later[..m - |group|])) == Some((group + later)[..m])
    ensures Prepend(group, None) == None
  {
    assert group + later[..m - |group|] == (group + later)[..m];
  }

  lemma CutToNothing(tokens: seq<Token>, m: nat)
    requires EndsWithin(tokens, 0, m)
    ensures m == 0 && tokens[..m] == [] && !BetweenBytes(tokens, 0, m)
  {
    hide End, WriteTokens;
    EndInGroup(tokens, m);
    if m < |tokens| {
      EndInGroup(tokens, m + 1);
      if m == 0 {
        WriteOneMore(tokens, 0);
      }
    }
  }

  /** One token on, its bytes are added, and a control byte before every eighth one. */
  lemma {:induction false} EndStep(tokens: seq<Token>, k: nat)
    requires k < |tokens|
    ensures End(tokens, k + 1) == End(tokens, k) + |WriteToken(tokens[k])| + (if k % 8 == 0 then 1 else 0)
    decreases k
  {
    hide End, WriteTokens, WriteToken;
    EndInGroup(tokens, k);
    EndInGroup(tokens, k + 1);
    if k < 8 {
      WriteOneMore(tokens, k);
      WriteNothing();
      assert tokens[..0] == [];
    } else {
      EndStep(tokens[8..], k - 8);
      EndInGroup(tokens[8..], 0);
      assert tokens[8..][k - 8] == tokens[k];
    }
  }

  /**
   * Every printed token list, cut anywhere: the input is refused if and only if the cut falls
   * between the two bytes of a match or the whole tokens do not fit; otherwise it gives the
   * expansion of the tokens that end before the cut.
   */
  lemma TruncatedExactly(tokens: seq<Token>, n: nat, capacity: nat)
    requires n <= |Serialize(tokens)|
    ensures var src, whole := Serialize(tokens)[..n], tokens[..EndedBy(tokens, n)];
            && ReadGroups(src) == (if CutsMatch(tokens, n) then None else Some(whole))
            && Decoded(src, capacity)
            == if CutsMatch(tokens, n) || |Expand([], whole)| > capacity then None else Some(Expand([], whole))
  {
    hide ReadGroups, Serialize, Expand, End, EndedBy;
    var m := EndedBy(tokens, n);
    ReadSerialized(tokens);
    CutShort(Serialize(tokens), n, m);
    forall k: nat | BetweenBytes(tokens, n, k)
      ensures ReadGroups(Serialize(tokens)[..n]) == None
    {
      EndStep(tokens, k);
      CutShort(Serialize(tokens), n, k);
    }
  }

  /** Any refused input reads well with one byte less, and with any one byte more. */
  lemma {:induction false} RefusedByOneByte(src: seq<byte>, b: byte)
    requires ReadGroups(src) == None
    ensures src != [] && ReadGroups(src[..|src| - 1]).Some? && ReadGroups(src + [b]).Some?
    decreases |src|, 0
  {
    hide ReadGroup, ReadGroups;
    ReadGroupsStep([]);
    ReadGroupsStep(src);
    GroupRefused(src[0], 8, src[1..], b);
    ReadGroupsStep(src[..|src| - 1]);
    ReadGroupsStep(src + [b]);
    assert src[..|src| - 1][1..] == src[1..][..|src| - 2];
    assert (src + [b])[1..] == src[1..] + [b];
  }

  lemma {:induction false} GroupRefused(control: byte, left: nat, src: seq<byte>, b: byte)
    requires left <= 8 && ReadGroup(control, left, src) == None
    ensures src != [] && ReadGroup(control, left, src[..|src| - 1]).Some? && ReadGroup(control, left, src + [b]).Some?
    decreases |src|, 1
  {
    hide ByteBit, ReadMatch, ReadGroup, ReadGroups;
    ReadGroupsStep([]);
    ReadStep(control, left, src);
    var shorter, longer := src[..|src| - 1], src + [b];
    ReadStep(control, left, shorter);
    ReadStep(control, left, longer);
    if left == 0 {
      RefusedByOneByte(src, b);
    } else {
      var used := if ByteBit(control, 8 - left) then 2 else 1;
      if |src| < used {
        ReadStep(control, left - 1, []);
        assert longer[2..] == [];
      } else {
        GroupRefused(control, left - 1, src[used..], b);
        assert shorter[used..] == src[used..][..|src| - used - 1];
        assert longer[used..] == src[used..] + [b];
      }
    }
  }

  /** A group that runs out of input ends the string: its remaining control bits are not looked at. */
  lemma ShortGroupAccepted(control: byte, b: byte, capacity: nat)
    requires capacity >= 1 && !ByteBit(control, 0)
    ensures Decoded([control, b], capacity) == Some([b])
  {
    hide Expand, ReadGroup, ReadGroups, ByteBit;
    assert [control, b][1..] == [b] && [b][1..] == [];
    ReadGroupsStep([control, b]);
    ReadStep(control, 8, [b]);
    ReadStep(control, 7, []);
    ReadGroupsStep([]);
    assert [Literal(b)] + [] == [Literal(b)];
    ExpandLiterals([], [b]);
    assert [] + [b] == [b];
    assert Literals([b]) == [Literal(b)];
  }

  // ----- the bytes themselves -----

  /** Literals in groups of eight, each behind a control byte of zero; for whole groups only. */
  function LiteralGroups(data: seq<byte>): seq<byte>
    decreases |data|
  {
    if |data| < 8 then [] else [0] + data[..8] + LiteralGroups(data[8..])
  }

  lemma {:induction false} WriteLiterals(data: seq<byte>)
    ensures WriteTokens(Literals(data)) == data
    decreases |data|
  {
    if data != [] {
      assert Literals(data)[1..] == Literals(data[1..]);
      WriteLiterals(data[1..]);
    }
  }

  lemma ZeroControl()
    ensures forall i :: 0 <= i < 8 ==> !ByteBit(0, i)
  {
  }

  lemma LiteralControls(data: seq<byte>)
    requires |data| <= 8
    ensures Controls(0, 8, Literals(data))
  {
    hide ByteBit;
    ZeroControl();
  }

  lemma LiteralsSplit(data: seq<byte>, n: nat)
    requires n <= |data|
    ensures Literals(data[..n]) + Literals(data[n..]) == Literals(data)
  {
  }

  /** Groups of literals are read as what they hold, and what follows starts with a control byte. */
  lemma {:induction false} ReadLiteralGroups(data: seq<byte>, rest: seq<byte>)
    ensures ReadGroups(LiteralGroups(data) + rest)
         == Prepend(Literals(data[..|data| / 8 * 8]), ReadGroups(rest))
    decreases |data|
  {
    hide ByteBit, Controls, ReadGroup, ReadGroups, WriteTokens, Literals;
    var whole := data[..|data| / 8 * 8];
    if |data| < 8 {
      assert whole == [] && [] + rest == rest;
      NothingFirst(ReadGroups(rest));
    } else {
      var later := LiteralGroups(data[8..]) + rest;
      var src := LiteralGroups(data) + rest;
      var group := Literals(data[..8]);
      assert src == [0] + (data[..8] + later);
      ReadGroupsStep(src);
      assert src[0] == 0 && src[1..] == data[..8] + later;
      LiteralControls(data[..8]);
      WriteLiterals(data[..8]);
      ReadWrittenGroup(0, 8, group, later);
      ReadLiteralGroups(data[8..], rest);
      WholeGroups(data);
      PrependTwice(group, Literals(data[8..][..|data[8..]| / 8 * 8]), ReadGroups(rest));
      LiteralsSplit(whole, 8);
    }
  }

  lemma NothingFirst(rest: Option<seq<Token>>)
    ensures Prepend(Literals([]), rest) == rest
  {
    if rest.Some? {
      assert Literals([]) + rest.value == rest.value;
    }
  }

  lemma WholeGroups(data: seq<byte>)
    requires |data| >= 8
    ensures var whole := data[..|data| / 8 * 8];
            |whole| >= 8 && whole[..8] == data[..8] && whole[8..] == data[8..][..|data[8..]| / 8 * 8]
  {
  }

  /** The control byte of a group whose match comes after r literals. */
  lemma MatchControl(r: nat, i: nat)
    requires r < 8 && i <= r
    ensures ByteBit((0x80 as byte) >> r, i) <==> i == r
  {
    if
    case r == 0 => case r == 1 => case r == 2 => case r == 3 =>
    case r == 4 => case r == 5 => case r == 6 => case r == 7 =>
  }

  lemma MatchGroup(data: seq<byte>, hi: byte, lo: byte)
    requires |data| < 8
    ensures ReadGroups([(0x80 as byte) >> |data|] + data + [hi, lo]) == Some(Literals(data) + [ReadMatch(hi, lo)])
  {
    hide ByteBit, Controls, ReadGroup, ReadGroups, WriteTokens, Literals, ReadMatch;
    var control := (0x80 as byte) >> |data|;
    var src := [control] + data + [hi, lo];
    ReadGroupsStep(src);
    assert src[0] == control && src[1..] == data + [hi, lo];
    MatchControls(data, ReadMatch(hi, lo));
    WriteLiterals(data);
    WriteAppend(Literals(data), ReadMatch(hi, lo));
    WriteReadMatch(hi, lo);
    assert data + [hi, lo] == (data + [hi, lo]) + [];
    ReadWrittenGroup(control, 8, Literals(data) + [ReadMatch(hi, lo)], []);
    ReadGroupsStep([]);
    assert Literals(data) + [ReadMatch(hi, lo)] + [] == Literals(data) + [ReadMatch(hi, lo)];
  }

  lemma MatchControls(data: seq<byte>, t: Token)
    requires |data| < 8 && t.Match?
    ensures Controls((0x80 as byte) >> |data|, 8, Literals(data) + [t])
  {
    hide ByteBit;
    forall i | 0 <= i <= |data|
      ensures ByteBit((0x80 as byte) >> |data|, 8 - 8 + i) == (Literals(data) + [t])[i].Match?
    {
      MatchControl(|data|, i);
    }
  }

  lemma JoinOffset(hi: byte, lo: byte)
    ensures ((((hi >> 4) & 0x0F) as bv12 << 8) | (lo as bv12)) as int == 256 * ((hi as int) / 16) + (lo as int)
  {
  }

  lemma LowNibble(hi: byte)
    ensures ((hi & 0x0F) as bv4) as int == (hi as int) % 16
  {
  }

  lemma MatchLength(hi: byte, lo: byte)
    ensures Length(ReadMatch(hi, lo).lengthCode) == (hi as int) % 16 + 3
  {
    hide ReadMatch, Length;
    FieldsOfMatch(hi, lo);
    LowNibble(hi);
    LengthValue((hi & 0x0F) as bv4);
  }

  lemma MatchOffset(hi: byte, lo: byte)
    ensures OffsetValue(ReadMatch(hi, lo).offset) == 256 * ((hi as int) / 16) + (lo as int)
  {
    hide ReadMatch, OffsetValue;
    FieldsOfMatch(hi, lo);
    JoinOffset(hi, lo);
    OffsetNumber((((hi >> 4) & 0x0F) as bv12 << 8) | (lo as bv12));
  }

  /** The two bytes of a match as numbers: four bits of length, and twelve of offset, high ones first. */
  lemma MatchFields(hi: byte, lo: byte)
    ensures var t, offset := ReadMatch(hi, lo), 256 * ((hi as int) / 16) + (lo as int);
            && Length(t.lengthCode) == (hi as int) % 16 + 3
            && Distance(t.offset) == if offset == 0 then 4096 else offset
  {
    hide ReadMatch, OffsetValue, Length;
    MatchLength(hi, lo);
    MatchOffset(hi, lo);
  }

  lemma FieldsOfMatch(hi: byte, lo: byte)
    ensures ReadMatch(hi, lo)
         == Match((((hi >> 4) & 0x0F) as bv12 << 8) | (lo as bv12), (hi & 0x0F) as bv4)
  {
  }

  lemma LengthValue(code: bv4)
    ensures Length(code) == code as int + 3
  {
  }

  lemma OffsetNumber(offset: bv12)
    ensures OffsetValue(offset) == offset as int
  {
  }

  /**
   * What the bytes say: any literals, in groups of eight behind control bytes, and after them
   * one match of two bytes. The match adds hi % 16 + 3 bytes, and each of them repeats the one
   * 256 * (hi / 16) + lo places before it, or 4096 places when that is zero, zeros lying
   * before the start. With less room than that the decoder refuses.
   */
  lemma MatchMeaning(data: seq<byte>, hi: byte, lo: byte, capacity: nat)
    ensures var r := |data| % 8;
            var src := LiteralGroups(data) + ([(0x80 as byte) >> r] + data[|data| - r..] + [hi, lo]);
            var length, offset := (hi as int) % 16 + 3, 256 * ((hi as int) / 16) + (lo as int);
            var d := if offset == 0 then 4096 else offset;
            if |data| + length > capacity then Decoded(src, capacity) == None
            else
              && Decoded(src, capacity).Some?
              && var out := Decoded(src, capacity).value;
              && |out| == |data| + length
              && out[..|data|] == data
              && (forall j :: |data| <= j < |out| && j < d ==> out[j] == 0)
              && (forall j :: |data| <= j < |out| && d <= j ==> out[j] == out[j - d])
  {
    hide ByteBit, ReadGroups, ReadMatch, LiteralGroups, Literals, Expand, CopyBack, Distance, Length;
    var r, t := |data| % 8, ReadMatch(hi, lo);
    var tail := data[|data| - r..];
    var last := [(0x80 as byte) >> r] + tail + [hi, lo];
    ReadLiteralGroups(data, last);
    MatchGroup(tail, hi, lo);
    LiteralsSplit(data, |data| / 8 * 8);
    assert |data| - r == |data| / 8 * 8;
    var tokens := Literals(data) + [t];
    assert Literals(data[..|data| / 8 * 8]) + (Literals(tail) + [t]) == tokens;
    ExpandMatch(data, t);
    MatchFields(hi, lo);
    MatchRepeats(data, Distance(t.offset), Length(t.lengthCode));
  }

  lemma ExpandMatch(data: seq<byte>, t: Token)
    requires t.Match?
    ensures Expand([], Literals(data) + [t]) == CopyBack(data, Distance(t.offset), Length(t.lengthCode))
  {
    hide Literals, CopyBack, Distance, Length;
    ExpandConcat([], Literals(data), [t]);
    ExpandLiterals([], data);
    assert [] + data == data && [t][1..] == [];
  }

  lemma MatchRepeats(data: seq<byte>, d: nat, n: nat)
    requires d >= 1
    ensures var out := CopyBack(data, d, n);
            && |out| == |data| + n && out[..|data|] == data
            && (forall j :: |data| <= j < |out| && j < d ==> out[j] == 0)
            && (forall j :: |data| <= j < |out| && d <= j ==> out[j] == out[j - d])
  {
    hide CopyBack;
    CopyBackRepeats(data, d, n);
    var out := CopyBack(data, d, n);
    forall j | |data| <= j < |out|
      ensures j < d ==> out[j] == 0
      ensures d <= j ==> out[j] == out[j - d]
    {
      assert RepeatsAt(out, j, d);
    }
  }

  // ----- the ring -----

  function RingIndex(rp: nat, k: nat): (index: nat)
    requires rp < WINDOW_SIZE && k <= WINDOW_SIZE
    ensures index < WINDOW_SIZE
  {
    (rp - k + WINDOW_SIZE) % WINDOW_SIZE
  }

  /** The slot k places behind the cursor holds the byte k places back in the output. */
  ghost predicate RingHolds(ring: seq<byte>, rp: nat, out: seq<byte>) {
    && |ring| == WINDOW_SIZE
    && rp == |out| % WINDOW_SIZE
    && forall k :: 1 <= k <= WINDOW_SIZE ==> ring[RingIndex(rp, k)] == Back(out, k)
  }

  lemma RingIndexStep(rp: nat, k: nat)
    requires rp < WINDOW_SIZE && 1 <= k <= WINDOW_SIZE
    ensures RingIndex((rp + 1) % WINDOW_SIZE, k) == if k == 1 then rp else RingIndex(rp, k - 1)
    ensures 1 < k ==> RingIndex(rp, k - 1) != rp
  {
  }

  /** Writing a byte at the cursor and stepping it keeps the ring in step with the output. */
  lemma RingStep(ring: seq<byte>, rp: nat, out: seq<byte>, b: byte)
    requires RingHolds(ring, rp, out)
    ensures rp < |ring|
    ensures RingHolds(ring[rp := b], (rp + 1) % WINDOW_SIZE, out + [b])
  {
    hide RingIndex;
    var next := (rp + 1) % WINDOW_SIZE;
    forall k | 1 <= k <= WINDOW_SIZE
      ensures ring[rp := b][RingIndex(next, k)] == Back(out + [b], k)
    {
      RingIndexStep(rp, k);
    }
    CursorStep(|out|);
  }

  lemma CursorStep(n: nat)
    ensures (n + 1) % WINDOW_SIZE == (n % WINDOW_SIZE + 1) % WINDOW_SIZE
  {
  }

  // ----- the decoder -----

  method TestControl(control: byte, bit: nat) returns (isMatch: bool)
    requires bit < 8
    ensures isMatch == ByteBit(control, 7 - bit)
  {
    isMatch := control & ((1 as byte) << bit) != 0;
    if
    case bit == 0 => case bit == 1 => case bit == 2 => case bit == 3 =>
    case bit == 4 => case bit == 5 => case bit == 6 => case bit == 7 =>
  }

  /** Writes one byte to the output and to the ring and steps both cursors. */
  method Emit(dest: array<byte>, ring: array<byte>, dp: nat, rp: nat, b: byte) returns (dp': nat, rp': nat)
    requires dest != ring && dp < dest.Length
    requires RingHolds(ring[..], rp, dest[..dp])
    modifies dest, ring
    ensures dp' == dp + 1
    ensures dest[..dp'] == old(dest[..dp]) + [b]
    ensures forall j :: dp' <= j < dest.Length ==> dest[j] == old(dest[j])
    ensures RingHolds(ring[..], rp', dest[..dp'])
  {
    hide RingHolds;
    RingStep(ring[..], rp, dest[..dp], b);
    ghost var slots := ring[..];
    dest[dp] := b;
    ring[rp] := b;
    dp', rp' := dp + 1, (rp + 1) % WINDOW_SIZE;
    assert dest[..dp'] == old(dest[..dp]) + [b];
    assert ring[..] == slots[rp := b];
  }

  /** Copies a match byte by byte through the ring. */
  method CopyMatch(dest: array<byte>, ring: array<byte>, dp0: nat, rp0: nat, offset: bv12, lengthCode: bv4)
    returns (dp: nat, rp: nat)
    requires dest != ring && dp0 + Length(lengthCode) <= dest.Length
    requires RingHolds(ring[..], rp0, dest[..dp0])
    modifies dest, ring
    ensures dp == dp0 + Length(lengthCode)
    ensures dest[..dp] == Apply(old(dest[..dp0]), Match(offset, lengthCode))
    ensures forall j :: dp <= j < dest.Length ==> dest[j] == old(dest[j])
    ensures RingHolds(ring[..], rp, dest[..dp])
  {
    hide RingHolds, RingIndex, Back, CopyBack, OffsetValue, Length;
    var matchOffset, matchLength := OffsetValue(offset), Length(lengthCode);
    ghost var d, start := Distance(offset), dest[..dp0];
    dp, rp := dp0, rp0;
    for i := 0 to matchLength
      invariant dp == dp0 + i
      invariant forall j :: dp <= j < dest.Length ==> dest[j] == old(dest[j])
      invariant CopyBack(dest[..dp], d, matchLength - i) == CopyBack(start, d, matchLength)
      invariant RingHolds(ring[..], rp, dest[..dp])
    {
      RingRead(ring[..], rp, dest[..dp], offset);
      var readIndex := (rp - matchOffset + WINDOW_SIZE) % WINDOW_SIZE;
      var b := ring[readIndex];
      ghost var written := dest[..dp];
      dp, rp := Emit(dest, ring, dp, rp, b);
      CopyBackStep(written, d, matchLength - i);
    }
    CopyBackStep(dest[..dp], d, 0);
  }

  lemma CopyBackStep(out: seq<byte>, d: nat, n: nat)
    requires d >= 1
    ensures CopyBack(out, d, n) == if n == 0 then out else CopyBack(out + [Back(out, d)], d, n - 1)
  {
  }

  /** The slot a match reads holds the byte its distance back. */
  lemma RingRead(ring: seq<byte>, rp: nat, out: seq<byte>, offset: bv12)
    requires RingHolds(ring, rp, out)
    ensures var index := (rp - OffsetValue(offset) + WINDOW_SIZE) % WINDOW_SIZE;
            && rp < WINDOW_SIZE
            && 0 <= index < |ring|
            && ring[index] == Back(out, Distance(offset))
  {
    var k := Distance(offset);
    assert ring[RingIndex(rp, k)] == Back(out, k);
    SameSlot(rp, offset);
  }

  lemma SameSlot(rp: nat, offset: bv12)
    requires rp < WINDOW_SIZE
    ensures (rp - OffsetValue(offset) + WINDOW_SIZE) % WINDOW_SIZE == RingIndex(rp, Distance(offset))
  {
    hide OffsetValue;
  }

  lemma EmptyRing(ring: seq<byte>)
    requires |ring| == WINDOW_SIZE && forall i :: 0 <= i < WINDOW_SIZE ==> ring[i] == 0
    ensures RingHolds(ring, 0, [])
  {
  }

  /** The tokens read so far explain the output so far, and `rest` is what the rest of the input holds. */
  ghost predicate Progress(src: seq<byte>, done: seq<Token>, rest: Option<seq<Token>>, out: seq<byte>) {
    ReadGroups(src) == Prepend(done, rest) && out == Expand([], done)
  }

  lemma ProgressStart(src: seq<byte>)
    ensures Progress(src, [], ReadGroups(src), [])
  {
    hide ReadGroups;
    if ReadGroups(src).Some? {
      assert [] + ReadGroups(src).value == ReadGroups(src).value;
    }
  }

  lemma ProgressToken(src: seq<byte>, done: seq<Token>, t: Token, more: Option<seq<Token>>, out: seq<byte>)
    requires Progress(src, done, Prepend([t], more), out)
    ensures Progress(src, done + [t], more, Apply(out, t))
    ensures t.Literal? ==> Apply(out, t) == out + [t.value]
  {
    hide ReadGroups;
    PrependTwice(done, [t], more);
    ExpandConcat([], done, [t]);
    assert [t][1..] == [];
  }

  /** Once a token overflows the capacity, the whole input does. */
  lemma TooLong(src: seq<byte>, done: seq<Token>, t: Token, more: Option<seq<Token>>, out: seq<byte>, capacity: nat)
    requires Progress(src, done, Prepend([t], more), out)
    requires |out| + (if t.Match? then Length(t.lengthCode) else 1) > capacity
    ensures Decoded(src, capacity) == None
  {
    hide ReadGroups, Expand, Apply;
    ProgressToken(src, done, t, more, out);
    ApplyLength(out, t);
    if more.Some? {
      ExpandConcat([], done + [t], more.value);
      ExpandLength(Expand([], done + [t]), more.value);
    }
  }

  lemma CutOff(src: seq<byte>, done: seq<Token>, out: seq<byte>, capacity: nat)
    requires Progress(src, done, None, out)
    ensures Decoded(src, capacity) == None
  {
    hide ReadGroups;
  }

  lemma Finish(src: seq<byte>, done: seq<Token>, out: seq<byte>, capacity: nat)
    requires Progress(src, done, ReadGroups([]), out) && |out| <= capacity
    ensures Decoded(src, capacity) == Some(out)
  {
    hide Expand;
    assert done + [] == done;
  }

  /** The decoder; `prior` is the caller's length variable, which only success overwrites. */
  method DecompressLZSS(src: seq<byte>, dest: array<byte>, maxDestLen: nat, prior: nat)
    returns (ok: bool, outLen: nat)
    requires maxDestLen <= dest.Length
    modifies dest
    ensures ok ==> outLen <= maxDestLen && Decoded(src, maxDestLen) == Some(dest[..outLen])
    ensures ok ==> forall j :: outLen <= j < dest.Length ==> dest[j] == old(dest[j])
    ensures !ok ==> Decoded(src, maxDestLen) == None && outLen == prior
    ensures forall j :: maxDestLen <= j < dest.Length ==> dest[j] == old(dest[j])
  {
    hide Progress, Apply, ReadGroup, ReadGroups, Prepend, Decoded, RingHolds, ByteBit, ReadMatch, Length;
    var sp: nat, dp: nat := 0, 0;
    var ring := new byte[WINDOW_SIZE](_ => 0);
    var rp := 0;
    ghost var done: seq<Token> := [];
    EmptyRing(ring[..]);
    ProgressStart(src);
    assert src[0..] == src && dest[..0] == [];
    while sp < |src|
      invariant sp <= |src| && dp <= maxDestLen
      invariant Progress(src, done, ReadGroups(src[sp..]), dest[..dp])
      invariant forall j :: dp <= j < dest.Length ==> dest[j] == old(dest[j])
      invariant RingHolds(ring[..], rp, dest[..dp])
      decreases |src| - sp
    {
      ReadGroupsStep(src[sp..]);
      var control := src[sp];
      sp := sp + 1;
      var bit := 7;
      while bit >= 0 && sp < |src|
        invariant -1 <= bit <= 7 && sp <= |src| && dp <= maxDestLen
        invariant Progress(src, done, ReadGroup(control, bit + 1, src[sp..]), dest[..dp])
        invariant forall j :: dp <= j < dest.Length ==> dest[j] == old(dest[j])
        invariant RingHolds(ring[..], rp, dest[..dp])
        decreases |src| - sp
      {
        ghost var rest, out := src[sp..], dest[..dp];
        ReadStep(control, bit + 1, rest);
        var isMatch := TestControl(control, bit);
        if isMatch {
          if sp + 2 > |src| {
            CutOff(src, done, out, maxDestLen);
            return false, prior;
          }
          var t := ReadMatch(src[sp], src[sp + 1]);
          sp := sp + 2;
          ghost var more := ReadGroup(control, bit, src[sp..]);
          assert rest[2..] == src[sp..];
          if dp + Length(t.lengthCode) > maxDestLen {
            TooLong(src, done, t, more, out, maxDestLen);
            return false, prior;
          }
          ProgressToken(src, done, t, more, out);
          dp, rp := CopyMatch(dest, ring, dp, rp, t.offset, t.lengthCode);
          done := done + [t];
        } else {
          var b := src[sp];
          sp := sp + 1;
          ghost var more := ReadGroup(control, bit, src[sp..]);
          assert rest[1..] == src[sp..];
          if dp >= maxDestLen {
            TooLong(src, done, Literal(b), more, out, maxDestLen);
            return false, prior;
          }
          ProgressToken(src, done, Literal(b), more, out);
          dp, rp := Emit(dest, ring, dp, rp, b);
          done := done + [Literal(b)];
        }
        bit := bit - 1;
      }
      ReadStep(control, bit + 1, src[sp..]);
    }
    assert src[sp..] == [];
    Finish(src, done, dest[..dp], maxDestLen);
    return true, dp;
  }
}
