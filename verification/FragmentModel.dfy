/** Fragment reassembly as a state machine, and the message every cooperative run assembles. */
module FragmentModel {
  import opened Bytes

  const MAX_FRAGMENT_PAYLOAD := 1024
  const MAX_FRAGMENTS_PER_MSG := 64

  /** A stored fragment; its handle stands for the address it was allocated at. */
  datatype Fragment = Fragment(
    handle: nat, msgId: uint32, fragmentId: uint16, total: uint16, offset: uint16, data: seq<byte>)

  /** A retransmit request; the pointer is cleared when the message is discarded. */
  datatype Ack = Ack(msgId: uint32, fragmentId: uint16, pointer: Option<Fragment>)

  type Fragments = map<int, Fragment>
  type Table = map<int, Fragments>

  datatype State = State(table: Table, acks: seq<Ack>, nextHandle: nat)

  const EMPTY := State(map[], [], 0)

  // ----- the operations -----

  predicate Admissible(fragmentId: uint16, total: uint16, data: seq<byte>) {
    |data| <= MAX_FRAGMENT_PAYLOAD && fragmentId < MAX_FRAGMENTS_PER_MSG && total <= MAX_FRAGMENTS_PER_MSG
  }

  function MessageOf(table: Table, msgId: uint32): Fragments {
    if msgId in table then table[msgId] else map[]
  }

  /** Stores a fragment, in place of an earlier one with the same identifiers. */
  function Push(s: State, msgId: uint32, fragmentId: uint16, total: uint16, offset: uint16, data: seq<byte>): State {
    if !Admissible(fragmentId, total, data) then s
    else
      var f := Fragment(s.nextHandle, msgId, fragmentId, total, offset, data);
      State(s.table[msgId := MessageOf(s.table, msgId)[fragmentId := f]], s.acks, s.nextHandle + 1)
  }

  predicate Holds(table: Table, msgId: uint32, fragmentId: uint16) {
    msgId in table && fragmentId in table[msgId]
  }

  function Request(s: State, msgId: uint32, fragmentId: uint16): State {
    if !Holds(s.table, msgId, fragmentId) then s
    else s.(acks := s.acks + [Ack(msgId, fragmentId, Some(s.table[msgId][fragmentId]))])
  }

  /** A request is entered if and only if the fragment is held; an empty reassembler refuses every request. */
  lemma RequestRefusedIff(s: State, msgId: uint32, fragmentId: uint16)
    ensures |Request(s, msgId, fragmentId).acks| == |s.acks| <==> !Holds(s.table, msgId, fragmentId)
    ensures Request(EMPTY, msgId, fragmentId) == EMPTY
  {
  }

  predicate IsFor(a: Ack, msgId: uint32, fragmentId: uint16) {
    a.msgId == msgId && a.fragmentId == fragmentId
  }

  /** The position of the oldest request for a key, counted from `n` on; the length when there is none. */
  function OldestFor(acks: seq<Ack>, msgId: uint32, fragmentId: uint16, n: nat): (i: nat)
    requires n <= |acks|
    ensures n <= i <= |acks|
    ensures i < |acks| ==> IsFor(acks[i], msgId, fragmentId)
    ensures forall k :: n <= k < i ==> !IsFor(acks[k], msgId, fragmentId)
    decreases |acks| - n
  {
    if n == |acks| || IsFor(acks[n], msgId, fragmentId) then n
    else OldestFor(acks, msgId, fragmentId, n + 1)
  }

  /** Stores again what a request points to, unless its pointer was cleared or it is empty. */
  function Resend(s: State, a: Ack): State {
    match a.pointer
    case None => s
    case Some(f) => if |f.data| > 0 then Push(s, f.msgId, f.fragmentId, f.total, f.offset, f.data) else s
  }

  function Process(s: State, msgId: uint32, fragmentId: uint16): State {
    var i := OldestFor(s.acks, msgId, fragmentId, 0);
    if i == |s.acks| then s
    else Resend(s, s.acks[i]).(acks := s.acks[..i] + s.acks[i + 1..])
  }

  predicate PointsTo(a: Ack, handle: nat) {
    a.pointer.Some? && a.pointer.value.handle == handle
  }

  /** Clears the first pointer to a fragment, from position `n` on. */
  function Cleared(acks: seq<Ack>, handle: nat, n: nat): (r: seq<Ack>)
    requires n <= |acks|
    ensures |r| == |acks|
    decreases |acks| - n
  {
    if n == |acks| then acks
    else if PointsTo(acks[n], handle) then acks[n := acks[n].(pointer := None)]
    else Cleared(acks, handle, n + 1)
  }

  /** Clears pointers to the fragments of a message, in the order of their identifiers from `id` on. */
  function ClearedAll(acks: seq<Ack>, fragments: Fragments, id: nat): (r: seq<Ack>)
    ensures |r| == |acks|
    decreases MAX_FRAGMENTS_PER_MSG - id
  {
    if id >= MAX_FRAGMENTS_PER_MSG then acks
    else ClearedAll(if id in fragments then Cleared(acks, fragments[id].handle, 0) else acks, fragments, id + 1)
  }

  function Discard(s: State, msgId: uint32): State {
    if msgId !in s.table then s
    else s.(table := s.table - {msgId}, acks := ClearedAll(s.acks, s.table[msgId], 0))
  }

  /** The smallest identifier held, from `id` on. */
  function Smallest(fragments: Fragments, id: nat): (r: nat)
    requires id <= MAX_FRAGMENTS_PER_MSG
    ensures id <= r <= MAX_FRAGMENTS_PER_MSG
    ensures r < MAX_FRAGMENTS_PER_MSG ==> r in fragments
    ensures forall k :: id <= k < r ==> k !in fragments
    decreases MAX_FRAGMENTS_PER_MSG - id
  {
    if id == MAX_FRAGMENTS_PER_MSG || id in fragments then id else Smallest(fragments, id + 1)
  }

  ghost predicate Bounded(fragments: Fragments) {
    forall id :: id in fragments ==> 0 <= id < MAX_FRAGMENTS_PER_MSG
  }

  /** How many fragments the first one held announces. */
  function Announced(fragments: Fragments): uint16
    requires Smallest(fragments, 0) < MAX_FRAGMENTS_PER_MSG
  {
    fragments[Smallest(fragments, 0)].total
  }

  predicate Complete(fragments: Fragments) {
    && Smallest(fragments, 0) < MAX_FRAGMENTS_PER_MSG
    && forall i :: 0 <= i < Announced(fragments) ==> i in fragments
  }

  /** The data held with identifiers from `id` up to `end`, in their order. */
  function Joined(fragments: Fragments, id: nat, end: nat): seq<byte>
    requires end <= MAX_FRAGMENTS_PER_MSG
    decreases end - id
  {
    if id >= end then []
    else (if id in fragments then fragments[id].data else []) + Joined(fragments, id + 1, end)
  }

  function Assemble(table: Table, msgId: uint32): Option<seq<byte>> {
    if msgId in table && Complete(table[msgId])
    then Some(Joined(table[msgId], 0, MAX_FRAGMENTS_PER_MSG))
    else None
  }

  // ----- runs -----

  datatype Op =
    | OpPush(msgId: uint32, fragmentId: uint16, total: uint16, offset: uint16, data: seq<byte>)
    | OpRequest(msgId: uint32, fragmentId: uint16)
    | OpProcess(msgId: uint32, fragmentId: uint16)
    | OpDiscard(msgId: uint32)

  function Step(s: State, op: Op): State {
    match op
    case OpPush(msgId, fragmentId, total, offset, data) => Push(s, msgId, fragmentId, total, offset, data)
    case OpRequest(msgId, fragmentId) => Request(s, msgId, fragmentId)
    case OpProcess(msgId, fragmentId) => Process(s, msgId, fragmentId)
    case OpDiscard(msgId) => Discard(s, msgId)
  }

  function Run(s: State, ops: seq<Op>): State
    decreases |ops|
  {
    if ops == [] then s else Run(Step(s, ops[0]), ops[1..])
  }

  // ----- assembly -----

  function Concat(chunks: seq<seq<byte>>): seq<byte> {
    if chunks == [] then [] else chunks[0] + Concat(chunks[1..])
  }

  ghost predicate ValidChunks(chunks: seq<seq<byte>>) {
    && 1 <= |chunks| <= MAX_FRAGMENTS_PER_MSG
    && forall i :: 0 <= i < |chunks| ==> |chunks[i]| <= MAX_FRAGMENT_PAYLOAD
  }

  /**
   * An operation that plays along with the delivery of a message in chunks: a push of one of
   * its chunks, a retransmit request, or anything on another message. Processing a request is
   * left out altogether, since it reads memory that may have been freed.
   */
  predicate Cooperates(op: Op, msgId: uint32, chunks: seq<seq<byte>>) {
    match op
    case OpPush(m, i, total, _, data) => m == msgId ==> i < |chunks| && total == |chunks| && data == chunks[i]
    case OpRequest(_, _) => true
    case OpProcess(_, _) => false
    case OpDiscard(m) => m != msgId
  }

  /** The identifiers of the chunks of a message that a run delivers. */
  function Arrived(ops: seq<Op>, msgId: uint32): set<int> {
    if ops == [] then {}
    else (if ops[0].OpPush? && ops[0].msgId == msgId then {ops[0].fragmentId} else {}) + Arrived(ops[1..], msgId)
  }

  /** Exactly the given chunks are held. */
  ghost predicate HoldsChunks(fragments: Fragments, chunks: seq<seq<byte>>, ids: set<int>) {
    && fragments.Keys == ids
    && forall i :: i in fragments ==>
                     0 <= i < |chunks| && fragments[i].total == |chunks| && fragments[i].data == chunks[i]
  }

  lemma ChunkStep(s: State, op: Op, msgId: uint32, chunks: seq<seq<byte>>, ids: set<int>)
    requires ValidChunks(chunks) && Cooperates(op, msgId, chunks)
    requires HoldsChunks(MessageOf(s.table, msgId), chunks, ids)
    ensures HoldsChunks(MessageOf(Step(s, op).table, msgId), chunks, ids + Arrived([op], msgId))
  {
    assert [op][1..] == [];
    assert ids + {} == ids;
  }

  lemma {:induction false} ChunkRun(s: State, ops: seq<Op>, msgId: uint32, chunks: seq<seq<byte>>, ids: set<int>)
    requires ValidChunks(chunks) && forall i :: 0 <= i < |ops| ==> Cooperates(ops[i], msgId, chunks)
    requires HoldsChunks(MessageOf(s.table, msgId), chunks, ids)
    ensures HoldsChunks(MessageOf(Run(s, ops).table, msgId), chunks, ids + Arrived(ops, msgId))
    decreases |ops|
  {
    hide Step, HoldsChunks, Cooperates, MessageOf;
    if ops == [] {
      assert ids + {} == ids;
    } else {
      ChunkStep(s, ops[0], msgId, chunks, ids);
      assert [ops[0]][1..] == [];
      ChunkRun(Step(s, ops[0]), ops[1..], msgId, chunks, ids + Arrived([ops[0]], msgId));
      assert ids + Arrived([ops[0]], msgId) + Arrived(ops[1..], msgId) == ids + Arrived(ops, msgId);
    }
  }

  lemma {:induction false} JoinedChunks(fragments: Fragments, chunks: seq<seq<byte>>, ids: set<int>, id: nat)
    requires HoldsChunks(fragments, chunks, ids) && |chunks| <= MAX_FRAGMENTS_PER_MSG
    requires forall i :: 0 <= i < |chunks| ==> i in fragments
    requires id <= MAX_FRAGMENTS_PER_MSG
    ensures Joined(fragments, id, MAX_FRAGMENTS_PER_MSG) == Concat(chunks[if id < |chunks| then id else |chunks|..])
    decreases MAX_FRAGMENTS_PER_MSG - id
  {
    if id < MAX_FRAGMENTS_PER_MSG {
      JoinedChunks(fragments, chunks, ids, id + 1);
      if id < |chunks| {
        assert chunks[id..][1..] == chunks[id + 1..];
      }
    }
  }

  /**
   * Delivering a message in chunks, in any order, with any repeats and with anything happening
   * to other messages in between, assembles to nothing until every chunk has arrived, and from
   * then on to exactly their concatenation.
   */
  lemma {:induction false} AssembleExactly(s: State, ops: seq<Op>, msgId: uint32, chunks: seq<seq<byte>>)
    requires msgId !in s.table && ValidChunks(chunks)
    requires forall i :: 0 <= i < |ops| ==> Cooperates(ops[i], msgId, chunks)
    ensures Assemble(Run(s, ops).table, msgId)
         == if forall i :: 0 <= i < |chunks| ==> i in Arrived(ops, msgId) then Some(Concat(chunks)) else None
  {
    hide Run, Arrived, Cooperates;
    var ids, table := Arrived(ops, msgId), Run(s, ops).table;
    ChunkRun(s, ops, msgId, chunks, {});
    assert {} + ids == ids;
    AssembleHeld(table, msgId, chunks, ids);
  }

  lemma AssembleHeld(table: Table, msgId: uint32, chunks: seq<seq<byte>>, ids: set<int>)
    requires ValidChunks(chunks) && HoldsChunks(MessageOf(table, msgId), chunks, ids)
    ensures Assemble(table, msgId) == if forall i :: 0 <= i < |chunks| ==> i in ids then Some(Concat(chunks)) else None
  {
    hide Concat, Joined;
    var fragments := MessageOf(table, msgId);
    if forall i :: 0 <= i < |chunks| ==> i in ids {
      assert 0 in fragments;
      JoinedChunks(fragments, chunks, ids, 0);
      assert chunks[0..] == chunks;
    }
  }

  /** Discarding a message forgets it alone: nothing assembles for it, and every other message is as before. */
  lemma DiscardForgetsOne(s: State, msgId: uint32, other: uint32)
    ensures Assemble(Discard(s, msgId).table, msgId) == None
    ensures other != msgId ==> Assemble(Discard(s, msgId).table, other) == Assemble(s.table, other)
    ensures |Discard(s, msgId).acks| == |s.acks|
  {
    hide Complete, Joined, ClearedAll;
  }

  // ----- fragments beyond the announced number -----

  lemma {:induction false} JoinedSplit(fragments: Fragments, id: nat, mid: nat)
    requires id <= mid <= MAX_FRAGMENTS_PER_MSG
    ensures Joined(fragments, id, MAX_FRAGMENTS_PER_MSG)
         == Joined(fragments, id, mid) + Joined(fragments, mid, MAX_FRAGMENTS_PER_MSG)
    decreases mid - id
  {
    if id < mid {
      JoinedSplit(fragments, id + 1, mid);
    }
  }

  lemma {:induction false} JoinedEmpty(fragments: Fragments, id: nat)
    requires id <= MAX_FRAGMENTS_PER_MSG
    ensures Joined(fragments, id, MAX_FRAGMENTS_PER_MSG) == []
       <==> forall k :: id <= k < MAX_FRAGMENTS_PER_MSG && k in fragments ==> fragments[k].data == []
    decreases MAX_FRAGMENTS_PER_MSG - id
  {
    if id < MAX_FRAGMENTS_PER_MSG {
      JoinedEmpty(fragments, id + 1);
    }
  }

  /** An assembled message is the announced fragments alone exactly when every further one held is empty. */
  lemma AssembleAnnouncedIff(fragments: Fragments)
    requires Complete(fragments) && Announced(fragments) <= MAX_FRAGMENTS_PER_MSG
    ensures var n := Announced(fragments);
            Joined(fragments, 0, MAX_FRAGMENTS_PER_MSG) == Joined(fragments, 0, n)
            <==> forall k :: n <= k < MAX_FRAGMENTS_PER_MSG && k in fragments ==> fragments[k].data == []
  {
    hide Joined;
    var n := Announced(fragments);
    JoinedSplit(fragments, 0, n);
    JoinedEmpty(fragments, n);
    var a, b := Joined(fragments, 0, n), Joined(fragments, n, MAX_FRAGMENTS_PER_MSG);
    assert a + b == a <==> b == [] by {
      if a + b == a { assert |a + b| == |a| + |b|; }
    }
  }

  /** It can be more: a fragment numbered past the single one announced ends up in the message. */
  lemma ExtraFragmentAssembled(msgId: uint32, a: seq<byte>, b: seq<byte>)
    requires |a| <= MAX_FRAGMENT_PAYLOAD && 0 < |b| <= MAX_FRAGMENT_PAYLOAD
    ensures var table := Run(EMPTY, [OpPush(msgId, 0, 1, 0, a), OpPush(msgId, 1, 1, 0, b)]).table;
            && msgId in table && Complete(table[msgId]) && Announced(table[msgId]) == 1
            && Assemble(table, msgId) == Some(a + b)
            && a + b != Joined(table[msgId], 0, 1)
  {
    hide Run, Step, Joined;
    var first, second := OpPush(msgId, 0, 1, 0, a), OpPush(msgId, 1, 1, 0, b);
    TwoPushed(msgId, a, b);
    RunTwo(EMPTY, first, second);
    JoinedTwo(Step(Step(EMPTY, first), second).table[msgId], a, b);
  }

  lemma RunTwo(s: State, first: Op, second: Op)
    ensures Run(s, [first, second]) == Step(Step(s, first), second)
  {
    hide Step;
    assert [first, second][1..] == [second] && [second][1..] == [];
    var s1 := Step(s, first);
    assert Run(s1, [second]) == Run(Step(s1, second), []);
  }

  lemma TwoPushed(msgId: uint32, a: seq<byte>, b: seq<byte>)
    requires |a| <= MAX_FRAGMENT_PAYLOAD && |b| <= MAX_FRAGMENT_PAYLOAD
    ensures var table := Step(Step(EMPTY, OpPush(msgId, 0, 1, 0, a)), OpPush(msgId, 1, 1, 0, b)).table;
            && msgId in table && table[msgId].Keys == {0, 1}
            && table[msgId][0].total == 1 && table[msgId][0].data == a && table[msgId][1].data == b
  {
  }

  lemma JoinedTwo(fragments: Fragments, a: seq<byte>, b: seq<byte>)
    requires fragments.Keys == {0, 1} && fragments[0].data == a && fragments[1].data == b
    requires fragments[0].total == 1
    ensures Complete(fragments) && Announced(fragments) == 1
    ensures Joined(fragments, 0, MAX_FRAGMENTS_PER_MSG) == a + b && Joined(fragments, 0, 1) == a
  {
    hide Joined;
    assert 0 in fragments && 1 in fragments;
    JoinedFirst(fragments, 0, MAX_FRAGMENTS_PER_MSG);
    JoinedFirst(fragments, 1, MAX_FRAGMENTS_PER_MSG);
    JoinedEmpty(fragments, 2);
    JoinedFirst(fragments, 0, 1);
    JoinedFirst(fragments, 1, 1);
    assert b + [] == b && a + [] == a;
  }

  lemma JoinedFirst(fragments: Fragments, id: nat, end: nat)
    requires end <= MAX_FRAGMENTS_PER_MSG
    ensures Joined(fragments, id, end)
         == if id >= end then []
            else (if id in fragments then fragments[id].data else []) + Joined(fragments, id + 1, end)
  {
  }

  // ----- what the operations do -----

  /** A push is refused for what is too large; otherwise it stores the fragment and touches no other. */
  lemma PushMeaning(s: State, msgId: uint32, fragmentId: uint16, total: uint16, offset: uint16, data: seq<byte>)
    ensures var t := Push(s, msgId, fragmentId, total, offset, data);
            if |data| > 1024 || fragmentId >= 64 || total > 64 then t == s
            else
              && t.acks == s.acks
              && msgId in t.table && fragmentId in t.table[msgId]
              && t.table[msgId][fragmentId] == Fragment(s.nextHandle, msgId, fragmentId, total, offset, data)
              && t.table - {msgId} == s.table - {msgId}
              && t.table[msgId] - {fragmentId} == (if msgId in s.table then s.table[msgId] else map[]) - {fragmentId}
  {
  }

  /** A request for a fragment that is held goes last, pointing to it. */
  lemma RequestMeaning(s: State, msgId: uint32, fragmentId: uint16)
    ensures var t := Request(s, msgId, fragmentId);
            if msgId in s.table && fragmentId in s.table[msgId]
            then t == s.(acks := s.acks + [Ack(msgId, fragmentId, Some(s.table[msgId][fragmentId]))])
            else t == s
  {
  }

  /** The first request with the two identifiers. */
  ghost predicate IsOldest(acks: seq<Ack>, i: nat, msgId: uint32, fragmentId: uint16) {
    && i < |acks|
    && acks[i].msgId == msgId && acks[i].fragmentId == fragmentId
    && forall k :: 0 <= k < i ==> !(acks[k].msgId == msgId && acks[k].fragmentId == fragmentId)
  }

  /**
   * Processing takes the first request with the two identifiers out of the list, and if its
   * pointer is set and leads to data, pushes that fragment as it was; without such a request
   * nothing happens.
   */
  lemma ProcessMeaning(s: State, msgId: uint32, fragmentId: uint16, i: nat)
    ensures var t := Process(s, msgId, fragmentId);
            && ((forall k :: 0 <= k < |s.acks| ==>
                               !(s.acks[k].msgId == msgId && s.acks[k].fragmentId == fragmentId)) ==> t == s)
            && (IsOldest(s.acks, i, msgId, fragmentId) ==>
                  && t.acks == s.acks[..i] + s.acks[i + 1..]
                  && t.table == (match s.acks[i].pointer
                                 case None => s.table
                                 case Some(f) =>
                                   if f.data == [] then s.table
                                   else Push(s, f.msgId, f.fragmentId, f.total, f.offset, f.data).table))
  {
    hide Push;
    var oldest := OldestFor(s.acks, msgId, fragmentId, 0);
    if IsOldest(s.acks, i, msgId, fragmentId) {
      assert IsFor(s.acks[i], msgId, fragmentId);
      assert oldest == i;
    }
  }

  /** The fragment with the smallest identifier held, which announces how many there are. */
  ghost predicate IsSmallest(fragments: Fragments, id: nat) {
    id < 64 && id in fragments && forall k :: 0 <= k < id ==> k !in fragments
  }

  /** Complete means that every identifier is held below the number the smallest one held announces. */
  lemma CompleteMeaning(fragments: Fragments)
    ensures Complete(fragments)
       <==> exists id: nat :: IsSmallest(fragments, id)
                              && forall k :: 0 <= k < fragments[id].total ==> k in fragments
  {
    var smallest := Smallest(fragments, 0);
    if smallest < 64 {
      assert IsSmallest(fragments, smallest);
    }
    forall id: nat | IsSmallest(fragments, id)
      ensures id == smallest
    {
    }
  }

  /** The data held under each identifier from `id` on, nothing where none is held. */
  function Pieces(fragments: Fragments, id: nat): (pieces: seq<seq<byte>>)
    requires id <= 64
    ensures |pieces| == 64 - id
    ensures forall k :: 0 <= k < 64 - id ==>
                          pieces[k] == if id + k in fragments then fragments[id + k].data else []
    decreases 64 - id
  {
    if id == 64 then [] else [if id in fragments then fragments[id].data else []] + Pieces(fragments, id + 1)
  }

  lemma {:induction false} JoinedPieces(fragments: Fragments, id: nat)
    requires id <= 64
    ensures Joined(fragments, id, MAX_FRAGMENTS_PER_MSG) == Concat(Pieces(fragments, id))
    decreases 64 - id
  {
    if id < 64 {
      JoinedPieces(fragments, id + 1);
      assert Pieces(fragments, id)[1..] == Pieces(fragments, id + 1);
    }
  }

  /** A message assembles exactly when it is complete, to all the data held, identifier by identifier. */
  lemma AssembleMeaning(table: Table, msgId: uint32)
    ensures Assemble(table, msgId)
         == if msgId in table && Complete(table[msgId]) then Some(Concat(Pieces(table[msgId], 0))) else None
  {
    hide Complete, Joined, Concat, Pieces;
    if msgId in table {
      JoinedPieces(table[msgId], 0);
    }
  }

  // ----- discarding -----

  /** The first request that points to the fragment with a handle. */
  ghost predicate FirstPointer(acks: seq<Ack>, k: nat, handle: nat) {
    && k < |acks|
    && acks[k].pointer.Some? && acks[k].pointer.value.handle == handle
    && forall j :: 0 <= j < k ==> !(acks[j].pointer.Some? && acks[j].pointer.value.handle == handle)
  }

  lemma {:induction false} ClearedFrom(acks: seq<Ack>, handle: nat, n: nat, k: nat)
    requires n <= |acks| && k < |acks|
    requires forall j :: 0 <= j < n ==> !PointsTo(acks[j], handle)
    ensures Cleared(acks, handle, n)[k]
         == if FirstPointer(acks, k, handle) then acks[k].(pointer := None) else acks[k]
    decreases |acks| - n
  {
    if n < |acks| {
      if PointsTo(acks[n], handle) {
        assert k < n ==> !PointsTo(acks[k], handle);
        assert n < k ==> !FirstPointer(acks, k, handle);
      } else {
        ClearedFrom(acks, handle, n + 1, k);
      }
    } else {
      assert !PointsTo(acks[k], handle);
    }
  }

  /** Clearing the pointer to a fragment changes the first request that points to it, and nothing else. */
  lemma ClearedMeaning(acks: seq<Ack>, handle: nat, k: nat)
    requires k < |acks|
    ensures Cleared(acks, handle, 0)[k]
         == if FirstPointer(acks, k, handle) then acks[k].(pointer := None) else acks[k]
  {
    ClearedFrom(acks, handle, 0, k);
  }

  /** Fragments of a message have identifiers below 64 and are told apart by their handles. */
  ghost predicate OwnHandles(fragments: Fragments) {
    && Bounded(fragments)
    && forall i, k :: i in fragments && k in fragments && fragments[i].handle == fragments[k].handle ==> i == k
  }

  /** The request at k is the first one pointing to a fragment held with identifier `id` or above. */
  ghost predicate Hit(acks: seq<Ack>, fragments: Fragments, id: nat, k: nat) {
    exists i :: i in fragments && id <= i && FirstPointer(acks, k, fragments[i].handle)
  }

  lemma OthersStayFirst(acks: seq<Ack>, handle: nat, other: nat, k: nat)
    requires handle != other && k < |acks|
    ensures FirstPointer(Cleared(acks, handle, 0), k, other) <==> FirstPointer(acks, k, other)
  {
    hide Cleared;
    forall j | 0 <= j < |acks|
      ensures Cleared(acks, handle, 0)[j]
           == if FirstPointer(acks, j, handle) then acks[j].(pointer := None) else acks[j]
    {
      ClearedMeaning(acks, handle, j);
    }
  }

  lemma {:induction false} ClearedAllFrom(acks: seq<Ack>, fragments: Fragments, id: nat, k: nat)
    requires OwnHandles(fragments) && k < |acks|
    ensures ClearedAll(acks, fragments, id)[k]
         == if Hit(acks, fragments, id, k) then acks[k].(pointer := None) else acks[k]
    decreases MAX_FRAGMENTS_PER_MSG - id
  {
    hide Cleared, FirstPointer;
    if id < MAX_FRAGMENTS_PER_MSG {
      if id in fragments {
        var handle := fragments[id].handle;
        var next := Cleared(acks, handle, 0);
        ClearedAllFrom(next, fragments, id + 1, k);
        ClearedMeaning(acks, handle, k);
        forall i | i in fragments && id + 1 <= i
          ensures FirstPointer(next, k, fragments[i].handle) <==> FirstPointer(acks, k, fragments[i].handle)
        {
          OthersStayFirst(acks, handle, fragments[i].handle, k);
        }
        HitHere(acks, next, fragments, id, k);
      } else {
        ClearedAllFrom(acks, fragments, id + 1, k);
        assert Hit(acks, fragments, id, k) <==> Hit(acks, fragments, id + 1, k);
      }
    }
  }

  lemma HitHere(acks: seq<Ack>, next: seq<Ack>, fragments: Fragments, id: nat, k: nat)
    requires id in fragments
    requires forall i :: i in fragments && id + 1 <= i ==>
                           (FirstPointer(next, k, fragments[i].handle) <==> FirstPointer(acks, k, fragments[i].handle))
    ensures Hit(acks, fragments, id, k)
       <==> FirstPointer(acks, k, fragments[id].handle) || Hit(next, fragments, id + 1, k)
  {
    hide FirstPointer;
  }

  /**
   * Discarding a message clears, for each of its fragments, the first request that points to
   * it; every other request stays as it was, and so does every other message.
   */
  lemma DiscardMeaning(s: State, msgId: uint32, k: nat)
    requires k < |s.acks|
    requires msgId in s.table ==> OwnHandles(s.table[msgId])
    ensures var t := Discard(s, msgId);
            && t.table == s.table - {msgId}
            && |t.acks| == |s.acks|
            && t.acks[k] == if msgId in s.table
                               && exists i :: i in s.table[msgId] && FirstPointer(s.acks, k, s.table[msgId][i].handle)
                            then s.acks[k].(pointer := None) else s.acks[k]
  {
    hide ClearedAll, FirstPointer;
    if msgId in s.table {
      ClearedAllFrom(s.acks, s.table[msgId], 0, k);
    } else {
      assert s.table - {msgId} == s.table;
    }
  }

  /** In reachable states every fragment is stored under its own identifiers and has a handle of its own. */
  ghost predicate Sound(s: State) {
    && (forall m :: m in s.table ==> OwnHandles(s.table[m]))
    && (forall m, i :: m in s.table && i in s.table[m] ==>
                         && s.table[m][i].msgId == m && s.table[m][i].fragmentId == i
                         && s.table[m][i].handle < s.nextHandle)
  }

  lemma EmptyIsSound()
    ensures Sound(EMPTY)
  {
  }

  lemma PushSound(s: State, msgId: uint32, fragmentId: uint16, total: uint16, offset: uint16, data: seq<byte>)
    requires Sound(s)
    ensures Sound(Push(s, msgId, fragmentId, total, offset, data))
  {
    var t := Push(s, msgId, fragmentId, total, offset, data);
    if Admissible(fragmentId, total, data) {
      assert msgId in s.table ==> OwnHandles(s.table[msgId]);
      forall m, i | m in t.table && i in t.table[m]
        ensures t.table[m][i].msgId == m && t.table[m][i].fragmentId == i && t.table[m][i].handle < t.nextHandle
      {
      }
      forall m | m in t.table
        ensures OwnHandles(t.table[m])
      {
        assert m != msgId ==> m in s.table && t.table[m] == s.table[m];
      }
    }
  }

  lemma StepSound(s: State, op: Op)
    requires Sound(s)
    ensures Sound(Step(s, op))
  {
    hide ClearedAll, Push, OwnHandles;
    match op
    case OpPush(msgId, fragmentId, total, offset, data) => PushSound(s, msgId, fragmentId, total, offset, data);
    case OpRequest(_, _) =>
    case OpProcess(msgId, fragmentId) =>
      var i := OldestFor(s.acks, msgId, fragmentId, 0);
      if i < |s.acks| && s.acks[i].pointer.Some? {
        var f := s.acks[i].pointer.value;
        PushSound(s, f.msgId, f.fragmentId, f.total, f.offset, f.data);
      }
    case OpDiscard(_) =>
  }

  lemma {:induction false} RunsAreSound(s: State, ops: seq<Op>)
    requires Sound(s)
    ensures Sound(Run(s, ops))
    decreases |ops|
  {
    hide Step, Sound;
    if ops != [] {
      StepSound(s, ops[0]);
      RunsAreSound(Step(s, ops[0]), ops[1..]);
    }
  }

  /** No request points to a fragment of the message. */
  ghost predicate NonePoints(acks: seq<Ack>, msgId: uint32) {
    forall k :: 0 <= k < |acks| ==> acks[k].pointer.Some? ==> acks[k].pointer.value.msgId != msgId
  }

  /** Every request for the message points to a fragment of it that is held, and no two to the same one. */
  ghost predicate OneEach(s: State, msgId: uint32) {
    && (forall k :: 0 <= k < |s.acks| && s.acks[k].pointer.Some? && s.acks[k].pointer.value.msgId == msgId ==>
                      IsHeld(s, msgId, s.acks[k].pointer.value))
    && (forall j, k :: 0 <= j < k < |s.acks| && s.acks[j].pointer.Some? && s.acks[k].pointer.Some?
                       && s.acks[k].pointer.value.msgId == msgId ==>
                         s.acks[j].pointer.value.handle != s.acks[k].pointer.value.handle)
  }

  ghost predicate IsHeld(s: State, msgId: uint32, f: Fragment) {
    msgId in s.table && exists i :: i in s.table[msgId] && s.table[msgId][i] == f
  }

  lemma DiscardClearsAll(s: State, msgId: uint32)
    requires Sound(s) && OneEach(s, msgId)
    ensures NonePoints(Discard(s, msgId).acks, msgId)
  {
    hide ClearedAll, OwnHandles;
    var t := Discard(s, msgId);
    forall k | 0 <= k < |t.acks|
      ensures t.acks[k].pointer.Some? ==> t.acks[k].pointer.value.msgId != msgId
    {
      DiscardMeaning(s, msgId, k);
      if s.acks[k].pointer.Some? && s.acks[k].pointer.value.msgId == msgId {
        assert IsHeld(s, msgId, s.acks[k].pointer.value);
        var i :| i in s.table[msgId] && s.table[msgId][i] == s.acks[k].pointer.value;
        assert FirstPointer(s.acks, k, s.table[msgId][i].handle);
      }
    }
  }

  lemma StaysForgotten(s: State, op: Op, msgId: uint32)
    requires Sound(s) && msgId !in s.table && NonePoints(s.acks, msgId)
    requires op.OpPush? ==> op.msgId != msgId
    ensures msgId !in Step(s, op).table && NonePoints(Step(s, op).acks, msgId)
  {
    hide OwnHandles, ClearedAll;
    match op
    case OpPush(_, _, _, _, _) =>
    case OpRequest(_, _) =>
    case OpProcess(m, i) => ProcessForgets(s, m, i, msgId);
    case OpDiscard(m) =>
      forall k | 0 <= k < |Discard(s, m).acks|
        ensures Discard(s, m).acks[k] == s.acks[k] || Discard(s, m).acks[k].pointer == None
      {
        DiscardMeaning(s, m, k);
      }
  }

  lemma ProcessForgets(s: State, m: uint32, fragmentId: uint16, msgId: uint32)
    requires msgId !in s.table && NonePoints(s.acks, msgId)
    ensures msgId !in Process(s, m, fragmentId).table && NonePoints(Process(s, m, fragmentId).acks, msgId)
  {
    var i := OldestFor(s.acks, m, fragmentId, 0);
    if i < |s.acks| {
      var rest := s.acks[..i] + s.acks[i + 1..];
      forall k | 0 <= k < |rest|
        ensures rest[k] == s.acks[if k < i then k else k + 1]
      {
      }
    }
  }

  /**
   * A discarded message stays away: if every request for it pointed to a fragment then held,
   * and no two to the same, no retransmission brings it back, whatever happens, until one of
   * its fragments is pushed again.
   */
  lemma {:induction false} DiscardIsFinal(s: State, msgId: uint32, ops: seq<Op>)
    requires Sound(s) && OneEach(s, msgId)
    requires forall i :: 0 <= i < |ops| && ops[i].OpPush? ==> ops[i].msgId != msgId
    ensures Assemble(Run(Discard(s, msgId), ops).table, msgId) == None
  {
    hide Run, Sound, OneEach, NonePoints, ClearedAll;
    DiscardClearsAll(s, msgId);
    StepSound(s, OpDiscard(msgId));
    ForgottenRun(Discard(s, msgId), msgId, ops);
  }

  lemma {:induction false} ForgottenRun(s: State, msgId: uint32, ops: seq<Op>)
    requires Sound(s) && msgId !in s.table && NonePoints(s.acks, msgId)
    requires forall i :: 0 <= i < |ops| && ops[i].OpPush? ==> ops[i].msgId != msgId
    ensures msgId !in Run(s, ops).table
    decreases |ops|
  {
    hide Step, Sound, NonePoints;
    if ops != [] {
      StaysForgotten(s, ops[0], msgId);
      StepSound(s, ops[0]);
      ForgottenRun(Step(s, ops[0]), msgId, ops[1..]);
    }
  }
}
