/** The fragment reassembler: a table of fragments and a hand-linked list of retransmit requests. */
module Reassembler {
  import opened Bytes
  import opened FragmentModel

  class FragmentAck {
    const msgId: uint32
    const fragmentId: uint16
    var pointer: Option<Fragment>
    var next: FragmentAck?

    constructor (msgId: uint32, fragmentId: uint16, f: Fragment)
      ensures this.msgId == msgId && this.fragmentId == fragmentId && pointer == Some(f) && next == null
    {
      this.msgId, this.fragmentId, pointer, next := msgId, fragmentId, Some(f), null;
    }

    function Value(): (a: Ack)
      reads this`pointer
      ensures a.msgId == msgId && a.fragmentId == fragmentId && a.pointer == pointer
    {
      Ack(msgId, fragmentId, pointer)
    }
  }

  /** Each node points to the next one and the last one to nothing. */
  ghost predicate Linked(nodes: seq<FragmentAck>)
    reads nodes`next
  {
    forall i :: 0 <= i < |nodes| ==> LinkAt(nodes, i)
  }

  ghost predicate LinkAt(nodes: seq<FragmentAck>, i: nat)
    requires i < |nodes|
    reads nodes`next
  {
    nodes[i].next == NodeAt(nodes, i + 1)
  }

  /** The counter is 32 bits wide. */
  function Wrapped(n: int): uint32 {
    n % 0x1_0000_0000
  }

  lemma WrappedUp(n: nat)
    ensures Wrapped(Wrapped(n) + 1) == Wrapped(n + 1)
  {
  }

  lemma WrappedDown(n: nat)
    ensures Wrapped(Wrapped(n) - 1) == Wrapped(n - 1)
  {
  }

  ghost predicate Distinct(nodes: seq<FragmentAck>) {
    forall i, j :: 0 <= i < j < |nodes| ==> nodes[i] != nodes[j]
  }

  ghost function NodeAt(nodes: seq<FragmentAck>, i: nat): FragmentAck? {
    if i < |nodes| then nodes[i] else null
  }

  ghost function Values(nodes: seq<FragmentAck>): (r: seq<Ack>)
    reads nodes`pointer
    ensures |r| == |nodes|
    ensures forall i :: 0 <= i < |nodes| ==> r[i] == nodes[i].Value()
  {
    if nodes == [] then [] else [nodes[0].Value()] + Values(nodes[1..])
  }

  class FragmentReassembler {
    var fragments: Table
    var nextHandle: nat
    var head: FragmentAck?
    var tail: FragmentAck?
    var retransmitCount: uint32
    /** The nodes of the list, in order. */
    ghost var spine: seq<FragmentAck>

    /** The list runs from head to tail through distinct nodes, ends there, and is as long as the counter says. */
    ghost predicate ListShape()
      reads this`head, this`tail, this`retransmitCount, this`spine, spine`next
    {
      && head == (if spine == [] then null else spine[0])
      && tail == (if spine == [] then null else spine[|spine| - 1])
      && Linked(spine)
      && Distinct(spine)
      && retransmitCount == Wrapped(|spine|)
    }

    ghost predicate TableBounded()
      reads this`fragments
    {
      forall msgId :: msgId in fragments ==> Bounded(fragments[msgId])
    }

    ghost predicate Valid()
      reads this, spine
    {
      ListShape() && TableBounded()
    }

    /** What the requests in the list say, in order. */
    ghost function Acks(): (r: seq<Ack>)
      reads this`spine, spine`pointer
      ensures |r| == |spine|
    {
      Values(spine)
    }

    ghost function Abstract(): State
      reads this, spine
    {
      State(fragments, Acks(), nextHandle)
    }

    constructor ()
      ensures Valid() && spine == [] && Abstract() == EMPTY
    {
      fragments, nextHandle, head, tail, retransmitCount, spine := map[], 0, null, null, 0, [];
    }

    method PushFragment(msgId: uint32, fragmentId: uint16, total: uint16, offset: uint16, data: seq<byte>)
      returns (ok: bool)
      requires Valid()
      modifies this`fragments, this`nextHandle
      ensures Valid()
      ensures ok == Admissible(fragmentId, total, data)
      ensures Abstract() == Push(old(Abstract()), msgId, fragmentId, total, offset, data)
    {
      hide ListShape, Acks, Values;
      if |data| > MAX_FRAGMENT_PAYLOAD { return false; }
      if fragmentId >= MAX_FRAGMENTS_PER_MSG { return false; }
      if total > MAX_FRAGMENTS_PER_MSG { return false; }
      if msgId in fragments && fragmentId in fragments[msgId] {
        fragments := fragments[msgId := fragments[msgId] - {fragmentId}];
      }
      var fragment := Fragment(nextHandle, msgId, fragmentId, total, offset, data);
      nextHandle := nextHandle + 1;
      if msgId !in fragments {
        fragments := fragments[msgId := map[]];
      }
      var message: Fragments := fragments[msgId][fragmentId := fragment];
      fragments := fragments[msgId := message];
      assert fragments[msgId] == MessageOf(old(fragments), msgId)[fragmentId := fragment];
      return true;
    }

    /** Appends a request at the tail. */
    method RequestRetransmit(msgId: uint32, fragmentId: uint16) returns (ok: bool)
      requires Valid()
      modifies this`head, this`tail, this`retransmitCount, this`spine, spine`next
      ensures Valid()
      ensures ok == Holds(fragments, msgId, fragmentId)
      ensures Abstract() == Request(old(Abstract()), msgId, fragmentId)
      ensures old(spine) <= spine && fresh(spine[|old(spine)|..])
    {
      hide ListShape, TableBounded, Values;
      if !(msgId in fragments && fragmentId in fragments[msgId]) { return false; }
      var ack := new FragmentAck(msgId, fragmentId, fragments[msgId][fragmentId]);
      Append(ack);
      return true;
    }

    method Append(ack: FragmentAck)
      requires ListShape() && ack !in spine && ack.next == null
      modifies this`head, this`tail, this`retransmitCount, this`spine, spine`next
      ensures ListShape()
      ensures spine == old(spine) + [ack]
      ensures Acks() == old(Acks()) + [ack.Value()]
    {
      hide Values, Wrapped;
      ghost var before := spine;
      WrappedUp(|spine|);
      if tail != null {
        tail.next := ack;
        tail := ack;
      } else {
        head := ack;
        tail := ack;
      }
      retransmitCount := Wrapped(retransmitCount + 1);
      spine := spine + [ack];
      forall k | 0 <= k < |spine|
        ensures LinkAt(spine, k)
      {
        if k < |before| - 1 {
          assert old(LinkAt(before, k));
        }
      }
      ValuesConcat(before, [ack]);
      assert old(Values(before)) == Values(before);
    }

    /** Unlinks the oldest request for a key, sending its fragment again first. */
    method ProcessRetransmit(msgId: uint32, fragmentId: uint16) returns (ok: bool)
      requires Valid()
      modifies this, spine
      ensures Valid()
      ensures ok == (OldestFor(old(Acks()), msgId, fragmentId, 0) < |old(spine)|)
      ensures Abstract() == Process(old(Abstract()), msgId, fragmentId)
      ensures ok ==> var i := OldestFor(old(Acks()), msgId, fragmentId, 0);
                     spine == old(spine)[..i] + old(spine)[i + 1..]
      ensures !ok ==> spine == old(spine)
    {
      hide ListShape, TableBounded, Values;
      ghost var i;
      var prev, ack;
      prev, ack, i := FindRequest(msgId, fragmentId);
      if ack == null { return false; }
      var pointer := ack.pointer;
      ghost var before := Acks();
      ValueAt(spine, i);
      if pointer.Some? {
        var f := pointer.value;
        if |f.data| > 0 {
          var _ := PushFragment(f.msgId, f.fragmentId, f.total, f.offset, f.data);
        }
      }
      assert Abstract() == Resend(old(Abstract()), before[i]);
      Unlink(i, prev, ack);
      return true;
    }

    /** Walks the list to the oldest request for a key, remembering the node before it. */
    method FindRequest(msgId: uint32, fragmentId: uint16)
      returns (prev: FragmentAck?, ack: FragmentAck?, ghost i: nat)
      requires ListShape()
      ensures i == OldestFor(Acks(), msgId, fragmentId, 0)
      ensures ack == NodeAt(spine, i) && prev == if i > 0 then spine[i - 1] else null
    {
      prev := null;
      ack := head;
      i := 0;
      while ack != null
        invariant i <= |spine| && ack == NodeAt(spine, i)
        invariant prev == if i > 0 then spine[i - 1] else null
        invariant OldestFor(Acks(), msgId, fragmentId, 0) == OldestFor(Acks(), msgId, fragmentId, i)
        decreases |spine| - i
      {
        if ack.msgId == msgId && ack.fragmentId == fragmentId {
          assert IsFor(Acks()[i], msgId, fragmentId);
          return;
        }
        assert !IsFor(Acks()[i], msgId, fragmentId);
        assert LinkAt(spine, i);
        prev := ack;
        ack := ack.next;
        i := i + 1;
      }
    }

    /** Removes the node at position i, given the node before it. */
    method Unlink(ghost i: nat, prev: FragmentAck?, ack: FragmentAck)
      requires ListShape() && i < |spine| && ack == spine[i]
      requires prev == if i > 0 then spine[i - 1] else null
      modifies this`head, this`tail, this`retransmitCount, this`spine, spine`next
      ensures ListShape()
      ensures spine == old(spine)[..i] + old(spine)[i + 1..]
      ensures Acks() == old(Acks())[..i] + old(Acks())[i + 1..]
    {
      hide Values, Wrapped;
      ghost var before := spine;
      RemovedAt(before, i);
      WrappedDown(|spine|);
      assert LinkAt(spine, i);
      if prev != null {
        prev.next := ack.next;
      } else {
        head := ack.next;
      }
      if ack == tail {
        tail := prev;
      }
      retransmitCount := Wrapped(retransmitCount - 1);
      spine := spine[..i] + spine[i + 1..];
      DistinctRemoved(before, i);
      forall k | 0 <= k < |spine|
        ensures LinkAt(spine, k)
      {
        assert old(LinkAt(before, if k < i then k else k + 1));
      }
      ValuesConcat(before[..i], before[i + 1..]);
      ValuesSlices(before, i);
    }

    /** Clears the first pointer in the list that leads to a fragment. */
    method RemoveFromRetransmitQueue(handle: nat)
      requires Valid()
      modifies spine
      ensures Valid() && Acks() == Cleared(old(Acks()), handle, 0)
    {
      var ack := head;
      ghost var i := 0;
      while ack != null
        invariant 0 <= i <= |spine|
        invariant ack == if i < |spine| then spine[i] else null
        invariant Valid() && Acks() == old(Acks())
        invariant Cleared(Acks(), handle, 0) == Cleared(Acks(), handle, i)
        decreases |spine| - i
      {
        if ack.pointer.Some? && ack.pointer.value.handle == handle {
          assert PointsTo(Acks()[i], handle);
          ack.pointer := None;
          assert Acks() == old(Acks())[i := old(Acks())[i].(pointer := None)];
          return;
        }
        assert LinkAt(spine, i);
        ack := ack.next;
        i := i + 1;
      }
    }

    method DiscardMessage(msgId: uint32)
      requires Valid()
      modifies this`fragments, spine
      ensures Valid()
      ensures Abstract() == Discard(old(Abstract()), msgId)
    {
      hide ListShape, Bounded, Values, Cleared, ClearedAll;
      if msgId !in fragments { return; }
      var message: Fragments := fragments[msgId];
      for id := 0 to MAX_FRAGMENTS_PER_MSG
        invariant Valid() && fragments == old(fragments)
        invariant ClearedAll(Acks(), message, id) == ClearedAll(old(Acks()), message, 0)
      {
        ClearedAllUnfold(Acks(), message, id);
        if id in message {
          RemoveFromRetransmitQueue(message[id].handle);
        }
      }
      ClearedAllUnfold(Acks(), message, MAX_FRAGMENTS_PER_MSG);
      fragments := fragments - {msgId};
    }

    method IsMessageComplete(msgId: uint32) returns (complete: bool)
      requires Valid()
      ensures complete == (msgId in fragments && Complete(fragments[msgId]))
    {
      if msgId !in fragments { return false; }
      var message: Fragments := fragments[msgId];
      NonemptyHasSmallest(message);
      if message == map[] { return false; }
      var total := message[Smallest(message, 0)].total;
      for i := 0 to total
        invariant forall k :: 0 <= k < i ==> k in message
      {
        if i !in message { return false; }
      }
      return true;
    }

    /** Joins the fragments of a complete message; `prior` is the caller's buffer, which only success replaces. */
    method AssembleMessage(msgId: uint32, prior: seq<byte>) returns (ok: bool, out: seq<byte>)
      requires Valid()
      ensures ok == Assemble(fragments, msgId).Some?
      ensures out == if ok then Assemble(fragments, msgId).value else prior
    {
      hide ListShape, TableBounded, Values, Complete, Joined;
      if msgId !in fragments { return false, prior; }
      var complete := IsMessageComplete(msgId);
      if !complete { return false, prior; }
      var message: Fragments := fragments[msgId];
      out := [];
      JoinedUnfold(message, MAX_FRAGMENTS_PER_MSG);
      for id := 0 to MAX_FRAGMENTS_PER_MSG
        invariant out + Joined(message, id, MAX_FRAGMENTS_PER_MSG) == Joined(message, 0, MAX_FRAGMENTS_PER_MSG)
      {
        JoinedUnfold(message, id);
        if id in message {
          assert out + (message[id].data + Joined(message, id + 1, MAX_FRAGMENTS_PER_MSG))
              == (out + message[id].data) + Joined(message, id + 1, MAX_FRAGMENTS_PER_MSG);
          out := out + message[id].data;
        } else {
          assert [] + Joined(message, id + 1, MAX_FRAGMENTS_PER_MSG) == Joined(message, id + 1, MAX_FRAGMENTS_PER_MSG);
        }
      }
      assert out + [] == out;
      return true, out;
    }
  }

  lemma RemovedAt<T>(s: seq<T>, i: nat)
    requires i < |s|
    ensures var r := s[..i] + s[i + 1..];
            forall k :: 0 <= k < |r| ==> r[k] == if k < i then s[k] else s[k + 1]
  {
  }

  lemma DistinctRemoved(nodes: seq<FragmentAck>, i: nat)
    requires i < |nodes| && Distinct(nodes)
    ensures Distinct(nodes[..i] + nodes[i + 1..])
  {
    RemovedAt(nodes, i);
  }

  lemma {:induction false} ValuesConcat(a: seq<FragmentAck>, b: seq<FragmentAck>)
    ensures Values(a + b) == Values(a) + Values(b)
  {
    hide Values;
  }

  lemma ValuesSlices(nodes: seq<FragmentAck>, i: nat)
    requires i < |nodes|
    ensures Values(nodes[..i]) == Values(nodes)[..i] && Values(nodes[i + 1..]) == Values(nodes)[i + 1..]
  {
    hide Values;
  }

  lemma ValueAt(nodes: seq<FragmentAck>, i: nat)
    requires i < |nodes|
    ensures Values(nodes)[i] == nodes[i].Value()
  {
  }

  lemma JoinedUnfold(message: Fragments, id: nat)
    ensures Joined(message, id, MAX_FRAGMENTS_PER_MSG)
         == if id >= MAX_FRAGMENTS_PER_MSG then []
            else (if id in message then message[id].data else []) + Joined(message, id + 1, MAX_FRAGMENTS_PER_MSG)
  {
  }

  lemma ClearedAllUnfold(acks: seq<Ack>, message: Fragments, id: nat)
    ensures ClearedAll(acks, message, id)
         == if id >= MAX_FRAGMENTS_PER_MSG then acks
            else ClearedAll(if id in message then Cleared(acks, message[id].handle, 0) else acks, message, id + 1)
  {
    hide Cleared;
  }

  lemma NonemptyHasSmallest(message: Fragments)
    requires Bounded(message)
    ensures message == map[] <==> Smallest(message, 0) == MAX_FRAGMENTS_PER_MSG
  {
    if Smallest(message, 0) == MAX_FRAGMENTS_PER_MSG {
      assert forall id :: id !in message;
    }
  }

  /** The nodes reached from a node by following links, at most n of them. */
  ghost function Reached(node: FragmentAck?, nodes: set<FragmentAck>, n: nat): seq<FragmentAck>
    reads nodes
  {
    if node == null || n == 0 || node !in nodes then [] else [node] + Reached(node.next, nodes, n - 1)
  }

  lemma {:induction false} ReachedSuffix(list: FragmentReassembler, i: nat, n: nat)
    requires list.ListShape() && i <= |list.spine| && n >= |list.spine| - i
    ensures var nodes := set a | a in list.spine;
            Reached(if i < |list.spine| then list.spine[i] else null, nodes, n) == list.spine[i..]
    decreases |list.spine| - i
  {
    if i < |list.spine| {
      ReachedSuffix(list, i + 1, n - 1);
      assert LinkAt(list.spine, i);
    }
  }

  /** Following the links from the head reaches every request once, in order, and ends: the list has no cycle. */
  lemma ListIsSpine(list: FragmentReassembler, n: nat)
    requires list.ListShape() && n >= |list.spine|
    ensures Reached(list.head, (set a | a in list.spine), n) == list.spine
    ensures list.head == null <==> list.tail == null
  {
    ReachedSuffix(list, 0, n);
    assert list.spine[0..] == list.spine;
  }

  /** Until it wraps at 2^32, the counter is the number of requests. */
  lemma CounterIsLength(list: FragmentReassembler)
    requires list.ListShape() && |list.spine| < 0x1_0000_0000
    ensures list.retransmitCount == |list.spine|
  {
  }
}
