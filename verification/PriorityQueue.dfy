/** The priority queue itself: vectors edited in place, each operation proved to be its step of the state machine. */
module PriorityQueues {
  import opened Bytes
  import opened QueueModel
  import opened QueueConservation

  class PriorityQueue {
    var queues: seq<Level>
    var totalMessages: nat
    var totalPriorityMoves: nat

    ghost predicate Valid()
      reads this
    {
      |queues| == LEVELS && Sum(queues) <= totalMessages
    }

    ghost function Abstract(): State
      reads this
    {
      State(queues, totalMessages, totalPriorityMoves)
    }

    constructor ()
      ensures Valid() && Abstract() == EMPTY
    {
      queues, totalMessages, totalPriorityMoves := [[], [], [], []], 0, 0;
    }

    method Enqueue(msg: QueueMessage) returns (ok: bool)
      requires Valid()
      modifies this
      ensures Valid()
      ensures Abstract() == QueueModel.Enqueue(old(Abstract()), msg).state
      ensures ok == QueueModel.Enqueue(old(Abstract()), msg).ok
    {
      StepSizes(Abstract(), OpEnqueue(msg));
      if totalMessages >= MAX_MESSAGES { return false; }
      var level: nat := msg.priority;
      if level >= LEVELS { level := LEVELS - 1; }
      queues := queues[level := queues[level] + [msg]];
      totalMessages := totalMessages + 1;
      return true;
    }

    /** Takes the first message of the highest level that has one. */
    method Dequeue() returns (taken: Option<QueueMessage>)
      requires Valid()
      modifies this
      ensures Valid()
      ensures match QueueModel.Dequeue(old(Abstract()))
              case Nothing => taken == None && Abstract() == old(Abstract())
              case Taken(m, next) => taken == Some(m) && Abstract() == next
    {
      hide Sum;
      StepSizes(Abstract(), OpDequeue);
      SizeOfLevels(queues);
      var i := LEVELS;
      while i > 0
        invariant 0 <= i <= LEVELS
        invariant HighestBelow(queues, LEVELS) == HighestBelow(queues, i)
        invariant Valid() && Abstract() == old(Abstract())
      {
        if queues[i - 1] != [] {
          var m := queues[i - 1][0];
          queues := queues[i - 1 := queues[i - 1][1..]];
          totalMessages := totalMessages - 1;
          return Some(m);
        }
        i := i - 1;
      }
      return None;
    }

    /** Looks for the first message with an identifier, from the low level up. */
    method FindMessage(id: uint32) returns (found: Option<QueueMessage>, level: nat)
      requires Valid()
      ensures level == LevelHolding(queues, id, 0)
      ensures found == if level < LEVELS then Some(First(queues[level], id)) else None
    {
      level := 0;
      while level < LEVELS
        invariant level <= LEVELS
        invariant LevelHolding(queues, id, 0) == LevelHolding(queues, id, level)
      {
        var q := queues[level];
        for j := 0 to |q|
          invariant forall k :: 0 <= k < j ==> q[k].id != id
        {
          if q[j].id == id {
            FirstAt(q, id, j);
            return Some(q[j]), level;
          }
        }
        level := level + 1;
      }
      return None, LEVELS;
    }

    method Promote(id: uint32) returns (ok: bool)
      requires Valid()
      modifies this
      ensures Valid()
      ensures Abstract() == QueueModel.Promote(old(Abstract()), id).state
      ensures ok == QueueModel.Promote(old(Abstract()), id).ok
    {
      hide Keep, LevelHolding, First, Sum;
      StepSizes(Abstract(), OpPromote(id));
      var found, level := FindMessage(id);
      if found == None { return false; }
      if level >= LEVELS - 1 { return false; }
      var copy := found.value;
      queues := queues[level := Keep(queues[level], NotId(id))];
      copy := copy.(priority := level + 1, promotionCount := (copy.promotionCount + 1) % 0x1_0000);
      totalPriorityMoves := (totalPriorityMoves + 1) % 0x1_0000_0000_0000_0000;
      var newLevel := copy.priority;
      queues := queues[newLevel := queues[newLevel] + [copy]];
      return true;
    }

    method Demote(id: uint32) returns (ok: bool)
      requires Valid()
      modifies this
      ensures Valid()
      ensures Abstract() == QueueModel.Demote(old(Abstract()), id).state
      ensures ok == QueueModel.Demote(old(Abstract()), id).ok
    {
      hide Keep, LevelHolding, First, Sum;
      StepSizes(Abstract(), OpDemote(id));
      var found, level := FindMessage(id);
      if found == None { return false; }
      if level == 0 { return false; }
      var copy := found.value;
      queues := queues[level := Keep(queues[level], NotId(id))];
      copy := copy.(priority := level - 1, promotionCount := 0);
      totalPriorityMoves := (totalPriorityMoves + 1) % 0x1_0000_0000_0000_0000;
      var newLevel := copy.priority;
      queues := queues[newLevel := queues[newLevel] + [copy]];
      return true;
    }

    /** Erases the messages of one level that have waited too long. */
    method ExpireLevel(i: nat, now: uint32, maxAge: uint32)
      requires Valid() && i < LEVELS
      modifies this
      ensures Valid() && totalPriorityMoves == old(totalPriorityMoves)
      ensures queues[i] == Keep(old(queues)[i], Young(now, maxAge))
      ensures forall k :: 0 <= k < LEVELS && k != i ==> queues[k] == old(queues)[k]
      ensures totalMessages == old(totalMessages) - (Sum(old(queues)) - Sum(queues))
    {
      hide Keep, Sum;
      ghost var q, p, n := queues[i], Young(now, maxAge), 0;
      var it := 0;
      KeepStart(q, p);
      while it < |queues[i]|
        invariant |queues| == LEVELS && 0 <= n <= |q| && it == |Keep(q[..n], p)|
        invariant queues[i] == Keep(q[..n], p) + q[n..]
        invariant forall k :: 0 <= k < LEVELS && k != i ==> queues[k] == old(queues)[k]
        invariant totalPriorityMoves == old(totalPriorityMoves)
        invariant totalMessages == old(totalMessages) - (Sum(old(queues)) - Sum(queues))
        invariant Sum(queues) <= totalMessages
        decreases |queues[i]| - it
      {
        KeepOneMore(q, n, p);
        EraseOrKeep(Keep(q[..n], p), q, n);
        if Age(queues[i][it], now) > maxAge {
          SumUpdate(queues, i, queues[i][..it] + queues[i][it + 1..]);
          queues := queues[i := queues[i][..it] + queues[i][it + 1..]];
          totalMessages := totalMessages - 1;
        } else {
          it := it + 1;
        }
        n := n + 1;
      }
      KeepEnd(q, n, p);
    }

    method ExpireOld(now: uint32, maxAge: uint32)
      requires Valid()
      modifies this
      ensures Valid() && Abstract() == QueueModel.ExpireOld(old(Abstract()), now, maxAge)
    {
      hide Keep, Sum;
      ghost var p := Young(now, maxAge);
      for i := 0 to LEVELS
        invariant Valid() && totalPriorityMoves == old(totalPriorityMoves)
        invariant forall k :: 0 <= k < i ==> queues[k] == Keep(old(queues)[k], p)
        invariant forall k :: i <= k < LEVELS ==> queues[k] == old(queues)[k]
        invariant totalMessages == old(totalMessages) - (Sum(old(queues)) - Sum(queues))
      {
        ExpireLevel(i, now, maxAge);
      }
      assert queues == YoungLevels(old(queues), now, maxAge);
    }

    /** Moves the overdue messages of one level to the end of the next. */
    method RaiseLevel(i: nat)
      requires |queues| == LEVELS && i < LEVELS - 1
      modifies this`queues
      ensures |queues| == LEVELS
      ensures queues[i] == Keep(old(queues)[i], NotOverdue())
      ensures queues[i + 1] == old(queues)[i + 1] + Raised(Keep(old(queues)[i], Overdue()), i + 1)
      ensures forall k :: 0 <= k < LEVELS && k != i && k != i + 1 ==> queues[k] == old(queues)[k]
    {
      hide Keep, Raised;
      ghost var q, next, n := queues[i], queues[i + 1], 0;
      var it := 0;
      KeepStart(q, NotOverdue());
      KeepStart(q, Overdue());
      RaisedNone(i + 1);
      while it < |queues[i]|
        invariant |queues| == LEVELS && 0 <= n <= |q| && it == |Keep(q[..n], NotOverdue())|
        invariant queues[i] == Keep(q[..n], NotOverdue()) + q[n..]
        invariant queues[i + 1] == next + Raised(Keep(q[..n], Overdue()), i + 1)
        invariant forall k :: 0 <= k < LEVELS && k != i && k != i + 1 ==> queues[k] == old(queues)[k]
        decreases |queues[i]| - it
      {
        KeepOneMore(q, n, NotOverdue());
        KeepOneMore(q, n, Overdue());
        EraseOrKeep(Keep(q[..n], NotOverdue()), q, n);
        if queues[i][it].promotionCount >= PROMOTION_THRESHOLD {
          RaisedOneMore(next, Keep(q[..n], Overdue()), q[n], i + 1);
          var copy := queues[i][it];
          queues := queues[i := queues[i][..it] + queues[i][it + 1..]];
          copy := copy.(priority := i + 1, promotionCount := 0);
          queues := queues[i + 1 := queues[i + 1] + [copy]];
        } else {
          it := it + 1;
        }
        n := n + 1;
      }
      KeepEnd(q, n, NotOverdue());
      KeepEnd(q, n, Overdue());
    }

    method Reprioritize()
      requires Valid()
      modifies this
      ensures Valid() && Abstract() == QueueModel.Reprioritize(old(Abstract()))
    {
      hide Keep, Sum, Raised;
      ReprioritizeSize(Abstract());
      for i := 0 to LEVELS - 1
        invariant |queues| == LEVELS
        invariant totalMessages == old(totalMessages) && totalPriorityMoves == old(totalPriorityMoves)
        invariant forall k :: 0 <= k < i ==> queues[k] == Reprioritized(old(queues), k)
        invariant queues[i] == old(queues)[i] + Arrivals(old(queues), i)
        invariant forall k :: i < k < LEVELS ==> queues[k] == old(queues)[k]
      {
        ArrivalsStay(old(queues), i);
        RaiseLevel(i);
      }
      assert queues == QueueModel.Reprioritize(old(Abstract())).queues;
    }

    method CountForPriority(priority: uint8) returns (n: nat)
      requires Valid()
      ensures n == if priority >= LEVELS then 0 else |queues[priority]|
    {
      if priority >= LEVELS { return 0; }
      return |queues[priority]|;
    }
  }

  /** What comes up into a level from the one below. */
  function Arrivals(queues: seq<Level>, level: nat): Level
    requires |queues| == LEVELS && level < LEVELS
  {
    if level == 0 then [] else Raised(Keep(queues[level - 1], Overdue()), level)
  }

  /** Messages that have just come up are not overdue, so the next pass leaves them. */
  lemma ArrivalsStay(queues: seq<Level>, level: nat)
    requires |queues| == LEVELS && level < LEVELS - 1
    ensures var q := queues[level] + Arrivals(queues, level);
            && Keep(q, NotOverdue()) == Reprioritized(queues, level)
            && Keep(q, Overdue()) == Keep(queues[level], Overdue())
  {
    hide Keep;
    var come := Arrivals(queues, level);
    KeepConcat(queues[level], come, NotOverdue());
    KeepConcat(queues[level], come, Overdue());
    KeepAll(come, NotOverdue());
    KeepNone(come, Overdue());
  }

  lemma KeepStart(q: Level, p: QueueMessage -> bool)
    ensures Keep(q[..0], p) == [] && Keep(q[..0], p) + q[0..] == q
  {
  }

  lemma KeepEnd(q: Level, n: nat, p: QueueMessage -> bool)
    requires n <= |q|
    ensures n == |q| ==> Keep(q[..n], p) == Keep(q, p) && Keep(q[..n], p) + q[n..] == Keep(q, p)
    ensures |Keep(q[..n], p) + q[n..]| <= |Keep(q[..n], p)| ==> n == |q|
  {
    hide Keep;
    if n == |q| {
      assert q[..n] == q;
    }
  }

  /** One turn of an erase loop: the front is settled, and the next message is erased or joins it. */
  lemma EraseOrKeep(front: Level, q: Level, n: nat)
    requires n <= |q|
    ensures |front| < |front + q[n..]| ==>
              && n < |q|
              && (front + q[n..])[|front|] == q[n]
              && (front + q[n..])[..|front|] + (front + q[n..])[|front| + 1..] == front + q[n + 1..]
              && front + q[n..] == (front + [q[n]]) + q[n + 1..]
              && front + [] == front
  {
  }

  lemma RaisedNone(level: nat)
    requires level < LEVELS
    ensures Raised([], level) == []
    ensures forall q: Level :: q + Raised([], level) == q
  {
  }

  lemma RaisedOneMore(next: Level, q: Level, m: QueueMessage, level: nat)
    requires level < LEVELS
    ensures next + Raised(q + [m], level) == (next + Raised(q, level)) + [m.(priority := level, promotionCount := 0)]
  {
    assert Raised(q + [m], level) == Raised(q, level) + [Demoted(m, level)];
  }

  lemma SumUpdate(queues: seq<Level>, level: nat, q: Level)
    requires |queues| == LEVELS && level < LEVELS
    ensures Sum(queues[level := q]) == Sum(queues) - |queues[level]| + |q|
  {
  }

  lemma SizeOfLevels(queues: seq<Level>)
    requires |queues| == LEVELS
    ensures forall i :: 0 <= i < LEVELS ==> |queues[i]| <= Sum(queues)
  {
  }

  lemma {:induction false} FirstAt(q: Level, id: uint32, j: nat)
    requires j < |q| && q[j].id == id && forall k :: 0 <= k < j ==> q[k].id != id
    ensures Holds(q, id) && First(q, id) == q[j]
    decreases |q|
  {
    if j > 0 {
      FirstAt(q[1..], id, j - 1);
    }
  }
}
