/** The four-level priority queue as a state machine, and what every run of it keeps. */
module QueueModel {
  import opened Bytes

  const LEVELS := 4
  const MAX_MESSAGES := 65535
  const PROMOTION_THRESHOLD := 100

  datatype QueueMessage = QueueMessage(
    id: uint32, data: seq<byte>, priority: uint8, enqueueTime: uint32, promotionCount: uint16)

  type Level = seq<QueueMessage>

  /** The levels from low to critical, the message counter and the move counter. */
  datatype State = State(queues: seq<Level>, total: int, moves: nat)

  predicate FourLevels(s: State) {
    |s.queues| == LEVELS
  }

  const EMPTY := State([[], [], [], []], 0, 0)

  // ----- selections from a level -----

  function Keep(q: Level, p: QueueMessage -> bool): Level {
    if q == [] then [] else (if p(q[0]) then [q[0]] else []) + Keep(q[1..], p)
  }

  lemma {:induction false} KeepConcat(a: Level, b: Level, p: QueueMessage -> bool)
    ensures Keep(a + b, p) == Keep(a, p) + Keep(b, p)
    decreases |a|
  {
    hide Keep;
    KeepUnfold(a, p);
    if a == [] {
      assert a + b == b;
    } else {
      var first := if p(a[0]) then [a[0]] else [];
      KeepUnfold(a + b, p);
      assert (a + b)[1..] == a[1..] + b;
      KeepConcat(a[1..], b, p);
      assert first + (Keep(a[1..], p) + Keep(b, p)) == (first + Keep(a[1..], p)) + Keep(b, p);
    }
  }

  lemma KeepUnfold(q: Level, p: QueueMessage -> bool)
    ensures Keep(q, p) == if q == [] then [] else (if p(q[0]) then [q[0]] else []) + Keep(q[1..], p)
  {
  }

  lemma KeepOneMore(q: Level, n: nat, p: QueueMessage -> bool)
    requires n < |q|
    ensures Keep(q[..n + 1], p) == Keep(q[..n], p) + (if p(q[n]) then [q[n]] else [])
  {
    assert q[..n + 1] == q[..n] + [q[n]];
    KeepConcat(q[..n], [q[n]], p);
    assert [q[n]][1..] == [];
  }

  lemma {:induction false} KeepAll(q: Level, p: QueueMessage -> bool)
    requires forall i :: 0 <= i < |q| ==> p(q[i])
    ensures Keep(q, p) == q
    decreases |q|
  {
    if q != [] {
      KeepAll(q[1..], p);
    }
  }

  lemma {:induction false} KeepNone(q: Level, p: QueueMessage -> bool)
    requires forall i :: 0 <= i < |q| ==> !p(q[i])
    ensures Keep(q, p) == []
    decreases |q|
  {
    if q != [] {
      KeepNone(q[1..], p);
    }
  }

  lemma {:induction false} KeepSatisfies(q: Level, p: QueueMessage -> bool)
    ensures forall i :: 0 <= i < |Keep(q, p)| ==> p(Keep(q, p)[i]) && Keep(q, p)[i] in q
    decreases |q|
  {
    if q != [] {
      KeepSatisfies(q[1..], p);
    }
  }

  function HasId(id: uint32): QueueMessage -> bool {
    (m: QueueMessage) => m.id == id
  }

  function NotId(id: uint32): QueueMessage -> bool {
    (m: QueueMessage) => m.id != id
  }

  function Overdue(): QueueMessage -> bool {
    (m: QueueMessage) => m.promotionCount >= PROMOTION_THRESHOLD
  }

  function NotOverdue(): QueueMessage -> bool {
    (m: QueueMessage) => m.promotionCount < PROMOTION_THRESHOLD
  }

  /** How long a message has waited, on a clock that wraps at 2^32. */
  function Age(m: QueueMessage, now: uint32): uint32 {
    (now - m.enqueueTime) % 0x1_0000_0000
  }

  function Young(now: uint32, maxAge: uint32): QueueMessage -> bool {
    (m: QueueMessage) => Age(m, now) <= maxAge
  }

  // ----- the operations -----

  datatype Outcome = Outcome(state: State, ok: bool)

  function LevelOf(priority: uint8): (level: nat)
    ensures level < LEVELS
  {
    if priority >= LEVELS then LEVELS - 1 else priority
  }

  function Enqueue(s: State, msg: QueueMessage): (r: Outcome)
    requires FourLevels(s)
    ensures FourLevels(r.state)
  {
    if s.total >= MAX_MESSAGES then Outcome(s, false)
    else
      var level := LevelOf(msg.priority);
      Outcome(State(s.queues[level := s.queues[level] + [msg]], s.total + 1, s.moves), true)
  }

  /** The highest level that holds a message, counted from `n` down; none is -1. */
  function HighestBelow(queues: seq<Level>, n: nat): (level: int)
    requires n <= |queues|
    ensures -1 <= level < n
    ensures level >= 0 ==> queues[level] != []
    ensures forall i :: level < i < n ==> queues[i] == []
  {
    if n == 0 then -1 else if queues[n - 1] != [] then n - 1 else HighestBelow(queues, n - 1)
  }

  datatype Taken = Nothing | Taken(message: QueueMessage, state: State)

  function Dequeue(s: State): (r: Taken)
    requires FourLevels(s)
    ensures r.Taken? ==> FourLevels(r.state)
  {
    var level := HighestBelow(s.queues, LEVELS);
    if level < 0 then Nothing
    else Taken(s.queues[level][0], State(s.queues[level := s.queues[level][1..]], s.total - 1, s.moves))
  }

  predicate Holds(q: Level, id: uint32) {
    exists i :: 0 <= i < |q| && q[i].id == id
  }

  /** The lowest level that holds the identifier, counted from `n` up; none is LEVELS. */
  function LevelHolding(queues: seq<Level>, id: uint32, n: nat): (level: nat)
    requires n <= |queues| == LEVELS
    ensures n <= level <= LEVELS
    ensures level < LEVELS ==> Holds(queues[level], id)
    ensures forall i :: n <= i < level ==> !Holds(queues[i], id)
    decreases LEVELS - n
  {
    if n == LEVELS then LEVELS else if Holds(queues[n], id) then n else LevelHolding(queues, id, n + 1)
  }

  function First(q: Level, id: uint32): (m: QueueMessage)
    requires Holds(q, id)
    ensures m.id == id && m in q
    decreases |q|
  {
    if q[0].id == id then q[0]
    else
      assert Holds(q[1..], id) by {
        var i :| 0 <= i < |q| && q[i].id == id;
        assert q[1..][i - 1].id == id;
      }
      First(q[1..], id)
  }

  /** Takes the identifier out of one level and puts one changed copy of its first message into another. */
  function Moved(s: State, id: uint32, from: nat, to: nat, copy: QueueMessage): State
    requires FourLevels(s) && from < LEVELS && to < LEVELS && from != to
  {
    State(s.queues[from := Keep(s.queues[from], NotId(id))][to := s.queues[to] + [copy]],
          s.total, (s.moves + 1) % 0x1_0000_0000_0000_0000)
  }

  function Promoted(m: QueueMessage, level: nat): QueueMessage
    requires level < LEVELS
  {
    m.(priority := level, promotionCount := (m.promotionCount + 1) % 0x1_0000)
  }

  function Demoted(m: QueueMessage, level: nat): QueueMessage
    requires level < LEVELS
  {
    m.(priority := level, promotionCount := 0)
  }

  function Promote(s: State, id: uint32): (r: Outcome)
    requires FourLevels(s)
    ensures FourLevels(r.state)
  {
    var level := LevelHolding(s.queues, id, 0);
    if level >= LEVELS - 1 then Outcome(s, false)
    else Outcome(Moved(s, id, level, level + 1, Promoted(First(s.queues[level], id), level + 1)), true)
  }

  function Demote(s: State, id: uint32): (r: Outcome)
    requires FourLevels(s)
    ensures FourLevels(r.state)
  {
    var level := LevelHolding(s.queues, id, 0);
    if level == LEVELS || level == 0 then Outcome(s, false)
    else Outcome(Moved(s, id, level, level - 1, Demoted(First(s.queues[level], id), level - 1)), true)
  }

  function Sum(queues: seq<Level>): nat
    requires |queues| == LEVELS
  {
    |queues[0]| + |queues[1]| + |queues[2]| + |queues[3]|
  }

  function YoungLevels(queues: seq<Level>, now: uint32, maxAge: uint32): (r: seq<Level>)
    requires |queues| == LEVELS
    ensures |r| == LEVELS
  {
    var p := Young(now, maxAge);
    [Keep(queues[0], p), Keep(queues[1], p), Keep(queues[2], p), Keep(queues[3], p)]
  }

  function ExpireOld(s: State, now: uint32, maxAge: uint32): State
    requires FourLevels(s)
  {
    var left := YoungLevels(s.queues, now, maxAge);
    State(left, s.total - (Sum(s.queues) - Sum(left)), s.moves)
  }

  /** Copies that enter a level with a fresh promotion count. */
  function Raised(q: Level, level: nat): (r: Level)
    requires level < LEVELS
    ensures |r| == |q|
    ensures forall i :: 0 <= i < |q| ==> r[i] == Demoted(q[i], level)
  {
    seq(|q|, i requires 0 <= i < |q| => Demoted(q[i], level))
  }

  /** A level after reprioritizing: what stays, in order, then what comes up from one level below, in order. */
  function Reprioritized(queues: seq<Level>, level: nat): Level
    requires |queues| == LEVELS && level < LEVELS
  {
    (if level == LEVELS - 1 then queues[level] else Keep(queues[level], NotOverdue()))
    + (if level == 0 then [] else Raised(Keep(queues[level - 1], Overdue()), level))
  }

  function Reprioritize(s: State): State
    requires FourLevels(s)
  {
    s.(queues := [Reprioritized(s.queues, 0), Reprioritized(s.queues, 1),
                  Reprioritized(s.queues, 2), Reprioritized(s.queues, 3)])
  }

  // ----- runs -----

  datatype Op =
    | OpEnqueue(msg: QueueMessage) | OpDequeue
    | OpPromote(id: uint32) | OpDemote(id: uint32)
    | OpExpire(now: uint32, maxAge: uint32) | OpReprioritize

  function Step(s: State, op: Op): (r: State)
    requires FourLevels(s)
    ensures FourLevels(r)
  {
    match op
    case OpEnqueue(msg) => Enqueue(s, msg).state
    case OpDequeue => (match Dequeue(s) case Nothing => s case Taken(_, next) => next)
    case OpPromote(id) => Promote(s, id).state
    case OpDemote(id) => Demote(s, id).state
    case OpExpire(now, maxAge) => ExpireOld(s, now, maxAge)
    case OpReprioritize => Reprioritize(s)
  }

  function Run(s: State, ops: seq<Op>): (r: State)
    requires FourLevels(s)
    ensures FourLevels(r)
    decreases |ops|
  {
    if ops == [] then s else Run(Step(s, ops[0]), ops[1..])
  }

  // ----- reachable states are orderly -----

  ghost predicate OrderlyLevel(q: Level, level: nat) {
    forall i :: 0 <= i < |q| ==> q[i].priority == level && q[i].promotionCount <= level
  }

  /** Every message carries the priority of its level and no more promotions than that. */
  ghost predicate Orderly(s: State) {
    && FourLevels(s)
    && OrderlyLevel(s.queues[0], 0) && OrderlyLevel(s.queues[1], 1)
    && OrderlyLevel(s.queues[2], 2) && OrderlyLevel(s.queues[3], 3)
  }

  /** Messages enter with one of the four priorities and no promotions. */
  predicate FreshMessage(op: Op) {
    op.OpEnqueue? ==> op.msg.priority < LEVELS && op.msg.promotionCount == 0
  }

  /** The empty queue is orderly, so what follows holds of every state reached from it. */
  lemma EmptyIsOrderly()
    ensures Orderly(EMPTY)
  {
  }

  lemma OrderlyAt(s: State, level: nat)
    requires Orderly(s) && level < LEVELS
    ensures OrderlyLevel(s.queues[level], level)
  {
  }

  lemma OrderlyUpdate(s: State, level: nat, q: Level)
    requires Orderly(s) && level < LEVELS && OrderlyLevel(q, level)
    ensures Orderly(s.(queues := s.queues[level := q]))
  {
  }

  lemma OrderlyKeep(q: Level, level: nat, p: QueueMessage -> bool)
    requires OrderlyLevel(q, level)
    ensures OrderlyLevel(Keep(q, p), level)
  {
    KeepSatisfies(q, p);
  }

  lemma OrderlyAppend(q: Level, level: nat, m: QueueMessage)
    requires OrderlyLevel(q, level) && m.priority == level && m.promotionCount <= level
    ensures OrderlyLevel(q + [m], level)
  {
  }

  lemma OrderlyMember(q: Level, level: nat, m: QueueMessage)
    requires OrderlyLevel(q, level) && m in q
    ensures m.priority == level && m.promotionCount <= level
  {
  }

  lemma OrderlyMoved(s: State, id: uint32, from: nat, to: nat, copy: QueueMessage)
    requires Orderly(s) && from < LEVELS && to < LEVELS && from != to
    requires copy.priority == to && copy.promotionCount <= to
    ensures Orderly(Moved(s, id, from, to, copy))
  {
    hide Orderly, OrderlyLevel, Keep;
    OrderlyFourLevels(s);
    OrderlyAt(s, from);
    OrderlyAt(s, to);
    OrderlyKeep(s.queues[from], from, NotId(id));
    OrderlyAppend(s.queues[to], to, copy);
    var s1 := s.(queues := s.queues[from := Keep(s.queues[from], NotId(id))]);
    OrderlyUpdate(s, from, Keep(s.queues[from], NotId(id)));
    OrderlyUpdate(s1, to, s.queues[to] + [copy]);
    OrderlyQueues(s1.(queues := s1.queues[to := s.queues[to] + [copy]]), Moved(s, id, from, to, copy));
  }

  lemma OrderlyFourLevels(s: State)
    requires Orderly(s)
    ensures FourLevels(s)
  {
  }

  lemma OrderlyQueues(s: State, t: State)
    requires Orderly(s) && s.queues == t.queues
    ensures Orderly(t)
  {
  }

  ghost predicate NoneOverdue(q: Level) {
    forall i :: 0 <= i < |q| ==> q[i].promotionCount < PROMOTION_THRESHOLD
  }

  lemma StaysPut(queues: seq<Level>, level: nat)
    requires |queues| == LEVELS && level < LEVELS
    requires level < LEVELS - 1 ==> NoneOverdue(queues[level])
    requires level > 0 ==> NoneOverdue(queues[level - 1])
    ensures Reprioritized(queues, level) == queues[level]
  {
    if level < LEVELS - 1 { KeepAll(queues[level], NotOverdue()); }
    if level > 0 { KeepNone(queues[level - 1], Overdue()); }
  }

  lemma OrderlyNotOverdue(s: State, level: nat)
    requires Orderly(s) && level < LEVELS
    ensures NoneOverdue(s.queues[level])
  {
    OrderlyAt(s, level);
  }

  /** On orderly states reprioritizing is idle. */
  lemma ReprioritizeIdle(s: State)
    requires Orderly(s)
    ensures Reprioritize(s) == s
  {
    hide Orderly, OrderlyLevel, NoneOverdue, Reprioritized;
    OrderlyFourLevels(s);
    forall level | 0 <= level < LEVELS
      ensures Reprioritized(s.queues, level) == s.queues[level]
    {
      OrderlyNotOverdue(s, level);
      if level > 0 { OrderlyNotOverdue(s, level - 1); }
      StaysPut(s.queues, level);
    }
    assert Reprioritize(s).queues == s.queues;
  }

  /** On orderly states a promotion counts up by exactly one: the 16-bit counter is far from wrapping. */
  lemma PromotionCountExact(s: State, id: uint32)
    requires Orderly(s) && Promote(s, id).ok
    ensures var level := LevelHolding(s.queues, id, 0);
            var m := First(s.queues[level], id);
            && m.promotionCount + 1 <= LEVELS - 1
            && Promoted(m, level + 1).promotionCount == m.promotionCount + 1
  {
    var level := LevelHolding(s.queues, id, 0);
    OrderlyAt(s, level);
    OrderlyMember(s.queues[level], level, First(s.queues[level], id));
  }

  lemma OrderlyStep(s: State, op: Op)
    requires Orderly(s) && FreshMessage(op)
    ensures Orderly(Step(s, op))
  {
    hide Orderly, OrderlyLevel, Keep, HighestBelow, LevelHolding, First, Reprioritize, Moved;
    OrderlyFourLevels(s);
    match op
    case OpEnqueue(msg) =>
      OrderlyAt(s, msg.priority);
      OrderlyAppend(s.queues[msg.priority], msg.priority, msg);
      OrderlyUpdate(s, msg.priority, s.queues[msg.priority] + [msg]);
      if Enqueue(s, msg).ok {
        OrderlyQueues(s.(queues := s.queues[msg.priority := s.queues[msg.priority] + [msg]]), Step(s, op));
      }
    case OpDequeue =>
      var level := HighestBelow(s.queues, LEVELS);
      if level >= 0 {
        OrderlyAt(s, level);
        OrderlyTail(s.queues[level], level);
        OrderlyUpdate(s, level, s.queues[level][1..]);
        OrderlyQueues(s.(queues := s.queues[level := s.queues[level][1..]]), Step(s, op));
      }
    case OpPromote(id) =>
      var level := LevelHolding(s.queues, id, 0);
      if level < LEVELS - 1 {
        var m := First(s.queues[level], id);
        OrderlyAt(s, level);
        OrderlyMember(s.queues[level], level, m);
        OrderlyMoved(s, id, level, level + 1, Promoted(m, level + 1));
      }
    case OpDemote(id) =>
      var level := LevelHolding(s.queues, id, 0);
      if 0 < level < LEVELS {
        var m := First(s.queues[level], id);
        OrderlyMoved(s, id, level, level - 1, Demoted(m, level - 1));
      }
    case OpExpire(now, maxAge) =>
      OrderlyExpire(s, now, maxAge);
    case OpReprioritize =>
      ReprioritizeIdle(s);
  }

  lemma OrderlyTail(q: Level, level: nat)
    requires OrderlyLevel(q, level) && q != []
    ensures OrderlyLevel(q[1..], level)
  {
  }

  lemma OrderlyExpire(s: State, now: uint32, maxAge: uint32)
    requires Orderly(s)
    ensures Orderly(ExpireOld(s, now, maxAge))
  {
    hide Keep, OrderlyLevel;
    var p := Young(now, maxAge);
    OrderlyKeep(s.queues[0], 0, p);
    OrderlyKeep(s.queues[1], 1, p);
    OrderlyKeep(s.queues[2], 2, p);
    OrderlyKeep(s.queues[3], 3, p);
  }

  /** Every state a run reaches from the empty queue by fresh messages is orderly. */
  lemma {:induction false} RunsAreOrderly(s: State, ops: seq<Op>)
    requires Orderly(s) && forall i :: 0 <= i < |ops| ==> FreshMessage(ops[i])
    ensures Orderly(Run(s, ops))
    decreases |ops|
  {
    hide Orderly, Step;
    OrderlyFourLevels(s);
    if ops != [] {
      OrderlyStep(s, ops[0]);
      RunsAreOrderly(Step(s, ops[0]), ops[1..]);
    }
  }
}
