/** What the priority queue conserves: messages, the counter of messages, and their order. */
module QueueConservation {
  import opened Bytes
  import opened QueueModel

  // ----- bags of what messages carry -----

  datatype Cargo = Cargo(id: uint32, data: seq<byte>)

  function IdOf(): QueueMessage -> uint32 {
    (m: QueueMessage) => m.id
  }

  function CargoOf(): QueueMessage -> Cargo {
    (m: QueueMessage) => Cargo(m.id, m.data)
  }

  function Bag<T>(q: Level, f: QueueMessage -> T): (b: multiset<T>)
    ensures |b| == |q|
    decreases |q|
  {
    if q == [] then multiset{} else multiset{f(q[0])} + Bag(q[1..], f)
  }

  function BagAll<T>(queues: seq<Level>, f: QueueMessage -> T): (b: multiset<T>)
    requires |queues| == LEVELS
    ensures |b| == Sum(queues)
  {
    Bag(queues[0], f) + Bag(queues[1], f) + Bag(queues[2], f) + Bag(queues[3], f)
  }

  lemma {:induction false} BagConcat<T>(a: Level, b: Level, f: QueueMessage -> T)
    ensures Bag(a + b, f) == Bag(a, f) + Bag(b, f)
    decreases |a|
  {
    if a == [] {
      assert a + b == b;
    } else {
      assert (a + b)[1..] == a[1..] + b;
      BagConcat(a[1..], b, f);
    }
  }

  lemma BagOne<T>(m: QueueMessage, f: QueueMessage -> T)
    ensures Bag([m], f) == multiset{f(m)}
  {
    assert [m][1..] == [];
  }

  lemma {:induction false} BagSplit<T>(q: Level, p: QueueMessage -> bool, n: QueueMessage -> bool, f: QueueMessage -> T)
    requires forall m :: p(m) != n(m)
    ensures Bag(q, f) == Bag(Keep(q, p), f) + Bag(Keep(q, n), f)
    decreases |q|
  {
    hide Keep, Bag;
    BagUnfold(q, f);
    KeepBagStep(q, p, f);
    KeepBagStep(q, n, f);
    if q != [] {
      BagSplit(q[1..], p, n, f);
    }
  }

  lemma BagUnfold<T>(q: Level, f: QueueMessage -> T)
    ensures Bag(q, f) == if q == [] then multiset{} else multiset{f(q[0])} + Bag(q[1..], f)
  {
  }

  lemma KeepBagStep<T>(q: Level, p: QueueMessage -> bool, f: QueueMessage -> T)
    ensures Bag(Keep(q, p), f)
         == if q == [] then multiset{}
            else (if p(q[0]) then multiset{f(q[0])} else multiset{}) + Bag(Keep(q[1..], p), f)
  {
    hide Keep, Bag;
    KeepUnfold(q, p);
    if q == [] {
      BagUnfold([], f);
    } else {
      BagOne(q[0], f);
      BagConcat([q[0]], Keep(q[1..], p), f);
      assert [] + Keep(q[1..], p) == Keep(q[1..], p);
    }
  }

  lemma BagUpdate<T>(queues: seq<Level>, level: nat, q: Level, f: QueueMessage -> T)
    requires |queues| == LEVELS && level < LEVELS
    ensures BagAll(queues[level := q], f) + Bag(queues[level], f) == BagAll(queues, f) + Bag(q, f)
  {
    hide Bag;
    if
    case level == 0 =>
    case level == 1 =>
    case level == 2 =>
    case level == 3 =>
  }

  lemma {:induction false} BagRaised<T>(q: Level, level: nat, f: QueueMessage -> T)
    requires level < LEVELS
    requires forall m: QueueMessage :: f(Demoted(m, level)) == f(m)
    ensures Bag(Raised(q, level), f) == Bag(q, f)
    decreases |q|
  {
    if q != [] {
      assert Raised(q, level)[1..] == Raised(q[1..], level);
      BagRaised(q[1..], level, f);
    }
  }

  // ----- identifiers -----

  lemma {:induction false} IdCount(q: Level, id: uint32)
    ensures Bag(q, IdOf())[id] == |Keep(q, HasId(id))|
    decreases |q|
  {
    if q != [] {
      IdCount(q[1..], id);
    }
  }

  lemma {:induction false} FirstKept(q: Level, id: uint32)
    requires Holds(q, id)
    ensures Keep(q, HasId(id)) != [] && Keep(q, HasId(id))[0] == First(q, id)
    decreases |q|
  {
    if q[0].id != id {
      var i :| 0 <= i < |q| && q[i].id == id;
      assert q[1..][i - 1].id == id;
      FirstKept(q[1..], id);
    }
  }

  /** How many messages of a level carry an identifier. */
  function Copies(q: Level, id: uint32): nat {
    |Keep(q, HasId(id))|
  }

  /** No identifier is held twice. */
  ghost predicate Unique(s: State)
    requires FourLevels(s)
  {
    forall id :: BagAll(s.queues, IdOf())[id] <= 1
  }

  lemma UniqueCopies(s: State, level: nat, id: uint32)
    requires FourLevels(s) && level < LEVELS && Unique(s) && Holds(s.queues[level], id)
    ensures Copies(s.queues[level], id) == 1
    ensures Keep(s.queues[level], HasId(id)) == [First(s.queues[level], id)]
  {
    hide Keep, Bag, First;
    FirstKept(s.queues[level], id);
    IdCount(s.queues[level], id);
    assert Bag(s.queues[level], IdOf())[id] <= BagAll(s.queues, IdOf())[id];
  }

  // ----- moves -----

  /** A move trades all copies of an identifier in one level for one changed copy in another. */
  lemma MoveBag<T>(s: State, id: uint32, from: nat, to: nat, copy: QueueMessage, f: QueueMessage -> T)
    requires FourLevels(s) && from < LEVELS && to < LEVELS && from != to
    ensures BagAll(Moved(s, id, from, to, copy).queues, f) + Bag(Keep(s.queues[from], HasId(id)), f)
         == BagAll(s.queues, f) + multiset{f(copy)}
  {
    hide Bag, BagAll, Keep;
    var q := s.queues[from];
    var without := Keep(q, NotId(id));
    var s1 := s.queues[from := without];
    BagSplit(q, HasId(id), NotId(id), f);
    BagUpdate(s.queues, from, without, f);
    BagUpdate(s1, to, s.queues[to] + [copy], f);
    BagConcat(s.queues[to], [copy], f);
    BagOne(copy, f);
    Cancel(BagAll(s.queues, f), BagAll(s1, f), BagAll(Moved(s, id, from, to, copy).queues, f),
           Bag(without, f), Bag(Keep(q, HasId(id)), f), Bag(s.queues[to], f), multiset{f(copy)});
  }

  lemma Cancel<T>(all: multiset<T>, mid: multiset<T>, end: multiset<T>,
                  rest: multiset<T>, gone: multiset<T>, held: multiset<T>, added: multiset<T>)
    requires mid + (gone + rest) == all + rest
    requires end + held == mid + (held + added)
    ensures end + gone == all + added
  {
    forall x: T
      ensures (end + gone)[x] == (all + added)[x]
    {
      assert (mid + (gone + rest))[x] == (all + rest)[x];
      assert (end + held)[x] == (mid + (held + added))[x];
    }
  }

  /** A promotion or demotion loses all but one of the copies in the level, and the counter does not notice. */
  lemma MoveLoses(s: State, id: uint32, from: nat, to: nat, copy: QueueMessage)
    requires FourLevels(s) && from < LEVELS && to < LEVELS && from != to
    ensures var r := Moved(s, id, from, to, copy);
            && Sum(r.queues) + Copies(s.queues[from], id) == Sum(s.queues) + 1
            && r.total == s.total
  {
    hide Bag, BagAll;
    MoveBag(s, id, from, to, copy, IdOf());
    var r := Moved(s, id, from, to, copy);
    assert |BagAll(r.queues, IdOf()) + Bag(Keep(s.queues[from], HasId(id)), IdOf())|
        == |BagAll(s.queues, IdOf()) + multiset{IdOf()(copy)}|;
  }

  /** Promotion keeps the number of messages exactly when the level holds the identifier once. */
  lemma PromoteConservesIff(s: State, id: uint32)
    requires FourLevels(s) && Promote(s, id).ok
    ensures Sum(Promote(s, id).state.queues) == Sum(s.queues)
       <==> Copies(s.queues[LevelHolding(s.queues, id, 0)], id) == 1
  {
    var level := LevelHolding(s.queues, id, 0);
    MoveLoses(s, id, level, level + 1, Promoted(First(s.queues[level], id), level + 1));
  }

  lemma DemoteConservesIff(s: State, id: uint32)
    requires FourLevels(s) && Demote(s, id).ok
    ensures Sum(Demote(s, id).state.queues) == Sum(s.queues)
       <==> Copies(s.queues[LevelHolding(s.queues, id, 0)], id) == 1
  {
    var level := LevelHolding(s.queues, id, 0);
    MoveLoses(s, id, level, level - 1, Demoted(First(s.queues[level], id), level - 1));
  }

  /** While identifiers are unique, a move only relabels: every identifier and all its data stay. */
  lemma UniqueMove<T>(s: State, id: uint32, from: nat, to: nat, copy: QueueMessage, f: QueueMessage -> T)
    requires FourLevels(s) && from < LEVELS && to < LEVELS && from != to
    requires Unique(s) && Holds(s.queues[from], id)
    requires f(copy) == f(First(s.queues[from], id))
    ensures BagAll(Moved(s, id, from, to, copy).queues, f) == BagAll(s.queues, f)
  {
    hide Bag, BagAll, Unique;
    UniqueCopies(s, from, id);
    MoveBag(s, id, from, to, copy, f);
    BagOne(First(s.queues[from], id), f);
    SameRemainder(BagAll(Moved(s, id, from, to, copy).queues, f), BagAll(s.queues, f), multiset{f(copy)});
  }

  lemma SameRemainder<T>(a: multiset<T>, b: multiset<T>, c: multiset<T>)
    requires a + c == b + c
    ensures a == b
  {
    forall x: T
      ensures a[x] == b[x]
    {
      assert (a + c)[x] == (b + c)[x];
    }
  }

  /** While identifiers are unique, promotion and demotion lose no message. */
  lemma MovesLoseNothing(s: State, id: uint32)
    requires FourLevels(s) && Unique(s)
    ensures BagAll(Promote(s, id).state.queues, CargoOf()) == BagAll(s.queues, CargoOf())
    ensures BagAll(Demote(s, id).state.queues, CargoOf()) == BagAll(s.queues, CargoOf())
    ensures BagAll(Promote(s, id).state.queues, IdOf()) == BagAll(s.queues, IdOf())
    ensures BagAll(Demote(s, id).state.queues, IdOf()) == BagAll(s.queues, IdOf())
  {
    hide BagAll, Bag, Moved, Unique;
    var level := LevelHolding(s.queues, id, 0);
    if level < LEVELS {
      var m := First(s.queues[level], id);
      if level < LEVELS - 1 {
        UniqueMove(s, id, level, level + 1, Promoted(m, level + 1), CargoOf());
        UniqueMove(s, id, level, level + 1, Promoted(m, level + 1), IdOf());
      }
      if level > 0 {
        UniqueMove(s, id, level, level - 1, Demoted(m, level - 1), CargoOf());
        UniqueMove(s, id, level, level - 1, Demoted(m, level - 1), IdOf());
      }
    }
  }

  lemma NoneBefore(q: Level, id: uint32)
    requires !Holds(q, id)
    ensures Keep(q, NotId(id)) == q
  {
    KeepAll(q, NotId(id));
  }

  /** A move takes the message out of its level, closing the gap, and puts its copy last in the other. */
  lemma MoveKeepsOrder(s: State, from: nat, to: nat, a: Level, m: QueueMessage, b: Level, copy: QueueMessage)
    requires FourLevels(s) && from < LEVELS && to < LEVELS && from != to
    requires s.queues[from] == a + [m] + b && !Holds(a, m.id) && !Holds(b, m.id)
    ensures Moved(s, m.id, from, to, copy).queues[from] == a + b
    ensures Moved(s, m.id, from, to, copy).queues[to] == s.queues[to] + [copy]
    ensures forall k :: 0 <= k < LEVELS && k != from && k != to ==>
                          Moved(s, m.id, from, to, copy).queues[k] == s.queues[k]
  {
    hide Keep;
    KeepConcat(a + [m], b, NotId(m.id));
    KeepConcat(a, [m], NotId(m.id));
    KeepNone([m], NotId(m.id));
    NoneBefore(a, m.id);
    NoneBefore(b, m.id);
  }

  // ----- reprioritizing -----

  lemma LevelBag<T>(queues: seq<Level>, level: nat, f: QueueMessage -> T)
    requires |queues| == LEVELS && level < LEVELS
    requires forall m: QueueMessage :: f(Demoted(m, level)) == f(m)
    ensures Bag(Reprioritized(queues, level), f)
         == (if level == LEVELS - 1 then Bag(queues[level], f) else Bag(Keep(queues[level], NotOverdue()), f))
          + (if level == 0 then multiset{} else Bag(Keep(queues[level - 1], Overdue()), f))
  {
    hide Keep, Raised;
    var stay := if level == LEVELS - 1 then queues[level] else Keep(queues[level], NotOverdue());
    if level == 0 {
      assert stay + [] == stay;
    } else {
      var come := Keep(queues[level - 1], Overdue());
      BagConcat(stay, Raised(come, level), f);
      BagRaised(come, level, f);
    }
  }

  /** Reprioritizing loses no message, whatever the promotion counts and identifiers are. */
  lemma ReprioritizeLosesNothing<T>(s: State, f: QueueMessage -> T)
    requires FourLevels(s)
    requires forall m: QueueMessage, level: nat | level < LEVELS :: f(Demoted(m, level)) == f(m)
    ensures BagAll(Reprioritize(s).queues, f) == BagAll(s.queues, f)
  {
    hide Bag, Keep, Reprioritized;
    LevelBag(s.queues, 0, f);
    LevelBag(s.queues, 1, f);
    LevelBag(s.queues, 2, f);
    LevelBag(s.queues, 3, f);
    BagSplit(s.queues[0], Overdue(), NotOverdue(), f);
    BagSplit(s.queues[1], Overdue(), NotOverdue(), f);
    BagSplit(s.queues[2], Overdue(), NotOverdue(), f);
  }

  lemma ReprioritizedNotOverdue(queues: seq<Level>, level: nat)
    requires |queues| == LEVELS && level < LEVELS - 1
    ensures forall i :: 0 <= i < |Reprioritized(queues, level)| ==>
                          Reprioritized(queues, level)[i].promotionCount < PROMOTION_THRESHOLD
  {
    KeepSatisfies(queues[level], NotOverdue());
  }

  /** The message is an overdue one of the level below, relabelled. */
  ghost predicate Comes(below: Level, level: nat, m: QueueMessage)
    requires level < LEVELS
  {
    exists o :: o in below && o.promotionCount >= PROMOTION_THRESHOLD && m == Demoted(o, level)
  }

  lemma {:induction false} KeepMember(q: Level, p: QueueMessage -> bool, m: QueueMessage)
    ensures m in Keep(q, p) <==> m in q && p(m)
    decreases |q|
  {
    if q != [] {
      KeepMember(q[1..], p, m);
    }
  }

  lemma RaisedMember(below: Level, level: nat, m: QueueMessage)
    requires level < LEVELS
    ensures m in Raised(Keep(below, Overdue()), level) <==> Comes(below, level, m)
  {
    hide Keep;
    var kept := Keep(below, Overdue());
    forall o
      ensures o in kept <==> o in below && o.promotionCount >= PROMOTION_THRESHOLD
    {
      KeepMember(below, Overdue(), o);
    }
    if m in Raised(kept, level) {
      var i :| 0 <= i < |kept| && m == Demoted(kept[i], level);
      assert kept[i] in kept;
    }
    if Comes(below, level, m) {
      var o :| o in kept && m == Demoted(o, level);
      var i :| 0 <= i < |kept| && kept[i] == o;
      assert Raised(kept, level)[i] == m;
    }
  }

  lemma AtLevel(s: State, level: nat)
    requires FourLevels(s) && level < LEVELS
    ensures Reprioritize(s).queues[level] == Reprioritized(s.queues, level)
  {
    hide Reprioritized;
  }

  /**
   * What a level holds after reprioritizing is what it held and was not overdue, and what was
   * overdue one level below, relabelled: no message climbs more than one level.
   */
  lemma ReprioritizeClimbsOne(s: State, level: nat, m: QueueMessage)
    requires FourLevels(s) && level < LEVELS
    ensures m in Reprioritize(s).queues[level]
       <==> || (m in s.queues[level] && (level < LEVELS - 1 ==> m.promotionCount < PROMOTION_THRESHOLD))
            || (level > 0 && Comes(s.queues[level - 1], level, m))
  {
    hide Keep, Raised, Comes, Reprioritize;
    AtLevel(s, level);
    KeepMember(s.queues[level], NotOverdue(), m);
    if level > 0 {
      RaisedMember(s.queues[level - 1], level, m);
    }
  }

  /** A second reprioritizing changes nothing. */
  lemma ReprioritizeTwice(s: State)
    requires FourLevels(s)
    ensures Reprioritize(Reprioritize(s)) == Reprioritize(s)
  {
    hide Keep, Reprioritized;
    var t := Reprioritize(s);
    forall level | 0 <= level < LEVELS
      ensures Reprioritized(t.queues, level) == t.queues[level]
    {
      if level < LEVELS - 1 { ReprioritizedNotOverdue(s.queues, level); }
      if level > 0 { ReprioritizedNotOverdue(s.queues, level - 1); }
      StaysPut(t.queues, level);
    }
    assert Reprioritize(t).queues == t.queues;
  }

  // ----- expiry and the counter -----

  lemma {:induction false} KeepBag<T>(q: Level, p: QueueMessage -> bool, f: QueueMessage -> T)
    ensures Bag(Keep(q, p), f) <= Bag(q, f)
    decreases |q|
  {
    hide Keep, Bag;
    KeepBagStep(q, p, f);
    BagUnfold(q, f);
    if q != [] {
      KeepBag(q[1..], p, f);
    }
  }

  lemma {:induction false} KeepCount(q: Level, p: QueueMessage -> bool, m: QueueMessage)
    ensures multiset(Keep(q, p))[m] == if p(m) then multiset(q)[m] else 0
    decreases |q|
  {
    hide Keep;
    KeepUnfold(q, p);
    if q != [] {
      KeepCount(q[1..], p, m);
      assert q == [q[0]] + q[1..];
    }
  }

  /** How long a message has waited: what the clock shows now less what it showed then, on a clock that wraps. */
  lemma AgeMeaning(m: QueueMessage, now: uint32)
    ensures Age(m, now)
         == if m.enqueueTime <= now then now - m.enqueueTime else now + 0x1_0000_0000 - m.enqueueTime
  {
  }

  /**
   * Expiry erases exactly the messages that have waited longer than the limit, level by level;
   * one stamped later than now has waited since before the clock last wrapped.
   */
  lemma ExpireMeaning(s: State, now: uint32, maxAge: uint32, level: nat, m: QueueMessage)
    requires FourLevels(s) && level < 4
    ensures var waited := if m.enqueueTime <= now then now - m.enqueueTime
                          else now + 0x1_0000_0000 - m.enqueueTime;
            multiset(ExpireOld(s, now, maxAge).queues[level])[m]
            == if waited <= maxAge then multiset(s.queues[level])[m] else 0
    ensures ExpireOld(s, now, maxAge).moves == s.moves
    ensures s.total - ExpireOld(s, now, maxAge).total
         == SumOfFour(s.queues) - SumOfFour(ExpireOld(s, now, maxAge).queues)
  {
    hide Age, YoungLevels;
    AgeMeaning(m, now);
    ExpireExactly(s, now, maxAge, level, m);
  }

  function SumOfFour(queues: seq<Level>): nat
    requires |queues| == 4
  {
    |queues[0]| + |queues[1]| + |queues[2]| + |queues[3]|
  }

  /** Expiry erases exactly the messages that have waited too long, level by level. */
  lemma ExpireExactly(s: State, now: uint32, maxAge: uint32, level: nat, m: QueueMessage)
    requires FourLevels(s) && level < LEVELS
    ensures multiset(ExpireOld(s, now, maxAge).queues[level])[m]
         == if Age(m, now) <= maxAge then multiset(s.queues[level])[m] else 0
  {
    hide Keep;
    KeepCount(s.queues[level], Young(now, maxAge), m);
  }

  lemma ExpireBag<T>(s: State, now: uint32, maxAge: uint32, f: QueueMessage -> T)
    requires FourLevels(s)
    ensures BagAll(ExpireOld(s, now, maxAge).queues, f) <= BagAll(s.queues, f)
  {
    hide Keep, Bag;
    var p := Young(now, maxAge);
    KeepBag(s.queues[0], p, f);
    KeepBag(s.queues[1], p, f);
    KeepBag(s.queues[2], p, f);
    KeepBag(s.queues[3], p, f);
  }

  lemma EnqueueBag<T>(s: State, msg: QueueMessage, f: QueueMessage -> T)
    requires FourLevels(s) && Enqueue(s, msg).ok
    ensures BagAll(Enqueue(s, msg).state.queues, f) == BagAll(s.queues, f) + multiset{f(msg)}
  {
    hide Bag, BagAll;
    var level := LevelOf(msg.priority);
    BagUpdate(s.queues, level, s.queues[level] + [msg], f);
    BagConcat(s.queues[level], [msg], f);
    BagOne(msg, f);
    Cancel(BagAll(s.queues, f), BagAll(s.queues, f), BagAll(Enqueue(s, msg).state.queues, f),
           multiset{}, multiset{}, Bag(s.queues[level], f), multiset{f(msg)});
  }

  lemma DequeueBag<T>(s: State, f: QueueMessage -> T)
    requires FourLevels(s) && Dequeue(s).Taken?
    ensures BagAll(Dequeue(s).state.queues, f) + multiset{f(Dequeue(s).message)} == BagAll(s.queues, f)
  {
    hide Bag, BagAll;
    var level := HighestBelow(s.queues, LEVELS);
    var q := s.queues[level];
    assert q == [q[0]] + q[1..];
    BagUpdate(s.queues, level, q[1..], f);
    BagConcat([q[0]], q[1..], f);
    BagOne(q[0], f);
    Cancel(BagAll(s.queues, f), BagAll(Dequeue(s).state.queues, f), BagAll(Dequeue(s).state.queues, f),
           Bag(q[1..], f), multiset{f(q[0])}, multiset{}, multiset{});
  }

  /** The counter covers the messages held. */
  ghost predicate Covered(s: State) {
    FourLevels(s) && Sum(s.queues) <= s.total
  }

  /** Identifiers are unique and the counter is exact. */
  ghost predicate Counted(s: State) {
    FourLevels(s) && Unique(s) && s.total == Sum(s.queues)
  }

  /** The empty queue is counted and covered, so runs from it are too. */
  lemma EmptyIsCounted()
    ensures Counted(EMPTY) && Covered(EMPTY)
  {
  }

  /** How each operation changes the number of messages and the counter. */
  lemma StepSizes(s: State, op: Op)
    requires FourLevels(s)
    ensures var r := Step(s, op);
            && (op.OpPromote? || op.OpDemote? ==> r.total == s.total && Sum(r.queues) <= Sum(s.queues))
            && (!op.OpPromote? && !op.OpDemote? ==> r.total - s.total == Sum(r.queues) - Sum(s.queues))
  {
    hide Moved, Reprioritize, HighestBelow, LevelHolding, First, Promoted, Demoted;
    match op
    case OpEnqueue(msg) =>
      if Enqueue(s, msg).ok { EnqueueBag(s, msg, IdOf()); }
    case OpDequeue =>
      if Dequeue(s).Taken? { DequeueSize(s); }
    case OpPromote(id) =>
      var level := LevelHolding(s.queues, id, 0);
      if level < LEVELS - 1 {
        FirstKept(s.queues[level], id);
        MoveLoses(s, id, level, level + 1, Promoted(First(s.queues[level], id), level + 1));
      }
    case OpDemote(id) =>
      var level := LevelHolding(s.queues, id, 0);
      if 0 < level < LEVELS {
        FirstKept(s.queues[level], id);
        MoveLoses(s, id, level, level - 1, Demoted(First(s.queues[level], id), level - 1));
      }
    case OpExpire(now, maxAge) =>
    case OpReprioritize =>
      ReprioritizeSize(s);
  }

  lemma ReprioritizeSize(s: State)
    requires FourLevels(s)
    ensures Reprioritize(s).total == s.total && Sum(Reprioritize(s).queues) == Sum(s.queues)
  {
    hide BagAll, Reprioritized;
    ReprioritizeLosesNothing(s, IdOf());
    assert |BagAll(Reprioritize(s).queues, IdOf())| == |BagAll(s.queues, IdOf())|;
  }

  lemma DequeueSize(s: State)
    requires FourLevels(s) && Dequeue(s).Taken?
    ensures Sum(Dequeue(s).state.queues) == Sum(s.queues) - 1
  {
    hide BagAll;
    DequeueBag(s, IdOf());
    assert |BagAll(s.queues, IdOf())| == |BagAll(Dequeue(s).state.queues, IdOf())| + 1;
  }

  /** In every run the counter covers the messages held, so it never wraps below zero. */
  lemma {:induction false} RunsAreCovered(s: State, ops: seq<Op>)
    requires Covered(s)
    ensures Covered(Run(s, ops))
    decreases |ops|
  {
    hide Step, Sum;
    if ops != [] {
      StepSizes(s, ops[0]);
      RunsAreCovered(Step(s, ops[0]), ops[1..]);
    }
  }

  /** The operation does not enqueue an identifier that is held. */
  predicate NewId(s: State, op: Op)
    requires FourLevels(s)
  {
    op.OpEnqueue? ==> op.msg.id !in BagAll(s.queues, IdOf())
  }

  lemma UniqueSub(s: State, t: State)
    requires FourLevels(s) && FourLevels(t) && Unique(s)
    requires BagAll(t.queues, IdOf()) <= BagAll(s.queues, IdOf())
    ensures Unique(t)
  {
    hide BagAll;
  }

  lemma UniqueStep(s: State, op: Op)
    requires FourLevels(s) && Unique(s) && NewId(s, op)
    ensures Unique(Step(s, op))
  {
    hide BagAll, Unique, Moved, Promote, Demote, Reprioritize, ExpireOld, Enqueue, Dequeue, Keep;
    match op
    case OpEnqueue(msg) =>
      EnqueueUnique(s, msg);
    case OpDequeue =>
      if Dequeue(s).Taken? {
        DequeueFour(s);
        DequeueBag(s, IdOf());
        UniqueSub(s, Dequeue(s).state);
      }
    case OpPromote(id) =>
      MovesLoseNothing(s, id);
      UniqueSub(s, Step(s, op));
    case OpDemote(id) =>
      MovesLoseNothing(s, id);
      UniqueSub(s, Step(s, op));
    case OpExpire(now, maxAge) =>
      ExpireBag(s, now, maxAge, IdOf());
      UniqueSub(s, Step(s, op));
    case OpReprioritize =>
      ReprioritizeLosesNothing(s, IdOf());
      UniqueSub(s, Step(s, op));
  }

  lemma DequeueFour(s: State)
    requires FourLevels(s) && Dequeue(s).Taken?
    ensures FourLevels(Dequeue(s).state)
  {
  }

  lemma EnqueueUnique(s: State, msg: QueueMessage)
    requires FourLevels(s) && Unique(s) && msg.id !in BagAll(s.queues, IdOf())
    ensures FourLevels(Enqueue(s, msg).state) && Unique(Enqueue(s, msg).state)
  {
    hide BagAll;
    if Enqueue(s, msg).ok {
      EnqueueBag(s, msg, IdOf());
    }
  }

  ghost predicate NewIds(s: State, ops: seq<Op>)
    requires FourLevels(s)
    decreases |ops|
  {
    ops != [] ==> NewId(s, ops[0]) && NewIds(Step(s, ops[0]), ops[1..])
  }

  lemma CountedStep(s: State, op: Op)
    requires Counted(s) && NewId(s, op)
    ensures Counted(Step(s, op))
  {
    hide BagAll, Unique, Moved, LevelHolding, First, Keep, Reprioritize, ExpireOld, Enqueue, Dequeue, Promoted, Demoted;
    UniqueStep(s, op);
    StepSizes(s, op);
    if op.OpPromote? || op.OpDemote? {
      MovesLoseNothing(s, op.id);
      assert |BagAll(Step(s, op).queues, IdOf())| == |BagAll(s.queues, IdOf())|;
    }
  }

  /** As long as no identifier is enqueued while it is held, the counter is exact in every run. */
  lemma {:induction false} RunsAreCounted(s: State, ops: seq<Op>)
    requires Counted(s) && NewIds(s, ops)
    ensures Counted(Run(s, ops))
    decreases |ops|
  {
    hide Step, Sum, NewId, Unique;
    if ops != [] {
      CountedStep(s, ops[0]);
      RunsAreCounted(Step(s, ops[0]), ops[1..]);
    }
  }

  /** By how much the counter exceeds the messages held. */
  function Gap(s: State): int
    requires FourLevels(s)
  {
    s.total - Sum(s.queues)
  }

  /** A promotion or demotion that succeeds hits an identifier its level holds once. */
  predicate HitsOne(s: State, op: Op)
    requires FourLevels(s)
  {
    (op.OpPromote? && Promote(s, op.id).ok) || (op.OpDemote? && Demote(s, op.id).ok) ==>
      Copies(s.queues[LevelHolding(s.queues, op.id, 0)], op.id) == 1
  }

  predicate AllHitOne(s: State, ops: seq<Op>)
    requires FourLevels(s)
    decreases |ops|
  {
    ops != [] ==> HitsOne(s, ops[0]) && AllHitOne(Step(s, ops[0]), ops[1..])
  }

  lemma StepGap(s: State, op: Op)
    requires FourLevels(s)
    ensures Gap(s) <= Gap(Step(s, op))
    ensures Gap(s) == Gap(Step(s, op)) <==> HitsOne(s, op)
  {
    hide Sum, Copies, Promote, Demote, LevelHolding, ExpireOld, Reprioritize, Enqueue, Dequeue;
    StepSizes(s, op);
    if op.OpPromote? {
      if Promote(s, op.id).ok { PromoteConservesIff(s, op.id); } else { PromoteRefused(s, op.id); }
    } else if op.OpDemote? {
      if Demote(s, op.id).ok { DemoteConservesIff(s, op.id); } else { DemoteRefused(s, op.id); }
    }
  }

  lemma PromoteRefused(s: State, id: uint32)
    requires FourLevels(s) && !Promote(s, id).ok
    ensures Promote(s, id).state == s
  {
  }

  lemma DemoteRefused(s: State, id: uint32)
    requires FourLevels(s) && !Demote(s, id).ok
    ensures Demote(s, id).state == s
  {
  }

  lemma {:induction false} RunGap(s: State, ops: seq<Op>)
    requires FourLevels(s)
    ensures Gap(s) <= Gap(Run(s, ops))
    ensures Gap(s) == Gap(Run(s, ops)) <==> AllHitOne(s, ops)
    decreases |ops|
  {
    hide Step, Gap, HitsOne;
    if ops != [] {
      StepGap(s, ops[0]);
      RunGap(Step(s, ops[0]), ops[1..]);
    }
  }

  /**
   * From a state whose counter is exact, it is exact after a run if and only if every
   * promotion and demotion that succeeded hit an identifier its level held once: a counter
   * that has gone wrong never recovers.
   */
  lemma CounterExactIff(s: State, ops: seq<Op>)
    requires FourLevels(s) && s.total == Sum(s.queues)
    ensures Run(s, ops).total == Sum(Run(s, ops).queues) <==> AllHitOne(s, ops)
  {
    hide Run, Sum, AllHitOne;
    RunGap(s, ops);
  }

  // ----- what the operations do -----

  /** A message goes to the end of the level its priority names, the highest for four and more, up to 65535 in all. */
  lemma EnqueueMeaning(s: State, msg: QueueMessage)
    requires FourLevels(s)
    ensures var r, level := Enqueue(s, msg), if msg.priority < 3 then msg.priority else 3;
            && r.ok == (s.total < 65535)
            && r.state == if r.ok then State(s.queues[level := s.queues[level] + [msg]], s.total + 1, s.moves) else s
  {
  }

  /** The first message of the highest level that has one is taken out, and counted down. */
  lemma DequeueMeaning(s: State)
    requires FourLevels(s)
    ensures Dequeue(s).Nothing? <==> s.queues[3] == [] && s.queues[2] == [] && s.queues[1] == [] && s.queues[0] == []
    ensures Dequeue(s).Taken? ==>
              exists level: nat ::
                && level < 4 && s.queues[level] != []
                && (forall k :: level < k < 4 ==> s.queues[k] == [])
                && Dequeue(s).message == s.queues[level][0]
                && Dequeue(s).state
                   == State(s.queues[level := s.queues[level][1..]], s.total - 1, s.moves)
  {
    var level := HighestBelow(s.queues, LEVELS);
    assert level >= 0 ==> s.queues[level] != [];
  }

  /** The level is the lowest one that holds the identifier, and q there is a, then m, then b, with none of it in a. */
  ghost predicate FoundAt(s: State, id: uint32, level: nat, a: Level, m: QueueMessage, b: Level)
    requires FourLevels(s)
  {
    && level < 4 && s.queues[level] == a + [m] + b && m.id == id
    && (forall i :: 0 <= i < |a| ==> a[i].id != id)
    && (forall k, i :: 0 <= k < level && 0 <= i < |s.queues[k]| ==> s.queues[k][i].id != id)
  }

  lemma FoundLevel(s: State, id: uint32, level: nat, a: Level, m: QueueMessage, b: Level)
    requires FourLevels(s) && FoundAt(s, id, level, a, m, b)
    ensures LevelHolding(s.queues, id, 0) == level
    ensures Holds(s.queues[level], id) && First(s.queues[level], id) == m
  {
    hide LevelHolding, First;
    assert s.queues[level][|a|] == m;
    FirstIs(s.queues[level], id, |a|);
    assert LevelHolding(s.queues, id, 0) == level;
  }

  lemma {:induction false} FirstIs(q: Level, id: uint32, n: nat)
    requires n < |q| && q[n].id == id && forall i :: 0 <= i < n ==> q[i].id != id
    ensures Holds(q, id) && First(q, id) == q[n]
    decreases n
  {
    if n > 0 {
      FirstIs(q[1..], id, n - 1);
    }
  }

  /** The messages of a level without those of one identifier, in order. */
  lemma {:induction false} WithoutId(q: Level, id: uint32, m: QueueMessage)
    ensures multiset(Keep(q, NotId(id)))[m] == if m.id == id then 0 else multiset(q)[m]
  {
    hide Keep;
    KeepCount(q, NotId(id), m);
  }

  /**
   * Promotion takes the first message with the identifier from the lowest level that holds it,
   * unless that is the highest, and puts it last into the next level, with that level as its
   * priority, one promotion more, and everything else as it was. All messages with the
   * identifier leave the old level.
   */
  lemma PromoteMeaning(s: State, id: uint32, level: nat, a: Level, m: QueueMessage, b: Level, x: QueueMessage)
    requires FourLevels(s) && FoundAt(s, id, level, a, m, b)
    ensures Promote(s, id).ok <==> level < 3
    ensures level == 3 ==> Promote(s, id).state == s
    ensures level < 3 ==>
              var t := Promote(s, id).state;
              && t.queues[level + 1]
                 == s.queues[level + 1]
                  + [QueueMessage(m.id, m.data, level + 1, m.enqueueTime, (m.promotionCount + 1) % 0x1_0000)]
              && multiset(t.queues[level])[x] == (if x.id == id then 0 else multiset(s.queues[level])[x])
              && ((forall i :: 0 <= i < |b| ==> b[i].id != id) ==> t.queues[level] == a + b)
              && (forall k :: 0 <= k < 4 && k != level && k != level + 1 ==> t.queues[k] == s.queues[k])
              && t.total == s.total && t.moves == (s.moves + 1) % 0x1_0000_0000_0000_0000
  {
    hide Keep, LevelHolding, First, FoundAt;
    FoundLevel(s, id, level, a, m, b);
    FoundParts(s, id, level, a, m, b);
    if level < 3 {
      WithoutId(s.queues[level], id, x);
      if forall i :: 0 <= i < |b| ==> b[i].id != id {
        MoveKeepsOrder(s, level, level + 1, a, m, b, Promoted(m, level + 1));
      }
    }
  }

  lemma FoundParts(s: State, id: uint32, level: nat, a: Level, m: QueueMessage, b: Level)
    requires FourLevels(s) && FoundAt(s, id, level, a, m, b)
    ensures level < 4 && s.queues[level] == a + [m] + b && m.id == id
    ensures !Holds(a, id)
    ensures (forall i :: 0 <= i < |b| ==> b[i].id != id) ==> !Holds(b, id)
  {
  }

  /** Demotion likewise, down to the level below, with no promotions left; the lowest level refuses it. */
  lemma DemoteMeaning(s: State, id: uint32, level: nat, a: Level, m: QueueMessage, b: Level, x: QueueMessage)
    requires FourLevels(s) && FoundAt(s, id, level, a, m, b)
    ensures Demote(s, id).ok <==> level > 0
    ensures level == 0 ==> Demote(s, id).state == s
    ensures level > 0 ==>
              var t := Demote(s, id).state;
              && t.queues[level - 1]
                 == s.queues[level - 1] + [QueueMessage(m.id, m.data, level - 1, m.enqueueTime, 0)]
              && multiset(t.queues[level])[x] == (if x.id == id then 0 else multiset(s.queues[level])[x])
              && ((forall i :: 0 <= i < |b| ==> b[i].id != id) ==> t.queues[level] == a + b)
              && (forall k :: 0 <= k < 4 && k != level && k != level - 1 ==> t.queues[k] == s.queues[k])
              && t.total == s.total && t.moves == (s.moves + 1) % 0x1_0000_0000_0000_0000
  {
    hide Keep, LevelHolding, First, FoundAt;
    FoundLevel(s, id, level, a, m, b);
    FoundParts(s, id, level, a, m, b);
    if level > 0 {
      WithoutId(s.queues[level], id, x);
      if forall i :: 0 <= i < |b| ==> b[i].id != id {
        MoveKeepsOrder(s, level, level - 1, a, m, b, Demoted(m, level - 1));
      }
    }
  }

  /** An identifier that is not held is neither promoted nor demoted. */
  lemma NotFound(s: State, id: uint32)
    requires FourLevels(s)
    requires forall k, i :: 0 <= k < 4 && 0 <= i < |s.queues[k]| ==> s.queues[k][i].id != id
    ensures Promote(s, id) == Outcome(s, false) && Demote(s, id) == Outcome(s, false)
  {
    hide LevelHolding;
    assert LevelHolding(s.queues, id, 0) == LEVELS;
  }

  /**
   * What a level holds after reprioritizing: what it held with fewer than a hundred promotions
   * (in the highest level, all of it), and what the level below held with a hundred or more,
   * with the new priority, no promotions, and everything else as it was.
   */
  lemma ReprioritizeMeaning(s: State, level: nat, m: QueueMessage)
    requires FourLevels(s) && level < 4
    ensures m in Reprioritize(s).queues[level]
       <==> || (m in s.queues[level] && (level < 3 ==> m.promotionCount < 100))
            || (level > 0 && exists o :: o in s.queues[level - 1] && o.promotionCount >= 100
                                         && m == QueueMessage(o.id, o.data, level, o.enqueueTime, 0))
    ensures Reprioritize(s).total == s.total && Reprioritize(s).moves == s.moves
  {
    hide Reprioritize;
    ReprioritizeClimbsOne(s, level, m);
    ReprioritizeCounts(s);
    if level > 0 {
      ComesMeaning(s.queues[level - 1], level, m);
    }
  }

  lemma ReprioritizeCounts(s: State)
    requires FourLevels(s)
    ensures Reprioritize(s).total == s.total && Reprioritize(s).moves == s.moves
  {
  }

  lemma ComesMeaning(below: Level, level: nat, m: QueueMessage)
    requires level < 4
    ensures Comes(below, level, m)
       <==> exists o :: o in below && o.promotionCount >= 100
                        && m == QueueMessage(o.id, o.data, level, o.enqueueTime, 0)
  {
    assert forall o: QueueMessage :: Demoted(o, level) == QueueMessage(o.id, o.data, level, o.enqueueTime, 0);
  }

  // ----- order -----

  /** Somewhere in the level x comes before y. */
  ghost predicate Before(q: Level, x: QueueMessage, y: QueueMessage) {
    exists i, j :: 0 <= i < j < |q| && q[i] == x && q[j] == y
  }

  lemma {:induction false} KeepBefore(q: Level, p: QueueMessage -> bool, x: QueueMessage, y: QueueMessage)
    requires Before(q, x, y) && p(x) && p(y)
    ensures Before(Keep(q, p), x, y)
    decreases |q|
  {
    hide Keep;
    var i, j :| 0 <= i < j < |q| && q[i] == x && q[j] == y;
    assert q == q[..j] + q[j..] && q[..j][i] == x && q[j..][0] == y;
    KeepConcat(q[..j], q[j..], p);
    KeepMember(q[..j], p, x);
    KeepMember(q[j..], p, y);
    InOrder(Keep(q[..j], p), Keep(q[j..], p), x, y);
  }

  lemma InOrder(a: Level, b: Level, x: QueueMessage, y: QueueMessage)
    requires x in a && y in b
    ensures Before(a + b, x, y)
  {
    var i :| 0 <= i < |a| && a[i] == x;
    var j :| 0 <= j < |b| && b[j] == y;
    assert (a + b)[i] == x && (a + b)[|a| + j] == y;
  }

  lemma BeforeWithin(a: Level, b: Level, x: QueueMessage, y: QueueMessage)
    ensures Before(a, x, y) ==> Before(a + b, x, y)
    ensures Before(b, x, y) ==> Before(a + b, x, y)
  {
    if Before(a, x, y) {
      var i, j :| 0 <= i < j < |a| && a[i] == x && a[j] == y;
      assert (a + b)[i] == x && (a + b)[j] == y;
    }
    if Before(b, x, y) {
      var i, j :| 0 <= i < j < |b| && b[i] == x && b[j] == y;
      assert (a + b)[|a| + i] == x && (a + b)[|a| + j] == y;
    }
  }

  lemma RaisedBefore(q: Level, level: nat, x: QueueMessage, y: QueueMessage)
    requires level < LEVELS && Before(q, x, y)
    ensures Before(Raised(q, level), Demoted(x, level), Demoted(y, level))
  {
    var i, j :| 0 <= i < j < |q| && q[i] == x && q[j] == y;
    assert Raised(q, level)[i] == Demoted(x, level) && Raised(q, level)[j] == Demoted(y, level);
  }

  /** Expiry keeps the order of the messages that stay. */
  lemma ExpireKeepsOrder(s: State, now: uint32, maxAge: uint32, level: nat, x: QueueMessage, y: QueueMessage)
    requires FourLevels(s) && level < 4 && Before(s.queues[level], x, y)
    requires x in ExpireOld(s, now, maxAge).queues[level] && y in ExpireOld(s, now, maxAge).queues[level]
    ensures Before(ExpireOld(s, now, maxAge).queues[level], x, y)
  {
    hide Keep, Before;
    KeepMember(s.queues[level], Young(now, maxAge), x);
    KeepMember(s.queues[level], Young(now, maxAge), y);
    KeepBefore(s.queues[level], Young(now, maxAge), x, y);
  }

  /**
   * Reprioritizing keeps the order of the messages that stay in a level and of those that come
   * up from the one below, and those that stay come before those that come up.
   */
  lemma ReprioritizeKeepsOrder(s: State, level: nat, x: QueueMessage, y: QueueMessage)
    requires FourLevels(s) && level < 4
    ensures Before(s.queues[level], x, y) && (level < 3 ==> x.promotionCount < 100 && y.promotionCount < 100) ==>
              Before(Reprioritize(s).queues[level], x, y)
    ensures level > 0 && Before(s.queues[level - 1], x, y) && x.promotionCount >= 100 && y.promotionCount >= 100 ==>
              Before(Reprioritize(s).queues[level], x.(priority := level, promotionCount := 0),
                     y.(priority := level, promotionCount := 0))
    ensures level > 0 && x in s.queues[level] && (level < 3 ==> x.promotionCount < 100)
            && y in s.queues[level - 1] && y.promotionCount >= 100 ==>
              Before(Reprioritize(s).queues[level], x, y.(priority := level, promotionCount := 0))
  {
    hide Keep, Raised, Before, Reprioritize, Reprioritized;
    AtLevel(s, level);
    ReprioritizedParts(s.queues, level);
    var stay := if level == 3 then s.queues[level] else Keep(s.queues[level], NotOverdue());
    var come := if level == 0 then [] else Keep(s.queues[level - 1], Overdue());
    KeepMember(s.queues[level], NotOverdue(), x);
    if Before(s.queues[level], x, y) && (level < 3 ==> x.promotionCount < 100 && y.promotionCount < 100) {
      if level < 3 { KeepBefore(s.queues[level], NotOverdue(), x, y); }
      BeforeWithin(stay, Raised(come, level), x, y);
    }
    if level > 0 {
      KeepMember(s.queues[level - 1], Overdue(), y);
      if Before(s.queues[level - 1], x, y) && x.promotionCount >= 100 && y.promotionCount >= 100 {
        KeepBefore(s.queues[level - 1], Overdue(), x, y);
        RaisedBefore(come, level, x, y);
        BeforeWithin(stay, Raised(come, level), Demoted(x, level), Demoted(y, level));
      }
      if x in stay && y in come {
        RaisedHas(come, level, y);
        InOrder(stay, Raised(come, level), x, Demoted(y, level));
      }
    }
  }

  lemma ReprioritizedParts(queues: seq<Level>, level: nat)
    requires |queues| == LEVELS && level < LEVELS
    ensures Reprioritized(queues, level)
         == (if level == 3 then queues[level] else Keep(queues[level], NotOverdue()))
          + Raised(if level == 0 then [] else Keep(queues[level - 1], Overdue()), level)
  {
    hide Keep;
  }

  lemma RaisedHas(q: Level, level: nat, m: QueueMessage)
    requires level < LEVELS && m in q
    ensures Demoted(m, level) in Raised(q, level)
  {
    var i :| 0 <= i < |q| && q[i] == m;
    assert Raised(q, level)[i] == Demoted(m, level);
  }


  /** Everything repeated dequeuing yields. */
  function Drain(s: State): seq<QueueMessage>
    requires FourLevels(s)
    decreases Sum(s.queues)
  {
    match Dequeue(s)
    case Nothing => []
    case Taken(m, next) =>
      DequeueSize(s);
      [m] + Drain(next)
  }

  /** Repeated dequeuing yields the critical level first and the low one last, each first in, first out. */
  lemma {:induction false} DrainOrder(s: State)
    requires FourLevels(s)
    ensures Drain(s) == s.queues[3] + s.queues[2] + s.queues[1] + s.queues[0]
    decreases Sum(s.queues)
  {
    hide Sum, HighestBelow;
    var level := HighestBelow(s.queues, LEVELS);
    if level >= 0 {
      var q, next := s.queues[level], Dequeue(s).state;
      DequeueSize(s);
      DrainOrder(next);
      assert q == [q[0]] + q[1..];
    }
  }

  lemma TwoCopies(m: QueueMessage)
    requires m.priority == 1
    ensures Enqueue(EMPTY, m) == Outcome(State([[], [m], [], []], 1, 0), true)
    ensures Enqueue(State([[], [m], [], []], 1, 0), m) == Outcome(State([[], [m, m], [], []], 2, 0), true)
  {
    var none: Level := [];
    var once: seq<Level> := [none, [m], none, none];
    assert none + [m] == [m];
    assert EMPTY.queues[1 := [m]] == once;
    assert [m] + [m] == [m, m];
    assert once[1 := [m, m]] == [none, [m, m], none, none];
  }

  lemma RunFirst(s: State, op: Op, ops: seq<Op>)
    requires FourLevels(s)
    ensures Run(s, [op] + ops) == Run(Step(s, op), ops)
    ensures Run(s, []) == s
  {
    hide Step;
    assert ([op] + ops)[1..] == ops;
  }

  lemma PromoteOneOfTwo(m: QueueMessage)
    ensures var s := State([[], [m, m], [], []], 2, 0);
            Promote(s, m.id).state.total == 2 && Sum(Promote(s, m.id).state.queues) == 1
  {
    hide Sum;
    var s := State([[], [m, m], [], []], 2, 0);
    KeepAll([m, m], HasId(m.id));
    assert !Holds([], m.id) && Holds([m, m], m.id) by {
      assert [m, m][0].id == m.id;
    }
    MoveLoses(s, m.id, 1, 2, Promoted(First([m, m], m.id), 2));
    assert Sum(s.queues) == 2 by { SumOfTwo(m); }
  }

  lemma SumOfTwo(m: QueueMessage)
    ensures Sum([[], [m, m], [], []]) == 2
  {
  }

  /** A repeated identifier loses a message on promotion while the counter still counts two. */
  lemma DuplicateIdLosesMessage(m: QueueMessage)
    requires m.priority == 1
    ensures var s := Run(EMPTY, [OpEnqueue(m), OpEnqueue(m), OpPromote(m.id)]);
            s.total == 2 && Sum(s.queues) == 1
  {
    hide Run, Sum, Promote, Enqueue;
    var s1, s2 := State([[], [m], [], []], 1, 0), State([[], [m, m], [], []], 2, 0);
    TwoCopies(m);
    PromoteOneOfTwo(m);
    RunFirst(EMPTY, OpEnqueue(m), [OpEnqueue(m), OpPromote(m.id)]);
    RunFirst(s1, OpEnqueue(m), [OpPromote(m.id)]);
    RunFirst(s2, OpPromote(m.id), []);
    RunFirst(Promote(s2, m.id).state, OpDequeue, []);
    assert [OpEnqueue(m)] + [OpEnqueue(m), OpPromote(m.id)] == [OpEnqueue(m), OpEnqueue(m), OpPromote(m.id)];
    assert [OpEnqueue(m)] + [OpPromote(m.id)] == [OpEnqueue(m), OpPromote(m.id)];
    assert [OpPromote(m.id)] + [] == [OpPromote(m.id)];
  }
}
