/** The sliding-window rate limiter, and what it guarantees over whole runs. */
module RateLimiter {
  import opened Bytes

  datatype RateLimitConfig = RateLimitConfig(keyId: uint32, maxEvents: uint32, windowMs: uint32)

  /** The configuration of a key and the acceptance times still remembered for it, oldest first. */
  datatype Bucket = Bucket(config: RateLimitConfig, timestamps: seq<uint32>)

  // ----- one call -----

  function Cutoff(windowMs: uint32, now: uint32): uint32 {
    if now > windowMs then now - windowMs else 0
  }

  /** Drops times from the front while they lie before the cutoff. */
  function Pruned(times: seq<uint32>, cutoff: uint32): seq<uint32>
    decreases |times|
  {
    if times != [] && times[0] < cutoff then Pruned(times[1..], cutoff) else times
  }

  datatype Answer = Answer(bucket: Bucket, accepted: bool)

  function Ask(b: Bucket, now: uint32): Answer {
    var kept := Pruned(b.timestamps, Cutoff(b.config.windowMs, now));
    if |kept| >= b.config.maxEvents then Answer(b.(timestamps := kept), false)
    else Answer(b.(timestamps := kept + [now]), true)
  }

  class RateLimiter {
    var buckets: map<uint32, Bucket>

    constructor ()
      ensures buckets == map[]
    {
      buckets := map[];
    }

    /** Sets the configuration of a key; times already remembered for it stay. */
    method Configure(cfg: RateLimitConfig) returns (ok: bool)
      modifies this
      ensures ok
      ensures buckets == Step(old(buckets), OpConfigure(cfg))
      ensures cfg.keyId in buckets && buckets[cfg.keyId].config == cfg
      ensures buckets[cfg.keyId].timestamps
           == if cfg.keyId in old(buckets) then old(buckets)[cfg.keyId].timestamps else []
      ensures buckets - {cfg.keyId} == old(buckets) - {cfg.keyId}
    {
      var times := if cfg.keyId in buckets then buckets[cfg.keyId].timestamps else [];
      buckets := buckets[cfg.keyId := Bucket(cfg, times)];
      return true;
    }

    /** Decides one event; a key without a bucket is not limited. */
    method Allow(keyId: uint32, now: uint32) returns (accepted: bool)
      modifies this
      ensures buckets == Step(old(buckets), OpAllow(keyId, now))
      ensures accepted == (keyId !in old(buckets) || Ask(old(buckets)[keyId], now).accepted)
      ensures keyId !in old(buckets) ==> accepted && buckets == old(buckets)
      ensures buckets.Keys == old(buckets).Keys && buckets - {keyId} == old(buckets) - {keyId}
    {
      if keyId !in buckets { return true; }
      var bucket := buckets[keyId];
      var cutoff: uint32 := if now > bucket.config.windowMs then now - bucket.config.windowMs else 0;
      var times: seq<uint32> := bucket.timestamps;
      while times != [] && times[0] < cutoff
        invariant Pruned(times, cutoff) == Pruned(bucket.timestamps, cutoff)
        decreases |times|
      {
        times := times[1..];
      }
      if |times| >= bucket.config.maxEvents {
        buckets := buckets[keyId := bucket.(timestamps := times)];
        return false;
      }
      buckets := buckets[keyId := bucket.(timestamps := times + [now])];
      return true;
    }

    /** Forgets the times of a key but keeps its configuration. */
    method Reset(keyId: uint32)
      modifies this
      ensures buckets == Step(old(buckets), OpReset(keyId))
      ensures keyId in old(buckets) ==>
                buckets == old(buckets)[keyId := Bucket(old(buckets)[keyId].config, [])]
      ensures keyId !in old(buckets) ==> buckets == old(buckets)
    {
      if keyId in buckets {
        buckets := buckets[keyId := buckets[keyId].(timestamps := [])];
      }
    }
  }

  // ----- whole runs -----

  datatype Op = OpConfigure(cfg: RateLimitConfig) | OpAllow(key: uint32, now: uint32) | OpReset(key: uint32) {
    function Target(): uint32 {
      if OpConfigure? then cfg.keyId else key
    }
  }

  function Step(buckets: map<uint32, Bucket>, op: Op): map<uint32, Bucket> {
    match op
    case OpConfigure(cfg) =>
      buckets[cfg.keyId := Bucket(cfg, if cfg.keyId in buckets then buckets[cfg.keyId].timestamps else [])]
    case OpAllow(key, now) =>
      if key in buckets then buckets[key := Ask(buckets[key], now).bucket] else buckets
    case OpReset(key) =>
      if key in buckets then buckets[key := buckets[key].(timestamps := [])] else buckets
  }

  function Run(buckets: map<uint32, Bucket>, ops: seq<Op>): map<uint32, Bucket>
    decreases |ops|
  {
    if ops == [] then buckets else Run(Step(buckets, ops[0]), ops[1..])
  }

  /** The times of the events of one key accepted during a run, in order. */
  function Accepted(buckets: map<uint32, Bucket>, ops: seq<Op>, key: uint32): seq<uint32>
    decreases |ops|
  {
    if ops == [] then []
    else
      (if ops[0].OpAllow? && ops[0].key == key && (key !in buckets || Ask(buckets[key], ops[0].now).accepted)
       then [ops[0].now] else [])
      + Accepted(Step(buckets, ops[0]), ops[1..], key)
  }

  /** The events of one key, on its bucket alone. */
  function AcceptedAlone(b: Bucket, calls: seq<uint32>): seq<uint32>
    decreases |calls|
  {
    if calls == [] then []
    else (if Ask(b, calls[0]).accepted then [calls[0]] else []) + AcceptedAlone(Ask(b, calls[0]).bucket, calls[1..])
  }

  /** The times of the calls a run makes on one key. */
  function CallsOn(ops: seq<Op>, key: uint32): seq<uint32> {
    if ops == [] then []
    else (if ops[0].OpAllow? && ops[0].key == key then [ops[0].now] else []) + CallsOn(ops[1..], key)
  }

  /** In a run, nothing but event calls happens to the key. */
  ghost predicate OnlyCalls(ops: seq<Op>, key: uint32) {
    forall i :: 0 <= i < |ops| && ops[i].Target() == key ==> ops[i].OpAllow?
  }

  /** Whatever happens to other keys has no effect on the events of this one. */
  lemma {:induction false} OtherKeysIrrelevant(buckets: map<uint32, Bucket>, ops: seq<Op>, key: uint32)
    requires key in buckets && OnlyCalls(ops, key)
    ensures Accepted(buckets, ops, key) == AcceptedAlone(buckets[key], CallsOn(ops, key))
    decreases |ops|
  {
    hide Ask;
    if ops != [] {
      var op, rest := ops[0], ops[1..];
      var next := Step(buckets, op);
      assert OnlyCalls(rest, key) by {
        assert forall i :: 0 <= i < |rest| ==> rest[i] == ops[i + 1];
      }
      StepOnKey(buckets, op, key);
      OtherKeysIrrelevant(next, rest, key);
      if op.Target() == key {
        assert op.OpAllow?;
        AloneFirst(buckets[key], op.now, CallsOn(rest, key));
      } else {
        assert [] + Accepted(next, rest, key) == Accepted(next, rest, key);
        assert [] + CallsOn(rest, key) == CallsOn(rest, key);
      }
    }
  }

  lemma StepOnKey(buckets: map<uint32, Bucket>, op: Op, key: uint32)
    requires key in buckets && (op.Target() == key ==> op.OpAllow?)
    ensures key in Step(buckets, op)
    ensures Step(buckets, op)[key] == if op.Target() == key then Ask(buckets[key], op.now).bucket else buckets[key]
  {
    hide Ask;
  }

  lemma AloneFirst(b: Bucket, now: uint32, calls: seq<uint32>)
    ensures AcceptedAlone(b, [now] + calls)
         == (if Ask(b, now).accepted then [now] else []) + AcceptedAlone(Ask(b, now).bucket, calls)
  {
    hide Ask;
    assert ([now] + calls)[1..] == calls;
  }

  // ----- counting acceptances -----

  /** How many of the times lie between lo and hi, both ends included. */
  function CountIn(times: seq<uint32>, lo: int, hi: int): nat {
    if times == [] then 0
    else (if lo <= times[0] <= hi then 1 else 0) + CountIn(times[1..], lo, hi)
  }

  ghost predicate Sorted(times: seq<uint32>) {
    forall i, j :: 0 <= i <= j < |times| ==> times[i] <= times[j]
  }

  /** From a position on, any n + 1 consecutive times span more than the window. */
  ghost predicate SpacedSince(times: seq<uint32>, from: nat, n: nat, windowMs: uint32) {
    forall i, j :: from <= i && i + n <= j < |times| ==> times[i] + windowMs < times[j]
  }

  ghost predicate Spaced(times: seq<uint32>, n: nat, windowMs: uint32) {
    SpacedSince(times, 0, n, windowMs)
  }

  lemma SpacedRest(prior: seq<uint32>, times: seq<uint32>, n: nat, windowMs: uint32)
    requires SpacedSince(prior + times, |prior|, n, windowMs)
    ensures Spaced(times, n, windowMs)
  {
    var all := prior + times;
    forall i, j | 0 <= i && i + n <= j < |times|
      ensures times[i] + windowMs < times[j]
    {
      assert times[i] == all[|prior| + i] && times[j] == all[|prior| + j];
    }
  }

  lemma {:induction false} CountNone(times: seq<uint32>, lo: int, hi: int)
    requires forall i :: 0 <= i < |times| ==> !(lo <= times[i] <= hi)
    ensures CountIn(times, lo, hi) == 0
    decreases |times|
  {
    if times != [] {
      CountNone(times[1..], lo, hi);
    }
  }

  lemma {:induction false} CountAtMostLength(times: seq<uint32>, lo: int, hi: int)
    ensures CountIn(times, lo, hi) <= |times|
    decreases |times|
  {
    if times != [] {
      CountAtMostLength(times[1..], lo, hi);
    }
  }

  lemma {:induction false} CountAll(times: seq<uint32>, lo: int, hi: int)
    requires forall i :: 0 <= i < |times| ==> lo <= times[i] <= hi
    ensures CountIn(times, lo, hi) == |times|
    decreases |times|
  {
    if times != [] {
      CountAll(times[1..], lo, hi);
    }
  }

  lemma {:induction false} CountConcat(a: seq<uint32>, b: seq<uint32>, lo: int, hi: int)
    ensures CountIn(a + b, lo, hi) == CountIn(a, lo, hi) + CountIn(b, lo, hi)
    decreases |a|
  {
    if a == [] {
      assert a + b == b;
    } else {
      assert (a + b)[1..] == a[1..] + b;
      CountConcat(a[1..], b, lo, hi);
    }
  }

  lemma SpacedPair(times: seq<uint32>, n: nat, w: uint32, i: nat, j: nat)
    requires Spaced(times, n, w) && i + n <= j < |times|
    ensures times[i] + w < times[j]
  {
  }

  lemma SpacedTail(times: seq<uint32>, n: nat, w: uint32)
    requires times != [] && Spaced(times, n, w)
    ensures Spaced(times[1..], n, w)
  {
  }

  lemma SortedTail(times: seq<uint32>)
    requires times != [] && Sorted(times)
    ensures Sorted(times[1..])
  {
  }

  /** From a time inside the window on, no more than n times follow before the window ends. */
  lemma SpacedFrom(times: seq<uint32>, n: nat, windowMs: uint32, t: int)
    requires Spaced(times, n, windowMs) && times != [] && t - windowMs <= times[0]
    ensures CountIn(times, t - windowMs, t) <= n
  {
    hide Spaced, CountIn;
    if |times| > n {
      var early, late := times[..n], times[n..];
      assert times == early + late;
      forall i | 0 <= i < |late|
        ensures late[i] > t
      {
        SpacedPair(times, n, windowMs, 0, n + i);
      }
      CountConcat(early, late, t - windowMs, t);
      CountNone(late, t - windowMs, t);
      CountAtMostLength(early, t - windowMs, t);
    } else {
      CountAtMostLength(times, t - windowMs, t);
    }
  }

  /** Spaced times never crowd a window. */
  lemma {:induction false} SpacedWindow(times: seq<uint32>, n: nat, windowMs: uint32, t: int)
    requires Spaced(times, n, windowMs)
    ensures CountIn(times, t - windowMs, t) <= n
    decreases |times|
  {
    hide CountIn, Spaced;
    if times == [] {
      CountNone(times, t - windowMs, t);
    } else if t - windowMs <= times[0] {
      SpacedFrom(times, n, windowMs, t);
    } else {
      SpacedTail(times, n, windowMs);
      SpacedWindow(times[1..], n, windowMs, t);
      CountConcat([times[0]], times[1..], t - windowMs, t);
      CountNone([times[0]], t - windowMs, t);
      assert times == [times[0]] + times[1..];
    }
  }

  // ----- the invariant of a run -----

  ghost predicate AllBefore(times: seq<uint32>, t: int) {
    forall i :: 0 <= i < |times| ==> times[i] < t
  }

  ghost predicate AllFrom(times: seq<uint32>, t: int) {
    forall i :: 0 <= i < |times| ==> t <= times[i]
  }

  ghost predicate AllUpTo(times: seq<uint32>, t: int) {
    forall i :: 0 <= i < |times| ==> times[i] <= t
  }

  function Dropped(times: seq<uint32>, cutoff: uint32): seq<uint32>
    decreases |times|
  {
    if times != [] && times[0] < cutoff then [times[0]] + Dropped(times[1..], cutoff) else []
  }

  lemma {:induction false} PruneSplits(times: seq<uint32>, cutoff: uint32)
    requires Sorted(times)
    ensures times == Dropped(times, cutoff) + Pruned(times, cutoff)
    ensures AllBefore(Dropped(times, cutoff), cutoff)
    ensures AllFrom(Pruned(times, cutoff), cutoff)
    ensures Sorted(Pruned(times, cutoff))
    decreases |times|
  {
    hide Sorted, AllBefore, AllFrom;
    if times != [] && times[0] < cutoff {
      SortedTail(times);
      PruneSplits(times[1..], cutoff);
      BeforePrepend(times[0], Dropped(times[1..], cutoff), cutoff);
      HeadAndTail(times, Dropped(times[1..], cutoff), Pruned(times[1..], cutoff));
    } else {
      NothingBefore(cutoff);
      SortedFrom(times, cutoff);
    }
  }

  lemma HeadAndTail(times: seq<uint32>, a: seq<uint32>, b: seq<uint32>)
    requires times != [] && times[1..] == a + b
    ensures times == ([times[0]] + a) + b
  {
    assert times == [times[0]] + times[1..];
  }

  lemma SortedFrom(times: seq<uint32>, t: int)
    requires Sorted(times) && (times != [] ==> t <= times[0])
    ensures AllFrom(times, t)
  {
  }

  lemma BeforePrepend(first: uint32, rest: seq<uint32>, t: int)
    requires first < t && AllBefore(rest, t)
    ensures AllBefore([first] + rest, t)
  {
  }

  lemma NothingBefore(t: int)
    ensures AllBefore([], t)
  {
  }

  /**
   * All acceptances so far are the forgotten ones followed by what the bucket remembers, in
   * order; the forgotten ones lie before the window of the latest call; and those after the
   * first `prior`, which may come from another configuration, are well spaced.
   */
  ghost predicate Remembers(b: Bucket, forgotten: seq<uint32>, prior: nat, now: uint32) {
    && Sorted(b.timestamps)
    && AllUpTo(b.timestamps, now)
    && AllBefore(forgotten, now - b.config.windowMs)
    && Sorted(forgotten + b.timestamps)
    && SpacedSince(forgotten + b.timestamps, prior, b.config.maxEvents, b.config.windowMs)
  }

  lemma BeforeConcat(a: seq<uint32>, b: seq<uint32>, t: int)
    requires AllBefore(a, t) && AllBefore(b, t)
    ensures AllBefore(a + b, t)
  {
  }

  lemma UpToLater(times: seq<uint32>, s: int, t: int)
    requires AllUpTo(times, s) && s <= t
    ensures AllUpTo(times, t)
  {
  }

  lemma UpToSuffix(a: seq<uint32>, b: seq<uint32>, t: int)
    requires AllUpTo(a + b, t)
    ensures AllUpTo(b, t)
  {
    assert forall i :: 0 <= i < |b| ==> b[i] == (a + b)[|a| + i];
  }

  lemma BeforeLater(times: seq<uint32>, s: int, t: int)
    requires AllBefore(times, s) && s <= t
    ensures AllBefore(times, t)
  {
  }

  /** Pruning loses nothing that counts: what is kept are exactly the acceptances in the window of the call. */
  lemma PruneKeepsWindow(b: Bucket, forgotten: seq<uint32>, prior: nat, last: uint32, now: uint32)
    requires Remembers(b, forgotten, prior, last) && last <= now
    ensures var cutoff := Cutoff(b.config.windowMs, now);
            var kept, gone := Pruned(b.timestamps, cutoff), forgotten + Dropped(b.timestamps, cutoff);
            && gone + kept == forgotten + b.timestamps
            && Remembers(b.(timestamps := kept), gone, prior, now)
            && |kept| == CountIn(forgotten + b.timestamps, now - b.config.windowMs, now)
  {
    hide CountIn, Pruned, Dropped, Sorted, SpacedSince, AllBefore, AllUpTo;
    var w, cutoff := b.config.windowMs, Cutoff(b.config.windowMs, now);
    var kept, dropped := Pruned(b.timestamps, cutoff), Dropped(b.timestamps, cutoff);
    PruneSplits(b.timestamps, cutoff);
    assert forgotten + (dropped + kept) == (forgotten + dropped) + kept;
    BeforeLater(forgotten, last - w, now - w);
    DroppedBeforeWindow(dropped, cutoff, now - w);
    BeforeConcat(forgotten, dropped, now - w);
    UpToSuffix(dropped, kept, last);
    UpToLater(kept, last, now);
    CountConcat(forgotten + dropped, kept, now - w, now);
    CountBefore(forgotten + dropped, now - w, now);
    KeptInWindow(kept, cutoff, now - w, now);
  }

  lemma DroppedBeforeWindow(dropped: seq<uint32>, cutoff: uint32, start: int)
    requires AllBefore(dropped, cutoff) && cutoff == if start > 0 then start else 0
    ensures AllBefore(dropped, start)
  {
  }

  lemma CountBefore(times: seq<uint32>, lo: int, hi: int)
    requires AllBefore(times, lo)
    ensures CountIn(times, lo, hi) == 0
  {
    hide CountIn;
    CountNone(times, lo, hi);
  }

  lemma KeptInWindow(kept: seq<uint32>, cutoff: uint32, start: int, now: int)
    requires AllFrom(kept, cutoff) && AllUpTo(kept, now) && start <= cutoff
    ensures CountIn(kept, start, now) == |kept|
  {
    hide CountIn;
    CountAll(kept, start, now);
  }

  lemma SortedAppend(times: seq<uint32>, now: uint32)
    requires Sorted(times) && AllUpTo(times, now)
    ensures Sorted(times + [now])
  {
  }

  lemma UpToAll(gone: seq<uint32>, kept: seq<uint32>, start: int, now: int)
    requires AllBefore(gone, start) && AllUpTo(kept, now) && start <= now
    ensures AllUpTo(gone + kept, now)
  {
  }

  lemma SpacedAppend(gone: seq<uint32>, kept: seq<uint32>, prior: nat, n: nat, w: uint32, now: uint32)
    requires SpacedSince(gone + kept, prior, n, w) && AllBefore(gone, now - w) && |kept| < n
    ensures SpacedSince(gone + kept + [now], prior, n, w)
  {
    var all := gone + kept;
    forall i, j | prior <= i && i + n <= j < |all + [now]|
      ensures (all + [now])[i] + w < (all + [now])[j]
    {
      if j == |all| {
        assert all[i] == gone[i];
      }
    }
  }

  /** The acceptances forgotten once a call at `now` has been answered. */
  function Forgotten(b: Bucket, forgotten: seq<uint32>, now: uint32): seq<uint32> {
    forgotten + Dropped(b.timestamps, Cutoff(b.config.windowMs, now))
  }

  /**
   * An event is accepted exactly when fewer than the maximum were accepted in its window, and
   * the invariant is kept.
   */
  lemma AskExact(b: Bucket, forgotten: seq<uint32>, prior: nat, last: uint32, now: uint32)
    requires Remembers(b, forgotten, prior, last) && last <= now
    ensures var a, gone := Ask(b, now), Forgotten(b, forgotten, now);
            && a.accepted
               == (CountIn(forgotten + b.timestamps, now - b.config.windowMs, now) < b.config.maxEvents)
            && gone + a.bucket.timestamps
               == forgotten + b.timestamps + (if a.accepted then [now] else [])
            && a.bucket.config == b.config
            && Remembers(a.bucket, gone, prior, now)
  {
    hide CountIn, Pruned, Dropped, Sorted, SpacedSince, AllBefore, AllUpTo;
    PruneKeepsWindow(b, forgotten, prior, last, now);
    var w, kept := b.config.windowMs, Pruned(b.timestamps, Cutoff(b.config.windowMs, now));
    var gone := Forgotten(b, forgotten, now);
    assert forgotten + b.timestamps + [] == forgotten + b.timestamps;
    if Ask(b, now).accepted {
      assert gone + (kept + [now]) == (gone + kept) + [now];
      SortedAppend(kept, now);
      UpToAll(gone, kept, now - w, now);
      SortedAppend(gone + kept, now);
      SpacedAppend(gone, kept, prior, b.config.maxEvents, w, now);
      UpToNow(kept, now);
    }
  }

  lemma UpToNow(times: seq<uint32>, now: uint32)
    requires AllUpTo(times, now)
    ensures AllUpTo(times + [now], now)
  {
  }

  ghost predicate NonDecreasing(calls: seq<uint32>, from: uint32) {
    calls != [] ==> from <= calls[0] && NonDecreasing(calls[1..], calls[0])
  }

  lemma {:induction false} SpacedRun(
    b: Bucket, forgotten: seq<uint32>, prior: nat, last: uint32, calls: seq<uint32>)
    requires Remembers(b, forgotten, prior, last) && NonDecreasing(calls, last)
    ensures var all := forgotten + b.timestamps + AcceptedAlone(b, calls);
            Sorted(all) && SpacedSince(all, prior, b.config.maxEvents, b.config.windowMs)
    decreases |calls|
  {
    hide Ask, CountIn, Sorted, SpacedSince, AllBefore, AllUpTo, Forgotten;
    if calls == [] {
      assert forgotten + b.timestamps + [] == forgotten + b.timestamps;
    } else {
      var a, gone := Ask(b, calls[0]), Forgotten(b, forgotten, calls[0]);
      AskExact(b, forgotten, prior, last, calls[0]);
      SpacedRun(a.bucket, gone, prior, calls[0], calls[1..]);
      var rest := AcceptedAlone(a.bucket, calls[1..]);
      assert forgotten + b.timestamps + AcceptedAlone(b, calls)
          == forgotten + b.timestamps + (if a.accepted then [calls[0]] else []) + rest;
    }
  }

  // ----- the guarantees -----

  /** What is remembered for the key is in order and not later than the given time. */
  ghost predicate Settled(buckets: map<uint32, Bucket>, key: uint32, last: uint32) {
    key in buckets ==> Sorted(buckets[key].timestamps) && AllUpTo(buckets[key].timestamps, last)
  }

  /** The time of the latest call, or the given time when there is none. */
  function Latest(calls: seq<uint32>, last: uint32): uint32 {
    if calls == [] then last else Latest(calls[1..], calls[0])
  }

  lemma {:induction false} PrunedSettled(times: seq<uint32>, cutoff: uint32, last: uint32)
    requires Sorted(times) && AllUpTo(times, last)
    ensures Sorted(Pruned(times, cutoff)) && AllUpTo(Pruned(times, cutoff), last)
    decreases |times|
  {
    if times != [] && times[0] < cutoff {
      PrunedSettled(times[1..], cutoff, last);
    }
  }

  lemma SettledStep(buckets: map<uint32, Bucket>, op: Op, key: uint32, last: uint32)
    requires Settled(buckets, key, last)
    requires op.OpAllow? && op.key == key ==> last <= op.now
    ensures Settled(Step(buckets, op), key, if op.OpAllow? && op.key == key then op.now else last)
  {
    hide Pruned, Sorted, AllUpTo;
    NothingSettled(last);
    if op.OpAllow? && op.key == key && key in buckets {
      var b := buckets[key];
      var kept := Pruned(b.timestamps, Cutoff(b.config.windowMs, op.now));
      PrunedSettled(b.timestamps, Cutoff(b.config.windowMs, op.now), last);
      UpToLater(kept, last, op.now);
      SortedAppend(kept, op.now);
      UpToNow(kept, op.now);
    }
  }

  lemma NothingSettled(last: uint32)
    ensures Sorted([]) && AllUpTo([], last)
  {
  }

  /**
   * Whatever a run configures and resets, what is remembered for a key stays in order while
   * call times do not go back.
   */
  lemma {:induction false} RunsAreSettled(buckets: map<uint32, Bucket>, ops: seq<Op>, key: uint32, last: uint32)
    requires Settled(buckets, key, last) && NonDecreasing(CallsOn(ops, key), last)
    ensures Settled(Run(buckets, ops), key, Latest(CallsOn(ops, key), last))
    decreases |ops|
  {
    hide Step, Settled;
    if ops != [] {
      SettledStep(buckets, ops[0], key, last);
      var now := if ops[0].OpAllow? && ops[0].key == key then ops[0].now else last;
      if ops[0].OpAllow? && ops[0].key == key {
        assert CallsOn(ops, key)[1..] == CallsOn(ops[1..], key);
      } else {
        assert CallsOn(ops, key) == CallsOn(ops[1..], key);
      }
      RunsAreSettled(Step(buckets, ops[0]), ops[1..], key, now);
    }
  }

  /** What a settled key remembers is all prior, so nothing has to be spaced yet. */
  lemma SettledRemembers(b: Bucket, last: uint32)
    requires Sorted(b.timestamps) && AllUpTo(b.timestamps, last)
    ensures Remembers(b, [], |b.timestamps|, last)
  {
    assert [] + b.timestamps == b.timestamps;
  }

  /**
   * From any settled state on, say right after a configuration that left remembered times in
   * place, as long as only calls with nondecreasing times happen to the key, every closed
   * window, wherever it is placed, holds at most the configured number of the acceptances from
   * there on, whatever else happens to the other keys in between.
   */
  lemma WindowGuarantee(buckets: map<uint32, Bucket>, ops: seq<Op>, key: uint32, last: uint32, t: int)
    requires key in buckets && Settled(buckets, key, last)
    requires OnlyCalls(ops, key) && NonDecreasing(CallsOn(ops, key), last)
    ensures var config := buckets[key].config;
            CountIn(Accepted(buckets, ops, key), t - config.windowMs, t) <= config.maxEvents
  {
    hide CountIn, OnlyCalls, Sorted, Spaced, SpacedSince, AllUpTo, Remembers, NonDecreasing, CallsOn;
    hide Accepted, AcceptedAlone;
    var b, calls := buckets[key], CallsOn(ops, key);
    SettledRemembers(b, last);
    SpacedRun(b, [], |b.timestamps|, last, calls);
    OtherKeysIrrelevant(buckets, ops, key);
    assert [] + b.timestamps == b.timestamps;
    SpacedRest(b.timestamps, AcceptedAlone(b, calls), b.config.maxEvents, b.config.windowMs);
    SpacedWindow(AcceptedAlone(b, calls), b.config.maxEvents, b.config.windowMs, t);
  }

  lemma {:induction false} SplitCalls(before: seq<uint32>, calls: seq<uint32>, last: uint32)
    requires NonDecreasing(before + calls, last)
    ensures NonDecreasing(before, last) && NonDecreasing(calls, Latest(before, last))
    decreases |before|
  {
    if before == [] {
      assert before + calls == calls;
    } else {
      assert (before + calls)[1..] == before[1..] + calls;
      SplitCalls(before[1..], calls, before[0]);
    }
  }

  /**
   * The guarantee in the middle of a life: after any history of an empty limiter, with
   * configurations, resets and other keys, it holds for the acceptances from that point until
   * the key is next configured or reset, if only the times of its calls never go back.
   */
  lemma GuaranteeFromAnyPoint(history: seq<Op>, ops: seq<Op>, key: uint32, t: int)
    requires key in Run(map[], history) && OnlyCalls(ops, key)
    requires NonDecreasing(CallsOn(history, key) + CallsOn(ops, key), 0)
    ensures var buckets := Run(map[], history);
            CountIn(Accepted(buckets, ops, key), t - buckets[key].config.windowMs, t) <= buckets[key].config.maxEvents
  {
    hide CountIn, OnlyCalls, Run, NonDecreasing, CallsOn, Accepted, Latest, Sorted, AllUpTo;
    SplitCalls(CallsOn(history, key), CallsOn(ops, key), 0);
    RunsAreSettled(map[], history, key, 0);
    WindowGuarantee(Run(map[], history), ops, key, Latest(CallsOn(history, key), 0), t);
  }

  lemma {:induction false} RunRemembers(
    b: Bucket, forgotten: seq<uint32>, prior: nat, last: uint32, calls: seq<uint32>, now: uint32)
    requires Remembers(b, forgotten, prior, last) && NonDecreasing(calls + [now], last)
    ensures var all := forgotten + b.timestamps + AcceptedAlone(b, calls);
            AcceptedAlone(b, calls + [now])
            == AcceptedAlone(b, calls)
             + (if CountIn(all, now - b.config.windowMs, now) < b.config.maxEvents then [now] else [])
    decreases |calls|
  {
    hide Ask, CountIn, Sorted, SpacedSince, AllBefore, AllUpTo, Forgotten, Remembers;
    if calls == [] {
      AskExact(b, forgotten, prior, last, now);
      AloneFirst(b, now, []);
      assert [] + [now] == [now] + [];
      assert forgotten + b.timestamps + [] == forgotten + b.timestamps;
    } else {
      var a, gone, rest := Ask(b, calls[0]), Forgotten(b, forgotten, calls[0]), calls[1..];
      var first := if a.accepted then [calls[0]] else [];
      assert (calls + [now])[0] == calls[0] && (calls + [now])[1..] == rest + [now];
      AskExact(b, forgotten, prior, last, calls[0]);
      RunRemembers(a.bucket, gone, prior, calls[0], rest, now);
      AloneFirst(b, calls[0], rest);
      AloneFirst(b, calls[0], rest + [now]);
      assert calls == [calls[0]] + rest && calls + [now] == [calls[0]] + (rest + [now]);
      var all := forgotten + b.timestamps + AcceptedAlone(b, calls);
      assert all == gone + a.bucket.timestamps + AcceptedAlone(a.bucket, rest);
    }
  }

  /**
   * The limiter is exact: after any such run, the next call is accepted if and only if fewer
   * than the configured number of the remembered times and the acceptances since lie in the
   * window that ends with it.
   */
  lemma AcceptExactly(buckets: map<uint32, Bucket>, ops: seq<Op>, key: uint32, last: uint32, now: uint32)
    requires key in buckets && Settled(buckets, key, last)
    requires OnlyCalls(ops, key) && NonDecreasing(CallsOn(ops, key) + [now], last)
    ensures var b, before := buckets[key], Accepted(buckets, ops, key);
            Accepted(buckets, ops + [OpAllow(key, now)], key)
            == before
             + (if CountIn(b.timestamps + before, now - b.config.windowMs, now) < b.config.maxEvents then [now] else [])
  {
    hide CountIn, Remembers, Ask, OnlyCalls, CallsOn, NonDecreasing, Accepted, AcceptedAlone, Sorted, AllUpTo;
    var b, calls := buckets[key], CallsOn(ops, key);
    var longer := ops + [OpAllow(key, now)];
    OnlyCallsAppend(ops, key, now);
    CallsAppend(ops, key, now);
    OtherKeysIrrelevant(buckets, ops, key);
    OtherKeysIrrelevant(buckets, longer, key);
    SettledRemembers(b, last);
    RunRemembers(b, [], |b.timestamps|, last, calls, now);
    assert [] + b.timestamps == b.timestamps;
  }

  lemma OnlyCallsAppend(ops: seq<Op>, key: uint32, now: uint32)
    requires OnlyCalls(ops, key)
    ensures OnlyCalls(ops + [OpAllow(key, now)], key)
  {
  }

  lemma {:induction false} CallsAppend(ops: seq<Op>, key: uint32, now: uint32)
    ensures CallsOn(ops + [OpAllow(key, now)], key) == CallsOn(ops, key) + [now]
    decreases |ops|
  {
    hide CallsOn;
    var op := OpAllow(key, now);
    CallsFirst(ops, key);
    CallsFirst(ops + [op], key);
    if ops == [] {
      assert ops + [op] == [op] && [op][1..] == [];
      CallsFirst([], key);
    } else {
      assert (ops + [op])[1..] == ops[1..] + [op];
      CallsAppend(ops[1..], key, now);
    }
  }

  lemma CallsFirst(ops: seq<Op>, key: uint32)
    ensures CallsOn(ops, key)
         == if ops == [] then []
            else (if ops[0].OpAllow? && ops[0].key == key then [ops[0].now] else []) + CallsOn(ops[1..], key)
  {
  }

  // ----- what the operations do -----

  lemma {:induction false} PrunedMeaning(times: seq<uint32>, cutoff: uint32) returns (k: nat)
    ensures k <= |times| && Pruned(times, cutoff) == times[k..]
    ensures forall i :: 0 <= i < k ==> times[i] < cutoff
    ensures k < |times| ==> cutoff <= times[k]
    decreases |times|
  {
    if times != [] && times[0] < cutoff {
      var rest := PrunedMeaning(times[1..], cutoff);
      k := rest + 1;
      assert forall i :: 1 <= i < k ==> times[i] == times[1..][i - 1];
    } else {
      k := 0;
    }
  }

  /**
   * One call: the times before the window are dropped from the front, up to the first that is
   * not; the call is accepted if fewer than the maximum are left, and then remembered last.
   */
  lemma AskMeaning(b: Bucket, now: uint32)
    ensures exists k: nat ::
              && k <= |b.timestamps|
              && (forall i :: 0 <= i < k ==> b.timestamps[i] + b.config.windowMs < now)
              && (k < |b.timestamps| ==> now <= b.timestamps[k] + b.config.windowMs)
              && (Ask(b, now).accepted <==> |b.timestamps[k..]| < b.config.maxEvents)
              && Ask(b, now).bucket
                 == Bucket(b.config, b.timestamps[k..] + (if Ask(b, now).accepted then [now] else []))
  {
    hide Pruned;
    var k := PrunedMeaning(b.timestamps, Cutoff(b.config.windowMs, now));
    assert b.timestamps[k..] + [] == b.timestamps[k..];
  }

  lemma {:induction false} PrunedShorter(times: seq<uint32>, cutoff: uint32)
    ensures |Pruned(times, cutoff)| <= |times|
    decreases |times|
  {
    if times != [] && times[0] < cutoff {
      PrunedShorter(times[1..], cutoff);
    }
  }

  lemma {:induction false} RoomForAll(b: Bucket, calls: seq<uint32>)
    requires |b.timestamps| + |calls| <= b.config.maxEvents
    ensures AcceptedAlone(b, calls) == calls
    decreases |calls|
  {
    hide Pruned;
    if calls != [] {
      PrunedShorter(b.timestamps, Cutoff(b.config.windowMs, calls[0]));
      RoomForAll(Ask(b, calls[0]).bucket, calls[1..]);
      assert [calls[0]] + calls[1..] == calls;
    }
  }

  /** A reset makes room: the next calls up to the maximum are all accepted, whatever their times. */
  lemma ResetMakesRoom(buckets: map<uint32, Bucket>, ops: seq<Op>, key: uint32)
    requires key in buckets && OnlyCalls(ops, key)
    requires |CallsOn(ops, key)| <= buckets[key].config.maxEvents
    ensures Accepted(Step(buckets, OpReset(key)), ops, key) == CallsOn(ops, key)
  {
    hide OnlyCalls, Accepted, CallsOn;
    var next := Step(buckets, OpReset(key));
    OtherKeysIrrelevant(next, ops, key);
    RoomForAll(next[key], CallsOn(ops, key));
  }

  /** A new configuration counts the times remembered under the old one. */
  lemma ConfigureKeepsTimes(buckets: map<uint32, Bucket>, cfg: RateLimitConfig, last: uint32, now: uint32)
    requires cfg.keyId in buckets && Settled(buckets, cfg.keyId, last) && last <= now
    ensures var times := buckets[cfg.keyId].timestamps;
            Accepted(Step(buckets, OpConfigure(cfg)), [OpAllow(cfg.keyId, now)], cfg.keyId)
            == if CountIn(times, now - cfg.windowMs, now) < cfg.maxEvents then [now] else []
  {
    hide CountIn, Sorted, AllUpTo, Accepted;
    var next := Step(buckets, OpConfigure(cfg));
    assert NonDecreasing([now], last) by { assert [now][1..] == []; }
    assert CallsOn([], cfg.keyId) + [now] == [now];
    AcceptExactly(next, [], cfg.keyId, last, now);
    NothingAccepted(next, cfg.keyId);
    assert [] + [OpAllow(cfg.keyId, now)] == [OpAllow(cfg.keyId, now)];
    assert next[cfg.keyId].timestamps + [] == next[cfg.keyId].timestamps;
    assert [] + [now] == [now];
  }

  lemma NothingAccepted(buckets: map<uint32, Bucket>, key: uint32)
    ensures Accepted(buckets, [], key) == []
  {
  }

  // ----- times that go back -----

  /** How many acceptances of a fresh key lie in the window that ends at t. */
  function InWindow(config: RateLimitConfig, calls: seq<uint32>, t: int): nat {
    CountIn(AcceptedAlone(Bucket(config, []), calls), t - config.windowMs, t)
  }

  /** With no order on the call times, every window holds at most the configured number. */
  ghost predicate AnyOrderBound(config: RateLimitConfig) {
    forall calls: seq<uint32>, t: int :: InWindow(config, calls, t) <= config.maxEvents
  }

  lemma SpacedPrepend(first: uint32, rest: seq<uint32>, windowMs: uint32)
    requires rest != [] ==> first + windowMs < rest[0]
    requires Spaced(rest, 1, windowMs)
    ensures Spaced([first] + rest, 1, windowMs)
  {
    var all := [first] + rest;
    forall i, j | 0 <= i && i + 1 <= j < |all|
      ensures all[i] + windowMs < all[j]
    {
      assert all[j] == rest[j - 1];
      if i > 0 {
        assert all[i] == rest[i - 1];
      } else if j > 1 {
        assert rest[0] + windowMs < rest[j - 1];
      }
    }
  }

  /** With a maximum of one, an event is accepted only after the one remembered has left the window. */
  lemma {:induction false} OneAtATime(b: Bucket, calls: seq<uint32>)
    requires b.config.maxEvents == 1 && |b.timestamps| <= 1
    ensures Spaced(b.timestamps + AcceptedAlone(b, calls), 1, b.config.windowMs)
    decreases |calls|
  {
    hide Spaced, Pruned;
    if calls == [] {
      assert b.timestamps + [] == b.timestamps;
      AtMostOne(b.timestamps, b.config.windowMs);
    } else {
      var a, now := Ask(b, calls[0]), calls[0];
      PruneOne(b.timestamps, Cutoff(b.config.windowMs, now));
      OneAtATime(a.bucket, calls[1..]);
      var rest := AcceptedAlone(a.bucket, calls[1..]);
      if a.accepted {
        assert a.bucket.timestamps == [now];
        if b.timestamps != [] {
          SpacedPrepend(b.timestamps[0], [now] + rest, b.config.windowMs);
          assert b.timestamps == [b.timestamps[0]];
        } else {
          assert [] + ([now] + rest) == [now] + rest;
        }
      } else {
        assert a.bucket.timestamps == b.timestamps;
        assert [] + rest == rest;
      }
    }
  }

  lemma PruneOne(times: seq<uint32>, cutoff: uint32)
    requires |times| <= 1
    ensures Pruned(times, cutoff) == if times != [] && times[0] < cutoff then [] else times
  {
    if times != [] {
      assert times[1..] == [];
    }
  }

  lemma AtMostOne(times: seq<uint32>, windowMs: uint32)
    requires |times| <= 1
    ensures Spaced(times, 1, windowMs)
  {
  }

  /** Where nothing is accepted or nothing is ever pruned, the maximum bounds the whole run. */
  lemma {:induction false} MaximumOnce(b: Bucket, calls: seq<uint32>)
    requires b.config.maxEvents == 0 || b.config.windowMs == 0xFFFF_FFFF
    requires |b.timestamps| <= b.config.maxEvents
    ensures |b.timestamps| + |AcceptedAlone(b, calls)| <= b.config.maxEvents
    decreases |calls|
  {
    if calls != [] {
      MaximumOnce(Ask(b, calls[0]).bucket, calls[1..]);
    }
  }

  function Times(n: nat, time: uint32): (times: seq<uint32>)
    ensures |times| == n && forall i :: 0 <= i < n ==> times[i] == time
  {
    seq(n, _ => time)
  }

  /** At time zero nothing is pruned, so calls are accepted up to the maximum. */
  lemma {:induction false} FillAtZero(config: RateLimitConfig, held: nat, n: nat, calls: seq<uint32>)
    requires held + n <= config.maxEvents
    ensures AcceptedAlone(Bucket(config, Times(held, 0)), Times(n, 0) + calls)
         == Times(n, 0) + AcceptedAlone(Bucket(config, Times(held + n, 0)), calls)
    decreases n
  {
    hide AcceptedAlone;
    var b := Bucket(config, Times(held, 0));
    if n == 0 {
      assert Times(0, 0) + calls == calls;
      assert Times(0, 0) + AcceptedAlone(b, calls) == AcceptedAlone(b, calls);
    } else {
      assert Times(n, 0) + calls == [0] + (Times(n - 1, 0) + calls);
      AloneFirst(b, 0, Times(n - 1, 0) + calls);
      assert Times(held, 0) + [0] == Times(held + 1, 0);
      FillAtZero(config, held + 1, n - 1, calls);
      assert Times(n, 0) == [0] + Times(n - 1, 0);
    }
  }

  lemma {:induction false} PruneAll(n: nat, time: uint32, cutoff: uint32)
    requires time < cutoff
    ensures Pruned(Times(n, time), cutoff) == []
    decreases n
  {
    if n > 0 {
      assert Times(n, time)[1..] == Times(n - 1, time);
      PruneAll(n - 1, time, cutoff);
    }
  }

  /** Fill the window at time zero, step just past it, then go back by one: one acceptance too many. */
  lemma OneStepBack(config: RateLimitConfig)
    requires config.maxEvents >= 2 && config.windowMs < 0xFFFF_FFFF
    ensures var n, w := config.maxEvents, config.windowMs;
            && AcceptedAlone(Bucket(config, []), Times(n, 0) + [w + 1, w]) == Times(n, 0) + [w + 1, w]
            && InWindow(config, Times(n, 0) + [w + 1, w], w) == n + 1
  {
    hide AcceptedAlone, Pruned, CountIn;
    var n, w: uint32 := config.maxEvents, config.windowMs;
    var late: uint32 := w + 1;
    var full, after := Bucket(config, Times(n, 0)), Bucket(config, [late]);
    FillAtZero(config, 0, n, [late, w]);
    assert Times(0, 0) == [];
    PruneAll(n, 0, 1);
    PruneNone([late]);
    AloneFirst(full, late, [w]);
    AloneFirst(after, w, []);
    AloneNone(Bucket(config, [late, w]));
    assert [late] + [w] == [late, w] && [w] + [] == [w] && [] + [late] == [late];
    CountAll(Times(n, 0), 0, w);
    CountConcat(Times(n, 0), [late, w], 0, w);
    CountConcat([late], [w], 0, w);
    CountNone([late], 0, w);
    CountAll([w], 0, w);
  }

  lemma PruneNone(times: seq<uint32>)
    ensures Pruned(times, 0) == times
  {
  }

  lemma AloneNone(b: Bucket)
    ensures AcceptedAlone(b, []) == []
  {
  }

  /**
   * How far the guarantee leans on the order of the call times: without it, a configuration
   * still bounds every window if and only if it allows at most one event or its window spans
   * the whole clock.
   */
  lemma AnyOrderBoundIff(config: RateLimitConfig)
    ensures AnyOrderBound(config) <==> config.maxEvents <= 1 || config.windowMs == 0xFFFF_FFFF
  {
    hide AcceptedAlone, CountIn, Spaced;
    var n, w, b := config.maxEvents, config.windowMs, Bucket(config, []);
    if n <= 1 || w == 0xFFFF_FFFF {
      forall calls: seq<uint32>, t: int
        ensures InWindow(config, calls, t) <= n
      {
        var accepted := AcceptedAlone(b, calls);
        if n == 1 {
          OneAtATime(b, calls);
          assert [] + accepted == accepted;
          SpacedWindow(accepted, n, w, t);
        } else {
          MaximumOnce(b, calls);
          CountAtMostLength(accepted, t - w, t);
        }
      }
    } else {
      OneStepBack(config);
    }
  }

  /** A run that breaks the bound: two events per ten milliseconds, and three in the window from 0 to 10. */
  lemma BackwardTimesBreakWindow()
    ensures InWindow(RateLimitConfig(0, 2, 10), [0, 0, 11, 10], 10) == 3
  {
    hide AcceptedAlone, CountIn;
    OneStepBack(RateLimitConfig(0, 2, 10));
    assert Times(2, 0) + [11, 10] == [0, 0, 11, 10];
  }
}
