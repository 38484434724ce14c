/** The in-memory sliding-window limiter: per key the times of the last accepted requests, and a background
    sweep that forgets idle keys. The sweep must not be visible in any decision. */
module RateLimiter {

  /** Requests allowed per window, and the window in seconds. A negative number of requests is none that the
      limiter can be asked for: it sizes the first queue of a key. */
  datatype Limit = Limit(max: nat, window: int)

  type Store = map<string, seq<int>>

  function Queue(store: Store, key: string): seq<int> {
    if key in store then store[key] else []
  }

  /** The queue after a request at `now`, and whether the request is accepted. */
  function Offer(queue: seq<int>, limit: Limit, now: int): (r: (seq<int>, bool)) {
    if queue == [] || |queue| < limit.max then (queue + [now], true)
    else if now - queue[0] >= limit.window then (queue[1..] + [now], true)
    else (queue, false)
  }

  predicate Expired(queue: seq<int>, expiry: int, now: int) {
    queue == [] || now - queue[|queue| - 1] > expiry
  }

  function Swept(store: Store, expiry: int, now: int): Store {
    map key | key in store && !Expired(store[key], expiry, now) :: store[key]
  }

  class Limiter {
    var store: Store
    const expiry: int

    /** No key is stored with an empty queue. */
    predicate Valid()
      reads this
    {
      forall key <- store :: store[key] != []
    }

    constructor (expiry: int)
      ensures Valid() && store == map[] && this.expiry == expiry
    {
      store := map[];
      this.expiry := expiry;
    }

    method Request(key: string, limit: Limit, now: int) returns (ok: bool)
      requires Valid()
      modifies this
      ensures Valid()
      ensures ok == Offer(Queue(old(store), key), limit, now).1
      ensures store == old(store)[key := Offer(Queue(old(store), key), limit, now).0]
    {
      if key in store {
        var queue := store[key];
        if |queue| < limit.max {
          store := store[key := queue + [now]];
          return true;
        } else {
          if now - queue[0] >= limit.window {
            queue := queue[1..];
            queue := queue + [now];
            store := store[key := queue];
            return true;
          } else {
            return false;
          }
        }
      } else {
        store := store[key := []];
        store := store[key := store[key] + [now]];
      }
      return true;
    }

    /** One sweep of `clearExpiredItems`. */
    method ClearExpired(now: int)
      modifies this
      ensures store == Swept(old(store), expiry, now)
      ensures old(Valid()) ==> Valid()
    {
      var keys := store.Keys;
      while keys != {}
        invariant keys <= store.Keys && store.Keys <= old(store).Keys
        invariant forall key <- store :: store[key] == old(store)[key]
        invariant forall key <- old(store) ::
                    key in store <==> key in keys || !Expired(old(store)[key], expiry, now)
      {
        var key :| key in keys;
        keys := keys - {key};
        var queue := store[key];
        if |queue| == 0 || now - queue[|queue| - 1] > expiry {
          store := store - {key};
        }
      }
    }
  }

  // ----- Runs -----

  datatype Event = Requested(key: string, now: int) | Sweep(now: int)

  /** The expiry is in whole seconds; 0 stands for a positive duration below a second, as a limiter made without a
      duration never sweeps. */
  datatype System = System(limits: string -> Limit, expiry: nat)
  {
    function Next(store: Store, e: Event): Store {
      match e
      case Requested(key, now) => store[key := Offer(Queue(store, key), limits(key), now).0]
      case Sweep(now) => Swept(store, expiry, now)
    }

    function Exec(events: seq<Event>): Store {
      if events == [] then map[] else Next(Exec(events[..|events| - 1]), events[|events| - 1])
    }

    /** The answer to the last event of a run, if it is a request. */
    predicate Accepts(events: seq<Event>)
      requires events != [] && events[|events| - 1].Requested?
    {
      var e := events[|events| - 1];
      Offer(Queue(Exec(events[..|events| - 1]), e.key), limits(e.key), e.now).1
    }

    /** All answers of a run, in order. */
    function Decisions(events: seq<Event>): seq<bool> {
      if events == [] then []
      else Decisions(events[..|events| - 1]) + if events[|events| - 1].Requested? then [Accepts(events)] else []
    }

    /** The times at which requests for `key` were accepted. */
    function Accepted(events: seq<Event>, key: string): seq<int> {
      if events == [] then []
      else
        var e := events[|events| - 1];
        Accepted(events[..|events| - 1], key) + if e.Requested? && e.key == key && Accepts(events) then [e.now] else []
    }

    /** What the limit amounts to: a maximum of 0 still lets one request through per window. */
    function Room(key: string): (n: nat)
      ensures 1 <= n
    {
      if limits(key).max == 0 then 1 else limits(key).max
    }
  }

  function WithoutSweeps(events: seq<Event>): seq<Event> {
    if events == [] then []
    else WithoutSweeps(events[..|events| - 1]) +
         if events[|events| - 1].Requested? then [events[|events| - 1]] else []
  }

  /** A run one event longer. */
  lemma Push(s: System, past: seq<Event>, e: Event, events: seq<Event>, key: string)
    requires events == past + [e]
    ensures s.Exec(events) == s.Next(s.Exec(past), e)
    ensures e.Requested? ==> s.Accepts(events) == Offer(Queue(s.Exec(past), e.key), s.limits(e.key), e.now).1
    ensures s.Decisions(events) == s.Decisions(past) + if e.Requested? then [s.Accepts(events)] else []
    ensures s.Accepted(events, key) ==
            s.Accepted(past, key) + if e.Requested? && e.key == key && s.Accepts(events) then [e.now] else []
    ensures WithoutSweeps(events) == WithoutSweeps(past) + if e.Requested? then [e] else []
  {
    assert events[..|events| - 1] == past && events[|events| - 1] == e;
  }

  predicate Clocked(events: seq<Event>) {
    forall i, j :: 0 <= i < j < |events| ==> events[i].now <= events[j].now
  }

  predicate NoSweeps(events: seq<Event>) {
    forall i :: 0 <= i < |events| ==> events[i].Requested?
  }

  // ----- The window, without sweeps -----

  function LastOf(times: seq<int>, n: nat): seq<int> {
    if |times| <= n then times else times[|times| - n..]
  }

  /** Without sweeps the queue of a key is the tail of its accepted times. */
  lemma {:induction false} TailUnswept(s: System, events: seq<Event>, key: string)
    requires NoSweeps(events)
    ensures Queue(s.Exec(events), key) == LastOf(s.Accepted(events, key), s.Room(key))
    decreases |events|
  {
    if events != [] {
      var past, e := events[..|events| - 1], events[|events| - 1];
      TailUnswept(s, past, key);
      Push(s, past, e, events, key);
      if e.key == key {
        OfferTail(s.Accepted(past, key), s.limits(key), s.Room(key), e.now);
        assert Queue(s.Next(s.Exec(past), e), key) == Offer(Queue(s.Exec(past), key), s.limits(key), e.now).0;
      } else {
        assert Queue(s.Next(s.Exec(past), e), key) == Queue(s.Exec(past), key);
        assert s.Accepted(past, key) + [] == s.Accepted(past, key);
      }
    }
  }

  lemma OfferTail(times: seq<int>, limit: Limit, room: nat, now: int)
    requires room == if limit.max == 0 then 1 else limit.max
    ensures var (queue, ok) := Offer(LastOf(times, room), limit, now);
            queue == LastOf(if ok then times + [now] else times, room)
  {
    var queue := LastOf(times, room);
    if |times| < room {
      assert Offer(queue, limit, now) == (times + [now], true);
    } else {
      var rest, more := times[|times| - room..], times + [now];
      assert queue == rest && |rest| == room;
      if now - rest[0] >= limit.window {
        assert Offer(queue, limit, now) == (rest[1..] + [now], true);
        assert more[|more| - room..] == rest[1..] + [now];
      } else {
        assert Offer(queue, limit, now) == (rest, false);
      }
    }
  }

  /** The last `room` acceptances do not all fall within the window. */
  predicate HasRoom(times: seq<int>, room: nat, window: int, now: int)
    requires 1 <= room
  {
    |times| < room || now - times[|times| - room] >= window
  }

  lemma DecisionUnswept(s: System, events: seq<Event>, key: string, now: int)
    requires NoSweeps(events)
    ensures s.Accepts(events + [Requested(key, now)]) <==>
            HasRoom(s.Accepted(events, key), s.Room(key), s.limits(key).window, now)
  {
    Push(s, events, Requested(key, now), events + [Requested(key, now)], key);
    TailUnswept(s, events, key);
  }

  /** Any `Room + 1` consecutive acceptances of a key span at least its window. */
  lemma {:induction false} WindowHoldsUnswept(s: System, events: seq<Event>, key: string, i: nat)
    requires NoSweeps(events) && i + s.Room(key) < |s.Accepted(events, key)|
    ensures s.Accepted(events, key)[i + s.Room(key)] - s.Accepted(events, key)[i] >= s.limits(key).window
    decreases |events|
  {
    var past, e := events[..|events| - 1], events[|events| - 1];
    assert past + [e] == events;
    Push(s, past, e, events, key);
    var times := s.Accepted(past, key);
    if i + s.Room(key) < |times| {
      WindowHoldsUnswept(s, past, key, i);
    } else {
      AcceptedHadRoom(s, past, e, events, key);
      LastSpan(times, e.now, s.Accepted(events, key), s.Room(key), s.limits(key).window, i);
    }
  }

  lemma AcceptedHadRoom(s: System, past: seq<Event>, e: Event, events: seq<Event>, key: string)
    requires NoSweeps(past) && events == past + [e] && e.Requested?
    requires |s.Accepted(past, key)| < |s.Accepted(events, key)|
    ensures s.Accepted(events, key) == s.Accepted(past, key) + [e.now]
    ensures HasRoom(s.Accepted(past, key), s.Room(key), s.limits(key).window, e.now)
  {
    Push(s, past, e, events, key);
    DecisionUnswept(s, past, e.key, e.now);
  }

  lemma LastSpan(times: seq<int>, now: int, more: seq<int>, room: nat, window: int, i: nat)
    requires 1 <= room && more == times + [now] && HasRoom(times, room, window, now) && i + room == |times|
    ensures more[i + room] - more[i] >= window
  {
  }

  // ----- Sweeps change nothing -----

  predicate UpTo(queue: seq<int>, now: int) {
    && (forall i :: 0 <= i < |queue| ==> queue[i] <= now)
    && (forall i, j :: 0 <= i < j < |queue| ==> queue[i] <= queue[j])
  }

  /** The swept queue is the full one without a head of expired times. */
  predicate Trails(swept: seq<int>, full: seq<int>, expiry: int, now: int) {
    && |swept| <= |full| && swept == full[|full| - |swept|..]
    && forall i :: 0 <= i < |full| - |swept| ==> now - full[i] > expiry
  }

  predicate Related(s: System, swept: Store, full: Store, key: string, now: int) {
    && Trails(Queue(swept, key), Queue(full, key), s.expiry, now)
    && UpTo(Queue(full, key), now) && |Queue(full, key)| <= s.Room(key)
  }

  /** Queues that agree up to expired times give the same answer, and still agree afterwards. */
  lemma OfferSame(swept: seq<int>, full: seq<int>, limit: Limit, room: nat, expiry: int, now: int)
    requires Trails(swept, full, expiry, now) && limit.window <= expiry + 1
    requires room == (if limit.max == 0 then 1 else limit.max) && |full| <= room
    ensures Offer(swept, limit, now).1 == Offer(full, limit, now).1
    ensures Trails(Offer(swept, limit, now).0, Offer(full, limit, now).0, expiry, now)
  {
    var drop := |full| - |swept|;
    if |full| < room {
      assert Offer(swept, limit, now) == (swept + [now], true);
      TrailsPush(swept, full, expiry, now);
    } else if drop > 0 {
      assert now - full[0] > expiry;
      assert Offer(swept, limit, now) == (swept + [now], true);
      assert Offer(full, limit, now) == (full[1..] + [now], true);
      TrailsPush(swept, full[1..], expiry, now);
    } else {
      assert swept == full;
    }
  }

  lemma TrailsPush(swept: seq<int>, full: seq<int>, expiry: int, now: int)
    requires |swept| <= |full| && swept == full[|full| - |swept|..]
    requires forall i :: 0 <= i < |full| - |swept| ==> now - full[i] > expiry
    ensures Trails(swept + [now], full + [now], expiry, now)
  {
    assert (full + [now])[|full| - |swept|..] == swept + [now];
  }

  lemma OfferUpTo(full: seq<int>, limit: Limit, room: nat, now: int)
    requires UpTo(full, now) && room == (if limit.max == 0 then 1 else limit.max) && |full| <= room
    ensures UpTo(Offer(full, limit, now).0, now) && |Offer(full, limit, now).0| <= room
  {
  }

  lemma SweepTrails(swept: seq<int>, full: seq<int>, expiry: int, now: int)
    requires Trails(swept, full, expiry, now) && UpTo(full, now) && Expired(swept, expiry, now)
    ensures Trails([], full, expiry, now)
  {
    if swept != [] {
      assert swept[|swept| - 1] == full[|full| - 1];
    }
  }

  lemma LaterRelated(s: System, swept: Store, full: Store, key: string, now: int, later: int)
    requires Related(s, swept, full, key, now) && now <= later
    ensures Related(s, swept, full, key, later)
  {
  }

  lemma ExecErased(s: System, past: seq<Event>, e: Event, events: seq<Event>)
    requires events == past + [e]
    ensures s.Exec(events) == s.Next(s.Exec(past), e)
    ensures s.Exec(WithoutSweeps(events)) ==
            if e.Requested? then s.Next(s.Exec(WithoutSweeps(past)), e) else s.Exec(WithoutSweeps(past))
  {
    Push(s, past, e, events, "");
    if e.Requested? {
      Push(s, WithoutSweeps(past), e, WithoutSweeps(events), "");
    } else {
      assert WithoutSweeps(past) + [] == WithoutSweeps(past);
    }
  }

  /** One event, seen by both runs unless it is a sweep. */
  lemma StepKeepsRelation(s: System, swept: Store, full: Store, e: Event, key: string)
    requires Related(s, swept, full, key, e.now) && s.limits(key).window <= s.expiry + 1
    ensures Related(s, s.Next(swept, e), if e.Requested? then s.Next(full, e) else full, key, e.now)
  {
    var q, f := Queue(swept, key), Queue(full, key);
    if e.Requested? {
      if e.key == key {
        OfferSame(q, f, s.limits(key), s.Room(key), s.expiry, e.now);
        OfferUpTo(f, s.limits(key), s.Room(key), e.now);
      } else {
        assert Queue(s.Next(swept, e), key) == q && Queue(s.Next(full, e), key) == f;
      }
    } else if Expired(q, s.expiry, e.now) {
      SweepTrails(q, f, s.expiry, e.now);
      assert Queue(s.Next(swept, e), key) == [];
    } else {
      assert Queue(s.Next(swept, e), key) == q;
    }
  }

  lemma {:induction false} SweepsKeepRelation(s: System, events: seq<Event>, key: string, now: int)
    requires Clocked(events) && (events != [] ==> events[|events| - 1].now <= now)
    requires s.limits(key).window <= s.expiry + 1
    ensures Related(s, s.Exec(events), s.Exec(WithoutSweeps(events)), key, now)
    decreases |events|
  {
    if events != [] {
      var past, e := events[..|events| - 1], events[|events| - 1];
      SweepsKeepRelation(s, past, key, e.now);
      StepKeepsRelation(s, s.Exec(past), s.Exec(WithoutSweeps(past)), e, key);
      ExecErased(s, past, e, events);
      LaterRelated(s, s.Exec(events), s.Exec(WithoutSweeps(events)), key, e.now, now);
    }
  }

  /** Whenever the window of a key is at most a second longer than the expiry, dropping all sweeps from a run
      changes no time at which the key is accepted. */
  lemma {:induction false} AcceptedUnswept(s: System, events: seq<Event>, key: string)
    requires Clocked(events) && s.limits(key).window <= s.expiry + 1
    ensures s.Accepted(events, key) == s.Accepted(WithoutSweeps(events), key)
    decreases |events|
  {
    if events != [] {
      var past, e := events[..|events| - 1], events[|events| - 1];
      AcceptedUnswept(s, past, key);
      Push(s, past, e, events, key);
      if e.Requested? && e.key == key { SweptAnswer(s, past, e); }
      AcceptedStep(s, past, WithoutSweeps(past), e, events, key);
    }
  }

  lemma AcceptedStep(s: System, past: seq<Event>, plain: seq<Event>, e: Event, events: seq<Event>, key: string)
    requires events == past + [e] && s.Accepted(past, key) == s.Accepted(plain, key)
    requires e.Requested? && e.key == key ==> s.Accepts(past + [e]) == s.Accepts(plain + [e])
    ensures s.Accepted(events, key) == s.Accepted(plain + if e.Requested? then [e] else [], key)
  {
    Push(s, past, e, events, key);
    if e.Requested? {
      Push(s, plain, e, plain + [e], key);
    } else {
      assert plain + [] == plain;
    }
  }

  /** If that holds of every key, it changes no answer. */
  lemma {:induction false} SweepsAreInvisible(s: System, events: seq<Event>, key: string)
    requires Clocked(events) && forall k: string :: s.limits(k).window <= s.expiry + 1
    ensures s.Decisions(events) == s.Decisions(WithoutSweeps(events))
    ensures s.Accepted(events, key) == s.Accepted(WithoutSweeps(events), key)
    decreases |events|
  {
    AcceptedUnswept(s, events, key);
    if events != [] {
      var past, e := events[..|events| - 1], events[|events| - 1];
      SweepsAreInvisible(s, past, key);
      Push(s, past, e, events, key);
      if e.Requested? {
        Push(s, WithoutSweeps(past), e, WithoutSweeps(events), key);
        SameAnswer(s, past, e);
      } else {
        assert WithoutSweeps(past) + [] == WithoutSweeps(past);
      }
    }
  }

  lemma SameAnswer(s: System, past: seq<Event>, e: Event)
    requires e.Requested? && Clocked(past) && (past != [] ==> past[|past| - 1].now <= e.now)
    requires s.limits(e.key).window <= s.expiry + 1
    ensures Offer(Queue(s.Exec(past), e.key), s.limits(e.key), e.now).1 ==
            Offer(Queue(s.Exec(WithoutSweeps(past)), e.key), s.limits(e.key), e.now).1
  {
    SweepsKeepRelation(s, past, e.key, e.now);
    OfferSame(Queue(s.Exec(past), e.key), Queue(s.Exec(WithoutSweeps(past)), e.key), s.limits(e.key),
              s.Room(e.key), s.expiry, e.now);
  }

  lemma {:induction false} WithoutSweepsHasNone(events: seq<Event>)
    ensures NoSweeps(WithoutSweeps(events))
  {
    if events != [] { WithoutSweepsHasNone(events[..|events| - 1]); }
  }

  /** With sweeps anywhere in the run, the queue of a key is the tail of its accepted times, of which only
      expired ones may be missing. */
  lemma QueueIsTail(s: System, events: seq<Event>, key: string, now: int)
    requires Clocked(events) && (events != [] ==> events[|events| - 1].now <= now)
    requires s.limits(key).window <= s.expiry + 1
    ensures Trails(Queue(s.Exec(events), key), LastOf(s.Accepted(events, key), s.Room(key)), s.expiry, now)
  {
    SweepsKeepRelation(s, events, key, now);
    WithoutSweepsHasNone(events);
    TailUnswept(s, WithoutSweeps(events), key);
    AcceptedUnswept(s, events, key);
  }

  /** ... and a request is accepted exactly when the last `Room` acceptances do not all fall within the window. */
  lemma DecisionIsExact(s: System, events: seq<Event>, key: string, now: int)
    requires Clocked(events) && (events != [] ==> events[|events| - 1].now <= now)
    requires s.limits(key).window <= s.expiry + 1
    ensures s.Accepts(events + [Requested(key, now)]) <==>
            HasRoom(s.Accepted(events, key), s.Room(key), s.limits(key).window, now)
  {
    SweptAnswer(s, events, Requested(key, now));
    WithoutSweepsHasNone(events);
    AcceptedUnswept(s, events, key);
    SameDecision(s, events, WithoutSweeps(events), key, now);
  }

  lemma SameDecision(s: System, events: seq<Event>, plain: seq<Event>, key: string, now: int)
    requires NoSweeps(plain) && s.Accepted(events, key) == s.Accepted(plain, key)
    requires s.Accepts(events + [Requested(key, now)]) == s.Accepts(plain + [Requested(key, now)])
    ensures s.Accepts(events + [Requested(key, now)]) <==>
            HasRoom(s.Accepted(events, key), s.Room(key), s.limits(key).window, now)
  {
    DecisionUnswept(s, plain, key, now);
  }

  /** A request is answered as if there had been no sweeps. */
  lemma SweptAnswer(s: System, events: seq<Event>, e: Event)
    requires e.Requested? && Clocked(events) && (events != [] ==> events[|events| - 1].now <= e.now)
    requires s.limits(e.key).window <= s.expiry + 1
    ensures s.Accepts(events + [e]) == s.Accepts(WithoutSweeps(events) + [e])
  {
    AcceptsByQueue(s, events, e);
    AcceptsByQueue(s, WithoutSweeps(events), e);
    SameAnswer(s, events, e);
  }

  lemma AcceptsByQueue(s: System, past: seq<Event>, e: Event)
    requires e.Requested?
    ensures s.Accepts(past + [e]) == Offer(Queue(s.Exec(past), e.key), s.limits(e.key), e.now).1
  {
    Push(s, past, e, past + [e], e.key);
  }

  /** Any `Room + 1` consecutive acceptances of a key span at least its window, with sweeps anywhere. */
  lemma WindowHolds(s: System, events: seq<Event>, key: string, i: nat)
    requires Clocked(events) && s.limits(key).window <= s.expiry + 1
    requires i + s.Room(key) < |s.Accepted(events, key)|
    ensures s.Accepted(events, key)[i + s.Room(key)] - s.Accepted(events, key)[i] >= s.limits(key).window
  {
    AcceptedUnswept(s, events, key);
    WithoutSweepsHasNone(events);
    WindowHoldsUnswept(s, WithoutSweeps(events), key, i);
  }

  // ----- ... and with a longer window they do -----

  function Burst(key: string, n: nat): seq<Event> {
    if n == 0 then [] else Burst(key, n - 1) + [Requested(key, 0)]
  }

  function Zeros(n: nat): seq<int> {
    if n == 0 then [] else Zeros(n - 1) + [0]
  }

  lemma {:induction false} BurstIsClocked(key: string, n: nat)
    ensures |Burst(key, n)| == n && Clocked(Burst(key, n)) && NoSweeps(Burst(key, n))
    ensures forall i :: 0 <= i < n ==> Burst(key, n)[i] == Requested(key, 0)
    ensures |Zeros(n)| == n && forall i :: 0 <= i < n ==> Zeros(n)[i] == 0
  {
    if n != 0 { BurstIsClocked(key, n - 1); }
  }

  lemma {:induction false} BurstFills(s: System, key: string, n: nat)
    requires n <= s.Room(key)
    ensures Queue(s.Exec(Burst(key, n)), key) == Zeros(n) && s.Accepted(Burst(key, n), key) == Zeros(n)
  {
    if n != 0 {
      BurstFills(s, key, n - 1);
      BurstIsClocked(key, n - 1);
      OneMoreZero(s, key, Burst(key, n - 1), Zeros(n - 1), Burst(key, n));
    }
  }

  lemma OneMoreZero(s: System, key: string, past: seq<Event>, times: seq<int>, events: seq<Event>)
    requires events == past + [Requested(key, 0)] && |times| < s.Room(key)
    requires Queue(s.Exec(past), key) == times && s.Accepted(past, key) == times
    ensures Queue(s.Exec(events), key) == times + [0] && s.Accepted(events, key) == times + [0]
  {
    Push(s, past, Requested(key, 0), events, key);
    assert Offer(times, s.limits(key), 0) == (times + [0], true);
  }

  lemma {:induction false} NothingToErase(events: seq<Event>)
    requires NoSweeps(events)
    ensures WithoutSweeps(events) == events
  {
    if events != [] { NothingToErase(events[..|events| - 1]); }
  }

  /** A full queue, all of it expired by `later`, is swept; the next request then passes, which it does not
      without the sweep. */
  lemma SweepShows(s: System, key: string, burst: seq<Event>, later: int, before: seq<Event>, queue: seq<int>)
    requires later == s.expiry + 1 && s.limits(key).window > later && before == burst + [Sweep(later)]
    requires queue == Queue(s.Exec(burst), key) && |queue| == s.Room(key)
    requires queue[0] == 0 && queue[|queue| - 1] == 0
    ensures s.Accepts(before + [Requested(key, later)]) && !s.Accepts(burst + [Requested(key, later)])
  {
    Push(s, burst, Sweep(later), before, key);
    assert Queue(s.Exec(before), key) == [];
    AcceptsByQueue(s, before, Requested(key, later));
    AcceptsByQueue(s, burst, Requested(key, later));
  }

  lemma SweepErased(burst: seq<Event>, sweep: Event, last: Event, before: seq<Event>)
    requires NoSweeps(burst) && sweep.Sweep? && last.Requested? && before == burst + [sweep]
    ensures WithoutSweeps(before + [last]) == burst + [last]
  {
    NothingToErase(burst);
    assert before[..|before| - 1] == burst && burst + [] == burst;
    assert (before + [last])[..|before|] == before;
  }

  /** If some window is longer than that, a full burst, a sweep and one more request show the sweep: the
      request is accepted with it and refused without it. */
  lemma LongWindowShowsSweep(s: System, key: string)
    requires s.limits(key).window > s.expiry + 1
    ensures var events := Burst(key, s.Room(key)) + [Sweep(s.expiry + 1)] + [Requested(key, s.expiry + 1)];
            Clocked(events) && s.Accepts(events) && !s.Accepts(WithoutSweeps(events))
            && WithoutSweeps(events) == Burst(key, s.Room(key)) + [Requested(key, s.expiry + 1)]
  {
    BurstIsClocked(key, s.Room(key));
    BurstFills(s, key, s.Room(key));
    BurstShowsSweep(s, key, Burst(key, s.Room(key)), Zeros(s.Room(key)), s.expiry + 1);
  }

  lemma BurstShowsSweep(s: System, key: string, burst: seq<Event>, queue: seq<int>, later: int)
    requires later == s.expiry + 1 && s.limits(key).window > later
    requires NoSweeps(burst) && Clocked(burst) && forall i :: 0 <= i < |burst| ==> burst[i].now == 0
    requires queue == Queue(s.Exec(burst), key) && |queue| == s.Room(key)
    requires forall i :: 0 <= i < |queue| ==> queue[i] == 0
    ensures var events := burst + [Sweep(later)] + [Requested(key, later)];
            Clocked(events) && s.Accepts(events) && !s.Accepts(WithoutSweeps(events))
            && WithoutSweeps(events) == burst + [Requested(key, later)]
  {
    var before := burst + [Sweep(later)];
    SweepShows(s, key, burst, later, before, queue);
    SweepErased(burst, Sweep(later), Requested(key, later), before);
    BurstThenLater(burst, later, before, before + [Requested(key, later)]);
  }

  ghost predicate SweepsUnnoticed(s: System, events: seq<Event>) {
    Clocked(events) ==> s.Decisions(events) == s.Decisions(WithoutSweeps(events))
  }

  lemma LastDecision(s: System, past: seq<Event>, e: Event)
    requires e.Requested?
    ensures var all := s.Decisions(past + [e]); all != [] && all[|all| - 1] == s.Accepts(past + [e])
  {
    Push(s, past, e, past + [e], e.key);
  }

  lemma SweepIsNoticed(s: System, before: seq<Event>, erased: seq<Event>, last: Event)
    requires last.Requested? && Clocked(before + [last]) && WithoutSweeps(before + [last]) == erased + [last]
    requires s.Accepts(before + [last]) != s.Accepts(erased + [last])
    ensures !SweepsUnnoticed(s, before + [last])
  {
    LastDecision(s, before, last);
    LastDecision(s, erased, last);
  }

  /** Sweeping is invisible in every run of a limiter exactly when no window is more than a second longer than
      the expiry. */
  lemma SweepsAreUnnoticed(s: System)
    ensures (forall events :: SweepsUnnoticed(s, events)) <==> (forall k: string :: s.limits(k).window <= s.expiry + 1)
  {
    if forall k: string :: s.limits(k).window <= s.expiry + 1 {
      forall events
        ensures SweepsUnnoticed(s, events)
      {
        if Clocked(events) { SweepsAreInvisible(s, events, ""); }
      }
    } else {
      var key: string :| s.limits(key).window > s.expiry + 1;
      LongWindowShowsSweep(s, key);
      SweepIsNoticed(s, Burst(key, s.Room(key)) + [Sweep(s.expiry + 1)], Burst(key, s.Room(key)),
                     Requested(key, s.expiry + 1));
    }
  }

  // ----- When the limit is kept -----

  /** Acceptances `i` to `i + max`, one more than the maximum, span the window. */
  predicate Spans(times: seq<int>, i: nat, max: nat, window: int)
    requires i + max < |times|
  {
    times[i + max] - times[i] >= window
  }

  /** In this run no more than the maximum is accepted within a window. */
  predicate WithinLimit(s: System, events: seq<Event>, key: string) {
    var times, max := s.Accepted(events, key), s.limits(key).max;
    forall i: nat :: i + max < |times| ==> Spans(times, i, max, s.limits(key).window)
  }

  ghost predicate KeepsLimit(s: System, key: string) {
    forall events :: Clocked(events) ==> WithinLimit(s, events, key)
  }

  /** A limit of zero is broken by the first request. */
  lemma ZeroLimitIsBroken(s: System, key: string)
    requires s.limits(key).max == 0 && 0 < s.limits(key).window
    ensures Clocked(Burst(key, 1)) && !WithinLimit(s, Burst(key, 1), key)
  {
    BurstIsClocked(key, 1);
    BurstFills(s, key, 1);
    assert Zeros(1) == Zeros(0) + [0] == [0];
    assert !Spans(s.Accepted(Burst(key, 1), key), 0, s.limits(key).max, s.limits(key).window);
  }

  /** A window that outlasts the expiry is broken by a burst, a sweep and one more request. */
  lemma LongWindowIsBroken(s: System, key: string, events: seq<Event>)
    requires 1 <= s.limits(key).max && s.limits(key).window > s.expiry + 1
    requires events == Burst(key, s.Room(key)) + [Sweep(s.expiry + 1)] + [Requested(key, s.expiry + 1)]
    ensures Clocked(events) && !WithinLimit(s, events, key)
  {
    var room, later := s.Room(key), s.expiry + 1;
    var before := Burst(key, room) + [Sweep(later)];
    LongWindowShowsSweep(s, key);
    BurstFills(s, key, room);
    BurstIsClocked(key, room);
    Push(s, Burst(key, room), Sweep(later), before, key);
    Push(s, before, Requested(key, later), events, key);
    assert Zeros(room) + [] == Zeros(room);
    var times := s.Accepted(events, key);
    assert times == Zeros(room) + [later];
    assert !Spans(times, 0, room, s.limits(key).window);
  }

  /** No run accepts more than the maximum within a window, sweeps included, exactly when the maximum is at least
      one and the window at most a second longer than the expiry (or there is no window to speak of). */
  lemma LimitIsKeptExactly(s: System, key: string)
    ensures KeepsLimit(s, key) <==>
            s.limits(key).window <= 0 || (1 <= s.limits(key).max && s.limits(key).window <= s.expiry + 1)
  {
    var limit := s.limits(key);
    if limit.window <= 0 || (1 <= limit.max && limit.window <= s.expiry + 1) {
      forall events | Clocked(events)
        ensures WithinLimit(s, events, key)
      {
        RunIsWithinLimit(s, events, key);
      }
    } else if limit.max == 0 {
      ZeroLimitIsBroken(s, key);
    } else {
      LongWindowIsBroken(s, key, Burst(key, s.Room(key)) + [Sweep(s.expiry + 1)] + [Requested(key, s.expiry + 1)]);
    }
  }

  /** A limiter that never sweeps keeps the limit for any window, exactly when it is at least one. */
  lemma LimitIsKeptUnswept(s: System, key: string)
    ensures (forall events :: Clocked(events) && NoSweeps(events) ==> WithinLimit(s, events, key)) <==>
            s.limits(key).window <= 0 || 1 <= s.limits(key).max
  {
    var limit := s.limits(key);
    if limit.window <= 0 || 1 <= limit.max {
      forall events | Clocked(events) && NoSweeps(events)
        ensures WithinLimit(s, events, key)
      {
        UnsweptIsWithinLimit(s, events, key);
      }
    } else {
      ZeroLimitIsBroken(s, key);
      BurstIsClocked(key, 1);
    }
  }

  lemma UnsweptIsWithinLimit(s: System, events: seq<Event>, key: string)
    requires NoSweeps(events) && (s.limits(key).window <= 0 || 1 <= s.limits(key).max)
    requires Clocked(events)
    ensures WithinLimit(s, events, key)
  {
    var times, max := s.Accepted(events, key), s.limits(key).max;
    forall i: nat | i + max < |times|
      ensures Spans(times, i, max, s.limits(key).window)
    {
      if max != 0 { WindowHoldsUnswept(s, events, key, i); }
    }
  }

  lemma RunIsWithinLimit(s: System, events: seq<Event>, key: string)
    requires Clocked(events)
    requires s.limits(key).window <= 0 || (1 <= s.limits(key).max && s.limits(key).window <= s.expiry + 1)
    ensures WithinLimit(s, events, key)
  {
    var times, max := s.Accepted(events, key), s.limits(key).max;
    forall i: nat | i + max < |times|
      ensures Spans(times, i, max, s.limits(key).window)
    {
      if max != 0 { WindowHolds(s, events, key, i); }
    }
  }

  lemma BurstThenLater(burst: seq<Event>, later: int, before: seq<Event>, events: seq<Event>)
    requires Clocked(burst) && 0 <= later && forall i :: 0 <= i < |burst| ==> burst[i].now == 0
    requires before == burst + [Sweep(later)] && |events| == |before| + 1 && events[..|before|] == before
    requires events[|before|].now == later
    ensures Clocked(events)
  {
    forall i, j | 0 <= i < j < |events|
      ensures events[i].now <= events[j].now
    {
      assert i < |before| && events[i] == before[i];
      if j < |before| { assert events[j] == before[j]; }
    }
  }

  // ----- Single steps, written out -----

  /** A key's first request passes and starts its queue; below the maximum every request passes; at the maximum it
      passes if the oldest is a window ago, and takes its place. */
  lemma OfferExactly(queue: seq<int>, limit: Limit, now: int)
    ensures Offer([], limit, now) == ([now], true)
    ensures queue != [] && |queue| < limit.max ==> Offer(queue, limit, now) == (queue + [now], true)
    ensures queue != [] && limit.max <= |queue| && limit.window <= now - queue[0] ==>
              Offer(queue, limit, now) == (queue[1..] + [now], true)
    ensures queue != [] && limit.max <= |queue| && now - queue[0] < limit.window ==>
              Offer(queue, limit, now) == (queue, false)
  {
    var none: seq<int> := [];
    assert Offer(none, limit, now) == (none + [now], true) && none + [now] == [now];
  }

  /** A sweep forgets the keys whose last request is longer ago than the expiry, and changes no other. */
  lemma SweptExactly(store: Store, expiry: int, now: int, key: string)
    ensures key in Swept(store, expiry, now) <==>
              key in store && store[key] != [] && now - store[key][|store[key]| - 1] <= expiry
    ensures key in Swept(store, expiry, now) ==> Swept(store, expiry, now)[key] == store[key]
  {
  }
}
