/** The verification-code store: one code per purpose and key, valid for ten minutes, and purged only when the
    map grows past its size. The purge must not be visible in any answer. Times are in nanoseconds. */
module Verification {
  import opened Basics

  datatype Entry = Entry(code: string, time: int)

  const VALID_MINUTES := 10
  const MAX_SIZE := 10
  const SECOND := 1_000_000_000

  /** Go's conversion of a duration to whole seconds, towards zero. */
  function WholeSeconds(duration: int): int {
    if duration >= 0 then duration / SECOND else -((-duration) / SECOND)
  }

  predicate Expired(e: Entry, now: int) {
    WholeSeconds(now - e.time) >= VALID_MINUTES * 60
  }

  /** The two forms of the expiry test in the code agree. */
  lemma ExpiryForms(e: Entry, now: int)
    ensures Expired(e, now) <==> now - e.time >= VALID_MINUTES * 60 * SECOND
  {
  }

  type Store = map<string, Entry>

  function Purged(store: Store, now: int): Store {
    map slot | slot in store && !Expired(store[slot], now) :: store[slot]
  }

  datatype Op =
    | Register(purpose: string, key: string, code: string, at: int, purgedAt: int)
    | Verify(purpose: string, key: string, code: string, at: int)
    | Consume(purpose: string, key: string, code: string, at: int)
    | Delete(purpose: string, key: string, at: int)

  /** Whether the store answers yes to a code. */
  predicate Accepts(store: Store, purpose: string, key: string, code: string, now: int) {
    var slot := purpose + key;
    slot in store && !Expired(store[slot], now) && code == store[slot].code
  }

  function Next(store: Store, op: Op): Store {
    match op
    case Register(purpose, key, code, at, purgedAt) =>
      var grown := store[purpose + key := Entry(code, at)];
      if |grown| > MAX_SIZE then Purged(grown, purgedAt) else grown
    case Verify(_, _, _, _) => store
    case Consume(purpose, key, code, at) => if Accepts(store, purpose, key, code, at) then store - {purpose + key} else store
    case Delete(purpose, key, _) => store - {purpose + key}
  }

  class CodeStore {
    var store: Store

    constructor ()
      ensures store == map[]
    {
      store := map[];
    }

    method RegisterCode(key: string, code: string, purpose: string, now: int, purgedAt: int)
      modifies this
      ensures store == Next(old(store), Register(purpose, key, code, now, purgedAt))
    {
      store := store[purpose + key := Entry(code, now)];
      if |store| > MAX_SIZE {
        RemoveExpired(purgedAt);
      }
    }

    method VerifyCode(key: string, code: string, purpose: string, now: int) returns (ok: bool)
      ensures ok == Accepts(store, purpose, key, code, now)
    {
      if purpose + key !in store || WholeSeconds(now - store[purpose + key].time) >= VALID_MINUTES * 60 {
        return false;
      }
      return code == store[purpose + key].code;
    }

    method ConsumeCode(key: string, code: string, purpose: string, now: int) returns (ok: bool)
      modifies this
      ensures ok == Accepts(old(store), purpose, key, code, now)
      ensures store == Next(old(store), Consume(purpose, key, code, now))
    {
      var slot := purpose + key;
      if slot !in store || now - store[slot].time >= VALID_MINUTES * 60 * SECOND || code != store[slot].code {
        if slot in store { ExpiryForms(store[slot], now); }
        return false;
      }
      ExpiryForms(store[slot], now);
      store := store - {slot};
      return true;
    }

    method DeleteKey(key: string, purpose: string, ghost now: int)
      modifies this
      ensures store == Next(old(store), Delete(purpose, key, now))
    {
      store := store - {purpose + key};
    }

    method RemoveExpired(now: int)
      modifies this
      ensures store == Purged(old(store), now)
    {
      var slots := store.Keys;
      while slots != {}
        invariant slots <= store.Keys && store.Keys <= old(store).Keys
        invariant forall slot <- store :: store[slot] == old(store)[slot]
        invariant forall slot <- old(store) :: slot in store <==> slot in slots || !Expired(old(store)[slot], now)
      {
        var slot :| slot in slots;
        slots := slots - {slot};
        if WholeSeconds(now - store[slot].time) >= VALID_MINUTES * 60 {
          store := store - {slot};
        }
      }
    }
  }

  // ----- The full history as the specification -----

  predicate Live(e: Option<Entry>, code: string, now: int) {
    e.Some? && e.value.code == code && now - e.value.time < VALID_MINUTES * 60 * SECOND
  }

  predicate About(op: Op, purpose: string, key: string) {
    op.purpose == purpose && op.key == key
  }

  /** The registration in force: the latest one for this purpose and key, unless it was deleted or consumed. */
  function InForce(history: seq<Op>, purpose: string, key: string): Option<Entry> {
    if history == [] then None
    else
      var past, op := history[..|history| - 1], history[|history| - 1];
      if !About(op, purpose, key) then InForce(past, purpose, key)
      else
        match op
        case Register(_, _, code, at, _) => Some(Entry(code, at))
        case Delete(_, _, _) => None
        case Consume(_, _, code, at) =>
          if Live(InForce(past, purpose, key), code, at) then None else InForce(past, purpose, key)
        case Verify(_, _, _, _) => InForce(past, purpose, key)
  }

  function Exec(history: seq<Op>): Store {
    if history == [] then map[] else Next(Exec(history[..|history| - 1]), history[|history| - 1])
  }

  /** The moment an operation is over. */
  function Ends(op: Op): int {
    if op.Register? then op.purgedAt else op.at
  }

  predicate Clocked(history: seq<Op>) {
    && (forall i :: 0 <= i < |history| ==> history[i].at <= Ends(history[i]))
    && (forall i, j :: 0 <= i < j < |history| ==> Ends(history[i]) <= history[j].at)
  }

  /** Purposes are single letters, so purpose and key can be told apart in a slot. */
  predicate LetterPurposes(history: seq<Op>) {
    forall i :: 0 <= i < |history| ==> |history[i].purpose| == 1
  }

  lemma SlotsAreDistinct(p: string, k: string, q: string, l: string)
    requires |p| == |q| && p + k == q + l
    ensures p == q && k == l
  {
    assert (p + k)[..|p|] == p && (p + k)[|p|..] == k;
    assert (q + l)[..|q|] == q && (q + l)[|q|..] == l;
  }

  /** The store holds the registration in force, or nothing where that one has expired. */
  predicate Faithful(e: Option<Entry>, inForce: Option<Entry>, now: int) {
    e == inForce || (e.None? && inForce.Some? && Expired(inForce.value, now))
  }

  lemma FaithfulAnswers(store: Store, inForce: Option<Entry>, purpose: string, key: string, code: string, now: int)
    requires Faithful(Lookup(store, purpose + key), inForce, now)
    ensures Accepts(store, purpose, key, code, now) == Live(inForce, code, now)
  {
    if inForce.Some? { ExpiryForms(inForce.value, now); }
  }

  lemma FaithfulLater(e: Option<Entry>, inForce: Option<Entry>, now: int, later: int)
    requires Faithful(e, inForce, now) && now <= later
    ensures Faithful(e, inForce, later)
  {
    if inForce.Some? {
      ExpiryForms(inForce.value, now);
      ExpiryForms(inForce.value, later);
    }
  }

  lemma StepStaysFaithful(store: Store, before: Option<Entry>, op: Op, purpose: string, key: string)
    requires Faithful(Lookup(store, purpose + key), before, op.at) && op.at <= Ends(op)
    requires |op.purpose| == |purpose| == 1
    ensures var after := if !About(op, purpose, key) then before
                         else if op.Register? then Some(Entry(op.code, op.at))
                         else if op.Delete? then None
                         else if op.Consume? && Live(before, op.code, op.at) then None
                         else before;
            Faithful(Lookup(Next(store, op), purpose + key), after, Ends(op))
  {
    FaithfulLater(Lookup(store, purpose + key), before, op.at, Ends(op));
    if op.purpose + op.key == purpose + key {
      SlotsAreDistinct(op.purpose, op.key, purpose, key);
      if op.Consume? {
        FaithfulAnswers(store, before, purpose, key, op.code, op.at);
      }
    }
  }

  lemma {:induction false} StoreIsFaithful(history: seq<Op>, purpose: string, key: string, now: int)
    requires Clocked(history) && LetterPurposes(history) && |purpose| == 1
    requires history != [] ==> Ends(history[|history| - 1]) <= now
    ensures Faithful(Lookup(Exec(history), purpose + key), InForce(history, purpose, key), now)
    decreases |history|
  {
    if history != [] {
      var past, op := history[..|history| - 1], history[|history| - 1];
      StoreIsFaithful(past, purpose, key, op.at);
      StepStaysFaithful(Exec(past), InForce(past, purpose, key), op, purpose, key);
      FaithfulLater(Lookup(Exec(history), purpose + key), InForce(history, purpose, key), Ends(op), now);
    }
  }

  /** After any history, the store says yes to a code exactly when that code is the one in force, not yet ten
      minutes old: purging is invisible. */
  lemma AnswersMatchHistory(history: seq<Op>, purpose: string, key: string, code: string, now: int)
    requires Clocked(history) && LetterPurposes(history) && |purpose| == 1
    requires history != [] ==> Ends(history[|history| - 1]) <= now
    ensures Accepts(Exec(history), purpose, key, code, now) <==> Live(InForce(history, purpose, key), code, now)
  {
    StoreIsFaithful(history, purpose, key, now);
    FaithfulAnswers(Exec(history), InForce(history, purpose, key), purpose, key, code, now);
  }

  /** Right after a successful consumption nothing is in force for the pair. */
  lemma ConsumedIsGone(history: seq<Op>, op: Op, used: seq<Op>)
    requires op.Consume? && used == history + [op] && Live(InForce(history, op.purpose, op.key), op.code, op.at)
    ensures InForce(used, op.purpose, op.key).None?
  {
    assert used[..|used| - 1] == history && used[|used| - 1] == op;
  }

  /** A code is consumed at most once per registration: after a successful consumption no attempt succeeds
      until the pair is registered again. */
  lemma ConsumedOnce(history: seq<Op>, op: Op, used: seq<Op>, later: seq<Op>, all: seq<Op>, code: string, now: int)
    requires op.Consume? && used == history + [op] && all == used + later
    requires Clocked(history) && LetterPurposes(history) && (history != [] ==> Ends(history[|history| - 1]) <= op.at)
    requires Clocked(all) && LetterPurposes(all) && Ends(all[|all| - 1]) <= now
    requires Accepts(Exec(history), op.purpose, op.key, op.code, op.at)
    requires forall i :: 0 <= i < |later| ==> !(later[i].Register? && About(later[i], op.purpose, op.key))
    ensures !Accepts(Exec(all), op.purpose, op.key, code, now)
  {
    assert all[|history|] == op;
    AnswersMatchHistory(history, op.purpose, op.key, op.code, op.at);
    ConsumedIsGone(history, op, used);
    StaysConsumed(used, later, all, op.purpose, op.key);
    AnswersMatchHistory(all, op.purpose, op.key, code, now);
  }

  lemma {:induction false} StaysConsumed(used: seq<Op>, later: seq<Op>, all: seq<Op>, purpose: string, key: string)
    requires InForce(used, purpose, key).None? && all == used + later
    requires forall i :: 0 <= i < |later| ==> !(later[i].Register? && About(later[i], purpose, key))
    ensures InForce(all, purpose, key).None?
    decreases |later|
  {
    if later == [] {
      assert all == used;
    } else {
      var init, before := later[..|later| - 1], all[..|all| - 1];
      assert before == used + init && all[|all| - 1] == later[|later| - 1];
      StaysConsumed(used, init, before, purpose, key);
    }
  }

  // ----- The operations, written out -----

  /** A code is good for ten minutes. */
  lemma AcceptsExactly(store: Store, purpose: string, key: string, code: string, now: int)
    ensures Accepts(store, purpose, key, code, now) <==>
            && purpose + key in store && store[purpose + key].code == code
            && now - store[purpose + key].time < 600_000_000_000
  {
    if purpose + key in store { ExpiryForms(store[purpose + key], now); }
  }

  /** Registering replaces the code of its slot; past ten slots it also drops every expired one, and only those. */
  lemma RegisterExactly(store: Store, purpose: string, key: string, code: string, at: int, purgedAt: int)
    ensures var grown := store[purpose + key := Entry(code, at)];
            var after := Next(store, Register(purpose, key, code, at, purgedAt));
            if |grown| <= 10 then after == grown
            else
              && (forall slot :: slot in after <==> slot in grown && purgedAt - grown[slot].time < 600_000_000_000)
              && (forall slot <- after :: after[slot] == grown[slot])
  {
    var grown := store[purpose + key := Entry(code, at)];
    forall slot | slot in grown
      ensures Expired(grown[slot], purgedAt) <==> purgedAt - grown[slot].time >= 600_000_000_000
    {
      ExpiryForms(grown[slot], purgedAt);
    }
  }

  /** Verifying changes nothing, deleting empties the slot, and consuming empties it if the code is accepted. */
  lemma OthersExactly(store: Store, purpose: string, key: string, code: string, at: int)
    ensures Next(store, Verify(purpose, key, code, at)) == store
    ensures Next(store, Delete(purpose, key, at)) == store - {purpose + key}
    ensures Next(store, Consume(purpose, key, code, at)) ==
            if Accepts(store, purpose, key, code, at) then store - {purpose + key} else store
  {
  }
}
