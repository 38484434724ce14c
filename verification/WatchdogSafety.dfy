/** Safety of the alert protocol over every sequence of ticks, with a crash possible at every effect. */
module WatchdogSafety {
  import opened Basics
  import opened Watchdog

  function Held(disk: Disk): State {
    if disk.Stored? then disk.state else EMPTY
  }

  /** A whole history of the host: what was on disk first, and every tick since. `deliverable` are the
      destination ids that can be reached. */
  datatype History = History(platform: Platform, start: Disk, ticks: seq<Tick>, deliverable: set<string>)
  {
    function Events(): seq<Event> {
      Log(platform, start, ticks)
    }

    /** The disk just before event `i`. */
    function DiskAt(i: nat): Disk
      requires i <= |Events()|
    {
      DiskAfter(start, Events()[..i])
    }

    function At(i: nat): State
      requires i <= |Events()|
    {
      Held(DiskAt(i))
    }

    function Traced(): Trace {
      Trace(Events(), seq(|Events()| + 1, i requires 0 <= i <= |Events()| => DiskAt(i)), deliverable)
    }

    function Past(): History
      requires ticks != []
    {
      this.(ticks := ticks[..|ticks| - 1])
    }

    function LastStep(): seq<Event>
      requires ticks != []
    {
      Step(platform, DiskAfter(start, Past().Events()), ticks[|ticks| - 1])
    }

    /** Whether a recipient can be reached depends on its destination id alone. */
    ghost predicate Settled() {
      forall i :: 0 <= i < |ticks| && !ticks[i].config.ConfigError? ==>
        (platform.Deliverable(ticks[i].config) <==> platform.Destination(ticks[i].config) in deliverable)
    }

    /** Generated ids are non-empty, distinct, and differ from the id already on disk. */
    ghost predicate FreshIds() {
      && (forall i :: 0 <= i < |ticks| ==> ticks[i].freshId != "" && ticks[i].freshId != Held(start).incidentId)
      && (forall i, j :: 0 <= i < j < |ticks| ==> ticks[i].freshId != ticks[j].freshId)
    }
  }

  // ----- Disk and log -----

  lemma DiskAfterPush(disk: Disk, log: seq<Event>, e: Event)
    ensures DiskAfter(disk, log + [e]) == if e.Wrote? then Stored(e.state) else DiskAfter(disk, log)
  {
    assert (log + [e])[..|log + [e]| - 1] == log;
  }

  lemma {:induction false} DiskAfterConcat(disk: Disk, a: seq<Event>, b: seq<Event>)
    ensures DiskAfter(disk, a + b) == DiskAfter(DiskAfter(disk, a), b)
    decreases |b|
  {
    if b == [] {
      assert a + b == a;
    } else {
      assert (a + b)[..|a + b| - 1] == a + b[..|b| - 1];
      DiskAfterConcat(disk, a, b[..|b| - 1]);
    }
  }

  /** The disk seen inside the last tick's effects is the disk that tick started from, plus those effects. */
  lemma SplitAt(h: History, i: nat)
    requires h.ticks != [] && i <= |h.Events()|
    ensures h.Events() == h.Past().Events() + h.LastStep()
    ensures i <= |h.Past().Events()| ==> h.DiskAt(i) == h.Past().DiskAt(i)
    ensures |h.Past().Events()| <= i ==>
              h.DiskAt(i) == DiskAfter(DiskAfter(h.start, h.Past().Events()), h.LastStep()[..i - |h.Past().Events()|])
  {
    SplitLog(h.start, h.Past().Events(), h.LastStep(), i, h.Events());
  }

  lemma SplitLog(disk: Disk, earlier: seq<Event>, step: seq<Event>, i: nat, all: seq<Event>)
    requires all == earlier + step && i <= |all|
    ensures i <= |earlier| ==> all[..i] == earlier[..i]
    ensures |earlier| <= i ==>
              DiskAfter(disk, all[..i]) == DiskAfter(DiskAfter(disk, earlier), step[..i - |earlier|])
  {
    if |earlier| <= i {
      assert all[..i] == earlier + step[..i - |earlier|];
      DiskAfterConcat(disk, earlier, step[..i - |earlier|]);
    }
  }

  /** The disk after the first effects of a run: nothing, the intent, the send, the outcome. */
  lemma EffectsOnDisk(disk: Disk, u: State, e: Event, v: State)
    requires e.Sent?
    ensures DiskAfter(disk, []) == disk && DiskAfter(disk, [Wrote(u)]) == Stored(u)
    ensures DiskAfter(disk, [Wrote(u), e]) == Stored(u) && DiskAfter(disk, [Wrote(u), e, Wrote(v)]) == Stored(v)
  {
    assert [] + [Wrote(u)] == [Wrote(u)];
    assert [Wrote(u)] + [e] == [Wrote(u), e];
    assert [Wrote(u), e] + [Wrote(v)] == [Wrote(u), e, Wrote(v)];
    DiskAfterPush(disk, [], Wrote(u));
    DiskAfterPush(disk, [Wrote(u)], e);
    DiskAfterPush(disk, [Wrote(u), e], Wrote(v));
  }

  /** A run that has effects has one or three of them; any prefix is one of four sequences. */
  lemma StepPrefix(p: Platform, disk: Disk, tick: Tick, n: nat)
    requires 0 < n <= |Step(p, disk, tick)|
    ensures ReadState(disk) == Some(Held(disk)) && 0 <= Held(disk).attempts && !tick.config.ConfigError?
    ensures var all := Effects(p, Held(disk), tick);
            && all[0].Wrote? && (|all| == 1 || (|all| == 3 && all[1].Sent? && all[2].Wrote?))
            && n <= |all| && (forall i :: 0 <= i < n ==> Step(p, disk, tick)[i] == all[i])
            && Step(p, disk, tick)[..0] == []
            && Step(p, disk, tick)[..n] ==
               (if n == 1 then [all[0]] else if n == 2 then [all[0], all[1]] else [all[0], all[1], all[2]])
  {
    var all, step := Effects(p, Held(disk), tick), Step(p, disk, tick);
    assert step <= all;
  }

  /** The disk before and after each effect of a single tick. */
  lemma InsideStep(p: Platform, disk: Disk, tick: Tick, n: nat)
    requires n < |Step(p, disk, tick)|
    ensures ReadState(disk) == Some(Held(disk)) && 0 <= Held(disk).attempts && !tick.config.ConfigError?
    ensures |Effects(p, Held(disk), tick)| in {1, 3} && Step(p, disk, tick)[n] == Effects(p, Held(disk), tick)[n]
    ensures DiskAfter(disk, Step(p, disk, tick)[..n]) ==
            if n == 0 then disk else Stored(Effects(p, Held(disk), tick)[0].state)
  {
    var all := Effects(p, Held(disk), tick);
    StepPrefix(p, disk, tick, n + 1);
    if n == 0 {
      assert DiskAfter(disk, []) == disk;
    } else {
      StepPrefix(p, disk, tick, n);
      EffectsOnDisk(disk, all[0].state, all[1], all[2].state);
    }
  }

  /** Within the effects of one tick the disk is still what the tick found, or one of the records it writes. */
  predicate OneRunLater(p: Platform, disk: Disk, tick: Tick, now: Disk) {
    now == disk ||
    (&& ReadState(disk) == Some(Held(disk)) && 0 <= Held(disk).attempts && !tick.config.ConfigError?
     && var all := Effects(p, Held(disk), tick);
        now == Stored(all[0].state) || (|all| == 3 && now == Stored(all[2].state)))
  }

  lemma StepDisk(p: Platform, disk: Disk, tick: Tick, n: nat)
    requires n <= |Step(p, disk, tick)|
    ensures OneRunLater(p, disk, tick, DiskAfter(disk, Step(p, disk, tick)[..n]))
  {
    if n == 0 {
      assert Step(p, disk, tick)[..0] == [];
    } else {
      var all := Effects(p, Held(disk), tick);
      StepPrefix(p, disk, tick, n);
      if |all| == 3 {
        EffectsOnDisk(disk, all[0].state, all[1], all[2].state);
      } else {
        EffectsOnDisk(disk, all[0].state, Sent("", "", 0, 0), EMPTY);
      }
    }
  }

  /** The last tick of a history, seen from the disk it found. */
  lemma LastTick(h: History, i: nat) returns (disk: Disk, n: nat)
    requires h.ticks != [] && |h.Past().Events()| <= i <= |h.Events()|
    ensures n == i - |h.Past().Events()| && disk == h.Past().DiskAt(|h.Past().Events()|)
    ensures var step := Step(h.platform, disk, h.ticks[|h.ticks| - 1]);
            && n <= |step| && h.DiskAt(i) == DiskAfter(disk, step[..n])
            && (i < |h.Events()| ==> n < |step| && h.Events()[i] == step[n])
  {
    var earlier := h.Past().Events();
    assert earlier[..|earlier|] == earlier;
    SplitAt(h, i);
    disk, n := DiskAfter(h.start, earlier), i - |earlier|;
  }

  /** The same for the last tick of a history. */
  lemma LastStepDisk(h: History, i: nat)
    requires h.ticks != [] && |h.Past().Events()| <= i <= |h.Events()|
    ensures OneRunLater(h.platform, h.Past().DiskAt(|h.Past().Events()|), h.ticks[|h.ticks| - 1], h.DiskAt(i))
  {
    var disk, n := LastTick(h, i);
    StepDisk(h.platform, disk, h.ticks[|h.ticks| - 1], n);
  }

  // ----- What one effect may do to the record -----

  predicate Keeps(s: State, t: State) {
    t.incidentId == s.incidentId && t.firstSeen == s.firstSeen && t.condition == s.condition
  }

  /** `t` opens an incident where `s` owes none. */
  predicate Opens(s: State, t: State) {
    !s.Owed() && !t.condition.Ok? && t.condition != s.condition && t.firstSeen == t.lastSeen
  }

  predicate Clears(s: State, t: State) {
    !s.Owed() && t == EMPTY.(lastSeen := t.lastSeen)
  }

  /** `t` records the intent to send the incident of `s`, no earlier than `s` allowed. */
  predicate Arms(s: State, t: State) {
    && t.delivery.Sending? && 1 <= t.attempts && t.nextAttemptAt == t.lastSeen + Delay(t.attempts)
    && (Keeps(s, t) && t.destinationId == s.destinationId ==>
        s.nextAttemptAt <= t.lastSeen && t.attempts == Min(s.attempts + 1, MAX_ATTEMPTS))
  }

  /** A write that keeps incident and destination arms a send or leaves the wait and the count alone,
      and does not forget an acceptance at a deliverable destination. */
  predicate Carries(s: State, t: State, deliverable: set<string>) {
    && (Arms(s, t) || (t.attempts == s.attempts && t.nextAttemptAt == s.nextAttemptAt))
    && (s.delivery.AcceptedUnverified? && s.destinationId in deliverable ==> t.delivery.AcceptedUnverified?)
  }

  predicate WriteOk(s: State, t: State, deliverable: set<string>) {
    Clears(s, t) || Opens(s, t) ||
    (Keeps(s, t) && (t.destinationId == s.destinationId ==> Carries(s, t, deliverable)))
  }

  /** Event `i` of a log is a legal effect on the disk it finds; `before` is the disk one event earlier. */
  predicate LegalEffect(log: seq<Event>, i: nat, before: Disk, disk: Disk, deliverable: set<string>)
    requires i < |log|
  {
    var u := Held(disk);
    match log[i]
    case Wrote(t) => WriteOk(u, t, deliverable)
    case Sent(x, d, at, k) =>
      && disk == Stored(u) && u.delivery.Sending?
      && u.incidentId == x && u.destinationId == d && u.lastSeen == at && u.attempts == k
      && d in deliverable
      && 0 < i && log[i - 1] == Wrote(u) && Arms(Held(before), u)
  }

  ghost predicate Legal(h: History, i: nat)
    requires i < |h.Events()|
  {
    LegalEffect(h.Events(), i, h.DiskAt(if i == 0 then 0 else i - 1), h.DiskAt(i), h.deliverable)
  }

  /** The effects of one run, seen from the record it read. */
  lemma EffectsLegal(p: Platform, s: State, tick: Tick, deliverable: set<string>)
    requires !tick.config.ConfigError? && 0 <= s.attempts
    requires p.Deliverable(tick.config) <==> p.Destination(tick.config) in deliverable
    ensures var all := Effects(p, s, tick);
            && WriteOk(s, all[0].state, deliverable)
            && (|all| == 3 ==>
                var u := all[0].state;
                && Arms(s, u) && u.destinationId in deliverable
                && all[1] == Sent(u.incidentId, u.destinationId, u.lastSeen, u.attempts)
                && WriteOk(u, all[2].state, deliverable))
  {
  }

  /** The ids one run may write. */
  lemma EffectIds(p: Platform, s: State, tick: Tick)
    requires !tick.config.ConfigError? && 0 <= s.attempts
    ensures var all := Effects(p, s, tick);
            && all[0].state.incidentId in {"", s.incidentId, tick.freshId}
            && (Opens(s, all[0].state) ==> all[0].state.incidentId == tick.freshId)
            && (|all| == 3 ==>
                all[2].state.incidentId == all[0].state.incidentId && !Opens(all[0].state, all[2].state))
  {
  }

  /** Every event of every history is legal. */
  lemma {:induction false} EventLegal(h: History, i: nat)
    requires h.Settled() && i < |h.Events()|
    ensures Legal(h, i)
    decreases |h.ticks|
  {
    SplitAt(h, i);
    if 0 < i { SplitAt(h, i - 1); }
    if i < |h.Past().Events()| {
      EventLegal(h.Past(), i);
    } else {
      LastEventLegal(h, i);
    }
  }

  /** A log whose last tick's effects are `step`. */
  lemma LegalInStep(p: Platform, disk: Disk, tick: Tick, n: nat, deliverable: set<string>)
    requires n < |Step(p, disk, tick)|
    requires !tick.config.ConfigError? ==>
               (p.Deliverable(tick.config) <==> p.Destination(tick.config) in deliverable)
    ensures var step := Step(p, disk, tick);
            var u := Held(DiskAfter(disk, step[..n]));
            && (step[n].Wrote? ==> WriteOk(u, step[n].state, deliverable))
            && (step[n].Sent? ==>
                && n == 1 && step[0] == Wrote(u) && Arms(Held(DiskAfter(disk, step[..0])), u)
                && DiskAfter(disk, step[..1]) == Stored(u) && u.destinationId in deliverable
                && step[n] == Sent(u.incidentId, u.destinationId, u.lastSeen, u.attempts))
  {
    InsideStep(p, disk, tick, n);
    EffectsLegal(p, Held(disk), tick, deliverable);
    if 0 < n { InsideStep(p, disk, tick, 0); }
  }

  lemma LastEventLegal(h: History, i: nat)
    requires h.Settled() && h.ticks != [] && |h.Past().Events()| <= i < |h.Events()|
    ensures Legal(h, i)
  {
    var n := i - |h.Past().Events()|;
    LegalInStep(h.platform, DiskAfter(h.start, h.Past().Events()), h.ticks[|h.ticks| - 1], n, h.deliverable);
    SplitAt(h, i);
    if 0 < n { SplitAt(h, i - 1); }
  }

  // ----- Incident ids are never reused -----

  /** An id seen on disk is empty, was there at the start, or was generated by some tick. */
  ghost predicate Known(h: History, x: string) {
    x == "" || x == Held(h.start).incidentId || exists i :: 0 <= i < |h.ticks| && h.ticks[i].freshId == x
  }

  lemma {:induction false} IdsKnown(h: History, i: nat)
    requires i <= |h.Events()|
    ensures Known(h, h.At(i).incidentId)
    decreases |h.ticks|
  {
    if h.ticks != [] {
      var past := h.Past();
      SplitAt(h, i);
      IdsKnown(past, if i <= |past.Events()| then i else |past.Events()|);
      assert forall j :: 0 <= j < |past.ticks| ==> past.ticks[j] == h.ticks[j];
      if |past.Events()| < i {
        LastStepDisk(h, i);
        if h.DiskAt(i) != past.DiskAt(|past.Events()|) {
          EffectIds(h.platform, past.At(|past.Events()|), h.ticks[|h.ticks| - 1]);
        }
      }
    }
  }

  /** What effect `n` of a tick, a write on the record `u`, can do to the id. */
  lemma StepIds(p: Platform, disk: Disk, tick: Tick, n: nat, u: State)
    requires n < |Step(p, disk, tick)| && Step(p, disk, tick)[n].Wrote?
    requires u == Held(DiskAfter(disk, Step(p, disk, tick)[..n]))
    ensures var t := Step(p, disk, tick)[n].state;
            && t.incidentId in {"", u.incidentId, tick.freshId}
            && (Opens(u, t) ==> t.incidentId == tick.freshId)
            && ((t.incidentId != "" && t.incidentId != u.incidentId) || Opens(u, t) ==> n == 0)
  {
    InsideStep(p, disk, tick, n);
    EffectIds(p, Held(disk), tick);
  }

  /** What the last tick can do to the id on disk. */
  lemma LastEventIds(h: History, i: nat)
    requires h.ticks != [] && |h.Past().Events()| <= i < |h.Events()| && h.Events()[i].Wrote?
    ensures var x := h.Events()[i].state.incidentId;
            && x in {"", h.At(i).incidentId, h.ticks[|h.ticks| - 1].freshId}
            && (Opens(h.At(i), h.Events()[i].state) ==> x == h.ticks[|h.ticks| - 1].freshId)
            && ((x != "" && x != h.At(i).incidentId) || Opens(h.At(i), h.Events()[i].state) ==>
                i == |h.Past().Events()|)
  {
    var disk, n := LastTick(h, i);
    StepIds(h.platform, disk, h.ticks[|h.ticks| - 1], n, h.At(i));
  }

  /** A write that opens an incident, or changes the id to a non-empty one, uses an id never on disk before. */
  lemma {:induction false} NewIdUnseen(h: History, k: nat, m: nat)
    requires h.FreshIds() && k <= m < |h.Events()| && h.Events()[m].Wrote?
    requires (h.Events()[m].state.incidentId != "" && h.Events()[m].state.incidentId != h.At(m).incidentId) ||
             Opens(h.At(m), h.Events()[m].state)
    ensures h.Events()[m].state.incidentId != h.At(k).incidentId
    ensures h.Events()[m].state.incidentId != ""
    decreases |h.ticks|
  {
    var past := h.Past();
    SplitAt(h, m);
    SplitAt(h, k);
    if m < |past.Events()| {
      NewIdUnseen(past, k, m);
    } else {
      LastEventIds(h, m);
      IdsKnown(past, k);
    }
  }

  /** The incident named by a send is not empty. */
  lemma {:induction false} SentIdNonEmpty(h: History, i: nat)
    requires h.FreshIds() && i < |h.Events()| && h.Events()[i].Sent?
    ensures h.Events()[i].incident != ""
    decreases |h.ticks|
  {
    var past := h.Past();
    SplitAt(h, i);
    if i < |past.Events()| {
      SentIdNonEmpty(past, i);
    } else {
      var disk, n := LastTick(h, i);
      SendInStep(h.platform, disk, h.ticks[|h.ticks| - 1], n);
    }
  }

  lemma SendInStep(p: Platform, disk: Disk, tick: Tick, n: nat)
    requires n < |Step(p, disk, tick)| && Step(p, disk, tick)[n].Sent? && tick.freshId != ""
    ensures Step(p, disk, tick)[n].incident != ""
  {
    InsideStep(p, disk, tick, n);
    SendNamesIncident(p, Held(disk), tick);
  }

  lemma SendNamesIncident(p: Platform, s: State, tick: Tick)
    requires !tick.config.ConfigError? && Readable(s) && tick.freshId != "" && |Effects(p, s, tick)| == 3
    ensures Effects(p, s, tick)[1].Sent? && Effects(p, s, tick)[1].incident != ""
  {
  }

  lemma PowersOfTwo()
    ensures Pow2(0) == 1 && Pow2(1) == 2 && Pow2(2) == 4 && Pow2(3) == 8 && Pow2(4) == 16 && Pow2(5) == 32
    ensures Pow2(6) == 64
  {
    assert Pow2(3) == 8;
  }

  /** The wait starts at a minute, never shrinks with the attempt number, and stops growing at an hour. */
  lemma DelayGrows(k: int, l: int)
    requires 1 <= k <= l
    ensures 60 <= Delay(k) <= Delay(l) <= 3600
    ensures Delay(1) == 60 && (7 <= l ==> Delay(l) == 3600)
  {
    PowersOfTwo();
  }

  // ----- Any trace of legal effects with unused ids -----

  predicate AcceptedFor(e: Event, x: string) {
    e.Wrote? && e.state.incidentId == x && e.state.delivery.AcceptedUnverified?
  }

  predicate Accepts(e: Event, x: string, d: string) {
    AcceptedFor(e, x) && e.state.destinationId == d
  }

  /** The write points incident `x` at some destination other than `d`. */
  predicate Redirects(e: Event, x: string, d: string) {
    e.Wrote? && e.state.incidentId == x && e.state.destinationId != d
  }

  /** The two sends name the same incident. */
  predicate SameIncident(e: Event, f: Event) {
    e.Sent? && f.Sent? && e.incident == f.incident
  }

  /** A log together with the disk before each event and after the last one. */
  datatype Trace = Trace(log: seq<Event>, disks: seq<Disk>, deliverable: set<string>)
  {
    predicate Aligned() {
      |disks| == |log| + 1
    }

    function At(i: nat): State
      requires Aligned() && i <= |log|
    {
      Held(disks[i])
    }

    /** Event `i` is a legal effect, what it writes is on the disk after it, and what it sends has an id. */
    predicate LegalAt(i: nat)
      requires Aligned() && i < |log|
    {
      && LegalEffect(log, i, disks[if i == 0 then 0 else i - 1], disks[i], deliverable)
      && disks[i + 1] == (if log[i].Wrote? then Stored(log[i].state) else disks[i])
      && (log[i].Sent? ==> log[i].incident != "")
    }

    /** Write `m` opens an incident, or changes the id to a non-empty one. */
    predicate NewIdAt(m: nat)
      requires Aligned() && m < |log|
    {
      && log[m].Wrote?
      && ((log[m].state.incidentId != "" && log[m].state.incidentId != At(m).incidentId) || Opens(At(m), log[m].state))
    }

    /** Every event is legal, and every new id was never on disk before. */
    ghost predicate Proper() {
      && Aligned()
      && (forall i :: 0 <= i < |log| ==> LegalAt(i))
      && (forall k, m :: 0 <= k <= m < |log| && NewIdAt(m) ==> log[m].state.incidentId != At(k).incidentId)
    }
  }

  lemma {:induction false} Retained(t: Trace, i: nat, j: nat)
    requires t.Proper() && i <= j <= |t.log| && t.disks[i].Stored? && t.At(i).Owed()
    requires forall k :: i <= k < j ==> !AcceptedFor(t.log[k], t.At(i).incidentId)
    ensures t.disks[j].Stored? && t.At(j).Owed() && Keeps(t.At(i), t.At(j))
    decreases j
  {
    if i < j {
      Retained(t, i, j - 1);
      assert t.LegalAt(j - 1) && !AcceptedFor(t.log[j - 1], t.At(i).incidentId);
    }
  }

  /** Once an id has left the record it never comes back. */
  lemma {:induction false} NeverReturns(t: Trace, k: nat, i: nat, j: nat)
    requires t.Proper() && k <= i <= j <= |t.log|
    requires t.At(k).incidentId != "" && t.At(i).incidentId != t.At(k).incidentId
    ensures t.At(j).incidentId != t.At(k).incidentId
    decreases j
  {
    if i < j {
      NeverReturns(t, k, i, j - 1);
      assert t.LegalAt(j - 1);
      assert t.log[j - 1].Wrote? && t.At(j).incidentId == t.At(k).incidentId ==> t.NewIdAt(j - 1);
    }
  }

  /** If an incident is on the disk at both ends, every event in between kept it. */
  lemma KeptThroughout(t: Trace, k: nat, m: nat, j: nat)
    requires t.Proper() && k <= m < j <= |t.log|
    requires t.At(k).incidentId == t.At(j).incidentId != ""
    ensures t.At(m).incidentId == t.At(k).incidentId == t.At(m + 1).incidentId
    ensures t.log[m].Wrote? ==> Keeps(t.At(m), t.log[m].state) && !Opens(t.At(m), t.log[m].state)
  {
    if t.At(m).incidentId != t.At(k).incidentId { NeverReturns(t, k, m, j); }
    if t.At(m + 1).incidentId != t.At(k).incidentId { NeverReturns(t, k, m + 1, j); }
    assert t.LegalAt(m);
    if t.log[m].Wrote? && Opens(t.At(m), t.log[m].state) {
      assert t.NewIdAt(m);
    }
  }

  /** While the incident stays and nothing redirects it, an acceptance stays. */
  lemma {:induction false} AcceptanceHolds(t: Trace, k: nat, j: nat, last: nat, x: string, d: string)
    requires t.Proper() && d in t.deliverable && x != ""
    requires k < j <= last <= |t.log| && Accepts(t.log[k], x, d) && t.At(last).incidentId == x
    requires forall m :: k < m < j ==> !Redirects(t.log[m], x, d)
    ensures t.At(j).incidentId == x && t.At(j).destinationId == d && t.At(j).delivery.AcceptedUnverified?
    decreases j
  {
    assert t.LegalAt(k);
    if k < j - 1 {
      AcceptanceHolds(t, k, j - 1, last, x, d);
      KeptThroughout(t, k + 1, j - 1, last);
      assert t.LegalAt(j - 1) && !Redirects(t.log[j - 1], x, d);
    }
  }

  lemma NoResend(t: Trace, i: nat, k: nat, j: nat)
    requires t.Proper() && i < k < j < |t.log| && SameIncident(t.log[i], t.log[j])
    requires t.log[i].destination == t.log[j].destination
    requires Accepts(t.log[k], t.log[i].incident, t.log[i].destination)
    ensures exists m :: k < m < j && Redirects(t.log[m], t.log[i].incident, t.log[i].destination)
  {
    assert t.LegalAt(i) && t.LegalAt(j);
    var x, d := t.log[i].incident, t.log[i].destination;
    if forall m :: k < m < j ==> !Redirects(t.log[m], x, d) {
      AcceptanceHolds(t, k, j, j, x, d);
      assert false;
    }
  }

  /** A write that keeps incident and destination neither shortens the wait nor lowers the attempt count. */
  lemma CarryGrows(s: State, u: State, deliverable: set<string>)
    requires WriteOk(s, u, deliverable) && Keeps(s, u) && u.destinationId == s.destinationId && s.incidentId != ""
    requires !Opens(s, u)
    ensures s.nextAttemptAt <= u.nextAttemptAt && Min(s.attempts, MAX_ATTEMPTS) <= u.attempts
  {
    if Arms(s, u) {
      DelayGrows(u.attempts, u.attempts);
    }
  }

  /** The record of incident `x` at destination `d` waits at least until `due`, after `n` attempts. */
  predicate Waiting(s: State, x: string, d: string, due: int, n: int) {
    s.incidentId == x && s.destinationId == d && due <= s.nextAttemptAt && Min(n, MAX_ATTEMPTS) <= s.attempts
  }

  /** While the incident stays and nothing redirects it, the wait is not shortened. */
  lemma {:induction false} WaitHolds(t: Trace, k: nat, j: nat, last: nat, x: string, d: string, due: int, n: int)
    requires t.Proper() && k <= j <= last <= |t.log| && x != "" && t.At(last).incidentId == x
    requires Waiting(t.At(k), x, d, due, n) && forall m :: k <= m < j ==> !Redirects(t.log[m], x, d)
    ensures Waiting(t.At(j), x, d, due, n)
    decreases j
  {
    if k < j {
      WaitHolds(t, k, j - 1, last, x, d, due, n);
      KeptThroughout(t, k, j - 1, last);
      assert t.LegalAt(j - 1) && !Redirects(t.log[j - 1], x, d);
      if t.log[j - 1].Wrote? {
        CarryGrows(t.At(j - 1), t.log[j - 1].state, t.deliverable);
      }
    }
  }

  lemma Spaced(t: Trace, i: nat, j: nat)
    requires t.Proper() && i < j < |t.log| && SameIncident(t.log[i], t.log[j])
    requires forall m :: i < m < j ==> !Redirects(t.log[m], t.log[i].incident, t.log[i].destination)
    ensures t.log[j].destination == t.log[i].destination && 1 <= t.log[i].attempt
    ensures t.log[i].at + Delay(t.log[i].attempt) <= t.log[j].at
    ensures Min(t.log[i].attempt + 1, MAX_ATTEMPTS) <= t.log[j].attempt
  {
    var e := t.log[i];
    assert t.LegalAt(i) && t.LegalAt(j);
    WaitHolds(t, i + 1, j - 1, j, e.incident, e.destination, e.at + Delay(e.attempt), e.attempt);
    KeptThroughout(t, i, j - 1, j);
    assert !Redirects(t.log[j - 1], t.log[i].incident, t.log[i].destination);
  }

  // ----- The promises of the protocol, over every history -----

  lemma AfterEvent(h: History, i: nat)
    requires i < |h.Events()|
    ensures h.Events()[i].Wrote? ==> h.DiskAt(i + 1) == Stored(h.Events()[i].state)
    ensures h.Events()[i].Sent? ==> h.DiskAt(i + 1) == h.DiskAt(i)
  {
    var log := h.Events();
    assert log[..i + 1] == log[..i] + [log[i]];
    DiskAfterPush(h.start, log[..i], log[i]);
  }

  lemma HistoryIsProper(h: History)
    requires h.Settled() && h.FreshIds()
    ensures h.Traced().Proper()
  {
    var t := h.Traced();
    forall i | 0 <= i < |t.log|
      ensures t.LegalAt(i)
    {
      EventLegal(h, i);
      AfterEvent(h, i);
      if t.log[i].Sent? { SentIdNonEmpty(h, i); }
    }
    forall k, m | 0 <= k <= m < |t.log| && t.NewIdAt(m)
      ensures t.log[m].state.incidentId != t.At(k).incidentId
    {
      NewIdUnseen(h, k, m);
    }
  }

  /** A record that still owes its incident keeps it, with its first sighting and condition, until an
      acceptance of that incident has been written, whatever is observed meanwhile and wherever runs die. */
  lemma IncidentRetained(h: History, t: Trace, i: nat, j: nat)
    requires h.Settled() && h.FreshIds() && t == h.Traced() && i <= j <= |t.log|
    requires t.disks[i].Stored? && t.At(i).Owed()
    requires forall k :: i <= k < j ==> !AcceptedFor(t.log[k], t.At(i).incidentId)
    ensures t.disks[j].Stored? && t.At(j).Owed() && Keeps(t.At(i), t.At(j))
  {
    HistoryIsProper(h);
    Retained(t, i, j);
  }

  /** No send without a durable intent, written just before, to make exactly that send. */
  lemma SendFollowsIntent(h: History, t: Trace, i: nat)
    requires h.Settled() && h.FreshIds() && t == h.Traced() && i < |t.log| && t.log[i].Sent?
    ensures 0 < i && t.log[i - 1].Wrote? && t.disks[i] == Stored(t.log[i - 1].state)
    ensures var u := t.log[i - 1].state;
            && t.log[i] == Sent(u.incidentId, u.destinationId, u.lastSeen, u.attempts)
            && u.delivery.Sending? && 1 <= u.attempts && u.nextAttemptAt == u.lastSeen + Delay(u.attempts)
  {
    HistoryIsProper(h);
    assert t.LegalAt(i);
  }

  /** Two sends of one incident to one destination with an acceptance persisted in between: some write after
      that acceptance pointed the incident elsewhere. */
  lemma NoResendAfterAcceptance(h: History, t: Trace, i: nat, k: nat, j: nat)
    requires h.Settled() && h.FreshIds() && t == h.Traced() && i < k < j < |t.log|
    requires SameIncident(t.log[i], t.log[j]) && t.log[i].destination == t.log[j].destination
    requires Accepts(t.log[k], t.log[i].incident, t.log[i].destination)
    ensures exists m :: k < m < j && Redirects(t.log[m], t.log[i].incident, t.log[i].destination)
  {
    HistoryIsProper(h);
    NoResend(t, i, k, j);
  }

  /** Two sends of one incident with no redirection in between are at least the first one's delay apart,
      whatever the clock does, and the later one has the larger attempt number (up to the cap). */
  lemma SendsAreSpaced(h: History, t: Trace, i: nat, j: nat)
    requires h.Settled() && h.FreshIds() && t == h.Traced() && i < j < |t.log| && SameIncident(t.log[i], t.log[j])
    requires forall m :: i < m < j ==> !Redirects(t.log[m], t.log[i].incident, t.log[i].destination)
    ensures t.log[j].destination == t.log[i].destination && 1 <= t.log[i].attempt
    ensures t.log[i].at + Delay(t.log[i].attempt) <= t.log[j].at
    ensures Min(t.log[i].attempt + 1, MAX_ATTEMPTS) <= t.log[j].attempt
  {
    HistoryIsProper(h);
    Spaced(t, i, j);
  }

  // ----- What is on disk can always be read back -----

  /** The record of a healthy host carries nothing but the time it was last seen. */
  predicate Canonical(s: State) {
    s.condition.Ok? ==> s == EMPTY.(lastSeen := s.lastSeen)
  }

  predicate GoodDisk(disk: Disk) {
    ReadState(disk).Some? && Canonical(ReadState(disk).value)
  }

  /** The clock stays an hour inside the integer limit, and ids and digests have their shape. */
  predicate GoodTick(p: Platform, tick: Tick) {
    && 0 <= tick.now && tick.now + 3600 <= MAX_TIME
    && |tick.freshId| == 32 && IsHex(tick.freshId)
    && (!tick.config.ConfigError? && p.Destination(tick.config) != "" ==>
        |p.Destination(tick.config)| == 64 && IsHex(p.Destination(tick.config)))
  }

  lemma ArmReadable(s: State, now: int)
    requires GoodDisk(Stored(s)) && !s.condition.Ok? && 0 <= now && now + 3600 <= MAX_TIME
    ensures GoodDisk(Stored(Arm(s, now))) && !Arm(s, now).condition.Ok?
  {
    var k := Min(s.attempts + 1, MAX_ATTEMPTS);
    DelayGrows(k, k);
  }

  lemma EffectsReadable(p: Platform, s: State, tick: Tick)
    requires !tick.config.ConfigError? && GoodDisk(Stored(s)) && GoodTick(p, tick)
    ensures var all := Effects(p, s, tick);
            GoodDisk(Stored(all[0].state)) && (|all| == 3 ==> GoodDisk(Stored(all[2].state)))
  {
    if !(tick.condition.Ok? && !s.Owed()) {
      var t := Retarget(Coalesce(s, tick), p.Destination(tick.config)).(lastSeen := tick.now);
      assert GoodDisk(Stored(t)) && !t.condition.Ok?;
      ArmReadable(t, tick.now);
    }
  }

  lemma LastStepReadable(h: History, i: nat)
    requires h.ticks != [] && |h.Past().Events()| < i <= |h.Events()|
    requires GoodDisk(h.Past().DiskAt(|h.Past().Events()|)) && GoodTick(h.platform, h.ticks[|h.ticks| - 1])
    ensures GoodDisk(h.DiskAt(i))
  {
    var disk := h.Past().DiskAt(|h.Past().Events()|);
    LastStepDisk(h, i);
    if h.DiskAt(i) != disk {
      EffectsReadable(h.platform, Held(disk), h.ticks[|h.ticks| - 1]);
    }
  }

  /** From a readable disk, every record of every history passes `read_state`, and is the empty one up to
      the time last seen whenever its condition is ok. */
  lemma {:induction false} DiskStaysReadable(h: History, i: nat)
    requires GoodDisk(h.start) && i <= |h.Events()|
    requires forall j :: 0 <= j < |h.ticks| ==> GoodTick(h.platform, h.ticks[j])
    ensures GoodDisk(h.DiskAt(i))
    decreases |h.ticks|
  {
    if h.ticks != [] {
      var n := |h.Past().Events()|;
      SplitAt(h, i);
      DiskStaysReadable(h.Past(), if i <= n then i else n);
      if n < i { LastStepReadable(h, i); }
    }
  }

  // ----- Where a wait comes from -----

  /** The record of an intent: it waits for the delay of its attempt from the moment it was written. */
  predicate Armed(s: State) {
    s.delivery.Sending? && 1 <= s.attempts && s.nextAttemptAt == s.lastSeen + Delay(s.attempts)
  }

  /** `t` waits for the same attempt of the same incident at the same destination as `s`. */
  predicate SameWait(s: State, t: State) {
    && t.incidentId == s.incidentId && t.destinationId == s.destinationId
    && t.attempts == s.attempts && t.nextAttemptAt == s.nextAttemptAt
  }

  /** The effects of one run set a wait by writing an intent, drop it, or leave it alone. */
  lemma EffectsWait(p: Platform, s: State, tick: Tick)
    requires !tick.config.ConfigError? && 0 <= s.attempts
    ensures var all := Effects(p, s, tick); var u := all[0].state;
            && (u.nextAttemptAt == 0 || Armed(u) || SameWait(s, u))
            && (|all| == 3 ==> Armed(u) && SameWait(u, all[2].state))
  {
  }

  /** An intent written before event `i` to which the wait of `s` goes back. */
  ghost predicate HasIntent(h: History, i: nat, s: State)
    requires i <= |h.Events()|
  {
    exists j :: 0 <= j < i && h.Events()[j].Wrote? && Armed(h.Events()[j].state) && SameWait(h.Events()[j].state, s)
  }

  ghost predicate WaitOrigin(h: History, i: nat, s: State)
    requires i <= |h.Events()|
  {
    s.nextAttemptAt == 0 || SameWait(Held(h.start), s) || HasIntent(h, i, s)
  }

  lemma OriginStays(h: History, i: nat, j: nat, s: State, t: State)
    requires h.ticks != [] && i <= |h.Past().Events()| && i <= j <= |h.Events()|
    requires WaitOrigin(h.Past(), i, s) && SameWait(s, t)
    ensures WaitOrigin(h, j, t)
  {
    SplitAt(h, i);
    if HasIntent(h.Past(), i, s) {
      var k :| 0 <= k < i && h.Past().Events()[k].Wrote? && Armed(h.Past().Events()[k].state) &&
               SameWait(h.Past().Events()[k].state, s);
      assert h.Events()[k] == h.Past().Events()[k];
    }
  }

  /** The wait found after the first effects of the last tick. */
  lemma LastStepOrigin(h: History, i: nat)
    requires h.ticks != [] && |h.Past().Events()| < i <= |h.Events()|
    requires WaitOrigin(h.Past(), |h.Past().Events()|, h.Past().At(|h.Past().Events()|))
    ensures WaitOrigin(h, i, h.At(i))
  {
    var past, n := h.Past(), |h.Past().Events()|;
    var disk, tick := past.DiskAt(n), h.ticks[|h.ticks| - 1];
    assert past.Events()[..n] == past.Events();
    SplitAt(h, i);
    LastStepDisk(h, i);
    OriginStays(h, n, i, past.At(n), past.At(n));
    if h.DiskAt(i) != disk {
      InsideStep(h.platform, disk, tick, 0);
      EffectsWait(h.platform, Held(disk), tick);
      var u := Effects(h.platform, Held(disk), tick)[0].state;
      assert h.Events()[n] == Wrote(u);
      if SameWait(Held(disk), u) { OriginStays(h, n, i, Held(disk), u); }
    }
  }

  /** On every disk of every history: the record waits for nothing, or its wait was on the first disk, or it was
      set by an intent written earlier, for this incident, destination and attempt, and ends the attempt's delay
      after that intent. */
  lemma {:induction false} WaitIsBounded(h: History, i: nat)
    requires i <= |h.Events()|
    ensures WaitOrigin(h, i, h.At(i))
    decreases |h.ticks|
  {
    if h.ticks != [] {
      var n := |h.Past().Events()|;
      SplitAt(h, i);
      WaitIsBounded(h.Past(), if i <= n then i else n);
      if i <= n {
        OriginStays(h, i, i, h.Past().At(i), h.Past().At(i));
      } else {
        LastStepOrigin(h, i);
      }
    }
  }

  // ----- A due incident is sent -----

  /** The run finds the lock free and a reachable recipient, and is not cut short. */
  predicate Diligent(p: Platform, tick: Tick) {
    !tick.config.ConfigError? && !tick.lockBusy && 3 <= tick.survives && p.Deliverable(tick.config)
  }

  /** When an owed record may be sent to `destination`: at once if that is new, else when its wait is over. */
  function DueAt(s: State, destination: string): int {
    if s.destinationId == destination then s.nextAttemptAt else 0
  }

  /** The run writes the intent, sends the incident of `s`, and records the outcome. */
  predicate Sends(p: Platform, s: State, tick: Tick, step: seq<Event>)
    requires !tick.config.ConfigError?
  {
    var d := p.Destination(tick.config);
    && |step| == 3 && step[2].Wrote? && Keeps(s, step[2].state)
    && step[1] == Sent(s.incidentId, d, tick.now,
                       Min((if s.destinationId == d then s.attempts else 0) + 1, MAX_ATTEMPTS))
    && (step[2].state.Owed() <==> !Accepted(tick.config, tick.status))
  }

  /** A diligent run sends an owed incident exactly when it is due, and settles it if the send is accepted;
      otherwise it writes once and leaves incident and wait alone. */
  lemma DueIncidentIsSent(p: Platform, disk: Disk, tick: Tick)
    requires ReadState(disk).Some? && ReadState(disk).value.Owed() && Diligent(p, tick)
    ensures var s, step := ReadState(disk).value, Step(p, disk, tick);
            if DueAt(s, p.Destination(tick.config)) <= tick.now then Sends(p, s, tick, step)
            else |step| == 1 && step[0].Wrote? && step[0].state.Owed() && Keeps(s, step[0].state)
                 && step[0].state.destinationId == p.Destination(tick.config)
                 && step[0].state.nextAttemptAt == DueAt(s, p.Destination(tick.config))
                 && (s.destinationId == p.Destination(tick.config) ==> step[0].state.attempts == s.attempts)
  {
  }

  /** However the host got here, a diligent run sends an owed incident as soon as the delay of every intent
      written for it at this destination is over. */
  lemma OwedIncidentIsSent(h: History, tick: Tick)
    requires ReadState(h.DiskAt(|h.Events()|)).Some? && h.At(|h.Events()|).Owed()
    requires Diligent(h.platform, tick) && 0 <= tick.now
    requires SameWait(Held(h.start), h.At(|h.Events()|)) ==> Held(h.start).nextAttemptAt <= tick.now
    requires forall j :: 0 <= j < |h.Events()| && h.Events()[j].Wrote? && Armed(h.Events()[j].state) &&
                         h.Events()[j].state.incidentId == h.At(|h.Events()|).incidentId &&
                         h.Events()[j].state.destinationId == h.platform.Destination(tick.config) ==>
               h.Events()[j].state.lastSeen + Delay(h.Events()[j].state.attempts) <= tick.now
    ensures Sends(h.platform, h.At(|h.Events()|), tick, Step(h.platform, h.DiskAt(|h.Events()|), tick))
  {
    WaitIsBounded(h, |h.Events()|);
    DueIncidentIsSent(h.platform, h.DiskAt(|h.Events()|), tick);
  }

  // ----- Retries come in time -----

  /** Ticks together with the disk before each of them and after the last one. */
  datatype Course = Course(platform: Platform, ticks: seq<Tick>, disks: seq<Disk>)
  {
    predicate Aligned() {
      |disks| == |ticks| + 1
    }

    function StepAt(c: nat): seq<Event>
      requires Aligned() && c < |ticks|
    {
      Step(platform, disks[c], ticks[c])
    }

    /** Each tick leaves the disk to the next. */
    ghost predicate Runs() {
      Aligned() && forall c :: 0 <= c < |ticks| ==> disks[c + 1] == DiskAfter(disks[c], StepAt(c))
    }

    /** Tick `c` is a diligent run to `d`. */
    predicate RunsTo(c: nat, d: string)
      requires c < |ticks|
    {
      Diligent(platform, ticks[c]) && platform.Destination(ticks[c].config) == d && GoodTick(platform, ticks[c])
    }

    predicate SendsAt(c: nat)
      requires Aligned() && c < |ticks|
    {
      |StepAt(c)| == 3
    }

    /** Tick `c` has no effect: the lock is busy, the configuration broken, or the run dies before it writes. */
    predicate Idle(c: nat)
      requires Aligned() && c < |ticks|
    {
      StepAt(c) == []
    }

    /** The last tick from `a` on and before `c` that is `a` or has an effect. */
    function LastBusy(a: nat, c: nat): (l: nat)
      requires Aligned() && a < c <= |ticks|
      ensures a <= l < c && (l != a ==> !Idle(l))
    {
      if c - 1 == a || !Idle(c - 1) then c - 1 else LastBusy(a, c - 1)
    }
  }

  /** The disk holds incident `x`, unaccepted after attempt `k` at `d`, waiting until `due`. */
  predicate Awaits(disk: Disk, x: string, d: string, k: int, due: int) {
    && disk.Stored? && GoodDisk(disk) && disk.state.Owed()
    && disk.state.incidentId == x && disk.state.destinationId == d
    && disk.state.attempts == k && disk.state.nextAttemptAt == due
  }

  /** One diligent run to `d` on such a disk. */
  lemma AwaitsStep(p: Platform, disk: Disk, tick: Tick, x: string, d: string, k: int, due: int)
    requires Diligent(p, tick) && p.Destination(tick.config) == d && GoodTick(p, tick)
    requires Awaits(disk, x, d, k, due)
    ensures var step := Step(p, disk, tick);
            if due <= tick.now
            then |step| == 3 && step[1] == Sent(x, d, tick.now, Min(k + 1, MAX_ATTEMPTS))
            else |step| == 1 && Awaits(DiskAfter(disk, step), x, d, k, due)
  {
    DueIncidentIsSent(p, disk, tick);
    if tick.now < due {
      EffectsReadable(p, disk.state, tick);
      InsideStep(p, disk, tick, 0);
      CutDisk(disk, p, tick);
    }
  }

  /** Tick `c` has no effect, or is a diligent run to `d` that does not send. */
  predicate QuietAt(t: Course, c: nat, d: string)
    requires t.Aligned() && c < |t.ticks|
  {
    t.Idle(c) || (t.RunsTo(c, d) && !t.SendsAt(c))
  }

  /** As long as that is all that happens, the wait stands and is not over. */
  lemma {:induction false} StillAwaits(t: Course, a: nat, c: nat, x: string, d: string, k: int, due: int)
    requires t.Runs() && a < c <= |t.ticks| && Awaits(t.disks[a + 1], x, d, k, due)
    requires forall m :: a < m < c ==> QuietAt(t, m, d)
    ensures Awaits(t.disks[c], x, d, k, due)
    ensures forall m :: a < m < c && !t.Idle(m) ==> t.ticks[m].now < due
    decreases c
  {
    if a + 1 < c {
      StillAwaits(t, a, c - 1, x, d, k, due);
      QuietStep(t, c - 1, x, d, k, due);
    }
  }

  lemma QuietStep(t: Course, c: nat, x: string, d: string, k: int, due: int)
    requires t.Runs() && c < |t.ticks| && QuietAt(t, c, d) && Awaits(t.disks[c], x, d, k, due)
    ensures Awaits(t.disks[c + 1], x, d, k, due) && (!t.Idle(c) ==> t.ticks[c].now < due)
  {
    if t.Idle(c) {
      assert t.disks[c + 1] == t.disks[c];
    } else {
      AwaitsStep(t.platform, t.disks[c], t.ticks[c], x, d, k, due);
    }
  }

  /** The effects `step` begin with the intent of attempt `k` of incident `x` at `d`; whether the run then sent
      or died, no acceptance was recorded. */
  predicate Intends(step: seq<Event>, x: string, d: string, k: int) {
    && step != [] && step[0].Wrote? && Armed(step[0].state) && step[0].state.Owed()
    && step[0].state.incidentId == x && step[0].state.destinationId == d && step[0].state.attempts == k
    && (|step| == 3 ==> step[2].Wrote? && step[2].state.Owed())
  }

  lemma IntentAwaits(p: Platform, disk: Disk, tick: Tick, x: string, d: string, k: int)
    requires GoodDisk(disk) && GoodTick(p, tick) && Intends(Step(p, disk, tick), x, d, k)
    ensures Awaits(DiskAfter(disk, Step(p, disk, tick)), x, d, k, tick.now + Delay(k))
  {
    CutDisk(disk, p, tick);
    InsideStep(p, disk, tick, 0);
    EffectsReadable(p, Held(disk), tick);
    EffectsWait(p, Held(disk), tick);
    LastSeenNow(p, Held(disk), tick);
    if |Step(p, disk, tick)| == 3 { InsideStep(p, disk, tick, 2); }
  }

  lemma LastSeenNow(p: Platform, s: State, tick: Tick)
    requires !tick.config.ConfigError? && 0 <= s.attempts
    ensures Effects(p, s, tick)[0].state.lastSeen == tick.now
  {
  }

  /** After an intent at tick `a`, with diligent runs to the same destination and ticks without effect in any
      mixture: a run that none of the others preceded in sending sends exactly if the attempt's delay is over; it
      then makes the next attempt, and if it comes at most `period` after the last tick with an effect, it comes
      at most the delay and `period` after the intent. */
  lemma RetryInTime(t: Course, a: nat, b: nat, x: string, d: string, k: int, period: nat)
    requires t.Runs() && a < b < |t.ticks| && 1 <= k
    requires GoodDisk(t.disks[a]) && GoodTick(t.platform, t.ticks[a]) && Intends(t.StepAt(a), x, d, k)
    requires t.RunsTo(b, d) && forall m :: a < m < b ==> QuietAt(t, m, d)
    requires t.ticks[b].now <= t.ticks[t.LastBusy(a, b)].now + period
    ensures t.SendsAt(b) <==> t.ticks[a].now + Delay(k) <= t.ticks[b].now
    ensures t.SendsAt(b) ==>
              && t.StepAt(b)[1] == Sent(x, d, t.ticks[b].now, Min(k + 1, MAX_ATTEMPTS))
              && t.ticks[b].now <= t.ticks[a].now + Delay(k) + period
  {
    var due := t.ticks[a].now + Delay(k);
    IntentAwaits(t.platform, t.disks[a], t.ticks[a], x, d, k);
    StillAwaits(t, a, b, x, d, k, due);
    AwaitsStep(t.platform, t.disks[b], t.ticks[b], x, d, k, due);
    DelayGrows(k, k);
    assert t.ticks[t.LastBusy(a, b)].now <= due;
  }

  // ----- ... in every history -----

  function DiskBefore(h: History, c: nat): Disk
    requires c <= |h.ticks|
  {
    DiskAfter(h.start, Log(h.platform, h.start, h.ticks[..c]))
  }

  function CourseOf(h: History): Course {
    Course(h.platform, h.ticks, seq(|h.ticks| + 1, c requires 0 <= c <= |h.ticks| => DiskBefore(h, c)))
  }

  lemma NextDisk(h: History, c: nat)
    requires c < |h.ticks|
    ensures DiskBefore(h, c + 1) == DiskAfter(DiskBefore(h, c), Step(h.platform, DiskBefore(h, c), h.ticks[c]))
  {
    assert h.ticks[..c + 1][..c] == h.ticks[..c];
    DiskAfterConcat(h.start, Log(h.platform, h.start, h.ticks[..c]), Step(h.platform, DiskBefore(h, c), h.ticks[c]));
  }

  lemma CourseRuns(h: History)
    ensures CourseOf(h).Runs()
  {
    forall c | 0 <= c < |h.ticks|
      ensures CourseOf(h).disks[c + 1] == DiskAfter(CourseOf(h).disks[c], CourseOf(h).StepAt(c))
    {
      NextDisk(h, c);
    }
  }

  lemma GoodBefore(h: History, c: nat)
    requires c <= |h.ticks| && GoodDisk(h.start)
    requires forall m :: 0 <= m < |h.ticks| ==> GoodTick(h.platform, h.ticks[m])
    ensures GoodDisk(DiskBefore(h, c))
  {
    var g := h.(ticks := h.ticks[..c]);
    DiskStaysReadable(g, |g.Events()|);
    assert g.Events()[..|g.Events()|] == g.Events();
  }

  /** The bound on retries, over every history: two consecutive sends of an unaccepted incident at one
      destination are at most the first one's delay and one timer period apart, and the second does come. */
  lemma RetryIsTimely(h: History, t: Course, a: nat, b: nat, x: string, d: string, k: int, period: nat)
    requires GoodDisk(h.start) && forall m :: 0 <= m < |h.ticks| ==> GoodTick(h.platform, h.ticks[m])
    requires t == CourseOf(h) && a < b < |h.ticks| && 1 <= k && Intends(t.StepAt(a), x, d, k)
    requires t.RunsTo(b, d) && forall m :: a < m < b ==> QuietAt(t, m, d)
    requires h.ticks[b].now <= h.ticks[t.LastBusy(a, b)].now + period
    ensures t.SendsAt(b) <==> h.ticks[a].now + Delay(k) <= h.ticks[b].now
    ensures t.SendsAt(b) ==>
              && t.StepAt(b)[1] == Sent(x, d, h.ticks[b].now, Min(k + 1, MAX_ATTEMPTS))
              && h.ticks[b].now <= h.ticks[a].now + Delay(k) + period
  {
    CourseRuns(h);
    GoodBefore(h, a);
    assert GoodTick(h.platform, h.ticks[a]);
    RetryInTime(t, a, b, x, d, k, period);
  }
}
