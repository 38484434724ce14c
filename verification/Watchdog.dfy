/** The host watchdog's alert protocol: one durable incident record, written before and after every send.

    A run reads the record, folds the observed condition into it, persists the intent to send, sends,
    and persists the outcome. The process may die between any two externally visible effects; the
    record is replaced atomically, so a crash is exactly a cut of the run's sequence of effects. */
module Watchdog {
  import opened Basics

  datatype Condition =
    | Ok
    | ServerContainerDead
    | ServerContainerUnavailable
    | DatabaseContainerDead
    | DatabaseContainerUnavailable
    | DatabaseQueryFailed
    | HeartbeatMissing
    | HeartbeatInvalid
    | WorkerStale
    | WorkerTickError

  datatype Delivery = NoDelivery | Pending | Sending | Undelivered | AcceptedUnverified

  datatype State = State(
    condition: Condition,
    incidentId: string,
    destinationId: string,
    firstSeen: int,
    lastSeen: int,
    attempts: int,
    nextAttemptAt: int,
    delivery: Delivery)
  {
    /** The incident still has to reach its recipient. */
    predicate Owed() {
      !condition.Ok? && !delivery.AcceptedUnverified?
    }
  }

  const EMPTY := State(Ok, "", "", 0, 0, 0, 0, NoDelivery)
  const MAX_TIME := 253402300799
  const MAX_ATTEMPTS := 1000000

  /** The state file: absent, unreadable as the schema, or holding one record. */
  datatype Disk = Missing | Garbage | Stored(state: State)

  predicate IsHex(s: string) {
    forall i :: 0 <= i < |s| ==> '0' <= s[i] <= '9' || 'a' <= s[i] <= 'f'
  }

  predicate InRange(n: int) {
    0 <= n <= MAX_TIME
  }

  /** What `read_state` demands of a stored record. */
  predicate Readable(s: State) {
    && InRange(s.firstSeen) && InRange(s.lastSeen) && InRange(s.attempts) && InRange(s.nextAttemptAt)
    && (s.incidentId == "" || (|s.incidentId| == 32 && IsHex(s.incidentId)))
    && (s.destinationId == "" || (|s.destinationId| == 64 && IsHex(s.destinationId)))
    && (!s.condition.Ok? ==> s.incidentId != "")
  }

  function ReadState(disk: Disk): (r: Option<State>) {
    match disk
    case Missing => Some(EMPTY)
    case Garbage => None
    case Stored(s) => if Readable(s) then Some(s) else None
  }

  // ----- The environment -----

  datatype Config = ConfigError | Telegram(token: string, chat: string) | Webhook(url: string)

  /** The parts of the platform the protocol relies on but does not define. */
  datatype Platform = Platform(sha256: string -> string, validWebhook: string -> bool)
  {
    function Recipient(config: Config): string
      requires !config.ConfigError?
    {
      match config
      case Telegram(token, chat) => "telegram\0" + token + "\0" + chat
      case Webhook(url) => url
    }

    function Destination(config: Config): string
      requires !config.ConfigError?
    {
      if Recipient(config) == "" then "" else sha256(Recipient(config))
    }

    predicate Deliverable(config: Config)
      requires !config.ConfigError?
    {
      config.Telegram? || validWebhook(config.url)
    }
  }

  /** One timer tick: what the run sees, and how many of its effects happen before the process dies. */
  datatype Tick = Tick(
    config: Config,
    lockBusy: bool,
    now: int,
    condition: Condition,
    freshId: string,
    status: Option<int>,
    survives: nat)

  predicate Accepted(config: Config, status: Option<int>) {
    status.Some? && if config.Telegram? then status.value > 0 else 200 <= status.value < 300
  }

  /** An effect visible outside the process. */
  datatype Event =
    | Wrote(state: State)
    | Sent(incident: string, destination: string, at: int, attempt: int)

  // ----- The protocol as a function of the record and the environment -----

  function Pow2(n: nat): (r: nat) {
    if n == 0 then 1 else 2 * Pow2(n - 1)
  }

  /** Seconds to wait after attempt `k`. */
  function Delay(k: int): (r: int)
    requires 1 <= k
  {
    Min(3600, 60 * Pow2(Min(k - 1, 6)))
  }

  function Coalesce(s: State, tick: Tick): State {
    if s.condition != tick.condition && !s.Owed()
    then EMPTY.(condition := tick.condition, incidentId := tick.freshId, firstSeen := tick.now, delivery := Pending)
    else s
  }

  function Retarget(s: State, destination: string): State {
    if s.destinationId != destination
    then s.(destinationId := destination, attempts := 0, nextAttemptAt := 0, delivery := Pending)
    else s
  }

  function Arm(s: State, now: int): State
    requires 0 <= s.attempts
  {
    var k := Min(s.attempts + 1, MAX_ATTEMPTS);
    s.(attempts := k, nextAttemptAt := now + Delay(k), delivery := Sending)
  }

  function Outcome(s: State, accepted: bool): State {
    s.(delivery := if accepted then AcceptedUnverified else Pending)
  }

  /** All effects of an uninterrupted run that read `s`. */
  function Effects(p: Platform, s: State, tick: Tick): (events: seq<Event>)
    requires !tick.config.ConfigError? && 0 <= s.attempts
  {
    if tick.condition.Ok? && !s.Owed() then
      [Wrote(EMPTY.(lastSeen := tick.now))]
    else
      var t := Retarget(Coalesce(s, tick), p.Destination(tick.config)).(lastSeen := tick.now);
      if !p.Deliverable(tick.config) then
        [Wrote(t.(delivery := Undelivered))]
      else if t.delivery.AcceptedUnverified? || tick.now < t.nextAttemptAt then
        [Wrote(t)]
      else
        var u := Arm(t, tick.now);
        [Wrote(u), Sent(u.incidentId, u.destinationId, tick.now, u.attempts),
         Wrote(Outcome(u, Accepted(tick.config, tick.status)))]
  }

  /** The effects of one tick, cut where the process dies. */
  function Step(p: Platform, disk: Disk, tick: Tick): (events: seq<Event>) {
    if tick.config.ConfigError? || tick.lockBusy || ReadState(disk).None? then []
    else
      var all := Effects(p, ReadState(disk).value, tick);
      if tick.survives < |all| then all[..tick.survives] else all
  }

  function DiskAfter(disk: Disk, events: seq<Event>): Disk {
    if events == [] then disk
    else
      match events[|events| - 1]
      case Wrote(s) => Stored(s)
      case Sent(_, _, _, _) => DiskAfter(disk, events[..|events| - 1])
  }

  /** Everything the host ever saw from a sequence of ticks. */
  function Log(p: Platform, disk: Disk, ticks: seq<Tick>): (events: seq<Event>) {
    if ticks == [] then []
    else
      var earlier := Log(p, disk, ticks[..|ticks| - 1]);
      earlier + Step(p, DiskAfter(disk, earlier), ticks[|ticks| - 1])
  }

  /** The disk after the effects of one tick. */
  lemma CutDisk(disk: Disk, p: Platform, tick: Tick)
    ensures var step := Step(p, disk, tick);
            DiskAfter(disk, step) ==
            if step == [] then disk else if |step| == 3 then Stored(step[2].state) else Stored(step[0].state)
  {
    var step := Step(p, disk, tick);
    if |step| == 2 {
      assert step[..1] == [step[0]];
    }
  }

  // ----- The program -----

  class Host {
    var disk: Disk
    var log: seq<Event>

    constructor ()
      ensures disk == Missing && log == []
    {
      disk, log := Missing, [];
    }

    method WriteState(s: State)
      modifies this
      ensures disk == Stored(s) && log == old(log) + [Wrote(s)]
    {
      disk := Stored(s);
      log := log + [Wrote(s)];
    }

    method Send(s: State, now: int)
      modifies this`log
      ensures log == old(log) + [Sent(s.incidentId, s.destinationId, now, s.attempts)]
    {
      log := log + [Sent(s.incidentId, s.destinationId, now, s.attempts)];
    }

    /** The last part of a run: arm the record, send, record the outcome. */
    method Notify(due: State, tick: Tick)
      requires !tick.config.ConfigError? && 0 <= due.attempts && 0 < tick.survives
      modifies this
      ensures var u := Arm(due, tick.now);
              var all := [Wrote(u), Sent(u.incidentId, u.destinationId, tick.now, u.attempts),
                          Wrote(Outcome(u, Accepted(tick.config, tick.status)))];
              && log == old(log) + (if tick.survives < 3 then all[..tick.survives] else all)
              && disk == Stored(if tick.survives < 3 then u else all[2].state)
    {
      var state := due;
      state := state.(attempts := Min(state.attempts + 1, MAX_ATTEMPTS));
      state := state.(nextAttemptAt := tick.now + Delay(state.attempts));
      state := state.(delivery := Sending);
      WriteState(state);
      if tick.survives == 1 {
        return;
      }
      Send(state, tick.now);
      if tick.survives == 2 {
        return;
      }
      state := state.(delivery := if Accepted(tick.config, tick.status) then AcceptedUnverified else Pending);
      WriteState(state);
    }

    /** `run_once`, dying after `tick.survives` effects. */
    method RunOnce(p: Platform, tick: Tick)
      modifies this
      ensures log == old(log) + Step(p, old(disk), tick)
      ensures disk == DiskAfter(old(disk), Step(p, old(disk), tick))
    {
      CutDisk(old(disk), p, tick);
      if tick.config.ConfigError? || tick.lockBusy {
        return;
      }
      var read := ReadState(disk);
      if read.None? {
        return;
      }
      var state := read.value;
      var pending := !state.condition.Ok? && !state.delivery.AcceptedUnverified?;
      if tick.survives == 0 {
        return;
      }
      if tick.condition.Ok? && !pending {
        state := EMPTY;
        state := state.(lastSeen := tick.now);
        WriteState(state);
        return;
      }
      if state.condition != tick.condition && !pending {
        state := EMPTY;
        state := state.(condition := tick.condition, incidentId := tick.freshId, firstSeen := tick.now,
          delivery := Pending);
      }
      var destination := p.Destination(tick.config);
      if state.destinationId != destination {
        state := state.(destinationId := destination, attempts := 0, nextAttemptAt := 0, delivery := Pending);
      }
      state := state.(lastSeen := tick.now);
      if !p.Deliverable(tick.config) {
        state := state.(delivery := Undelivered);
        WriteState(state);
        return;
      }
      if state.delivery.AcceptedUnverified? {
        WriteState(state);
        return;
      }
      if tick.now < state.nextAttemptAt {
        WriteState(state);
        return;
      }
      Notify(state, tick);
    }
  }
}
