/** What one run of the watchdog does, case by case and in full, from what is on disk and what it observes. */
module WatchdogLaws {
  import opened Basics
  import opened Watchdog
  import opened WatchdogSafety

  // ----- The pieces -----

  /** The delays, attempt by attempt: a minute, doubled each time, and an hour from the seventh on. */
  lemma DelayTable(k: int)
    ensures Delay(1) == 60 && Delay(2) == 120 && Delay(3) == 240 && Delay(4) == 480 && Delay(5) == 960
    ensures Delay(6) == 1920 && (7 <= k ==> Delay(k) == 3600)
  {
    PowersOfTwo();
  }

  /** A webhook accepts with a status from 200 to 299, Telegram with a positive message number. */
  lemma AcceptanceExactly(config: Config, status: Option<int>)
    requires !config.ConfigError?
    ensures Accepted(config, status) <==>
            (config.Webhook? && exists code :: 200 <= code <= 299 && status == Some(code)) ||
            (config.Telegram? && exists number :: 1 <= number && status == Some(number))
  {
    if status.Some? {
      assert status == Some(status.value);
    }
  }

  /** The destination is the digest of the recipient, and empty without one. */
  lemma DestinationExactly(p: Platform, token: string, chat: string, url: string)
    ensures p.Destination(Telegram(token, chat)) == p.sha256("telegram\0" + token + "\0" + chat)
    ensures p.Destination(Webhook(url)) == if url == "" then "" else p.sha256(url)
    ensures p.Deliverable(Telegram(token, chat)) && p.Deliverable(Webhook(url)) == p.validWebhook(url)
  {
    assert |"telegram\0" + token + "\0" + chat| > 0;
  }

  /** Different recipients have different texts to digest: tokens and URLs contain no NUL. */
  lemma RecipientsDiffer(p: Platform, token: string, chat: string, other: string, otherChat: string, url: string)
    requires '\0' !in token && '\0' !in other && '\0' !in url
    ensures p.Recipient(Telegram(token, chat)) == p.Recipient(Telegram(other, otherChat)) ==>
              token == other && chat == otherChat
    ensures p.Recipient(Telegram(token, chat)) != p.Recipient(Webhook(url))
  {
    var a, b := p.Recipient(Telegram(token, chat)), p.Recipient(Telegram(other, otherChat));
    var prefix := "telegram\0";
    assert a == prefix + (token + ("\0" + chat)) && b == prefix + (other + ("\0" + otherChat));
    assert a[8] == '\0';
    if a == b {
      assert a[|prefix|..] == token + ("\0" + chat) && b[|prefix|..] == other + ("\0" + otherChat);
      SplitAtNul(token, chat, other, otherChat);
    }
  }

  /** The first NUL of a text that starts with the NUL-free `a`. */
  lemma NulAfter(a: string, b: string, k: nat)
    requires '\0' !in a && k < |a + ("\0" + b)|
    ensures k < |a| ==> (a + ("\0" + b))[k] != '\0'
    ensures k == |a| ==> (a + ("\0" + b))[k] == '\0'
  {
  }

  lemma SplitAtNul(a: string, b: string, c: string, d: string)
    requires '\0' !in a && '\0' !in c && a + ("\0" + b) == c + ("\0" + d)
    ensures a == c && b == d
  {
    NulAfter(a, b, |a|);
    NulAfter(c, d, |c|);
    NulAfter(a, b, |c|);
    NulAfter(c, d, |a|);
    assert |a| == |c|;
    var s := a + ("\0" + b);
    assert s[..|a|] == a && s[..|c|] == c;
    assert s[|a| + 1..] == b && s[|c| + 1..] == d;
  }

  /** What a stored record must look like to be read. */
  lemma ReadableExactly(s: State)
    ensures ReadState(Stored(s)) == (if ReadState(Stored(s)).Some? then Some(s) else None)
    ensures ReadState(Stored(s)).Some? <==>
              && 0 <= s.firstSeen <= 253402300799 && 0 <= s.lastSeen <= 253402300799
              && 0 <= s.attempts <= 253402300799 && 0 <= s.nextAttemptAt <= 253402300799
              && |s.incidentId| in {0, 32} && (forall c <- s.incidentId :: c in "0123456789abcdef")
              && |s.destinationId| in {0, 64} && (forall c <- s.destinationId :: c in "0123456789abcdef")
              && (s.condition != Ok ==> |s.incidentId| == 32)
  {
    HexExactly(s.incidentId);
    HexExactly(s.destinationId);
  }

  lemma HexExactly(id: string)
    ensures IsHex(id) <==> forall c <- id :: c in "0123456789abcdef"
  {
    if IsHex(id) {
      forall c <- id
        ensures c in "0123456789abcdef"
      {
        var i :| 0 <= i < |id| && id[i] == c;
        HexDigit(c);
      }
    }
    if forall c <- id :: c in "0123456789abcdef" {
      forall i | 0 <= i < |id|
        ensures '0' <= id[i] <= '9' || 'a' <= id[i] <= 'f'
      {
        assert id[i] in id;
        HexDigit(id[i]);
      }
    }
  }

  lemma HexDigit(c: char)
    ensures c in "0123456789abcdef" <==> '0' <= c <= '9' || 'a' <= c <= 'f'
  {
    var digits := "0123456789abcdef";
    assert digits == ['0', '1', '2', '3', '4', '5', '6', '7', '8', '9', 'a', 'b', 'c', 'd', 'e', 'f'];
    if '0' <= c <= '9' {
      assert digits[c as int - '0' as int] == c;
    } else if 'a' <= c <= 'f' {
      assert digits[10 + (c as int - 'a' as int)] == c;
    }
  }

  /** A missing file is a host that owes nothing; any other unreadable one stops every run, as do a broken
      configuration and a busy lock. */
  lemma NothingHappens(p: Platform, disk: Disk, tick: Tick)
    ensures ReadState(Missing) == Some(State(Ok, "", "", 0, 0, 0, 0, NoDelivery))
    ensures tick.config.ConfigError? || tick.lockBusy || disk.Garbage? || ReadState(disk).None? || tick.survives == 0 ==>
              Step(p, disk, tick) == []
  {
  }

  /** A run that dies early leaves a prefix of what it would have done. */
  lemma DyingCuts(p: Platform, disk: Disk, tick: Tick)
    ensures var whole := Step(p, disk, tick.(survives := 3));
            |whole| <= 3 && Step(p, disk, tick) == if tick.survives < |whole| then whole[..tick.survives] else whole
  {
    if !tick.config.ConfigError? && ReadState(disk).Some? {
      var all := Effects(p, ReadState(disk).value, tick);
      assert all == Effects(p, ReadState(disk).value, tick.(survives := 3));
      assert all[..|all|] == all;
    }
  }

  // ----- The cases -----

  /** The record owes nothing: the host was well, or its fault has been reported. */
  predicate Settled(s: State) {
    s.condition == Ok || s.delivery == AcceptedUnverified
  }

  /** The run gets as far as reading the record. */
  predicate Reads(disk: Disk, tick: Tick) {
    !tick.config.ConfigError? && !tick.lockBusy && ReadState(disk).Some?
  }

  /** The delivery recorded after a send. */
  function Verdict(tick: Tick): Delivery {
    if Accepted(tick.config, tick.status) then AcceptedUnverified else Pending
  }

  /** A new fault opens an incident under the fresh id and is sent at once: intent, send, outcome. */
  lemma NewFaultIsSent(p: Platform, disk: Disk, tick: Tick)
    requires Reads(disk, tick) && Settled(ReadState(disk).value) && 3 <= tick.survives && 0 <= tick.now
    requires tick.condition != Ok && tick.condition != ReadState(disk).value.condition
    requires p.Deliverable(tick.config)
    ensures var d := p.Destination(tick.config);
            Step(p, disk, tick) ==
            [Wrote(State(tick.condition, tick.freshId, d, tick.now, tick.now, 1, tick.now + 60, Sending)),
             Sent(tick.freshId, d, tick.now, 1),
             Wrote(State(tick.condition, tick.freshId, d, tick.now, tick.now, 1, tick.now + 60, Verdict(tick)))]
  {
    DelayTable(1);
  }

  /** A healthy host that owes nothing writes the empty record, whatever it held before. */
  lemma HealthClears(p: Platform, disk: Disk, tick: Tick)
    requires Reads(disk, tick) && Settled(ReadState(disk).value) && 1 <= tick.survives && tick.condition == Ok
    ensures Step(p, disk, tick) == [Wrote(State(Ok, "", "", 0, tick.now, 0, 0, NoDelivery))]
  {
  }

  /** A reported fault that persists is not sent again: only the time last seen moves. */
  lemma ReportedIsQuiet(p: Platform, disk: Disk, tick: Tick)
    requires Reads(disk, tick) && 1 <= tick.survives && p.Deliverable(tick.config) && tick.condition != Ok
    requires var s := ReadState(disk).value;
             s.delivery == AcceptedUnverified && s.condition == tick.condition &&
             s.destinationId == p.Destination(tick.config)
    ensures Step(p, disk, tick) == [Wrote(ReadState(disk).value.(lastSeen := tick.now))]
  {
  }

  /** ... unless there is a new recipient, who is told under the same id, as of any incident still owed. */
  lemma NewRecipientIsTold(p: Platform, disk: Disk, tick: Tick)
    requires Reads(disk, tick) && 3 <= tick.survives && p.Deliverable(tick.config) && 0 <= tick.now
    requires var s := ReadState(disk).value;
             s.condition != Ok && (s.condition == tick.condition || !Settled(s)) &&
             s.destinationId != p.Destination(tick.config)
    ensures var s, d := ReadState(disk).value, p.Destination(tick.config);
            Step(p, disk, tick) ==
            [Wrote(State(s.condition, s.incidentId, d, s.firstSeen, tick.now, 1, tick.now + 60, Sending)),
             Sent(s.incidentId, d, tick.now, 1),
             Wrote(State(s.condition, s.incidentId, d, s.firstSeen, tick.now, 1, tick.now + 60, Verdict(tick)))]
  {
    DelayTable(1);
  }

  /** An owed incident whose wait is over is sent with the next attempt, whatever is observed now. */
  lemma OwedIsRetried(p: Platform, disk: Disk, tick: Tick)
    requires Reads(disk, tick) && !Settled(ReadState(disk).value) && 3 <= tick.survives && p.Deliverable(tick.config)
    requires var s := ReadState(disk).value;
             s.destinationId == p.Destination(tick.config) && s.nextAttemptAt <= tick.now
    ensures var s, d := ReadState(disk).value, p.Destination(tick.config);
            var k := if s.attempts < 1000000 then s.attempts + 1 else 1000000;
            Step(p, disk, tick) ==
            [Wrote(State(s.condition, s.incidentId, d, s.firstSeen, tick.now, k, tick.now + Delay(k), Sending)),
             Sent(s.incidentId, d, tick.now, k),
             Wrote(State(s.condition, s.incidentId, d, s.firstSeen, tick.now, k, tick.now + Delay(k), Verdict(tick)))]
  {
  }

  /** Before that only the time last seen moves. */
  lemma OwedWaits(p: Platform, disk: Disk, tick: Tick)
    requires Reads(disk, tick) && !Settled(ReadState(disk).value) && 1 <= tick.survives && p.Deliverable(tick.config)
    requires var s := ReadState(disk).value;
             s.destinationId == p.Destination(tick.config) && tick.now < s.nextAttemptAt
    ensures Step(p, disk, tick) == [Wrote(ReadState(disk).value.(lastSeen := tick.now))]
  {
  }

  /** Without a reachable recipient nothing is sent, but the incident is on record as undelivered: the owed or
      persisting one, or a new one. */
  lemma UnreachableIsRecorded(p: Platform, disk: Disk, tick: Tick)
    requires Reads(disk, tick) && 1 <= tick.survives && !p.Deliverable(tick.config)
    requires !(Settled(ReadState(disk).value) && tick.condition == Ok)
    ensures var s, d := ReadState(disk).value, p.Destination(tick.config);
            Step(p, disk, tick) ==
            if Settled(s) && tick.condition != s.condition then
              [Wrote(State(tick.condition, tick.freshId, d, tick.now, tick.now, 0, 0, Undelivered))]
            else if s.destinationId != d then
              [Wrote(State(s.condition, s.incidentId, d, s.firstSeen, tick.now, 0, 0, Undelivered))]
            else
              [Wrote(s.(lastSeen := tick.now, delivery := Undelivered))]
  {
  }

  // ----- Every fault is told -----

  /** From any readable disk: a run that leaves an accepted record, a healthy run and a run that meets any fault
      lead to a send of that fault under that run's id, although it may be the very fault already reported. */
  lemma RecurrenceIsSent(p: Platform, disk: Disk, first: Tick, well: Tick, again: Tick)
    requires Reads(disk, first) && 3 <= first.survives && p.Deliverable(first.config) && 0 <= first.now
    requires Settled(ReadState(disk).value) && Verdict(first) == AcceptedUnverified
    requires first.condition != Ok && first.condition != ReadState(disk).value.condition
    requires GoodDisk(disk) && GoodTick(p, first) && GoodTick(p, well) && GoodTick(p, again)
    requires !well.config.ConfigError? && !well.lockBusy && 1 <= well.survives && well.condition == Ok
    requires !again.config.ConfigError? && !again.lockBusy && 3 <= again.survives && again.condition != Ok
    requires p.Deliverable(again.config)
    ensures var after := DiskAfter(disk, Step(p, disk, first));
            var cleared := DiskAfter(after, Step(p, after, well));
            && Step(p, disk, first)[1] == Sent(first.freshId, p.Destination(first.config), first.now, 1)
            && Step(p, cleared, again)[1] == Sent(again.freshId, p.Destination(again.config), again.now, 1)
  {
    var after := DiskAfter(disk, Step(p, disk, first));
    NewFaultIsSent(p, disk, first);
    CutDisk(disk, p, first);
    EffectsReadable(p, ReadState(disk).value, first);
    var cleared := DiskAfter(after, Step(p, after, well));
    HealthClears(p, after, well);
    CutDisk(after, p, well);
    NewFaultIsSent(p, cleared, again);
  }

  /** The same at the end of every history: on a readable disk that owes nothing, a diligent run that observes a
      fault which is not the recorded one sends it under an id that was never on disk. */
  lemma FaultIsSentAfterHistory(h: History, tick: Tick)
    requires GoodDisk(h.start) && forall j :: 0 <= j < |h.ticks| ==> GoodTick(h.platform, h.ticks[j])
    requires Diligent(h.platform, tick) && 0 <= tick.now && tick.condition != Ok
    requires Settled(h.At(|h.Events()|)) && tick.condition != h.At(|h.Events()|).condition
    requires h.(ticks := h.ticks + [tick]).FreshIds()
    ensures var step := Step(h.platform, h.DiskAt(|h.Events()|), tick);
            && |step| == 3
            && step[1] == Sent(tick.freshId, h.platform.Destination(tick.config), tick.now, 1)
    ensures forall i :: 0 <= i <= |h.Events()| ==> h.At(i).incidentId != tick.freshId
  {
    var n := |h.Events()|;
    DiskStaysReadable(h, n);
    NewFaultIsSent(h.platform, h.DiskAt(n), tick);
    var all := h.ticks + [tick];
    assert all[|h.ticks|] == tick && forall j :: 0 <= j < |h.ticks| ==> all[j] == h.ticks[j];
    forall i | 0 <= i <= n
      ensures h.At(i).incidentId != tick.freshId
    {
      IdsKnown(h, i);
    }
  }
}
