/** The multi-key channel: a list of credentials whose status, disable time and reason live in three
    sparse maps indexed by position, so that deleting a key re-indexes them. The object meant is a list
    of records; every action is proved to be an operation on that list. */
module MultiKey {
  import opened Basics
  import opened Text

  const ENABLED := 1
  const MANUALLY_DISABLED := 2
  const AUTO_DISABLED := 3

  /** One credential with what the three maps hold for it. */
  datatype Record = Record(key: string, status: Option<int>, time: Option<int>, reason: Option<string>)
  {
    function Status(): int {
      if status.Some? then status.value else ENABLED
    }
  }

  function Plain(key: string): Record {
    Record(key, None, None, None)
  }

  // ----- Actions on the list of records -----

  datatype Action =
    | DisableKey(index: Option<int>)
    | EnableKey(index: Option<int>)
    | EnableAllKeys
    | DisableAllKeys
    | DeleteKey(index: Option<int>)
    | DeleteDisabledKeys
    | Unknown

  /** A default status is not kept in the map when a key list is rebuilt. */
  function Normal(r: Record): Record {
    if r.status == Some(ENABLED) then r.(status := None) else r
  }

  function Normals(rs: seq<Record>): seq<Record> {
    seq(|rs|, i requires 0 <= i < |rs| => Normal(rs[i]))
  }

  function Without(rs: seq<Record>, k: nat): seq<Record>
    requires k < |rs|
  {
    rs[..k] + rs[k + 1..]
  }

  /** The first `n` records without position `k`. */
  function Skipping(rs: seq<Record>, k: nat, n: nat): seq<Record>
    requires n <= |rs|
  {
    if n <= k then rs[..n] else rs[..k] + rs[k + 1..n]
  }

  lemma SkippingStep(rs: seq<Record>, k: nat, i: nat)
    requires i < |rs|
    ensures Normals(Skipping(rs, k, i + 1)) ==
            Normals(Skipping(rs, k, i)) + if i == k then [] else [Normal(rs[i])]
  {
    assert i > k ==> rs[k + 1..i + 1] == rs[k + 1..i] + [rs[i]];
    assert rs[..i + 1] == rs[..i] + [rs[i]];
  }

  lemma SkippingAll(rs: seq<Record>, k: nat)
    requires k < |rs|
    ensures Skipping(rs, k, |rs|) == Without(rs, k)
  {
    assert rs[k + 1..|rs|] == rs[k + 1..];
  }

  function Reset(rs: seq<Record>): seq<Record> {
    seq(|rs|, i requires 0 <= i < |rs| => Plain(rs[i].key))
  }

  function Disabled(r: Record): Record {
    if r.Status() == ENABLED then r.(status := Some(MANUALLY_DISABLED)) else r
  }

  /** What `delete_disabled_keys` keeps: every record that is not automatically disabled, where an enabled
      one drops its time and reason. */
  function Survivors(rs: seq<Record>): (kept: seq<Record>) {
    if rs == [] then []
    else
      var r := rs[|rs| - 1];
      Survivors(rs[..|rs| - 1]) +
      if r.Status() == AUTO_DISABLED then [] else if r.Status() == ENABLED then [Plain(r.key)] else [r]
  }

  function CountOf(rs: seq<Record>, status: int): (n: nat) {
    if rs == [] then 0
    else CountOf(rs[..|rs| - 1], status) + if rs[|rs| - 1].Status() == status then 1 else 0
  }

  lemma {:induction false} NoneCounted(rs: seq<Record>, status: int)
    ensures CountOf(rs, status) == 0 <==> forall i :: 0 <= i < |rs| ==> rs[i].Status() != status
  {
    if rs != [] {
      var init := rs[..|rs| - 1];
      NoneCounted(init, status);
      assert forall i :: 0 <= i < |init| ==> init[i] == rs[i];
    }
  }

  lemma SurvivorsStep(rs: seq<Record>, i: nat)
    requires i < |rs|
    ensures Survivors(rs[..i + 1]) ==
            Survivors(rs[..i]) +
            if rs[i].Status() == AUTO_DISABLED then []
            else if rs[i].Status() == ENABLED then [Plain(rs[i].key)] else [rs[i]]
    ensures CountOf(rs[..i + 1], AUTO_DISABLED) ==
            CountOf(rs[..i], AUTO_DISABLED) + if rs[i].Status() == AUTO_DISABLED then 1 else 0
  {
    var more := rs[..i + 1];
    assert more[..|more| - 1] == rs[..i] && more[|more| - 1] == rs[i];
  }

  predicate InRange(index: Option<int>, n: int) {
    index.Some? && 0 <= index.value < n
  }

  /** The list after a saved action. */
  function Apply(rs: seq<Record>, action: Action): (after: seq<Record>) {
    match action
    case DisableKey(index) =>
      if InRange(index, |rs|) then rs[index.value := rs[index.value].(status := Some(MANUALLY_DISABLED))] else rs
    case EnableKey(index) =>
      if InRange(index, |rs|) then rs[index.value := Plain(rs[index.value].key)] else rs
    case EnableAllKeys => Reset(rs)
    case DisableAllKeys => seq(|rs|, i requires 0 <= i < |rs| => Disabled(rs[i]))
    case DeleteKey(index) =>
      if InRange(index, |rs|) && 1 < |rs| then Normals(Without(rs, index.value)) else rs
    case DeleteDisabledKeys =>
      if forall r <- rs :: r.Status() != AUTO_DISABLED then rs
      else if Survivors(rs) == [] then Reset(rs)
      else Survivors(rs)
    case Unknown => rs
  }

  // ----- The stored form -----

  datatype Info = Info(size: int, status: map<int, int>, time: map<int, int>, reason: map<int, string>)

  function RecordAt(key: string, info: Info, i: int): Record {
    Record(key, Lookup(info.status, i), Lookup(info.time, i), Lookup(info.reason, i))
  }

  function RecordsOf(keys: seq<string>, info: Info): (rs: seq<Record>) {
    seq(|keys|, i requires 0 <= i < |keys| => RecordAt(keys[i], info, i))
  }

  predicate IndicesBelow(info: Info, n: int) {
    && (forall i <- info.status :: 0 <= i < n)
    && (forall i <- info.time :: 0 <= i < n)
    && (forall i <- info.reason :: 0 <= i < n)
  }

  predicate Consistent(keys: seq<string>, info: Info) {
    info.size == |keys| && IndicesBelow(info, |keys|)
  }

  function WithStatus(info: Info, i: int, r: Record): Info {
    info.(status := if r.status.Some? then info.status[i := r.status.value] else info.status,
          time := if r.time.Some? then info.time[i := r.time.value] else info.time,
          reason := if r.reason.Some? then info.reason[i := r.reason.value] else info.reason)
  }

  /** Adding a key at the end together with its map entries adds one record. */
  lemma RecordsPush(keys: seq<string>, info: Info, r: Record)
    requires IndicesBelow(info, |keys|)
    ensures RecordsOf(keys + [r.key], WithStatus(info, |keys|, r)) == RecordsOf(keys, info) + [r]
    ensures IndicesBelow(WithStatus(info, |keys|, r), |keys| + 1)
  {
    var more := WithStatus(info, |keys|, r);
    assert |keys| !in info.status && |keys| !in info.time && |keys| !in info.reason;
    assert RecordAt(r.key, more, |keys|) == r;
    forall i | 0 <= i < |keys|
      ensures RecordAt(keys[i], more, i) == RecordAt(keys[i], info, i)
    {
    }
  }

  /** Dropping out-of-range statuses and setting the size makes a rebuilt store consistent, and leaves its
      records alone. */
  lemma ConsistentAfterUpdate(keys: seq<string>, info: Info)
    requires IndicesBelow(info, |keys|)
    ensures var saved := info.(size := |keys|, status := map i | i in info.status && i < |keys| :: info.status[i]);
            Consistent(keys, saved) && RecordsOf(keys, saved) == RecordsOf(keys, info)
  {
    assert (map i | i in info.status && i < |keys| :: info.status[i]) == info.status;
  }

  /** The status of position `j` after all enabled ones below the size were disabled. */
  function DisabledAt(info: Info, j: int): int {
    if j in info.status && (info.status[j] != ENABLED || !(0 <= j < info.size)) then info.status[j]
    else MANUALLY_DISABLED
  }

  function EnabledBelow(info: Info, n: nat): (count: nat) {
    if n == 0 then 0
    else EnabledBelow(info, n - 1) + if n - 1 in info.status && info.status[n - 1] != ENABLED then 0 else 1
  }

  lemma {:induction false} EnabledCounts(keys: seq<string>, info: Info, n: nat)
    requires n <= |keys|
    ensures CountOf(RecordsOf(keys, info)[..n], ENABLED) == EnabledBelow(info, n)
  {
    if n != 0 {
      var rs := RecordsOf(keys, info);
      EnabledCounts(keys, info, n - 1);
      assert rs[..n][..n - 1] == rs[..n - 1];
    }
  }

  // ----- Appending keys -----

  function Plains(keys: seq<string>): seq<Record> {
    seq(|keys|, i requires 0 <= i < |keys| => Plain(keys[i]))
  }

  function SeenIn(keys: seq<string>): set<string> {
    set i | 0 <= i < |keys| && Trim(keys[i]) != "" :: Trim(keys[i])
  }

  /** The trimmed, non-empty keys that occur first in `keys` and not in `seen`. */
  function Unseen(seen: set<string>, keys: seq<string>): (added: seq<string>)
    decreases keys
  {
    if keys == [] then []
    else
      var t := Trim(keys[0]);
      if t == "" || t in seen then Unseen(seen, keys[1..]) else [t] + Unseen(seen + {t}, keys[1..])
  }

  lemma SeenInPush(keys: seq<string>, i: nat)
    requires i < |keys|
    ensures SeenIn(keys[..i + 1]) == SeenIn(keys[..i]) + if Trim(keys[i]) == "" then {} else {Trim(keys[i])}
  {
    assert forall j :: 0 <= j < i ==> keys[..i + 1][j] == keys[..i][j] == keys[j];
    assert keys[..i + 1][i] == keys[i];
    forall k | k in SeenIn(keys[..i])
      ensures k in SeenIn(keys[..i + 1])
    {
      var j :| 0 <= j < i && Trim(keys[..i][j]) == k;
      assert Trim(keys[..i + 1][j]) == k;
    }
  }

  /** One key further: `added` grows by it if it was not seen. */
  lemma UnseenStep(seen: set<string>, keys: seq<string>, rest: seq<string>, added: seq<string>)
    requires keys != [] && rest == keys[1..]
    ensures var t := Trim(keys[0]);
            added + Unseen(seen, keys) ==
            if t == "" || t in seen then added + Unseen(seen, rest)
            else (added + [t]) + Unseen(seen + {t}, rest)
  {
  }

  datatype Reply = Saved(count: nat) | Refused | SaveFailed

  function Written(possible: bool, count: nat, saves: bool): Reply {
    if !possible then Refused else if saves then Saved(count) else SaveFailed
  }

  /** What an action on these records answers; `statuses` is the number of stored statuses. */
  function ReplyTo(rs: seq<Record>, statuses: nat, action: Action, saves: bool): Reply {
    match action
    case DisableKey(index) => Written(InRange(index, |rs|), 1, saves)
    case EnableKey(index) => Written(InRange(index, |rs|), 1, saves)
    case EnableAllKeys => Written(true, statuses, saves)
    case DisableAllKeys => Written(CountOf(rs, ENABLED) > 0, CountOf(rs, ENABLED), saves)
    case DeleteKey(index) => Written(InRange(index, |rs|) && 1 < |rs|, 1, saves)
    case DeleteDisabledKeys => Written(CountOf(rs, AUTO_DISABLED) > 0, CountOf(rs, AUTO_DISABLED), saves)
    case Unknown => Refused
  }

  class Channel {
    var keys: seq<string>
    var info: Info

    predicate Valid()
      reads this
    {
      Consistent(keys, info)
    }

    function Records(): seq<Record>
      reads this
    {
      RecordsOf(keys, info)
    }

    constructor (keys: seq<string>)
      ensures Valid() && this.keys == keys
      ensures forall i :: 0 <= i < |keys| ==> Records()[i] == Plain(keys[i])
    {
      this.keys := keys;
      info := Info(|keys|, map[], map[], map[]);
    }

    /** `Channel.Update`: an empty key list is a zero field and is not written, so the stored keys stay;
        the size follows the keys and statuses beyond it are dropped. */
    method Update(newKeys: seq<string>, newInfo: Info, saves: bool) returns (ok: bool)
      modifies this
      ensures ok == saves
      ensures !saves ==> keys == old(keys) && info == old(info)
      ensures saves ==> keys == if newKeys == [] then old(keys) else newKeys
      ensures saves ==>
                info == newInfo.(size := |keys|,
                                 status := map i | i in newInfo.status && i < |keys| :: newInfo.status[i])
    {
      var current := if newKeys == [] then keys else newKeys;
      var size := |current|;
      var status := map i | i in newInfo.status && i < size :: newInfo.status[i];
      if saves {
        keys := current;
        info := newInfo.(size := size, status := status);
      }
      return saves;
    }

    method DisableOne(index: Option<int>, saves: bool) returns (reply: Reply)
      modifies this
      ensures !saves || !InRange(index, old(info.size)) ==> keys == old(keys) && info == old(info)
      ensures reply == if !InRange(index, old(info.size)) then Refused else if saves then Saved(1) else SaveFailed
      ensures old(Valid()) ==> Valid() && (saves ==> Records() == Apply(old(Records()), DisableKey(index)))
    {
      if index.None? || index.value < 0 || index.value >= info.size {
        return Refused;
      }
      var next := info.(status := info.status[index.value := MANUALLY_DISABLED]);
      var ok := Update(keys, next, saves);
      return if ok then Saved(1) else SaveFailed;
    }

    method EnableOne(index: Option<int>, saves: bool) returns (reply: Reply)
      modifies this
      ensures !saves || !InRange(index, old(info.size)) ==> keys == old(keys) && info == old(info)
      ensures reply == if !InRange(index, old(info.size)) then Refused else if saves then Saved(1) else SaveFailed
      ensures old(Valid()) ==> Valid() && (saves ==> Records() == Apply(old(Records()), EnableKey(index)))
    {
      if index.None? || index.value < 0 || index.value >= info.size {
        return Refused;
      }
      var next := info.(status := info.status - {index.value}, time := info.time - {index.value},
                        reason := info.reason - {index.value});
      var ok := Update(keys, next, saves);
      return if ok then Saved(1) else SaveFailed;
    }

    method EnableAll(saves: bool) returns (reply: Reply)
      modifies this
      ensures !saves ==> keys == old(keys) && info == old(info)
      ensures reply == if saves then Saved(|old(info).status|) else SaveFailed
      ensures saves || old(Valid()) ==> Valid()
      ensures saves ==> Records() == Apply(old(Records()), EnableAllKeys)
    {
      var count := |info.status|;
      var ok := Update(keys, info.(status := map[], time := map[], reason := map[]), saves);
      return if ok then Saved(count) else SaveFailed;
    }

    /** The loop of `disable_all_keys`. */
    static method DisableEnabled(info: Info) returns (status: map<int, int>, count: nat)
      ensures forall j :: j in status <==> j in info.status || 0 <= j < info.size
      ensures forall j <- status :: status[j] == DisabledAt(info, j)
      ensures count == if info.size <= 0 then 0 else EnabledBelow(info, info.size)
    {
      status, count := info.status, 0;
      var i := 0;
      while i < info.size
        invariant if 0 <= info.size then 0 <= i <= info.size else i == 0
        invariant forall j :: j in status <==> j in info.status || 0 <= j < i
        invariant forall j <- status :: status[j] == if 0 <= j < i then DisabledAt(info, j) else info.status[j]
        invariant count == EnabledBelow(info, i)
      {
        var s := if i in status then status[i] else ENABLED;
        if s == ENABLED {
          status := status[i := MANUALLY_DISABLED];
          count := count + 1;
        }
        i := i + 1;
      }
    }

    method DisableAll(saves: bool) returns (reply: Reply)
      modifies this
      ensures !reply.Saved? ==> keys == old(keys) && info == old(info)
      ensures reply.SaveFailed? ==> !saves
      ensures reply.Saved? ==> saves
      ensures old(Valid()) ==> Valid()
      ensures old(Valid()) && !reply.SaveFailed? ==> Records() == Apply(old(Records()), DisableAllKeys)
      ensures old(Valid()) ==> (reply.Refused? <==> CountOf(old(Records()), ENABLED) == 0)
      ensures old(Valid()) && reply.Saved? ==> reply.count == CountOf(old(Records()), ENABLED)
    {
      var status, count := DisableEnabled(info);
      EnabledCounts(keys, info, |keys|);
      assert Records()[..|keys|] == Records();
      NoneCounted(Records(), ENABLED);
      if count == 0 {
        return Refused;
      }
      var ok := Update(keys, info.(status := status), saves);
      return if ok then Saved(count) else SaveFailed;
    }

    /** Copies the map entries of position `i` to `newIndex`, an enabled status excepted. */
    static method CopyEntries(info: Info, i: int, before: Info, newIndex: int) returns (next: Info)
      ensures forall key :: next == WithStatus(before, newIndex, Normal(RecordAt(key, info, i)))
    {
      next := before;
      if i in info.status && info.status[i] != ENABLED {
        next := next.(status := next.status[newIndex := info.status[i]]);
      }
      if i in info.time {
        next := next.(time := next.time[newIndex := info.time[i]]);
      }
      if i in info.reason {
        next := next.(reason := next.reason[newIndex := info.reason[i]]);
      }
    }

    /** The loop of `delete_key`: rebuilds keys and maps without position `k`. */
    static method RebuildWithout(keys: seq<string>, info: Info, k: nat)
      returns (remaining: seq<string>, next: Info)
      ensures IndicesBelow(next, |remaining|)
      ensures RecordsOf(remaining, next) == Normals(Skipping(RecordsOf(keys, info), k, |keys|))
    {
      ghost var rs := RecordsOf(keys, info);
      remaining, next := [], Info(0, map[], map[], map[]);
      var newIndex := 0;
      for i := 0 to |keys|
        invariant newIndex == |remaining| && IndicesBelow(next, newIndex)
        invariant RecordsOf(remaining, next) == Normals(Skipping(rs, k, i))
      {
        SkippingStep(rs, k, i);
        if i != k {
          RecordsPush(remaining, next, Normal(rs[i]));
          remaining := remaining + [keys[i]];
          next := CopyEntries(info, i, next, newIndex);
          newIndex := newIndex + 1;
        }
      }
    }

    /** Rebuilds the list without one key, re-indexing the three maps. Whatever the maps held before, the
        result is consistent. */
    method DeleteOne(index: Option<int>, saves: bool) returns (reply: Reply)
      modifies this
      ensures !reply.Saved? ==> keys == old(keys) && info == old(info)
      ensures reply.Saved? ==> Valid() && saves && reply.count == 1
      ensures reply.SaveFailed? ==> !saves
      ensures old(Valid()) && !reply.SaveFailed? ==> Records() == Apply(old(Records()), DeleteKey(index))
      ensures old(Valid()) ==> (reply.Refused? <==> !InRange(index, old(|keys|)) || old(|keys|) == 1)
    {
      if index.None? || index.value < 0 || index.value >= info.size {
        return Refused;
      }
      var remaining, next := RebuildWithout(keys, info, index.value);
      if Valid() { SkippingAll(Records(), index.value); }
      assert |RecordsOf(remaining, next)| == |remaining|;
      if remaining == [] {
        return Refused;
      }
      ConsistentAfterUpdate(remaining, next);
      var ok := Update(remaining, next, saves);
      return if ok then Saved(1) else SaveFailed;
    }

    /** The loop of `delete_disabled_keys`. */
    static method RebuildSurvivors(keys: seq<string>, info: Info)
      returns (remaining: seq<string>, next: Info, deleted: nat)
      ensures IndicesBelow(next, |remaining|) && RecordsOf(remaining, next) == Survivors(RecordsOf(keys, info))
      ensures deleted == |keys| - |remaining| == CountOf(RecordsOf(keys, info), AUTO_DISABLED)
    {
      ghost var rs := RecordsOf(keys, info);
      remaining, deleted := [], 0;
      var newStatus, newTime, newReason: map<int, string> := map[], map[], map[];
      var newIndex := 0;
      for i := 0 to |keys|
        invariant newIndex == |remaining| && deleted == i - newIndex == CountOf(rs[..i], AUTO_DISABLED)
        invariant IndicesBelow(Info(0, newStatus, newTime, newReason), newIndex)
        invariant RecordsOf(remaining, Info(0, newStatus, newTime, newReason)) == Survivors(rs[..i])
      {
        SurvivorsStep(rs, i);
        var status := if i in info.status then info.status[i] else ENABLED;
        if status == AUTO_DISABLED {
          deleted := deleted + 1;
        } else {
          ghost var before := Info(0, newStatus, newTime, newReason);
          ghost var kept := if status == ENABLED then Plain(keys[i]) else rs[i];
          if status != ENABLED {
            newStatus := newStatus[newIndex := status];
            if i in info.time {
              newTime := newTime[newIndex := info.time[i]];
            }
            if i in info.reason {
              newReason := newReason[newIndex := info.reason[i]];
            }
          }
          assert Info(0, newStatus, newTime, newReason) == WithStatus(before, newIndex, kept);
          RecordsPush(remaining, before, kept);
          remaining := remaining + [keys[i]];
          newIndex := newIndex + 1;
        }
      }
      next := Info(0, newStatus, newTime, newReason);
      assert rs[..|keys|] == rs;
    }

    method DeleteDisabled(saves: bool) returns (reply: Reply)
      modifies this
      ensures !reply.Saved? ==> keys == old(keys) && info == old(info)
      ensures reply.Saved? ==> Valid() && saves
      ensures reply.SaveFailed? ==> !saves
      ensures !reply.SaveFailed? ==> Records() == Apply(old(Records()), DeleteDisabledKeys)
      ensures reply.Refused? <==> CountOf(old(Records()), AUTO_DISABLED) == 0
      ensures reply.Saved? ==> reply.count == CountOf(old(Records()), AUTO_DISABLED)
    {
      var remaining, next, deleted := RebuildSurvivors(keys, info);
      NoneCounted(Records(), AUTO_DISABLED);
      assert |RecordsOf(remaining, next)| == |remaining|;
      if deleted == 0 {
        return Refused;
      }
      ConsistentAfterUpdate(remaining, next);
      var ok := Update(remaining, next, saves);
      return if ok then Saved(deleted) else SaveFailed;
    }

    static method CleanLines(input: seq<string>) returns (newKeys: seq<string>)
      ensures newKeys == Cleaned(input)
    {
      newKeys := [];
      var i := 0;
      while i < |input|
        invariant 0 <= i <= |input|
        invariant newKeys == Cleaned(input[..i])
      {
        assert input[..i + 1][..i] == input[..i];
        var key := Trim(input[i]);
        if key != "" {
          newKeys := newKeys + [key];
        }
        i := i + 1;
      }
      assert input[..i] == input;
    }

    static method CollectSeen(existing: seq<string>) returns (seen: set<string>)
      ensures seen == SeenIn(existing)
    {
      seen := {};
      var i := 0;
      while i < |existing|
        invariant 0 <= i <= |existing|
        invariant seen == SeenIn(existing[..i])
      {
        SeenInPush(existing, i);
        var normalized := Trim(existing[i]);
        if normalized != "" {
          seen := seen + {normalized};
        }
        i := i + 1;
      }
      assert existing[..i] == existing;
    }

    static method Dedupe(existing: seq<string>, newKeys: seq<string>) returns (added: seq<string>)
      ensures added == Unseen(SeenIn(existing), newKeys)
    {
      var seen := CollectSeen(existing);
      ghost var all := Unseen(seen, newKeys);
      added := [];
      var i := 0;
      while i < |newKeys|
        invariant 0 <= i <= |newKeys|
        invariant added + Unseen(seen, newKeys[i..]) == all
      {
        UnseenStep(seen, newKeys[i..], newKeys[i + 1..], added);
        var normalized := Trim(newKeys[i]);
        if normalized != "" && normalized !in seen {
          seen := seen + {normalized};
          added := added + [normalized];
        }
        i := i + 1;
      }
    }

    /** The append branch of `UpdateChannel` for newline-separated keys: `input` are the request's lines.
        A channel without keys takes the lines as they are. */
    method Append(input: seq<string>, saves: bool) returns (ok: bool)
      modifies this
      ensures ok == saves
      ensures !saves ==> keys == old(keys) && info == old(info)
      ensures saves ==>
                keys == if old(keys) == [] then input
                        else old(keys) + Unseen(SeenIn(old(keys)), Cleaned(input))
      ensures old(Valid()) ==> Valid()
      ensures old(Valid()) && saves ==> Records() == old(Records()) + Plains(keys[|old(keys)|..])
    {
      var allKeys := input;
      if keys != [] {
        var newKeys := CleanLines(input);
        var added := Dedupe(keys, newKeys);
        allKeys := keys + added;
      }
      ok := Update(allKeys, info, saves);
      assert old(Valid()) && saves ==> info.status == old(info.status);
    }

    /** `ManageMultiKeys` for the actions that write. */
    method Manage(action: Action, saves: bool) returns (reply: Reply)
      modifies this
      ensures !reply.Saved? ==> keys == old(keys) && info == old(info)
      ensures old(Valid()) ==> Valid()
      ensures old(Valid()) && saves ==> Records() == Apply(old(Records()), action)
      ensures old(Valid()) ==> reply == ReplyTo(old(Records()), |old(info).status|, action, saves)
    {
      match action
      case DisableKey(index) => reply := DisableOne(index, saves);
      case EnableKey(index) => reply := EnableOne(index, saves);
      case EnableAllKeys => reply := EnableAll(saves);
      case DisableAllKeys => reply := DisableAll(saves);
      case DeleteKey(index) => reply := DeleteOne(index, saves);
      case DeleteDisabledKeys => reply := DeleteDisabled(saves);
      case Unknown => reply := Refused;
    }

    /** The page arithmetic of `get_key_status`. */
    static method Paginate(filtered: seq<KeyStatus>, page: int, pageSize: int)
      returns (shown: seq<KeyStatus>, number: int, totalPages: int)
      requires 0 < pageSize
      ensures totalPages == PageCount(|filtered|, pageSize)
      ensures number == if page <= 0 then 1 else Min(page, totalPages)
      ensures shown == PageOf(filtered, number, pageSize)
    {
      number := if page <= 0 then 1 else page;
      totalPages := (|filtered| + pageSize - 1) / pageSize;
      if totalPages == 0 {
        totalPages := 1;
      }
      if number > totalPages {
        number := totalPages;
      }
      var start := (number - 1) * pageSize;
      var end := start + pageSize;
      if end > |filtered| {
        end := |filtered|;
      }
      shown := [];
      OneLess(number, pageSize);
      if start < |filtered| {
        shown := filtered[start..end];
      }
    }

    static method CollectStatuses(keys: seq<string>, info: Info)
      returns (all: seq<KeyStatus>, enabled: nat, manual: nat, auto: nat)
      ensures all == Statuses(RecordsOf(keys, info))
      ensures enabled == CountOf(RecordsOf(keys, info), ENABLED)
      ensures manual == CountOf(RecordsOf(keys, info), MANUALLY_DISABLED)
      ensures auto == CountOf(RecordsOf(keys, info), AUTO_DISABLED)
    {
      ghost var rs := RecordsOf(keys, info);
      all, enabled, manual, auto := [], 0, 0, 0;
      for i := 0 to |keys|
        invariant all == Statuses(rs)[..i]
        invariant enabled == CountOf(rs[..i], ENABLED) && manual == CountOf(rs[..i], MANUALLY_DISABLED)
        invariant auto == CountOf(rs[..i], AUTO_DISABLED)
      {
        var status := if i in info.status then info.status[i] else ENABLED;
        assert rs[..i + 1][..i] == rs[..i];
        match status {
          case 1 => enabled := enabled + 1;
          case 2 => manual := manual + 1;
          case 3 => auto := auto + 1;
          case _ =>
        }
        var time := if status != ENABLED && i in info.time then info.time[i] else 0;
        all := all + [KeyStatus(i, status, time)];
      }
      assert rs[..|keys|] == rs;
    }

    static method FilterStatuses(all: seq<KeyStatus>, filter: Option<int>) returns (filtered: seq<KeyStatus>)
      ensures filtered == Matching(all, filter)
    {
      if filter.None? {
        return all;
      }
      filtered := [];
      for i := 0 to |all|
        invariant filtered == Matching(all[..i], filter)
      {
        assert all[..i + 1][..i] == all[..i];
        if all[i].status == filter.value {
          filtered := filtered + [all[i]];
        }
      }
      assert all[..|all|] == all;
    }

    /** `get_key_status`: one page of the filtered statuses, and counts over all keys. */
    method GetKeyStatus(page: int, pageSize: int, filter: Option<int>) returns (r: StatusPage)
      ensures r.pageSize == if pageSize <= 0 then 50 else pageSize
      ensures r.total == |Matching(Statuses(Records()), filter)|
      ensures r.totalPages == PageCount(r.total, r.pageSize)
      ensures r.page == if page <= 0 then 1 else Min(page, r.totalPages)
      ensures r.keys == PageOf(Matching(Statuses(Records()), filter), r.page, r.pageSize)
      ensures r.enabled == CountOf(Records(), ENABLED) && r.manual == CountOf(Records(), MANUALLY_DISABLED)
      ensures r.auto == CountOf(Records(), AUTO_DISABLED)
    {
      var all, enabled, manual, auto := CollectStatuses(keys, info);
      var filtered := FilterStatuses(all, filter);
      var size := if pageSize <= 0 then 50 else pageSize;
      var shown, number, totalPages := Paginate(filtered, page, size);
      return StatusPage(shown, |filtered|, number, size, totalPages, enabled, manual, auto);
    }
  }

  // ----- Status pages -----

  datatype KeyStatus = KeyStatus(index: nat, status: int, disabledTime: int)

  datatype StatusPage = StatusPage(keys: seq<KeyStatus>, total: nat, page: int, pageSize: int, totalPages: int,
                                   enabled: nat, manual: nat, auto: nat)

  /** The status shown for each key; the disable time only of keys that are not enabled. */
  function Statuses(rs: seq<Record>): seq<KeyStatus> {
    seq(|rs|, i requires 0 <= i < |rs| =>
      KeyStatus(i, rs[i].Status(), if rs[i].Status() != ENABLED && rs[i].time.Some? then rs[i].time.value else 0))
  }

  function Matching(all: seq<KeyStatus>, filter: Option<int>): seq<KeyStatus> {
    if filter.None? || all == [] then all
    else
      Matching(all[..|all| - 1], filter) +
      if all[|all| - 1].status == filter.value then [all[|all| - 1]] else []
  }

  function PageCount(total: nat, pageSize: int): (n: int)
    requires 0 < pageSize
  {
    if (total + pageSize - 1) / pageSize == 0 then 1 else (total + pageSize - 1) / pageSize
  }

  function Clip(n: int, most: nat): nat {
    if n < 0 then 0 else if n > most then most else n
  }

  /** Page `page` (from 1) of a list cut into pages of `pageSize`. */
  function PageOf<T>(list: seq<T>, page: int, pageSize: int): (shown: seq<T>)
    requires 0 < pageSize
  {
    var start := Clip((page - 1) * pageSize, |list|);
    var end := Clip((page - 1) * pageSize + pageSize, |list|);
    list[start..end]
  }

  function Pages<T>(list: seq<T>, pages: nat, pageSize: int): (shown: seq<T>)
    requires 0 < pageSize
  {
    if pages == 0 then [] else Pages(list, pages - 1, pageSize) + PageOf(list, pages, pageSize)
  }

  lemma OneLess(a: int, b: int)
    requires 1 <= a && 0 < b
    ensures (a - 1) * b == a * b - b && 0 <= (a - 1) * b
  {
  }

  /** `cut` is where page `pages` ends. */
  lemma {:induction false} PagesArePrefix<T>(list: seq<T>, pages: nat, pageSize: int, cut: int)
    requires 0 < pageSize && cut == pages * pageSize
    ensures 0 <= cut && Pages(list, pages, pageSize) == list[..Clip(cut, |list|)]
  {
    if pages != 0 {
      OneLess(pages, pageSize);
      PagesArePrefix(list, pages - 1, pageSize, cut - pageSize);
      assert PageOf(list, pages, pageSize) == list[Clip(cut - pageSize, |list|)..Clip(cut, |list|)];
    }
  }

  /** Walking pages 1 to the last shows every entry exactly once, in order. */
  lemma PagesCover<T>(list: seq<T>, pageSize: int)
    requires 0 < pageSize
    ensures Pages(list, PageCount(|list|, pageSize), pageSize) == list
  {
    PagesArePrefix(list, PageCount(|list|, pageSize), pageSize, PageCount(|list|, pageSize) * pageSize);
    CeilingBounds(|list|, pageSize);
  }

  /** No page of a non-empty list is empty or too long. */
  lemma PageIsFilled<T>(list: seq<T>, page: int, pageSize: int)
    requires 0 < pageSize && list != [] && 1 <= page <= PageCount(|list|, pageSize)
    ensures 1 <= |PageOf(list, page, pageSize)| <= pageSize
  {
    CeilingBounds(|list|, pageSize);
    Monotone(page - 1, PageCount(|list|, pageSize) - 1, pageSize);
  }

  lemma Monotone(a: int, b: int, c: int)
    requires 0 <= a <= b && 0 <= c
    ensures 0 <= a * c <= b * c
  {
  }

  lemma CeilingBounds(total: nat, pageSize: int)
    requires 0 < pageSize
    ensures total <= PageCount(total, pageSize) * pageSize
    ensures 0 < total ==> (PageCount(total, pageSize) - 1) * pageSize < total
  {
    var q := (total + pageSize - 1) / pageSize;
    assert q * pageSize + (total + pageSize - 1) % pageSize == total + pageSize - 1;
  }
}
