/** What each multi-key action does to each record, written out: 1 is enabled, 2 manually and 3 automatically
    disabled, and a record without a status is enabled. */
module MultiKeyLaws {
  import opened Basics
  import opened MultiKey

  /** Record `i` is key `i` with what the three maps hold for it. */
  lemma RecordsMeaning(keys: seq<string>, info: Info, i: nat)
    requires i < |keys|
    ensures var r := RecordsOf(keys, info)[i];
            && |RecordsOf(keys, info)| == |keys| && r.key == keys[i]
            && r.status == (if i in info.status then Some(info.status[i]) else None)
            && r.time == (if i in info.time then Some(info.time[i]) else None)
            && r.reason == (if i in info.reason then Some(info.reason[i]) else None)
            && r.Status() == if i in info.status then info.status[i] else 1
  {
  }

  // ----- One action -----

  /** Disabling key `k` sets its status to 2 and touches nothing else. */
  lemma DisableKeyMeaning(rs: seq<Record>, k: nat)
    requires k < |rs|
    ensures var after := Apply(rs, DisableKey(Some(k)));
            && |after| == |rs| && after[k] == Record(rs[k].key, Some(2), rs[k].time, rs[k].reason)
            && forall i :: 0 <= i < |rs| && i != k ==> after[i] == rs[i]
  {
  }

  /** Enabling key `k` drops its status, time and reason and touches nothing else. */
  lemma EnableKeyMeaning(rs: seq<Record>, k: nat)
    requires k < |rs|
    ensures var after := Apply(rs, EnableKey(Some(k)));
            && |after| == |rs| && after[k] == Record(rs[k].key, None, None, None)
            && forall i :: 0 <= i < |rs| && i != k ==> after[i] == rs[i]
  {
  }

  /** No index, or one outside the list, changes nothing. */
  lemma BadIndexMeaning(rs: seq<Record>, index: Option<int>)
    requires index.None? || index.value < 0 || |rs| <= index.value
    ensures Apply(rs, DisableKey(index)) == Apply(rs, EnableKey(index)) == Apply(rs, DeleteKey(index)) == rs
    ensures forall statuses, saves :: ReplyTo(rs, statuses, DisableKey(index), saves) == Refused
    ensures forall statuses, saves :: ReplyTo(rs, statuses, EnableKey(index), saves) == Refused
    ensures forall statuses, saves :: ReplyTo(rs, statuses, DeleteKey(index), saves) == Refused
  {
  }

  lemma EnableAllMeaning(rs: seq<Record>)
    ensures var after := Apply(rs, EnableAllKeys);
            |after| == |rs| && forall i :: 0 <= i < |rs| ==> after[i] == Record(rs[i].key, None, None, None)
  {
  }

  /** Disabling all keys disables the enabled ones, by hand; the others keep status, time and reason. */
  lemma DisableAllMeaning(rs: seq<Record>)
    ensures var after := Apply(rs, DisableAllKeys);
            && |after| == |rs|
            && forall i :: 0 <= i < |rs| ==>
                 after[i] ==
                 if rs[i].status in {None, Some(1)} then Record(rs[i].key, Some(2), rs[i].time, rs[i].reason) else rs[i]
  {
  }

  lemma {:induction false} SurvivorsExactly(rs: seq<Record>, r: Record)
    ensures r in Survivors(rs) <==> exists i :: 0 <= i < |rs| && SurvivesAs(rs[i], r)
    decreases |rs|
  {
    if rs != [] {
      var init, last := rs[..|rs| - 1], rs[|rs| - 1];
      assert rs == init + [last];
      SurvivorsExactly(init, r);
      assert SurvivesAs(last, r) <==>
             r in if last.Status() == AUTO_DISABLED then []
                  else if last.Status() == ENABLED then [Plain(last.key)] else [last];
      if i :| 0 <= i < |init| && SurvivesAs(init[i], r) {
        assert SurvivesAs(rs[i], r);
      }
      if i :| 0 <= i < |rs| && SurvivesAs(rs[i], r) {
        assert i < |init| ==> SurvivesAs(init[i], r);
      }
      if SurvivesAs(last, r) {
        assert SurvivesAs(rs[|init|], r);
      }
    }
  }

  /** A record that is not automatically disabled survives: an enabled one bare, any other as it is. */
  predicate SurvivesAs(r: Record, kept: Record) {
    && r.status != Some(3)
    && kept == if r.status in {None, Some(1)} then Record(r.key, None, None, None) else r
  }

  // ----- Counts, replies and pages -----

  function Positions(rs: seq<Record>, status: int): set<int> {
    set i | 0 <= i < |rs| && rs[i].Status() == status
  }

  /** The counts are numbers of positions. */
  lemma {:induction false} CountExactly(rs: seq<Record>, status: int)
    ensures CountOf(rs, status) == |Positions(rs, status)|
    decreases |rs|
  {
    if rs != [] {
      var init, last := rs[..|rs| - 1], rs[|rs| - 1];
      CountExactly(init, status);
      assert forall i :: 0 <= i < |init| ==> init[i] == rs[i];
      assert Positions(rs, status) ==
             Positions(init, status) + if last.Status() == status then {|rs| - 1} else {};
    }
  }

  /** What a save reports: one key, the enabled keys that were disabled, or the automatically disabled keys that
      were asked to go; nothing to do is a refusal, and so is deleting the last key. */
  lemma ReplyExactly(rs: seq<Record>, statuses: nat, k: nat, saves: bool)
    requires k < |rs|
    ensures var one := if saves then Saved(1) else SaveFailed;
            && ReplyTo(rs, statuses, DisableKey(Some(k)), saves) == one
            && ReplyTo(rs, statuses, EnableKey(Some(k)), saves) == one
            && ReplyTo(rs, statuses, DeleteKey(Some(k)), saves) == if |rs| == 1 then Refused else one
    ensures ReplyTo(rs, statuses, EnableAllKeys, saves) == if saves then Saved(statuses) else SaveFailed
    ensures var enabled := |Positions(rs, 1)|;
            ReplyTo(rs, statuses, DisableAllKeys, saves) ==
            if enabled == 0 then Refused else if saves then Saved(enabled) else SaveFailed
    ensures var auto := |Positions(rs, 3)|;
            ReplyTo(rs, statuses, DeleteDisabledKeys, saves) ==
            if auto == 0 then Refused else if saves then Saved(auto) else SaveFailed
  {
    CountExactly(rs, 1);
    CountExactly(rs, 3);
  }

  /** What is shown of key `i`: its position, its status, and since when unless it is enabled. */
  lemma StatusesMeaning(rs: seq<Record>, i: nat)
    requires i < |rs|
    ensures var s := Statuses(rs)[i];
            && |Statuses(rs)| == |rs| && s.index == i
            && s.status == (if rs[i].status.Some? then rs[i].status.value else 1)
            && s.disabledTime == if s.status != 1 && rs[i].time.Some? then rs[i].time.value else 0
  {
  }

  predicate ByIndex(all: seq<KeyStatus>) {
    forall i, j :: 0 <= i < j < |all| ==> all[i].index < all[j].index
  }

  /** A status filter keeps exactly the entries of that status, in order; no filter keeps all. */
  lemma {:induction false} FilterExactly(all: seq<KeyStatus>, wanted: int)
    ensures Matching(all, None) == all
    ensures forall s :: s in Matching(all, Some(wanted)) <==> s in all && s.status == wanted
    ensures ByIndex(all) ==> ByIndex(Matching(all, Some(wanted)))
    decreases |all|
  {
    if all != [] {
      var init, last := all[..|all| - 1], all[|all| - 1];
      assert all == init + [last];
      FilterExactly(init, wanted);
      if ByIndex(all) {
        assert ByIndex(init) by { assert forall i :: 0 <= i < |init| ==> init[i] == all[i]; }
        assert forall s <- init :: s.index < last.index;
        IndexPush(Matching(init, Some(wanted)), last);
      }
    }
  }

  lemma IndexPush(all: seq<KeyStatus>, s: KeyStatus)
    requires ByIndex(all) && forall r <- all :: r.index < s.index
    ensures ByIndex(all + [s]) && all + [] == all
  {
    assert forall i :: 0 <= i < |all| ==> all[i] in all;
  }
}
