/** What the multi-key actions mean to a caller, one at a time and over whole runs. */
module MultiKeyRuns {
  import opened Basics
  import opened MultiKey
  import opened Text

  // ----- What the actions mean -----

  datatype View = View(key: string, status: int)

  function ViewOf(r: Record): View {
    View(r.key, r.Status())
  }

  function Views(rs: seq<Record>): seq<View> {
    seq(|rs|, i requires 0 <= i < |rs| => ViewOf(rs[i]))
  }

  /** The list with the automatically disabled keys left out, as a caller would say it. */
  function NotAutoDisabled(vs: seq<View>): seq<View> {
    if vs == [] then []
    else NotAutoDisabled(vs[..|vs| - 1]) +
         if vs[|vs| - 1].status == AUTO_DISABLED then [] else [vs[|vs| - 1]]
  }

  lemma ViewsPush(rs: seq<Record>, r: Record)
    ensures Views(rs + [r]) == Views(rs) + [ViewOf(r)]
  {
  }

  lemma NotAutoDisabledPush(vs: seq<View>, v: View)
    ensures NotAutoDisabled(vs + [v]) == NotAutoDisabled(vs) + if v.status == AUTO_DISABLED then [] else [v]
  {
    assert (vs + [v])[..|vs|] == vs;
  }

  lemma {:induction false} SurvivorsKeepStatus(rs: seq<Record>)
    ensures Views(Survivors(rs)) == NotAutoDisabled(Views(rs))
    decreases |rs|
  {
    if rs != [] {
      var init, r := rs[..|rs| - 1], rs[|rs| - 1];
      SurvivorsKeepStatus(init);
      assert rs == init + [r];
      ViewsPush(init, r);
      NotAutoDisabledPush(Views(init), ViewOf(r));
      ViewsPush(Survivors(init), if r.Status() == ENABLED then Plain(r.key) else r);
    }
  }

  lemma {:induction false} SurvivorsEmpty(rs: seq<Record>)
    ensures Survivors(rs) == [] <==> forall i :: 0 <= i < |rs| ==> rs[i].Status() == AUTO_DISABLED
    decreases |rs|
  {
    if rs != [] {
      var init := rs[..|rs| - 1];
      SurvivorsEmpty(init);
      assert forall i :: 0 <= i < |init| ==> init[i] == rs[i];
    }
  }

  lemma {:induction false} NothingToDelete(vs: seq<View>)
    requires forall i :: 0 <= i < |vs| ==> vs[i].status != AUTO_DISABLED
    ensures NotAutoDisabled(vs) == vs
  {
    if vs != [] {
      NothingToDelete(vs[..|vs| - 1]);
    }
  }

  /** `delete_disabled_keys` removes exactly the automatically disabled keys, keeping every other key's place
      and status, unless every key is automatically disabled: then it keeps them all and enables them. */
  lemma DeleteDisabledMeaning(rs: seq<Record>)
    ensures Views(Apply(rs, DeleteDisabledKeys)) == NotAutoDisabled(Views(rs)) <==>
            rs == [] || exists i :: 0 <= i < |rs| && rs[i].Status() != AUTO_DISABLED
    ensures rs != [] && (forall i :: 0 <= i < |rs| ==> rs[i].Status() == AUTO_DISABLED) ==>
              Apply(rs, DeleteDisabledKeys) == Reset(rs)
  {
    SurvivorsKeepStatus(rs);
    SurvivorsEmpty(rs);
    if forall r <- rs :: r.Status() != AUTO_DISABLED {
      NothingToDelete(Views(rs));
    }
    if rs != [] && forall i :: 0 <= i < |rs| ==> rs[i].Status() == AUTO_DISABLED {
      assert rs[0] in rs;
      assert |Views(Survivors(rs))| == 0;
    }
  }

  /** The smallest channel on which `delete_disabled_keys` enables what it was asked to delete. */
  lemma DeleteDisabledCanEnable()
    ensures var rs := [Record("k", Some(AUTO_DISABLED), None, None)];
            Apply(rs, DeleteDisabledKeys) == [Plain("k")]
  {
    var rs := [Record("k", Some(AUTO_DISABLED), None, None)];
    DeleteDisabledMeaning(rs);
    assert rs[0] in rs;
    assert Reset(rs) == [Plain("k")];
  }

  /** `delete_key` removes one record; all others keep their order, status, time and reason. */
  lemma DeleteKeyMeaning(rs: seq<Record>, k: nat)
    requires k < |rs| && 1 < |rs|
    ensures var after := Apply(rs, DeleteKey(Some(k)));
            && Views(after) == Views(rs)[..k] + Views(rs)[k + 1..]
            && |after| == |rs| - 1
            && forall i :: 0 <= i < |after| ==>
                 var r := rs[if i < k then i else i + 1];
                 after[i].key == r.key && after[i].time == r.time && after[i].reason == r.reason
  {
    var rest, after := Without(rs, k), Apply(rs, DeleteKey(Some(k)));
    assert forall i :: 0 <= i < |rest| ==> rest[i] == rs[if i < k then i else i + 1];
    assert forall i :: 0 <= i < |rest| ==> after[i] == Normal(rest[i]) && ViewOf(after[i]) == ViewOf(rest[i]);
    assert Views(after) == Views(rest);
    assert Views(rest) == Views(rs)[..k] + Views(rs)[k + 1..];
  }

  // ----- Runs of actions -----

  function Run(rs: seq<Record>, actions: seq<Action>): seq<Record> {
    if actions == [] then rs else Apply(Run(rs, actions[..|actions| - 1]), actions[|actions| - 1])
  }

  lemma StepNeverEmpties(rs: seq<Record>, action: Action)
    requires rs != []
    ensures Apply(rs, action) != []
  {
  }

  /** No sequence of actions deletes the last key. */
  lemma {:induction false} RunNeverEmpties(rs: seq<Record>, actions: seq<Action>)
    requires rs != []
    ensures Run(rs, actions) != []
    decreases |actions|
  {
    if actions != [] {
      RunNeverEmpties(rs, actions[..|actions| - 1]);
      StepNeverEmpties(Run(rs, actions[..|actions| - 1]), actions[|actions| - 1]);
    }
  }

  /** The list when action `t` of a run is about to be applied. */
  function Reached(rs: seq<Record>, actions: seq<Action>, t: nat): seq<Record>
    requires t <= |actions|
  {
    Run(rs, actions[..t])
  }

  predicate HasKey(rs: seq<Record>, key: string) {
    exists i :: 0 <= i < |rs| && rs[i].key == key
  }

  /** The action asks for this key to go: by its position, or because it is automatically disabled. */
  predicate Targets(rs: seq<Record>, action: Action, key: string) {
    || (action.DeleteKey? && InRange(action.index, |rs|) && rs[action.index.value].key == key)
    || (action.DeleteDisabledKeys? &&
        exists i :: 0 <= i < |rs| && rs[i].key == key && rs[i].Status() == AUTO_DISABLED)
  }

  lemma {:induction false} SurvivorsHaveKey(rs: seq<Record>, i: nat)
    requires i < |rs| && rs[i].Status() != AUTO_DISABLED
    ensures HasKey(Survivors(rs), rs[i].key)
  {
    var init := rs[..|rs| - 1];
    if i == |init| {
      assert Survivors(rs)[|Survivors(rs)| - 1].key == rs[i].key;
    } else {
      SurvivorsHaveKey(init, i);
      var j :| 0 <= j < |Survivors(init)| && Survivors(init)[j].key == rs[i].key;
      assert Survivors(rs)[j] == Survivors(init)[j];
    }
  }

  lemma StepKeepsKey(rs: seq<Record>, action: Action, key: string)
    requires HasKey(rs, key) && !Targets(rs, action, key)
    ensures HasKey(Apply(rs, action), key)
  {
    var i :| 0 <= i < |rs| && rs[i].key == key;
    var after := Apply(rs, action);
    if action.DeleteKey? && InRange(action.index, |rs|) && 1 < |rs| {
      assert after[if i < action.index.value then i else i - 1].key == key;
    } else if action.DeleteDisabledKeys? && after == Survivors(rs) {
      SurvivorsHaveKey(rs, i);
    } else {
      assert after[i].key == key;
    }
  }

  /** A key that a run lost was, at some moment, the target of a delete. */
  lemma {:induction false} LostKeyWasDeleted(rs: seq<Record>, actions: seq<Action>, key: string)
    requires HasKey(rs, key) && !HasKey(Run(rs, actions), key)
    ensures exists t :: 0 <= t < |actions| && Targets(Reached(rs, actions, t), actions[t], key)
    decreases |actions|
  {
    var past := actions[..|actions| - 1];
    if HasKey(Run(rs, past), key) {
      if !Targets(Reached(rs, actions, |actions| - 1), actions[|actions| - 1], key) {
        StepKeepsKey(Run(rs, past), actions[|actions| - 1], key);
      }
    } else {
      LostKeyWasDeleted(rs, past, key);
      var t :| 0 <= t < |past| && Targets(Reached(rs, past, t), past[t], key);
      assert past[..t] == actions[..t];
      assert Targets(Reached(rs, actions, t), actions[t], key);
    }
  }

  predicate EnabledIn(rs: seq<Record>, key: string) {
    exists i :: 0 <= i < |rs| && rs[i].key == key && rs[i].Status() == ENABLED
  }

  /** The action may enable a key: on request, or by deleting when nothing else is left. */
  predicate MayEnable(rs: seq<Record>, action: Action) {
    || action.EnableKey? || action.EnableAllKeys?
    || (action.DeleteDisabledKeys? && forall i :: 0 <= i < |rs| ==> rs[i].Status() == AUTO_DISABLED)
  }

  lemma {:induction false} SurvivorsEnabled(rs: seq<Record>, key: string)
    requires EnabledIn(Survivors(rs), key)
    ensures EnabledIn(rs, key)
  {
    var init := rs[..|rs| - 1];
    if EnabledIn(Survivors(init), key) {
      SurvivorsEnabled(init, key);
      var j :| 0 <= j < |init| && init[j].key == key && init[j].Status() == ENABLED;
      assert rs[j] == init[j];
    } else {
      var j :| 0 <= j < |Survivors(rs)| && Survivors(rs)[j].key == key && Survivors(rs)[j].Status() == ENABLED;
      if j < |Survivors(init)| {
        assert false;
      }
      assert rs[|rs| - 1].key == key && rs[|rs| - 1].Status() == ENABLED;
    }
  }

  lemma StepEnablesNothing(rs: seq<Record>, action: Action, key: string)
    requires !MayEnable(rs, action) && EnabledIn(Apply(rs, action), key)
    ensures EnabledIn(rs, key)
  {
    var after := Apply(rs, action);
    var i :| 0 <= i < |after| && after[i].key == key && after[i].Status() == ENABLED;
    if action.DeleteKey? && InRange(action.index, |rs|) && 1 < |rs| {
      assert ViewOf(rs[if i < action.index.value then i else i + 1]) == ViewOf(after[i]);
    } else if action.DeleteDisabledKeys? && after != rs {
      SurvivorsEmpty(rs);
      SurvivorsEnabled(rs, key);
    } else {
      assert rs[i].key == key && rs[i].Status() == ENABLED;
    }
  }

  /** A key enabled after a run was enabled before it, unless some action of the run could enable. */
  lemma {:induction false} NoSilentEnable(rs: seq<Record>, actions: seq<Action>, key: string)
    requires forall t :: 0 <= t < |actions| ==> !MayEnable(Reached(rs, actions, t), actions[t])
    requires EnabledIn(Run(rs, actions), key)
    ensures EnabledIn(rs, key)
    decreases |actions|
  {
    if actions != [] {
      var past := actions[..|actions| - 1];
      assert !MayEnable(Reached(rs, actions, |actions| - 1), actions[|actions| - 1]);
      StepEnablesNothing(Run(rs, past), actions[|actions| - 1], key);
      forall t | 0 <= t < |past|
        ensures !MayEnable(Reached(rs, past, t), past[t])
      {
        assert past[..t] == actions[..t];
        assert !MayEnable(Reached(rs, actions, t), actions[t]);
      }
      NoSilentEnable(rs, past, key);
    }
  }

  // ----- Appending -----

  lemma {:induction false} UnseenMeaning(seen: set<string>, keys: seq<string>)
    ensures NoDuplicates(Unseen(seen, keys))
    ensures forall k <- Unseen(seen, keys) :: k != "" && k !in seen && Trimmed(k)
    ensures forall k :: k in Unseen(seen, keys) <==> k != "" && k !in seen && k in SeenIn(keys)
    decreases keys
  {
    if keys != [] {
      var t := Trim(keys[0]);
      TrimIsTrimmed(keys[0]);
      UnseenMeaning(if t == "" || t in seen then seen else seen + {t}, keys[1..]);
      assert SeenIn(keys) == SeenIn(keys[1..]) + if t == "" then {} else {t} by {
        forall k | k in SeenIn(keys)
          ensures k in SeenIn(keys[1..]) || k == t
        {
          var i :| 0 <= i < |keys| && Trim(keys[i]) == k;
          if 0 < i { assert keys[1..][i - 1] == keys[i]; }
        }
        forall k | k in SeenIn(keys[1..])
          ensures k in SeenIn(keys)
        {
          var i :| 0 <= i < |keys[1..]| && Trim(keys[1..][i]) == k;
          assert keys[i + 1] == keys[1..][i];
        }
      }
    }
  }

  /** An append adds each new key once, trimmed: exactly the non-blank lines of the request that no existing
      key equals up to surrounding space. Appending the same lines again adds nothing. */
  lemma AppendMeaning(keys: seq<string>, input: seq<string>)
    ensures var added := Unseen(SeenIn(keys), Cleaned(input));
            && NoDuplicates(added) && (forall k <- added :: Trimmed(k))
            && (forall k :: k in added <==> HasLine(input, k) && k !in SeenIn(keys))
            && Unseen(SeenIn(keys + added), Cleaned(input)) == []
  {
    var cleaned := Cleaned(input);
    var added := Unseen(SeenIn(keys), cleaned);
    UnseenMeaning(SeenIn(keys), cleaned);
    forall k
      ensures k in SeenIn(cleaned) <==> HasLine(input, k)
    {
      CleanedHas(input, k);
      forall i | 0 <= i < |cleaned|
        ensures Trim(cleaned[i]) == cleaned[i]
      {
        CleanedHas(input, cleaned[i]);
        var j :| 0 <= j < |input| && Trim(input[j]) == cleaned[i];
        TrimIsTrimmed(input[j]);
        TrimIsTrimmed(cleaned[i]);
      }
      if k in cleaned {
        var i :| 0 <= i < |cleaned| && cleaned[i] == k;
        assert Trim(cleaned[i]) == k;
      }
    }
    var again := Unseen(SeenIn(keys + added), cleaned);
    UnseenMeaning(SeenIn(keys + added), cleaned);
    forall k | k in SeenIn(cleaned)
      ensures k in SeenIn(keys + added)
    {
      if k in SeenIn(keys) {
        var i :| 0 <= i < |keys| && Trim(keys[i]) == k;
        assert (keys + added)[i] == keys[i];
      } else {
        var i :| 0 <= i < |added| && added[i] == k;
        TrimIsTrimmed(k);
        assert (keys + added)[|keys| + i] == k;
      }
    }
    HeadIn(again);
  }

  /** The first line that reads `key`. */
  ghost function FirstLine(keys: seq<string>, key: string): (i: nat)
    requires key in SeenIn(keys)
    ensures i < |keys| && Trim(keys[i]) == key && forall k :: 0 <= k < i ==> Trim(keys[k]) != key
  {
    if Trim(keys[0]) == key then 0
    else
      var k :| 0 <= k < |keys| && Trim(keys[k]) == key;
      assert keys[1..][k - 1] == keys[k];
      1 + FirstLine(keys[1..], key)
  }

  /** `a` comes before `b` among the lines. */
  ghost predicate Earlier(keys: seq<string>, a: string, b: string) {
    a in SeenIn(keys) && b in SeenIn(keys) && FirstLine(keys, a) < FirstLine(keys, b)
  }

  lemma EarlierLater(keys: seq<string>, rest: seq<string>, a: string, b: string)
    requires keys != [] && rest == keys[1..] && Earlier(rest, a, b) && Trim(keys[0]) !in {a, b}
    ensures Earlier(keys, a, b)
  {
    LineLater(keys, rest, a);
    LineLater(keys, rest, b);
  }

  lemma HeadIsEarlier(keys: seq<string>, rest: seq<string>, b: string)
    requires keys != [] && rest == keys[1..] && b in SeenIn(rest) && Trim(keys[0]) !in {"", b}
    ensures Earlier(keys, Trim(keys[0]), b)
  {
    LineLater(keys, rest, b);
    assert Trim(keys[0]) in SeenIn(keys);
  }

  /** The order of the first lines of a list of keys. */
  ghost predicate InLineOrder(keys: seq<string>, added: seq<string>) {
    forall i, j :: 0 <= i < j < |added| ==> Earlier(keys, added[i], added[j])
  }

  lemma OrderWithout(keys: seq<string>, rest: seq<string>, added: seq<string>)
    requires keys != [] && rest == keys[1..] && InLineOrder(rest, added) && Trim(keys[0]) !in added
    ensures InLineOrder(keys, added)
  {
    forall i, j | 0 <= i < j < |added|
      ensures Earlier(keys, added[i], added[j])
    {
      EarlierLater(keys, rest, added[i], added[j]);
    }
  }

  lemma OrderWith(keys: seq<string>, rest: seq<string>, more: seq<string>)
    requires keys != [] && rest == keys[1..] && InLineOrder(rest, more)
    requires Trim(keys[0]) != "" && Trim(keys[0]) !in more && forall k <- more :: k in SeenIn(rest)
    ensures InLineOrder(keys, [Trim(keys[0])] + more)
  {
    var added := [Trim(keys[0])] + more;
    forall i, j | 0 <= i < j < |added|
      ensures Earlier(keys, added[i], added[j])
    {
      if i == 0 {
        HeadIsEarlier(keys, rest, more[j - 1]);
      } else {
        EarlierLater(keys, rest, more[i - 1], more[j - 1]);
      }
    }
  }

  /** Keys are appended in the order of their first lines. */
  lemma {:induction false} AppendKeepsOrder(seen: set<string>, keys: seq<string>)
    ensures InLineOrder(keys, Unseen(seen, keys))
    decreases keys
  {
    if keys != [] {
      var t, rest := Trim(keys[0]), keys[1..];
      var now := if t == "" || t in seen then seen else seen + {t};
      AppendKeepsOrder(now, rest);
      UnseenMeaning(now, rest);
      if now == seen && (t == "" || t in seen) {
        OrderWithout(keys, rest, Unseen(seen, rest));
      } else {
        OrderWith(keys, rest, Unseen(now, rest));
      }
    }
  }

  lemma LineLater(keys: seq<string>, rest: seq<string>, key: string)
    requires keys != [] && rest == keys[1..] && key in SeenIn(rest) && Trim(keys[0]) != key
    ensures key in SeenIn(keys) && FirstLine(keys, key) == 1 + FirstLine(rest, key)
  {
    var k := FirstLine(rest, key);
    assert keys[k + 1] == rest[k];
  }
}
