/** What detecting and applying upstream changes promises: a partition of the pending names, convergence,
    and a sweep that reaches every channel once. */
module UpstreamLaws {
  import opened Text
  import opened Upstream

  // ----- What a detection reports, from the raw lists -----

  /** Line `line` of an ignore list covers the model: by pattern after the marker, else by name. */
  predicate Covers(line: string, name: string, matches: Matcher) {
    var entry := Trim(line);
    entry != "" && if "regex:" <= entry then matches(Trim(entry[6..]), name) else entry == name
  }

  lemma EntryCovers(line: string, name: string, matches: Matcher)
    requires Trim(line) != ""
    ensures IgnoredBy(Trim(line), name, matches) == Covers(line, name, matches)
  {
    assert |REGEX_PREFIX| == 6;
  }

  lemma IgnoredExactly(ignored: seq<string>, name: string, matches: Matcher)
    ensures Ignored(Normalize(ignored), name, matches) <==>
            exists i :: 0 <= i < |ignored| && Covers(ignored[i], name, matches)
  {
    var entries := Normalize(ignored);
    if j :| 0 <= j < |entries| && IgnoredBy(entries[j], name, matches) {
      NormalizeMembers(ignored, entries[j]);
      var i :| 0 <= i < |ignored| && Trim(ignored[i]) == entries[j];
      EntryCovers(ignored[i], name, matches);
    }
    if i :| 0 <= i < |ignored| && Covers(ignored[i], name, matches) {
      EntryCovers(ignored[i], name, matches);
      NormalizeMembers(ignored, Trim(ignored[i]));
      var j :| 0 <= j < |entries| && entries[j] == Trim(ignored[i]);
    }
  }

  /** A model is pending for addition exactly if upstream lists it, the channel does not, no redirect leads to
      it, and no line of the ignore list covers it. */
  lemma PendingAddExactly(local: seq<string>, upstream: seq<string>, ignored: seq<string>,
                          mapping: map<string, string>, matches: Matcher, name: string)
    ensures name in PendingAdd(local, upstream, ignored, mapping, matches) <==>
            && HasLine(upstream, name) && !HasLine(local, name)
            && (forall source <- mapping :: mapping[source] != name)
            && !exists i :: 0 <= i < |ignored| && Covers(ignored[i], name, matches)
  {
    var add := PendingAdd(local, upstream, ignored, mapping, matches);
    PendingMembers(local, upstream, ignored, mapping, matches);
    InMembers(add, name);
    InMembers(Normalize(upstream), name);
    InMembers(Normalize(local), name);
    NormalizeMembers(upstream, name);
    NormalizeMembers(local, name);
    IgnoredExactly(ignored, name, matches);
    RedirectTarget(mapping, name);
  }

  lemma RedirectTarget(mapping: map<string, string>, name: string)
    ensures name in mapping.Values <==> exists source <- mapping :: mapping[source] == name
  {
  }

  /** In particular an ignored name is never pending. */
  lemma IgnoredIsNotPending(local: seq<string>, upstream: seq<string>, ignored: seq<string>,
                            mapping: map<string, string>, matches: Matcher, name: string)
    requires name in Normalize(ignored) && !("regex:" <= name)
    ensures name !in PendingAdd(local, upstream, ignored, mapping, matches)
  {
    NormalizeMembers(ignored, name);
    var i :| 0 <= i < |ignored| && Trim(ignored[i]) == name;
    assert Covers(ignored[i], name, matches);
    PendingAddExactly(local, upstream, ignored, mapping, matches, name);
  }

  /** A model is pending for removal exactly if the channel lists it, upstream does not, and it is not redirected. */
  lemma PendingRemoveExactly(local: seq<string>, upstream: seq<string>, mapping: map<string, string>, name: string)
    ensures name in PendingRemove(local, upstream, mapping) <==>
            HasLine(local, name) && !HasLine(upstream, name) && name !in mapping
  {
    PendingMembers(local, upstream, [], mapping, (p, n) => false);
    InMembers(PendingRemove(local, upstream, mapping), name);
    InMembers(Normalize(upstream), name);
    InMembers(Normalize(local), name);
    NormalizeMembers(upstream, name);
    NormalizeMembers(local, name);
  }

  /** Where a name first occurs. */
  function First(names: seq<string>, name: string): (i: nat)
    requires name in names
    ensures i < |names| && names[i] == name && forall k :: 0 <= k < i ==> names[k] != name
  {
    if names[0] == name then 0 else 1 + First(names[1..], name)
  }

  lemma UniqHas(names: seq<string>, name: string)
    ensures name in Uniq(names) <==> name in names
  {
    UniqMembers(names);
    InMembers(Uniq(names), name);
    InMembers(names, name);
  }

  lemma {:induction false} UniqInOrder(names: seq<string>, i: nat, j: nat)
    requires i < j < |Uniq(names)|
    ensures Uniq(names)[i] in names && Uniq(names)[j] in names
    ensures First(names, Uniq(names)[i]) < First(names, Uniq(names)[j])
    decreases |names|
  {
    var init, last := names[..|names| - 1], names[|names| - 1];
    var kept := Uniq(init);
    assert names == init + [last];
    UniqHas(init, kept[i]);
    FirstInPrefix(init, last, names, kept[i]);
    if j < |kept| {
      UniqHas(init, kept[j]);
      FirstInPrefix(init, last, names, kept[j]);
      UniqInOrder(init, i, j);
    } else {
      UniqHas(init, last);
      NotBefore(init, last, names);
    }
  }

  lemma FirstInPrefix(init: seq<string>, last: string, names: seq<string>, name: string)
    requires names == init + [last] && name in init
    ensures name in names && First(names, name) == First(init, name)
  {
    var i := First(init, name);
    assert names[i] == name && forall k :: 0 <= k < i ==> names[k] == init[k];
  }

  lemma NotBefore(init: seq<string>, last: string, names: seq<string>)
    requires names == init + [last] && last !in init
    ensures last in names && First(names, last) == |init|
  {
    assert names[|init|] == last && forall k :: 0 <= k < |init| ==> names[k] == init[k] && init[k] in init;
  }

  /** The normal form lists names in the order of their first lines. */
  lemma NormalizeKeepsFirst(models: seq<string>, i: nat, j: nat)
    requires i < j < |Normalize(models)|
    ensures Normalize(models)[i] in Cleaned(models) && Normalize(models)[j] in Cleaned(models)
    ensures First(Cleaned(models), Normalize(models)[i]) < First(Cleaned(models), Normalize(models)[j])
  {
    UniqInOrder(Cleaned(models), i, j);
  }

  /** What a check stores: the time, the removals, and the additions, either as pending or, under auto-sync, behind
      the channel's models. */
  lemma DetectExactly(row: Row, upstream: seq<string>, mapping: map<string, string>, matches: Matcher,
                      autoApply: bool, now: int)
    ensures var after := Detect(row, upstream, mapping, matches, autoApply, now);
            var add := PendingAdd(row.models, upstream, row.settings.ignored, mapping, matches);
            && after.settings.lastCheck == now && after.settings.autoSync == row.settings.autoSync
            && after.settings.ignored == row.settings.ignored
            && after.settings.removed == PendingRemove(row.models, upstream, mapping)
            && (add == [] ==> after.models == row.models && after.settings.detected == [])
            && (add != [] && autoApply && row.settings.autoSync ==>
                 after.models == Normalize(row.models) + add && after.settings.detected == [])
            && (add != [] && !(autoApply && row.settings.autoSync) ==>
                 after.models == row.models && after.settings.detected == add)
  {
    AutoAddCount(row.models, upstream, row.settings.ignored, mapping, matches);
  }

  /** The scheduled check of a channel without auto-sync is the manual one, so what is said of that holds of it. */
  lemma ScheduledIsManual(row: Row, upstream: seq<string>, mapping: map<string, string>, matches: Matcher, now: int)
    requires !row.settings.autoSync
    ensures Detect(row, upstream, mapping, matches, true, now) == Detect(row, upstream, mapping, matches, false, now)
  {
    DetectExactly(row, upstream, mapping, matches, true, now);
    DetectExactly(row, upstream, mapping, matches, false, now);
  }

  /** An application records its time, leaves the auto-sync switch alone, and rewrites the models only if they
      change; a selection of nothing that is pending leaves models and pending names as they were. */
  lemma ApplyExactly(row: Row, add: seq<string>, ignore: seq<string>, remove: seq<string>, now: int)
    ensures var r := ApplyChanges(row, add, ignore, remove, now);
            && r.row.settings.lastCheck == now && r.row.settings.autoSync == row.settings.autoSync
            && (r.row.models == row.models ||
                (Clean(r.row.models) && r.row.models != Normalize(row.models)))
    ensures var r := ApplyChanges(row, add, ignore, remove, now);
            (forall name :: !(HasLine(row.settings.detected, name) && HasLine(add, name)) &&
                            !(HasLine(row.settings.removed, name) && HasLine(remove, name))) ==>
              r.added == [] && r.removed == [] && Members(Normalize(r.row.models)) == Members(Normalize(row.models))
  {
    var r := ApplyChanges(row, add, ignore, remove, now);
    AddWinsOverRemove(row, add, ignore, remove, now);
    NormalizeIsClean(row.models);
    IntersectFacts(add, row.settings.detected);
    SubtractFacts(Intersect(remove, row.settings.removed), r.added);
    SelectedMembers(Normalize(row.models), r.added, r.removed);
    if r.added != [] {
      IntersectMeaning(add, row.settings.detected, r.added[0]);
    }
    if r.removed != [] {
      SubtractMeaning(Intersect(remove, row.settings.removed), r.added, r.removed[0]);
      IntersectFacts(remove, row.settings.removed);
      CleanLines(Intersect(remove, row.settings.removed), r.removed[0]);
      IntersectMeaning(remove, row.settings.removed, r.removed[0]);
    }
  }

  // ----- One application -----

  /** Exactly one of the three fates of a pending name. */
  predicate OneFate(x: string, added: set<string>, ignored: set<string>, remaining: set<string>) {
    || (x in added && x !in remaining)
    || (x !in added && x in ignored && x !in remaining)
    || (x !in added && x !in ignored && x in remaining)
  }

  /** Intersections and differences are clean, hence their own normal form. */
  lemma IntersectFacts(a: seq<string>, b: seq<string>)
    ensures var r := Intersect(a, b);
            Clean(r) && Normalize(r) == r && Members(r) == Members(Normalize(a)) * Members(Normalize(b))
  {
    SetAlgebra(a, b);
    NormalizeIsClean(Intersect(a, b));
  }

  lemma SubtractFacts(a: seq<string>, b: seq<string>)
    ensures var r := Subtract(a, b);
            Clean(r) && Normalize(r) == r && Members(r) == Members(Normalize(a)) - Members(Normalize(b))
  {
    SetAlgebra(a, b);
    NormalizeIsClean(Subtract(a, b));
  }

  lemma MergeFacts(a: seq<string>, b: seq<string>)
    ensures var r := Merge(a, b);
            Clean(r) && Normalize(r) == r && Members(r) == Members(Normalize(a)) + Members(Normalize(b))
  {
    SetAlgebra(a, b);
    NormalizeIsClean(Merge(a, b));
  }

  /** Applying a selection: what was asked for and pending is added, what was asked to be ignored and not
      added is ignored, and the rest of the pending names stay, in order. */
  lemma AddsArePartitioned(row: Row, add: seq<string>, ignore: seq<string>, remove: seq<string>, now: int)
    ensures var r := ApplyChanges(row, add, ignore, remove, now);
            var pending := Normalize(row.settings.detected);
            && Clean(r.added) && Members(r.added) == Members(Normalize(add)) * Members(pending)
            && (forall x <- Members(pending) ::
                 OneFate(x, Members(r.added), Members(Normalize(ignore)), Members(r.remaining)))
            && Clean(r.remaining)
            && r.remaining == Drop(pending, Members(r.added) + Members(Normalize(ignore)))
            && r.row.settings.detected == r.remaining
  {
    var r := ApplyChanges(row, add, ignore, remove, now);
    IntersectFacts(add, row.settings.detected);
    RemainingNames(row.settings.detected, r.added, ignore);
  }

  /** What is left of the pending names once `added` and the names chosen to be ignored are taken out. */
  lemma RemainingNames(detected: seq<string>, added: seq<string>, ignore: seq<string>)
    requires Clean(added)
    ensures var pending, gone := Normalize(detected), Members(added) + Members(Normalize(ignore));
            var remaining := Subtract(detected, added + Intersect(ignore, detected));
            Clean(remaining) && remaining == Drop(pending, gone) && Members(remaining) == Members(pending) - gone
  {
    var pending, ignored := Normalize(detected), Intersect(ignore, detected);
    IntersectFacts(ignore, detected);
    MembersConcat(added, ignored);
    NormalizeKeepsMembers(added + ignored);
    NormalizeIsClean(detected);
    DropSame(pending, Members(added) + Members(ignored), Members(added) + Members(Normalize(ignore)));
    DropMembers(pending, Members(added) + Members(Normalize(ignore)));
  }

  /** The ignore list gains what was ignored and loses what was added: a name chosen for both is added and
      not ignored. */
  lemma IgnoreListAfter(row: Row, add: seq<string>, ignore: seq<string>, remove: seq<string>, now: int)
    ensures var r := ApplyChanges(row, add, ignore, remove, now);
            && Clean(r.row.settings.ignored)
            && Members(r.row.settings.ignored) ==
               Members(Normalize(row.settings.ignored))
                 + Members(Normalize(ignore)) * Members(Normalize(row.settings.detected)) - Members(r.added)
  {
    var added := Intersect(add, row.settings.detected);
    var ignored := Intersect(ignore, row.settings.detected);
    IntersectFacts(add, row.settings.detected);
    IntersectFacts(ignore, row.settings.detected);
    MergeFacts(row.settings.ignored, ignored);
    SubtractFacts(Merge(row.settings.ignored, ignored), added);
    assert added == [] ==> Members(added) == {};
  }

  lemma NormalizeKeepsMembers(names: seq<string>)
    requires AllTrimmed(names)
    ensures Members(Normalize(names)) == Members(names)
  {
    CleanedOfTrimmed(names);
    UniqMembers(names);
  }

  lemma {:induction false} DropSame(names: seq<string>, s: set<string>, t: set<string>)
    requires Members(names) * s == Members(names) * t
    ensures Drop(names, s) == Drop(names, t)
  {
    if names != [] {
      var init, last := names[..|names| - 1], names[|names| - 1];
      Split(names);
      assert last in Members(names);
      assert last in s <==> last in Members(names) * s;
      assert last in t <==> last in Members(names) * t;
      assert Members(init) * s == Members(init) * (Members(names) * s);
      assert Members(init) * t == Members(init) * (Members(names) * t);
      DropSame(init, s, t);
    }
  }

  /** The model list after an application holds what it held, plus the added, minus the removed names; a name
      chosen for both is added. */
  lemma AddWinsOverRemove(row: Row, add: seq<string>, ignore: seq<string>, remove: seq<string>, now: int)
    ensures var r := ApplyChanges(row, add, ignore, remove, now);
            && Clean(r.removed)
            && Members(r.removed) ==
               Members(Normalize(remove)) * Members(Normalize(row.settings.removed)) - Members(r.added)
            && Members(Normalize(r.row.models)) == Members(Normalize(row.models)) + Members(r.added) - Members(r.removed)
  {
    var added := Intersect(add, row.settings.detected);
    var removed := Subtract(Intersect(remove, row.settings.removed), added);
    IntersectFacts(add, row.settings.detected);
    IntersectFacts(remove, row.settings.removed);
    SubtractFacts(Intersect(remove, row.settings.removed), added);
    NormalizeIsClean(row.models);
    SelectedMembers(Normalize(row.models), added, removed);
    NormalizeIsClean(ApplySelected(Normalize(row.models), added, removed));
    assert Members(removed) - Members(added) == Members(removed);
  }

  /** Removals not chosen stay pending. */
  lemma RemovesArePartitioned(row: Row, add: seq<string>, ignore: seq<string>, remove: seq<string>, now: int)
    ensures var r := ApplyChanges(row, add, ignore, remove, now);
            && r.row.settings.removed == r.remainingRemove && Clean(r.remainingRemove)
            && Members(r.removed) !! Members(r.remainingRemove)
            && Members(r.removed) + Members(r.remainingRemove) == Members(Normalize(row.settings.removed))
  {
    var r := ApplyChanges(row, add, ignore, remove, now);
    var picked := Intersect(remove, row.settings.removed);
    IntersectFacts(add, row.settings.detected);
    IntersectFacts(remove, row.settings.removed);
    SubtractFacts(picked, r.added);
    SubtractFacts(row.settings.removed, r.removed);
  }

  lemma SelectedMembers(origin: seq<string>, add: seq<string>, remove: seq<string>)
    requires Clean(origin) && Clean(add) && Clean(remove)
    ensures Clean(ApplySelected(origin, add, remove))
    ensures Members(ApplySelected(origin, add, remove)) ==
            Members(origin) + Members(add) - (Members(remove) - Members(add))
  {
    NormalizeIsClean(origin);
    NormalizeIsClean(add);
    NormalizeIsClean(remove);
    SubtractFacts(remove, add);
    MergeFacts(origin, add);
    SubtractFacts(Merge(origin, add), Subtract(remove, add));
  }

  // ----- Detect, apply everything, detect again -----

  /** The row after a manual detection of `upstream` and an application of everything it found. */
  function Synced(row: Row, upstream: seq<string>, mapping: map<string, string>, matches: Matcher, now: int): Row {
    var detected := Detect(row, upstream, mapping, matches, false, now);
    ApplyChanges(detected, detected.settings.detected, [], detected.settings.removed, now).row
  }

  /** Every upstream name that only an ignore entry holds back is held back by some entry that is not itself
      a model about to be added (an added model is struck from the ignore list). */
  predicate IgnoreListSurvives(row: Row, upstream: seq<string>, mapping: map<string, string>, matches: Matcher) {
    var add := PendingAdd(row.models, upstream, row.settings.ignored, mapping, matches);
    var entries := Normalize(row.settings.ignored);
    forall name <- Normalize(upstream) ::
      name !in Normalize(row.models) && name !in mapping.Values && Ignored(entries, name, matches) ==>
        IgnoredBesides(entries, add, name, matches)
  }

  predicate IgnoredBesides(entries: seq<string>, struck: seq<string>, name: string, matches: Matcher) {
    exists i :: 0 <= i < |entries| && entries[i] !in struck && IgnoredBy(entries[i], name, matches)
  }

  /** What is ignored after some entries were struck. */
  lemma IgnoredAfterStriking(before: seq<string>, struck: seq<string>, after: seq<string>, name: string,
                             matches: Matcher)
    requires Members(after) == Members(before) - Members(struck)
    ensures Ignored(after, name, matches) <==> IgnoredBesides(before, struck, name, matches)
  {
    if Ignored(after, name, matches) {
      var i :| 0 <= i < |after| && IgnoredBy(after[i], name, matches);
      assert after[i] in Members(after);
      var j :| 0 <= j < |before| && before[j] == after[i];
    }
    if IgnoredBesides(before, struck, name, matches) {
      var i :| 0 <= i < |before| && before[i] !in struck && IgnoredBy(before[i], name, matches);
      assert before[i] in Members(after);
      var j :| 0 <= j < |after| && after[j] == before[i];
    }
  }

  /** The lists after detecting and applying everything. */
  lemma SyncedModels(row: Row, upstream: seq<string>, mapping: map<string, string>, matches: Matcher, now: int)
    ensures var add := PendingAdd(row.models, upstream, row.settings.ignored, mapping, matches);
            var remove := PendingRemove(row.models, upstream, mapping);
            Members(Normalize(Synced(row, upstream, mapping, matches, now).models)) ==
            Members(Normalize(row.models)) + Members(add) - Members(remove)
  {
    var add := PendingAdd(row.models, upstream, row.settings.ignored, mapping, matches);
    var remove := PendingRemove(row.models, upstream, mapping);
    var detected := Detect(row, upstream, mapping, matches, false, now);
    PendingMembers(row.models, upstream, row.settings.ignored, mapping, matches);
    NormalizeIsClean(add);
    NormalizeIsClean(remove);
    IntersectFacts(add, add);
    AddWinsOverRemove(detected, add, [], remove, now);
  }

  lemma SyncedIgnores(row: Row, upstream: seq<string>, mapping: map<string, string>, matches: Matcher, now: int)
    ensures var after := Synced(row, upstream, mapping, matches, now);
            && Clean(after.settings.ignored)
            && Members(after.settings.ignored) ==
               Members(Normalize(row.settings.ignored))
                 - Members(PendingAdd(row.models, upstream, row.settings.ignored, mapping, matches))
  {
    var add := PendingAdd(row.models, upstream, row.settings.ignored, mapping, matches);
    var remove := PendingRemove(row.models, upstream, mapping);
    var detected := Detect(row, upstream, mapping, matches, false, now);
    PendingMembers(row.models, upstream, row.settings.ignored, mapping, matches);
    NormalizeIsClean(add);
    IntersectFacts(add, add);
    IgnoreListAfter(detected, add, [], remove, now);
    assert Members(Normalize([])) == {};
  }

  /** The names a second detection would add. */
  lemma SecondDetection(row: Row, upstream: seq<string>, mapping: map<string, string>, matches: Matcher, now: int,
                        name: string)
    ensures var after := Synced(row, upstream, mapping, matches, now);
            var add := PendingAdd(row.models, upstream, row.settings.ignored, mapping, matches);
            var entries := Normalize(row.settings.ignored);
            name in PendingAdd(after.models, upstream, after.settings.ignored, mapping, matches) <==>
              && name in Normalize(upstream) && name !in Normalize(row.models) && name !in mapping.Values
              && Ignored(entries, name, matches) && !IgnoredBesides(entries, add, name, matches)
  {
    var after := Synced(row, upstream, mapping, matches, now);
    var add := PendingAdd(row.models, upstream, row.settings.ignored, mapping, matches);
    var again := PendingAdd(after.models, upstream, after.settings.ignored, mapping, matches);
    var entries := Normalize(row.settings.ignored);
    SyncedModels(row, upstream, mapping, matches, now);
    SyncedIgnores(row, upstream, mapping, matches, now);
    PendingMembers(row.models, upstream, row.settings.ignored, mapping, matches);
    PendingMembers(after.models, upstream, after.settings.ignored, mapping, matches);
    assert Normalize(after.settings.ignored) == after.settings.ignored by { NormalizeIsClean(after.settings.ignored); }
    IgnoredAfterStriking(entries, add, after.settings.ignored, name, matches);
    InMembers(again, name);
    InMembers(Normalize(upstream), name);
    InMembers(Normalize(after.models), name);
    InMembers(Normalize(row.models), name);
  }

  /** After detecting and applying everything nothing is left to remove; and nothing is left to add exactly
      when the ignore list survives. */
  lemma SyncConverges(row: Row, upstream: seq<string>, mapping: map<string, string>, matches: Matcher, now: int)
    ensures var after := Synced(row, upstream, mapping, matches, now);
            && PendingRemove(after.models, upstream, mapping) == []
            && (PendingAdd(after.models, upstream, after.settings.ignored, mapping, matches) == [] <==>
                IgnoreListSurvives(row, upstream, mapping, matches))
  {
    var after := Synced(row, upstream, mapping, matches, now);
    var again := PendingAdd(after.models, upstream, after.settings.ignored, mapping, matches);
    NothingToRemove(row, upstream, mapping, matches, now);
    if again != [] {
      SecondDetection(row, upstream, mapping, matches, now, again[0]);
    } else if !IgnoreListSurvives(row, upstream, mapping, matches) {
      var entries := Normalize(row.settings.ignored);
      var add := PendingAdd(row.models, upstream, row.settings.ignored, mapping, matches);
      var name :| name in Normalize(upstream) && name !in Normalize(row.models) && name !in mapping.Values &&
                  Ignored(entries, name, matches) && !IgnoredBesides(entries, add, name, matches);
      SecondDetection(row, upstream, mapping, matches, now, name);
      assert false;
    }
  }

  lemma NothingToRemove(row: Row, upstream: seq<string>, mapping: map<string, string>, matches: Matcher, now: int)
    ensures PendingRemove(Synced(row, upstream, mapping, matches, now).models, upstream, mapping) == []
  {
    var after := Synced(row, upstream, mapping, matches, now);
    SyncedModels(row, upstream, mapping, matches, now);
    PendingMembers(row.models, upstream, row.settings.ignored, mapping, matches);
    PendingMembers(after.models, upstream, after.settings.ignored, mapping, matches);
    EmptyByMembers(PendingRemove(after.models, upstream, mapping));
  }

  lemma EmptyByMembers(names: seq<string>)
    ensures names == [] <==> Members(names) == {}
  {
    if names != [] {
      assert names[0] in Members(names);
    }
  }

  /** When no upstream name begins with the regex marker, the ignore list survives. */
  lemma PlainUpstreamSurvives(row: Row, upstream: seq<string>, mapping: map<string, string>, matches: Matcher)
    requires forall name <- Normalize(upstream) :: !(REGEX_PREFIX <= name)
    ensures IgnoreListSurvives(row, upstream, mapping, matches)
  {
    var add := PendingAdd(row.models, upstream, row.settings.ignored, mapping, matches);
    var entries := Normalize(row.settings.ignored);
    PendingMembers(row.models, upstream, row.settings.ignored, mapping, matches);
    forall name <- Normalize(upstream) | Ignored(entries, name, matches)
      ensures IgnoredBesides(entries, add, name, matches)
    {
      var i :| 0 <= i < |entries| && IgnoredBy(entries[i], name, matches);
      InMembers(add, entries[i]);
      InMembers(Normalize(upstream), entries[i]);
      if entries[i] in add {
        assert false;
      }
    }
  }

  /** The centre of the feature: detect, apply, detect again finds nothing, unless upstream offers a model
      whose name begins with the regex marker. */
  lemma SyncIsStable(row: Row, upstream: seq<string>, mapping: map<string, string>, matches: Matcher, now: int)
    requires forall name <- Normalize(upstream) :: !(REGEX_PREFIX <= name)
    ensures var after := Synced(row, upstream, mapping, matches, now);
            && PendingAdd(after.models, upstream, after.settings.ignored, mapping, matches) == []
            && PendingRemove(after.models, upstream, mapping) == []
  {
    PlainUpstreamSurvives(row, upstream, mapping, matches);
    SyncConverges(row, upstream, mapping, matches, now);
  }

  /** Upstreams on which it does not: a model named like the very entry that ignores another one. Adding it
      strikes the entry, and the other model is pending next time. */
  lemma SyncCanMiss(x: string, y: string, row: Row, matches: Matcher, now: int)
    requires x != "" && Trimmed(x) && y != "" && Trimmed(y) && y != REGEX_PREFIX + x
    requires matches(x, y) && !matches(x, REGEX_PREFIX + x)
    requires row.models == [] && row.settings.ignored == [REGEX_PREFIX + x]
    ensures var upstream := [REGEX_PREFIX + x, y];
            var after := Synced(row, upstream, map[], matches, now);
            y in PendingAdd(after.models, upstream, after.settings.ignored, map[], matches)
  {
    RegexEntry(x, y, matches);
    EntryStruck(REGEX_PREFIX + x, y, row, matches, now);
  }

  /** The same for any ignore entry that ignores `y` but not the model named like the entry. */
  lemma EntryStruck(entry: string, y: string, row: Row, matches: Matcher, now: int)
    requires entry != "" && Trimmed(entry) && y != "" && Trimmed(y) && y != entry
    requires IgnoredBy(entry, y, matches) && !IgnoredBy(entry, entry, matches)
    requires row.models == [] && row.settings.ignored == [entry]
    ensures var after := Synced(row, [entry, y], map[], matches, now);
            y in PendingAdd(after.models, [entry, y], after.settings.ignored, map[], matches)
  {
    var upstream, entries := [entry, y], [entry];
    PairIsClean(entry, y);
    assert !Ignored(entries, entry, matches);
    EntryIsAdded(upstream, entries, matches);
    OnlyEntryStruck(row, upstream, entries, matches, now);
  }

  lemma PairIsClean(a: string, b: string)
    requires a != "" && b != "" && a != b && Trimmed(a) && Trimmed(b)
    ensures Normalize([a]) == [a] && Normalize([a, b]) == [a, b]
  {
    CleanPush([], a);
    CleanPush([a], b);
    assert [] + [a] == [a] && [a] + [b] == [a, b];
    NormalizeIsClean([a]);
    NormalizeIsClean([a, b]);
  }

  lemma OnlyEntryStruck(row: Row, upstream: seq<string>, entries: seq<string>, matches: Matcher, now: int)
    requires row.models == [] && row.settings.ignored == entries && |upstream| == 2 && |entries| == 1
    requires Normalize(upstream) == upstream && Normalize(entries) == entries
    requires IgnoredBy(entries[0], upstream[1], matches)
    requires entries[0] in PendingAdd([], upstream, entries, map[], matches)
    ensures var after := Synced(row, upstream, map[], matches, now);
            upstream[1] in PendingAdd(after.models, upstream, after.settings.ignored, map[], matches)
  {
    assert Normalize(row.models) == [];
    assert upstream[1] in Normalize(upstream);
    assert Ignored(entries, upstream[1], matches);
    SecondDetection(row, upstream, map[], matches, now, upstream[1]);
  }

  lemma RegexEntry(x: string, y: string, matches: Matcher)
    requires x != "" && Trimmed(x) && matches(x, y) && !matches(x, REGEX_PREFIX + x)
    ensures var entry := REGEX_PREFIX + x;
            && entry != "" && Trimmed(entry)
            && IgnoredBy(entry, y, matches) && !IgnoredBy(entry, entry, matches)
  {
    var entry := REGEX_PREFIX + x;
    assert |entry| == |REGEX_PREFIX| + |x| && |REGEX_PREFIX| == 6;
    assert entry[0] == 'r' && entry[|entry| - 1] == x[|x| - 1];
    assert entry[|REGEX_PREFIX|..] == x;
    TrimIsTrimmed(x);
  }

  lemma EntryIsAdded(upstream: seq<string>, entries: seq<string>, matches: Matcher)
    requires Normalize(upstream) == upstream && Normalize(entries) == entries
    requires upstream != [] && !Ignored(entries, upstream[0], matches)
    ensures upstream[0] in PendingAdd([], upstream, entries, map[], matches)
  {
    PendingMembers([], upstream, entries, map[], matches);
    assert Members(Normalize([])) == {};
    InMembers(upstream, upstream[0]);
    InMembers(PendingAdd([], upstream, entries, map[], matches), upstream[0]);
  }

  // ----- Again and again -----

  /** The row after one round of detecting and applying everything at each of the times. */
  function Rounds(row: Row, upstream: seq<string>, mapping: map<string, string>, matches: Matcher,
                  times: seq<int>): Row
  {
    if times == [] then row
    else
      Synced(Rounds(row, upstream, mapping, matches, times[..|times| - 1]), upstream, mapping, matches,
             times[|times| - 1])
  }

  /** The upstream names the channel does not list. */
  function Missing(row: Row, upstream: seq<string>): set<string> {
    Members(Normalize(upstream)) - Members(Normalize(row.models))
  }

  lemma FewerThan(a: set<string>, b: set<string>)
    requires a < b
    ensures |a| < |b|
  {
    assert b == a + (b - a);
  }

  /** A round that adds something leaves fewer names missing; one that adds nothing is followed by another. */
  lemma RoundProgress(row: Row, upstream: seq<string>, mapping: map<string, string>, matches: Matcher, now: int)
    ensures var after := Synced(row, upstream, mapping, matches, now);
            if PendingAdd(row.models, upstream, row.settings.ignored, mapping, matches) == []
            then PendingAdd(after.models, upstream, after.settings.ignored, mapping, matches) == []
            else |Missing(after, upstream)| < |Missing(row, upstream)|
  {
    var after := Synced(row, upstream, mapping, matches, now);
    var add := PendingAdd(row.models, upstream, row.settings.ignored, mapping, matches);
    if add == [] {
      NothingStruck(row, upstream, mapping, matches);
      SyncConverges(row, upstream, mapping, matches, now);
    } else {
      SyncedModels(row, upstream, mapping, matches, now);
      PendingMembers(row.models, upstream, row.settings.ignored, mapping, matches);
      InMembers(add, add[0]);
      assert add[0] in Missing(row, upstream) && add[0] !in Missing(after, upstream);
      FewerThan(Missing(after, upstream), Missing(row, upstream));
    }
  }

  lemma NothingStruck(row: Row, upstream: seq<string>, mapping: map<string, string>, matches: Matcher)
    requires PendingAdd(row.models, upstream, row.settings.ignored, mapping, matches) == []
    ensures IgnoreListSurvives(row, upstream, mapping, matches)
  {
    var entries := Normalize(row.settings.ignored);
    forall name <- Normalize(upstream) | Ignored(entries, name, matches)
      ensures IgnoredBesides(entries, [], name, matches)
    {
      var i :| 0 <= i < |entries| && IgnoredBy(entries[i], name, matches);
      assert entries[i] !in [];
    }
  }

  lemma {:induction false} RoundsProgress(row: Row, upstream: seq<string>, mapping: map<string, string>,
                                          matches: Matcher, times: seq<int>)
    ensures var last := Rounds(row, upstream, mapping, matches, times);
            || PendingAdd(last.models, upstream, last.settings.ignored, mapping, matches) == []
            || |Missing(last, upstream)| + |times| <= |Missing(row, upstream)|
    decreases |times|
  {
    if times != [] {
      var past := times[..|times| - 1];
      RoundsProgress(row, upstream, mapping, matches, past);
      RoundProgress(Rounds(row, upstream, mapping, matches, past), upstream, mapping, matches, times[|times| - 1]);
    }
  }

  lemma {:induction false} MembersSize(names: seq<string>)
    ensures |Members(names)| <= |names|
  {
    if names != [] {
      MembersSize(names[..|names| - 1]);
      Split(names);
    }
  }

  lemma SomethingMissing(row: Row, upstream: seq<string>, mapping: map<string, string>, matches: Matcher)
    requires PendingAdd(row.models, upstream, row.settings.ignored, mapping, matches) != []
    ensures 0 < |Missing(row, upstream)|
  {
    var add := PendingAdd(row.models, upstream, row.settings.ignored, mapping, matches);
    PendingMembers(row.models, upstream, row.settings.ignored, mapping, matches);
    InMembers(add, add[0]);
    assert add[0] in Missing(row, upstream);
  }

  lemma MissingBound(row: Row, upstream: seq<string>)
    ensures |Missing(row, upstream)| <= |Normalize(upstream)|
  {
    var all, missing := Members(Normalize(upstream)), Missing(row, upstream);
    MembersSize(Normalize(upstream));
    assert all == missing + (all - missing);
  }

  /** Whatever the names, a fixed upstream list is settled after at most as many rounds as it has names. */
  lemma RoundsSettle(row: Row, upstream: seq<string>, mapping: map<string, string>, matches: Matcher,
                     times: seq<int>)
    requires |Normalize(upstream)| <= |times| && times != []
    ensures var last := Rounds(row, upstream, mapping, matches, times);
            && PendingAdd(last.models, upstream, last.settings.ignored, mapping, matches) == []
            && PendingRemove(last.models, upstream, mapping) == []
  {
    var last := Rounds(row, upstream, mapping, matches, times);
    RoundsProgress(row, upstream, mapping, matches, times);
    MissingBound(row, upstream);
    if PendingAdd(last.models, upstream, last.settings.ignored, mapping, matches) != [] {
      SomethingMissing(last, upstream, mapping, matches);
    }
    NothingToRemove(Rounds(row, upstream, mapping, matches, times[..|times| - 1]), upstream, mapping, matches,
                    times[|times| - 1]);
  }

  /** With auto-sync one check already settles the additions, whatever the names, and leaves the removals
      it reported for the administrator. */
  lemma AutoSyncSettles(row: Row, upstream: seq<string>, mapping: map<string, string>, matches: Matcher, now: int)
    requires row.settings.autoSync
    ensures var after := Detect(row, upstream, mapping, matches, true, now);
            && PendingAdd(after.models, upstream, after.settings.ignored, mapping, matches) == []
            && Members(PendingRemove(after.models, upstream, mapping)) == Members(after.settings.removed)
            && after.settings.detected == []
  {
    var after := Detect(row, upstream, mapping, matches, true, now);
    var add := PendingAdd(row.models, upstream, row.settings.ignored, mapping, matches);
    PendingMembers(row.models, upstream, row.settings.ignored, mapping, matches);
    PendingMembers(after.models, upstream, after.settings.ignored, mapping, matches);
    EmptyByMembers(PendingAdd(after.models, upstream, after.settings.ignored, mapping, matches));
    if add != [] {
      NormalizeIsClean(add);
      SetAlgebra(row.models, add);
      NormalizeIsClean(Merge(row.models, add));
    } else {
      assert Members(add) == {};
    }
  }

  // ----- The sweep -----

  /** Enabled channels in id order; ids come from an auto-increment column. */
  predicate Ordered(ids: seq<int>) {
    && (forall i :: 0 <= i < |ids| ==> 0 < ids[i])
    && (forall i, j :: 0 <= i < j < |ids| ==> ids[i] < ids[j])
  }

  function After(ids: seq<int>, lastId: int): (rest: seq<int>) {
    if ids == [] then []
    else (if ids[0] > lastId then [ids[0]] else []) + After(ids[1..], lastId)
  }

  /** `findEnabledChannelsAfterID`: no lower bound until a first batch has been seen. */
  function Batch(ids: seq<int>, lastId: int, size: nat): (batch: seq<int>) {
    var rest := if lastId > 0 then After(ids, lastId) else ids;
    if |rest| <= size then rest else rest[..size]
  }

  lemma {:induction false} AfterPosition(ids: seq<int>, k: nat)
    requires Ordered(ids) && 0 < k <= |ids|
    ensures After(ids, ids[k - 1]) == ids[k..]
  {
    if k == 1 {
      AllAfter(ids[1..], ids[0]);
    } else {
      assert Ordered(ids[1..]);
      AfterPosition(ids[1..], k - 1);
    }
  }

  lemma {:induction false} AllAfter(ids: seq<int>, lastId: int)
    requires forall i :: 0 <= i < |ids| ==> lastId < ids[i]
    ensures After(ids, lastId) == ids
  {
    if ids != [] { AllAfter(ids[1..], lastId); }
  }

  /** A batch after `k` visited channels is the next `size` of them. */
  lemma NextBatch(ids: seq<int>, k: nat, size: nat)
    requires Ordered(ids) && k <= |ids|
    ensures var batch := Batch(ids, if k == 0 then 0 else ids[k - 1], size);
            batch == if k + size <= |ids| then ids[k..k + size] else ids[k..]
  {
    if k != 0 { AfterPosition(ids, k); }
  }

  lemma OneMore(a: int, b: int)
    ensures (a + 1) * b == a * b + b
  {
  }

  /** The loop over one batch. */
  method Visit(before: seq<int>, channels: seq<int>) returns (visited: seq<int>)
    ensures visited == before + channels
  {
    visited := before;
    for i := 0 to |channels|
      invariant visited == before + channels[..i]
    {
      visited := visited + [channels[i]];
    }
    assert channels[..|channels|] == channels;
  }

  /** What has been visited after a batch. */
  lemma NextVisited(ids: seq<int>, visited: seq<int>, batch: seq<int>, size: nat)
    requires Ordered(ids) && |visited| <= |ids| && visited == ids[..|visited|] && 0 < size
    requires batch == Batch(ids, if visited == [] then 0 else visited[|visited| - 1], size)
    ensures var after := visited + batch;
            && |after| <= |ids| && after == ids[..|after|]
            && (|batch| < size ==> after == ids) && |batch| <= size
  {
    NextBatch(ids, |visited|, size);
    AppendSlice(ids, visited, batch, |visited|, size);
  }

  lemma AppendSlice(ids: seq<int>, visited: seq<int>, batch: seq<int>, k: nat, size: nat)
    requires k <= |ids| && visited == ids[..k]
    requires batch == if k + size <= |ids| then ids[k..k + size] else ids[k..]
    ensures |batch| <= size && k + |batch| <= |ids| && visited + batch == ids[..k + |batch|]
    ensures |batch| < size ==> visited + batch == ids
  {
  }

  /** The batch loop: every enabled channel is visited once, in id order; when the query after `queries` good
      ones fails, exactly the channels of the good ones have been visited. */
  method Sweep(ids: seq<int>, size: nat, queries: nat) returns (visited: seq<int>, finished: bool)
    requires Ordered(ids) && 0 < size
    ensures finished ==> visited == ids
    ensures !finished ==> |visited| == queries * size <= |ids| && visited == ids[..|visited|]
  {
    visited := [];
    var lastId, done := 0, 0;
    ghost var reach := 0;
    while true
      invariant done <= queries && reach == done * size && |visited| == reach <= |ids| && visited == ids[..reach]
      invariant lastId == if visited == [] then 0 else visited[|visited| - 1]
      decreases queries - done
    {
      if done == queries {
        return visited, false;
      }
      var channels := Batch(ids, lastId, size);
      NextVisited(ids, visited, channels, size);
      OneMore(done, size);
      done, reach := done + 1, reach + size;
      if channels == [] {
        return visited, true;
      }
      lastId := channels[|channels| - 1];
      visited := Visit(visited, channels);
      if |channels| < size {
        return visited, true;
      }
    }
  }
}
