/** Keeping a channel's model list in step with its upstream: ordered name lists used as sets, a diff
    against the upstream list, the application of chosen changes, and the keyset-paginated sweep. */
module Upstream {
  import opened Basics
  import opened Text

  // ----- Name lists -----

  function Members(names: seq<string>): set<string> {
    set name | name in names
  }

  /** The names outside `s`, in order. */
  function Drop(names: seq<string>, s: set<string>): (kept: seq<string>) {
    if names == [] then []
    else Drop(names[..|names| - 1], s) + if names[|names| - 1] in s then [] else [names[|names| - 1]]
  }

  /** The names inside `s`, in order. */
  function Keep(names: seq<string>, s: set<string>): (kept: seq<string>) {
    if names == [] then []
    else Keep(names[..|names| - 1], s) + if names[|names| - 1] in s then [names[|names| - 1]] else []
  }

  /** The first occurrence of every name. */
  function Uniq(names: seq<string>): (kept: seq<string>) {
    if names == [] then []
    else
      var kept := Uniq(names[..|names| - 1]);
      if names[|names| - 1] in kept then kept else kept + [names[|names| - 1]]
  }

  function Normalize(models: seq<string>): (names: seq<string>) {
    Uniq(Cleaned(models))
  }

  function Merge(base: seq<string>, appended: seq<string>): (names: seq<string>) {
    Normalize(base) + Drop(Normalize(appended), Members(Normalize(base)))
  }

  function Subtract(base: seq<string>, removed: seq<string>): (names: seq<string>) {
    Drop(Normalize(base), Members(Normalize(removed)))
  }

  function Intersect(base: seq<string>, allowed: seq<string>): (names: seq<string>) {
    Keep(Normalize(base), Members(Normalize(allowed)))
  }

  function ApplySelected(origin: seq<string>, add: seq<string>, remove: seq<string>): (names: seq<string>) {
    var normalizedAdd := Normalize(add);
    var normalizedRemove := Subtract(Normalize(remove), normalizedAdd);
    Subtract(Merge(origin, normalizedAdd), normalizedRemove)
  }

  method SetOf(names: seq<string>) returns (s: set<string>)
    ensures s == Members(names)
  {
    s := {};
    for i := 0 to |names|
      invariant s == Members(names[..i])
    {
      s := s + {names[i]};
    }
    assert names[..|names|] == names;
  }

  method MergeNames(base: seq<string>, appended: seq<string>) returns (merged: seq<string>)
    ensures merged == Merge(base, appended)
  {
    NormalizeIsClean(appended);
    merged := AppendNew(Normalize(base), Normalize(appended));
  }

  /** One name further in a clean list. */
  lemma NextNew(base: seq<string>, more: seq<string>, i: nat)
    requires Clean(more) && i < |more|
    ensures Members(more[..i + 1]) == Members(more[..i]) + {more[i]} && more[i] !in more[..i]
    ensures Drop(more[..i + 1], Members(base)) ==
            Drop(more[..i], Members(base)) + if more[i] in base then [] else [more[i]]
  {
    assert more[..i + 1][..i] == more[..i];
    assert more[..i + 1] == more[..i] + [more[i]];
  }

  /** The loop of `mergeModelNames`: appends the names not yet seen. */
  method AppendNew(base: seq<string>, more: seq<string>) returns (merged: seq<string>)
    requires Clean(more)
    ensures merged == base + Drop(more, Members(base))
  {
    merged := base;
    var seen := SetOf(base);
    for i := 0 to |more|
      invariant seen == Members(base) + Members(more[..i])
      invariant merged == base + Drop(more[..i], Members(base))
    {
      NextNew(base, more, i);
      if more[i] !in seen {
        seen := seen + {more[i]};
        merged := merged + [more[i]];
      }
    }
    assert more[..|more|] == more;
  }

  method SubtractNames(base: seq<string>, removed: seq<string>) returns (names: seq<string>)
    ensures names == Subtract(base, removed)
  {
    var list := Normalize(base);
    var removeSet := SetOf(Normalize(removed));
    names := [];
    for i := 0 to |list|
      invariant names == Drop(list[..i], removeSet)
    {
      assert list[..i + 1][..i] == list[..i];
      if list[i] !in removeSet {
        names := names + [list[i]];
      }
    }
    assert list[..|list|] == list;
  }

  method IntersectNames(base: seq<string>, allowed: seq<string>) returns (names: seq<string>)
    ensures names == Intersect(base, allowed)
  {
    var list := Normalize(base);
    var allowedSet := SetOf(Normalize(allowed));
    names := [];
    for i := 0 to |list|
      invariant names == Keep(list[..i], allowedSet)
    {
      assert list[..i + 1][..i] == list[..i];
      if list[i] in allowedSet {
        names := names + [list[i]];
      }
    }
    assert list[..|list|] == list;
  }

  method ApplySelectedNames(origin: seq<string>, add: seq<string>, remove: seq<string>)
    returns (names: seq<string>)
    ensures names == ApplySelected(origin, add, remove)
  {
    var normalizedAdd := Normalize(add);
    var normalizedRemove := SubtractNames(Normalize(remove), normalizedAdd);
    var merged := MergeNames(origin, normalizedAdd);
    names := SubtractNames(merged, normalizedRemove);
  }

  // ----- Facts about name lists -----

  predicate AllTrimmed(names: seq<string>) {
    forall i :: 0 <= i < |names| ==> names[i] != "" && Trimmed(names[i])
  }

  /** Trimmed, non-empty and without repetition: what every helper returns. */
  predicate Clean(names: seq<string>) {
    NoDuplicates(names) && AllTrimmed(names)
  }

  lemma Split(names: seq<string>)
    requires names != []
    ensures var init, last := names[..|names| - 1], names[|names| - 1];
            && Members(names) == Members(init) + {last}
            && (Clean(names) <==> Clean(init) && last !in init && last != "" && Trimmed(last))
  {
    var init, last := names[..|names| - 1], names[|names| - 1];
    assert names == init + [last];
    if Clean(init) && last !in init && last != "" && Trimmed(last) {
      forall i | 0 <= i < |names|
        ensures names[i] != "" && Trimmed(names[i]) && forall j :: 0 <= j < i ==> names[j] != names[i]
      {
        if i < |init| { assert names[i] == init[i]; }
      }
    }
    if Clean(names) {
      assert forall i :: 0 <= i < |init| ==> names[i] == init[i];
    }
  }

  lemma CleanPush(names: seq<string>, name: string)
    ensures Clean(names + [name]) <==> Clean(names) && name !in names && name != "" && Trimmed(name)
    ensures Members(names + [name]) == Members(names) + {name}
  {
    assert (names + [name])[..|names|] == names;
    Split(names + [name]);
  }

  lemma {:induction false} CleanConcat(a: seq<string>, b: seq<string>)
    requires Clean(a) && Clean(b) && Members(a) !! Members(b)
    ensures Clean(a + b)
  {
    if b == [] {
      assert a + b == a;
    } else {
      var init, last := b[..|b| - 1], b[|b| - 1];
      Split(b);
      CleanConcat(a, init);
      assert a + b == (a + init) + [last];
      assert last in Members(b);
      CleanPush(a + init, last);
    }
  }

  lemma {:induction false} DropMembers(names: seq<string>, s: set<string>)
    ensures Members(Drop(names, s)) == Members(names) - s
    ensures Clean(names) ==> Clean(Drop(names, s))
    ensures Members(names) !! s ==> Drop(names, s) == names
  {
    if names != [] {
      var init, last := names[..|names| - 1], names[|names| - 1];
      DropMembers(init, s);
      Split(names);
      CleanPush(Drop(init, s), last);
      assert Drop(init, s) + [] == Drop(init, s);
    }
  }

  lemma {:induction false} KeepMembers(names: seq<string>, s: set<string>)
    ensures Members(Keep(names, s)) == Members(names) * s
    ensures Clean(names) ==> Clean(Keep(names, s))
    ensures Members(names) <= s ==> Keep(names, s) == names
  {
    if names != [] {
      var init, last := names[..|names| - 1], names[|names| - 1];
      KeepMembers(init, s);
      Split(names);
      CleanPush(Keep(init, s), last);
      assert Keep(init, s) + [] == Keep(init, s);
    }
  }

  lemma {:induction false} UniqMembers(names: seq<string>)
    ensures Members(Uniq(names)) == Members(names)
    ensures AllTrimmed(names) ==> Clean(Uniq(names))
    ensures Clean(names) ==> Uniq(names) == names
  {
    if names != [] {
      var init, last := names[..|names| - 1], names[|names| - 1];
      UniqMembers(init);
      Split(names);
      CleanPush(Uniq(init), last);
      assert last in Uniq(init) <==> last in Members(Uniq(init));
    }
  }

  lemma {:induction false} CleanedOfTrimmed(names: seq<string>)
    requires AllTrimmed(names)
    ensures Cleaned(names) == names
  {
    if names != [] {
      var init, last := names[..|names| - 1], names[|names| - 1];
      assert Trim(last) == last && last != "" by { TrimIsTrimmed(last); }
      CleanedOfTrimmed(init);
      assert names == init + [last];
    }
  }

  lemma {:induction false} CleanedIsTrimmed(names: seq<string>)
    ensures AllTrimmed(Cleaned(names))
  {
    if names != [] {
      TrimIsTrimmed(names[|names| - 1]);
      CleanedIsTrimmed(names[..|names| - 1]);
    }
  }

  /** Normal form: clean, with the trimmed non-blank entries as members, and reached in one step. */
  lemma NormalizeIsClean(models: seq<string>)
    ensures Clean(Normalize(models))
    ensures Clean(models) ==> Normalize(models) == models
    ensures Normalize(Normalize(models)) == Normalize(models)
  {
    CleanedIsTrimmed(models);
    UniqMembers(Cleaned(models));
    if Clean(models) {
      CleanedOfTrimmed(models);
      UniqMembers(models);
    }
    CleanedOfTrimmed(Normalize(models));
    UniqMembers(Normalize(models));
  }

  lemma NormalizeMembers(models: seq<string>, name: string)
    ensures name in Normalize(models) <==> HasLine(models, name)
  {
    UniqMembers(Cleaned(models));
    CleanedHas(models, name);
    assert name in Normalize(models) <==> name in Members(Normalize(models));
  }

  /** The helpers are union, difference and intersection on members, and return clean lists. */
  lemma SetAlgebra(a: seq<string>, b: seq<string>)
    ensures Clean(Merge(a, b)) && Clean(Subtract(a, b)) && Clean(Intersect(a, b))
    ensures Members(Merge(a, b)) == Members(Normalize(a)) + Members(Normalize(b))
    ensures Members(Subtract(a, b)) == Members(Normalize(a)) - Members(Normalize(b))
    ensures Members(Intersect(a, b)) == Members(Normalize(a)) * Members(Normalize(b))
  {
    var na, nb := Normalize(a), Normalize(b);
    NormalizeIsClean(a);
    NormalizeIsClean(b);
    DropMembers(nb, Members(na));
    DropMembers(na, Members(nb));
    KeepMembers(na, Members(nb));
    CleanConcat(na, Drop(nb, Members(na)));
    MembersConcat(na, Drop(nb, Members(na)));
  }

  /** `a` is what is left of `b` after leaving some entries out. */
  predicate Subsequence(a: seq<string>, b: seq<string>)
    decreases |b|
  {
    a == [] ||
    (b != [] &&
     (Subsequence(a, b[..|b| - 1]) ||
      (a[|a| - 1] == b[|b| - 1] && Subsequence(a[..|a| - 1], b[..|b| - 1]))))
  }

  lemma SubsequencePush(a: seq<string>, b: seq<string>, name: string)
    requires Subsequence(a, b)
    ensures Subsequence(a, b + [name]) && Subsequence(a + [name], b + [name])
  {
    assert (b + [name])[..|b|] == b && (a + [name])[..|a|] == a;
  }

  lemma {:induction false} DropIsSubsequence(names: seq<string>, s: set<string>)
    ensures Subsequence(Drop(names, s), names)
  {
    if names != [] {
      var init, last := names[..|names| - 1], names[|names| - 1];
      DropIsSubsequence(init, s);
      SubsequencePush(Drop(init, s), init, last);
      assert names == init + [last] && Drop(init, s) + [] == Drop(init, s);
    }
  }

  lemma {:induction false} KeepIsSubsequence(names: seq<string>, s: set<string>)
    ensures Subsequence(Keep(names, s), names)
  {
    if names != [] {
      var init, last := names[..|names| - 1], names[|names| - 1];
      KeepIsSubsequence(init, s);
      SubsequencePush(Keep(init, s), init, last);
      assert names == init + [last] && Keep(init, s) + [] == Keep(init, s);
    }
  }

  /** Subtraction keeps, in order and once each, the names of `base` that `removed` does not have. */
  lemma SubtractMeaning(base: seq<string>, removed: seq<string>, name: string)
    ensures Clean(Subtract(base, removed)) && Subsequence(Subtract(base, removed), Normalize(base))
    ensures name in Subtract(base, removed) <==> HasLine(base, name) && !HasLine(removed, name)
  {
    SetAlgebra(base, removed);
    DropIsSubsequence(Normalize(base), Members(Normalize(removed)));
    NormalizeMembers(base, name);
    NormalizeMembers(removed, name);
    InMembers(Subtract(base, removed), name);
  }

  /** Intersection keeps, in order and once each, the names of `base` that `allowed` has. */
  lemma IntersectMeaning(base: seq<string>, allowed: seq<string>, name: string)
    ensures Clean(Intersect(base, allowed)) && Subsequence(Intersect(base, allowed), Normalize(base))
    ensures name in Intersect(base, allowed) <==> HasLine(base, name) && HasLine(allowed, name)
  {
    SetAlgebra(base, allowed);
    KeepIsSubsequence(Normalize(base), Members(Normalize(allowed)));
    NormalizeMembers(base, name);
    NormalizeMembers(allowed, name);
    InMembers(Intersect(base, allowed), name);
  }

  /** Merging appends, in order, the names of `appended` that `base` does not have. */
  lemma MergeMeaning(base: seq<string>, appended: seq<string>, name: string)
    ensures Clean(Merge(base, appended)) && Normalize(base) <= Merge(base, appended)
    ensures Subsequence(Merge(base, appended)[|Normalize(base)|..], Normalize(appended))
    ensures name in Merge(base, appended) <==> HasLine(base, name) || HasLine(appended, name)
  {
    SetAlgebra(base, appended);
    DropIsSubsequence(Normalize(appended), Members(Normalize(base)));
    assert Merge(base, appended)[|Normalize(base)|..] == Drop(Normalize(appended), Members(Normalize(base)));
    NormalizeMembers(base, name);
    NormalizeMembers(appended, name);
    InMembers(Merge(base, appended), name);
  }

  /** A selection leaves a name exactly if it was added, or was there and was not removed. */
  lemma SelectedMeaning(origin: seq<string>, add: seq<string>, remove: seq<string>, name: string)
    ensures Clean(ApplySelected(origin, add, remove))
    ensures name in ApplySelected(origin, add, remove) <==>
            HasLine(add, name) || (HasLine(origin, name) && !HasLine(remove, name))
    ensures Subsequence(ApplySelected(origin, add, remove), Merge(origin, Normalize(add)))
  {
    var normalizedAdd := Normalize(add);
    var normalizedRemove := Subtract(Normalize(remove), normalizedAdd);
    var merged := Merge(origin, normalizedAdd);
    NormalizedLines(add, name);
    NormalizedLines(remove, name);
    SubtractMeaning(Normalize(remove), normalizedAdd, name);
    CleanLines(normalizedRemove, name);
    MergeMeaning(origin, normalizedAdd, name);
    CleanLines(merged, name);
    SubtractMeaning(merged, normalizedRemove, name);
    NormalizeIsClean(merged);
  }

  lemma CleanLines(names: seq<string>, name: string)
    requires Clean(names)
    ensures HasLine(names, name) <==> name in names
  {
    NormalizeIsClean(names);
    NormalizeMembers(names, name);
  }

  lemma NormalizedLines(models: seq<string>, name: string)
    ensures HasLine(Normalize(models), name) <==> HasLine(models, name)
  {
    NormalizeIsClean(models);
    CleanLines(Normalize(models), name);
    NormalizeMembers(models, name);
  }

  lemma InMembers(names: seq<string>, name: string)
    ensures name in names <==> name in Members(names)
  {
  }

  lemma MembersConcat(a: seq<string>, b: seq<string>)
    ensures Members(a + b) == Members(a) + Members(b)
  {
  }

  // ----- Detecting differences -----

  /** Regular-expression matching, (pattern, name); a pattern that does not compile matches nothing. */
  type Matcher = (string, string) -> bool

  const REGEX_PREFIX := "regex:"

  predicate IgnoredBy(entry: string, name: string, matches: Matcher) {
    if REGEX_PREFIX <= entry then matches(Trim(entry[|REGEX_PREFIX|..]), name) else entry == name
  }

  predicate Ignored(entries: seq<string>, name: string, matches: Matcher) {
    exists i :: 0 <= i < |entries| && IgnoredBy(entries[i], name, matches)
  }

  function IgnoredAmong(names: seq<string>, entries: seq<string>, matches: Matcher): set<string> {
    set name | name in names && Ignored(entries, name, matches)
  }

  /** Upstream names that are neither listed locally, nor the target of a redirect, nor ignored. */
  function PendingAdd(local: seq<string>, upstream: seq<string>, ignored: seq<string>,
                      mapping: map<string, string>, matches: Matcher): (names: seq<string>)
  {
    Drop(Normalize(upstream), Members(Normalize(local)) + mapping.Values +
                              IgnoredAmong(Normalize(upstream), Normalize(ignored), matches))
  }

  /** Local names that upstream lacks and that are not the source of a redirect. */
  function PendingRemove(local: seq<string>, upstream: seq<string>, mapping: map<string, string>): (names: seq<string>) {
    Drop(Normalize(local), mapping.Keys + Members(Normalize(upstream)))
  }

  method CollectPending(localModels: seq<string>, upstreamModels: seq<string>, ignoredModels: seq<string>,
                        mapping: map<string, string>, matches: Matcher)
    returns (add: seq<string>, remove: seq<string>)
    ensures add == PendingAdd(localModels, upstreamModels, ignoredModels, mapping, matches)
    ensures remove == PendingRemove(localModels, upstreamModels, mapping)
  {
    var local, upstream, ignored := Normalize(localModels), Normalize(upstreamModels), Normalize(ignoredModels);
    var localSet := SetOf(local);
    var upstreamSet := SetOf(upstream);
    var covered := localSet + mapping.Values;
    add := [];
    for i := 0 to |upstream|
      invariant add == Drop(upstream[..i], covered + IgnoredAmong(upstream, ignored, matches))
    {
      assert upstream[..i + 1][..i] == upstream[..i];
      if upstream[i] !in covered && !Ignored(ignored, upstream[i], matches) {
        add := add + [upstream[i]];
      }
    }
    assert upstream[..|upstream|] == upstream;
    remove := [];
    for i := 0 to |local|
      invariant remove == Drop(local[..i], mapping.Keys + upstreamSet)
    {
      assert local[..i + 1][..i] == local[..i];
      if local[i] !in mapping.Keys && local[i] !in upstreamSet {
        remove := remove + [local[i]];
      }
    }
    assert local[..|local|] == local;
    PendingMembers(localModels, upstreamModels, ignoredModels, mapping, matches);
    NormalizeIsClean(add);
    NormalizeIsClean(remove);
    add, remove := Normalize(add), Normalize(remove);
  }

  lemma PendingMembers(local: seq<string>, upstream: seq<string>, ignored: seq<string>,
                       mapping: map<string, string>, matches: Matcher)
    ensures Clean(PendingAdd(local, upstream, ignored, mapping, matches))
    ensures Clean(PendingRemove(local, upstream, mapping))
    ensures Members(PendingAdd(local, upstream, ignored, mapping, matches)) ==
            Members(Normalize(upstream)) - Members(Normalize(local)) - mapping.Values
              - IgnoredAmong(Normalize(upstream), Normalize(ignored), matches)
    ensures Members(PendingRemove(local, upstream, mapping)) ==
            Members(Normalize(local)) - mapping.Keys - Members(Normalize(upstream))
  {
    NormalizeIsClean(local);
    NormalizeIsClean(upstream);
    DropThree(Normalize(upstream), Members(Normalize(local)), mapping.Values,
              IgnoredAmong(Normalize(upstream), Normalize(ignored), matches));
    DropThree(Normalize(local), mapping.Keys, Members(Normalize(upstream)), {});
    assert mapping.Keys + Members(Normalize(upstream)) + {} == mapping.Keys + Members(Normalize(upstream));
  }

  lemma DropThree(names: seq<string>, a: set<string>, b: set<string>, c: set<string>)
    requires Clean(names)
    ensures Clean(Drop(names, a + b + c)) && Members(Drop(names, a + b + c)) == Members(names) - a - b - c
  {
    DropMembers(names, a + b + c);
  }

  // ----- A channel and its settings -----

  datatype Settings = Settings(
    autoSync: bool,
    lastCheck: int,
    detected: seq<string>,
    removed: seq<string>,
    ignored: seq<string>)

  datatype Row = Row(models: seq<string>, settings: Settings)

  /** The row a successful check leaves behind. */
  function Detect(row: Row, upstream: seq<string>, mapping: map<string, string>, matches: Matcher,
                  autoApply: bool, now: int): (after: Row)
  {
    var add := PendingAdd(row.models, upstream, row.settings.ignored, mapping, matches);
    var remove := PendingRemove(row.models, upstream, mapping);
    var auto := autoApply && row.settings.autoSync && add != [];
    Row(if auto then Merge(row.models, add) else row.models,
        row.settings.(lastCheck := now, detected := if auto then [] else add, removed := remove))
  }

  datatype Applied = Applied(
    row: Row,
    added: seq<string>,
    removed: seq<string>,
    remaining: seq<string>,
    remainingRemove: seq<string>)

  /** The outcome of applying a selection to what was last detected. */
  function ApplyChanges(row: Row, add: seq<string>, ignore: seq<string>, remove: seq<string>, now: int): (r: Applied) {
    var added := Intersect(add, row.settings.detected);
    var ignored := Intersect(ignore, row.settings.detected);
    var removed := Subtract(Intersect(remove, row.settings.removed), added);
    var next := ApplySelected(Normalize(row.models), added, removed);
    var merged := Merge(row.settings.ignored, ignored);
    var remaining := Subtract(row.settings.detected, added + ignored);
    var remainingRemove := Subtract(row.settings.removed, removed);
    var settings := row.settings.(
      ignored := if added != [] then Subtract(merged, added) else merged,
      detected := remaining,
      removed := remainingRemove,
      lastCheck := now);
    Applied(Row(if next == Normalize(row.models) then row.models else next, settings),
            added, removed, remaining, remainingRemove)
  }

  datatype Failure = NoFailure | FetchFailed | SaveFailed

  class Channel {
    var models: seq<string>
    var settings: Settings
    const mapping: map<string, string>

    constructor (models: seq<string>, settings: Settings, mapping: map<string, string>)
      ensures this.models == models && this.settings == settings && this.mapping == mapping
    {
      this.models, this.settings, this.mapping := models, settings, mapping;
    }

    function Stored(): Row
      reads this
    {
      Row(models, settings)
    }

    method Save(next: Settings, nextModels: Option<seq<string>>, saves: bool) returns (ok: bool)
      modifies this
      ensures ok == saves
      ensures Stored() == if saves then Row(if nextModels.Some? then nextModels.value else old(models), next)
                          else old(Stored())
    {
      if saves {
        settings := next;
        if nextModels.Some? {
          models := nextModels.value;
        }
      }
      return saves;
    }

    /** `checkAndPersistChannelUpstreamModelUpdates`; `fetched` is the upstream list, if it can be had. */
    method Check(now: int, minInterval: int, force: bool, autoApply: bool, fetched: Option<seq<string>>,
                 matches: Matcher, saves: bool)
      returns (changed: bool, autoAdded: int, failure: Failure)
      modifies this
      ensures var skipped := !force && old(settings.lastCheck) > 0 && now - old(settings.lastCheck) < minInterval;
              && (skipped ==> Stored() == old(Stored()) && failure.NoFailure? && !changed && autoAdded == 0)
              && (!skipped && !saves ==> Stored() == old(Stored()) && failure.SaveFailed? && !changed)
              && (!skipped && saves && fetched.None? ==>
                  Stored() == old(Stored()).(settings := old(settings).(lastCheck := now)) && failure.FetchFailed?)
              && (!skipped && saves && fetched.Some? ==>
                  && failure.NoFailure?
                  && Stored() == Detect(old(Stored()), fetched.value, mapping, matches, autoApply, now)
                  && changed == (autoAdded > 0))
              && (!skipped ==>
                  autoAdded == if fetched.Some? && autoApply && old(settings.autoSync)
                               then |PendingAdd(old(models), fetched.value, old(settings.ignored), mapping, matches)|
                               else 0)
              && (fetched.None? ==> !changed)
    {
      if !force {
        if settings.lastCheck > 0 && now - settings.lastCheck < minInterval {
          return false, 0, NoFailure;
        }
      }
      var next := settings.(lastCheck := now);
      if fetched.None? {
        var ok := Save(next, None, saves);
        return false, 0, if ok then FetchFailed else SaveFailed;
      }
      var add, remove := CollectPending(models, fetched.value, settings.ignored, mapping, matches);
      changed, autoAdded := false, 0;
      var nextModels: Option<seq<string>> := None;
      if autoApply && settings.autoSync && |add| > 0 {
        var origin := Normalize(models);
        var merged := MergeNames(origin, add);
        AutoAddCount(models, fetched.value, settings.ignored, mapping, matches);
        if |merged| > |origin| {
          nextModels := Some(merged);
          autoAdded := |merged| - |origin|;
          changed := true;
        }
        next := next.(detected := []);
      } else {
        next := next.(detected := add);
      }
      next := next.(removed := remove);
      var ok := Save(next, nextModels, saves);
      if !ok {
        return false, autoAdded, SaveFailed;
      }
      return changed, autoAdded, NoFailure;
    }

    /** `applyChannelUpstreamModelUpdates`. */
    method Apply(addInput: seq<string>, ignoreInput: seq<string>, removeInput: seq<string>, now: int, saves: bool)
      returns (added: seq<string>, removed: seq<string>, remaining: seq<string>, remainingRemove: seq<string>,
               changed: bool, ok: bool)
      modifies this
      ensures ok == saves
      ensures !saves ==> Stored() == old(Stored()) && !changed
      ensures saves ==>
                var r := ApplyChanges(old(Stored()), addInput, ignoreInput, removeInput, now);
                && r == Applied(Stored(), added, removed, remaining, remainingRemove)
                && changed == (ApplySelected(Normalize(old(models)), added, removed) != Normalize(old(models)))
    {
      NormalizeIsClean(settings.detected);
      NormalizeIsClean(settings.removed);
      var pendingAdd := Normalize(settings.detected);
      var pendingRemove := Normalize(settings.removed);
      added := IntersectNames(addInput, pendingAdd);
      var ignored := IntersectNames(ignoreInput, pendingAdd);
      removed := IntersectNames(removeInput, pendingRemove);
      removed := SubtractNames(removed, added);

      var origin := Normalize(models);
      var next := ApplySelectedNames(origin, added, removed);
      changed := origin != next;

      var entries := MergeNames(settings.ignored, ignored);
      if |added| > 0 {
        entries := SubtractNames(entries, added);
      }
      remaining := SubtractNames(pendingAdd, added + ignored);
      remainingRemove := SubtractNames(pendingRemove, removed);
      var after := settings.(ignored := entries, detected := remaining, removed := remainingRemove, lastCheck := now);
      ok := Save(after, if changed then Some(next) else None, saves);
      if !ok {
        return [], [], [], [], false, false;
      }
    }
  }

  /** Under auto-sync every detected model is new to the list, so the reported count is the detected count. */
  lemma AutoAddCount(local: seq<string>, upstream: seq<string>, ignored: seq<string>,
                     mapping: map<string, string>, matches: Matcher)
    ensures var add := PendingAdd(local, upstream, ignored, mapping, matches);
            Merge(Normalize(local), add) == Normalize(local) + add && Merge(local, add) == Normalize(local) + add
  {
    var add := PendingAdd(local, upstream, ignored, mapping, matches);
    PendingMembers(local, upstream, ignored, mapping, matches);
    NormalizeIsClean(local);
    NormalizeIsClean(add);
    DropMembers(add, Members(Normalize(local)));
  }
}
