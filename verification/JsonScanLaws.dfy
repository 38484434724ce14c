/** What the duplicate scan computes: it accepts exactly the token sequences of JSON trees, finds exactly their
    duplicates, and its two modes agree. */
module JsonScanLaws {
  import opened Basics
  import opened JsonScan

  // ----- Completeness: every tree is scanned -----

  /** The scan consumes exactly a tree's tokens, whatever follows, and reports exactly its duplicates. */
  lemma {:induction false} ScansTree(v: Json, suffix: seq<Token>, path: seq<string>)
    ensures ScanValue(Tokens(v) + suffix, path, false) == Done(suffix, Duplicates(v, path))
    decreases v
  {
    var ts := Tokens(v) + suffix;
    match v
    case Leaf =>
      assert ts[1..] == suffix;
    case Str(_) =>
      assert ts[1..] == suffix;
    case Arr(items) =>
      assert ts[1..] == ItemTokens(items) + ([ArrClose] + suffix);
      ScansItems(items, suffix, path);
    case Obj(members) =>
      assert ts[1..] == MemberTokens(members) + ([ObjClose] + suffix);
      ScansMembers(members, suffix, path, {});
  }

  lemma StartsValue(v: Json, suffix: seq<Token>)
    ensures More(Tokens(v) + suffix)
  {
  }

  lemma {:induction false} ScansItems(items: Items, suffix: seq<Token>, path: seq<string>)
    ensures ScanItems(ItemTokens(items) + ([ArrClose] + suffix), path, false) == Done(suffix, ItemDuplicates(items, path))
    decreases items
  {
    var ts := ItemTokens(items) + ([ArrClose] + suffix);
    match items
    case NoItem =>
      assert ts == [ArrClose] + suffix && ts[1..] == suffix;
    case Item(v, tail) =>
      var after := ItemTokens(tail) + ([ArrClose] + suffix);
      assert ts == Tokens(v) + after;
      StartsValue(v, after);
      ScansTree(v, after, path);
      ScansItems(tail, suffix, path);
  }

  lemma {:induction false} ScansMembers(members: Members, suffix: seq<Token>, path: seq<string>, earlier: set<string>)
    ensures ScanMembers(MemberTokens(members) + ([ObjClose] + suffix), path, earlier, false)
            == Done(suffix, MemberDuplicates(members, path, earlier))
    decreases members
  {
    var ts := MemberTokens(members) + ([ObjClose] + suffix);
    match members
    case NoMember =>
      assert ts == [ObjClose] + suffix && ts[1..] == suffix;
    case Member(name, v, rest) =>
      var after := MemberTokens(rest) + ([ObjClose] + suffix);
      assert ts == [Text(name)] + (Tokens(v) + after);
      assert ts[1..] == Tokens(v) + after;
      ScansTree(v, after, path + [name]);
      ScansMembers(rest, suffix, path, earlier + {name});
      var here: seq<Duplicate> := if name in earlier then [Duplicate(name, path + [name])] else [];
      assert ScanMember(ts, path, earlier, false) == Done(after, here + Duplicates(v, path + [name]));
  }

  // ----- Soundness: nothing but trees is accepted -----

  /** A successful scan consumed the tokens of some tree. */
  lemma {:induction false} AcceptsOnlyTrees(ts: seq<Token>, path: seq<string>) returns (v: Json)
    requires ScanValue(ts, path, false).Done?
    ensures ts == Tokens(v) + ScanValue(ts, path, false).rest
    ensures ScanValue(ts, path, false).found == Duplicates(v, path)
    decreases |ts|, 1
  {
    var rest := ScanValue(ts, path, false).rest;
    match ts[0]
    case Scalar => v := Leaf;
    case Text(s) => v := Str(s);
    case ArrOpen =>
      var items := AcceptsItems(ts[1..], path);
      v := Arr(items);
      assert ts == [ArrOpen] + ts[1..];
    case ObjOpen =>
      var members := AcceptsMembers(ts[1..], path, {});
      v := Obj(members);
      assert ts == [ObjOpen] + ts[1..];
  }

  lemma {:induction false} AcceptsItems(ts: seq<Token>, path: seq<string>) returns (items: Items)
    requires ScanItems(ts, path, false).Done?
    ensures ts == ItemTokens(items) + [ArrClose] + ScanItems(ts, path, false).rest
    ensures ScanItems(ts, path, false).found == ItemDuplicates(items, path)
    decreases |ts|, 2
  {
    if More(ts) {
      var v := AcceptsOnlyTrees(ts, path);
      var tail := AcceptsItems(ScanValue(ts, path, false).rest, path);
      items := Item(v, tail);
    } else {
      items := NoItem;
    }
  }

  lemma {:induction false} AcceptsMembers(ts: seq<Token>, path: seq<string>, earlier: set<string>)
    returns (members: Members)
    requires ScanMembers(ts, path, earlier, false).Done?
    ensures ts == MemberTokens(members) + [ObjClose] + ScanMembers(ts, path, earlier, false).rest
    ensures ScanMembers(ts, path, earlier, false).found == MemberDuplicates(members, path, earlier)
    decreases |ts|, 2
  {
    if More(ts) {
      var name, value := ts[0].text, ts[1..];
      var v := AcceptsOnlyTrees(value, path + [name]);
      var after := ScanValue(value, path + [name], false).rest;
      var rest := AcceptsMembers(after, path, earlier + {name});
      members := Member(name, v, rest);
      var end := ScanMembers(ts, path, earlier, false).rest;
      MemberSplit(ts, name, v, rest, value, after, end);
    } else {
      members := NoMember;
      assert ts == [ObjClose] + ts[1..];
    }
  }

  lemma MemberSplit(ts: seq<Token>, name: string, v: Json, rest: Members, value: seq<Token>, after: seq<Token>,
                    end: seq<Token>)
    requires ts == [Text(name)] + value && value == Tokens(v) + after
    requires after == MemberTokens(rest) + [ObjClose] + end
    ensures ts == MemberTokens(Member(name, v, rest)) + [ObjClose] + end
  {
  }

  // ----- The two modes -----

  /** What stopping at the first duplicate makes of a collecting scan. */
  function Stopped(scan: Scan): Scan {
    if scan.found != [] then Failed(DuplicateMember(scan.found[0]), []) else scan
  }

  /** On any tokens at all, the stopping scan is the collecting scan cut at its first duplicate. */
  lemma {:induction false} StoppingCuts(ts: seq<Token>, path: seq<string>)
    ensures ScanValue(ts, path, true) == Stopped(ScanValue(ts, path, false))
    decreases |ts|, 1
  {
    if ts != [] {
      match ts[0]
      case ObjOpen => StoppingCutsMembers(ts[1..], path, {});
      case ArrOpen => StoppingCutsItems(ts[1..], path);
      case _ =>
    }
  }

  lemma {:induction false} StoppingCutsItems(ts: seq<Token>, path: seq<string>)
    ensures ScanItems(ts, path, true) == Stopped(ScanItems(ts, path, false))
    decreases |ts|, 2
  {
    if More(ts) {
      StoppingCuts(ts, path);
      var v := ScanValue(ts, path, false);
      if v.Done? {
        StoppingCutsItems(v.rest, path);
      }
    }
  }

  lemma {:induction false} StoppingCutsMembers(ts: seq<Token>, path: seq<string>, earlier: set<string>)
    ensures ScanMembers(ts, path, earlier, true) == Stopped(ScanMembers(ts, path, earlier, false))
    decreases |ts|, 2
  {
    if More(ts) && ts[0].Text? {
      var name := ts[0].text;
      StoppingCuts(ts[1..], path + [name]);
      var v := ScanValue(ts[1..], path + [name], false);
      var m := ScanMember(ts, path, earlier, false);
      assert ScanMember(ts, path, earlier, true) == Stopped(m);
      if v.Done? {
        StoppingCutsMembers(v.rest, path, earlier + {name});
      }
    }
  }

  // ----- The two entry points -----

  /** On any input: Reject succeeds exactly when Find returns no duplicates; when Find returns some, Reject
      reports the first; and where Find fails, Reject fails with that error or an earlier duplicate. */
  lemma RejectAgreesWithFind(ts: seq<Token>)
    ensures Reject(ts).None? <==> Find(ts) == Found([])
    ensures Find(ts).Found? && Find(ts).duplicates != [] ==> Reject(ts) == Some(DuplicateMember(Find(ts).duplicates[0]))
    ensures Find(ts).FindFailed? ==> Reject(ts) == Some(Find(ts).error) || Reject(ts).value.DuplicateMember?
  {
    StoppingCuts(ts, []);
  }

  /** Find succeeds exactly on the tokens of one JSON tree, and returns that tree's duplicates. */
  lemma FindIsExact(ts: seq<Token>)
    ensures forall v :: ts == Tokens(v) ==> Find(ts) == Found(Duplicates(v, []))
    ensures Find(ts).Found? ==> exists v :: ts == Tokens(v)
  {
    forall v | ts == Tokens(v)
      ensures Find(ts) == Found(Duplicates(v, []))
    {
      ScansTree(v, [], []);
      assert Tokens(v) + [] == ts;
    }
    if Find(ts).Found? {
      var v := AcceptsOnlyTrees(ts, []);
      assert Tokens(v) + [] == ts;
    }
  }

  // ----- What a duplicate is -----

  function Names(members: Members): seq<string> {
    match members
    case NoMember => []
    case Member(name, _, rest) => [name] + Names(rest)
  }

  predicate Avoids(names: seq<string>, earlier: set<string>) {
    forall i :: 0 <= i < |names| ==> names[i] !in earlier
  }

  lemma DistinctCons(name: string, names: seq<string>, earlier: set<string>)
    ensures NoDuplicates([name] + names) && Avoids([name] + names, earlier) <==>
            name !in earlier && NoDuplicates(names) && Avoids(names, earlier + {name})
  {
    var all := [name] + names;
    assert forall i :: 0 <= i < |names| ==> all[i + 1] == names[i];
    if NoDuplicates(all) && Avoids(all, earlier) {
      assert all[0] == name;
      forall i | 0 <= i < |names|
        ensures names[i] !in earlier + {name}
      {
        assert all[0] != all[i + 1] && all[i + 1] !in earlier;
      }
      forall i, j | 0 <= i < j < |names|
        ensures names[i] != names[j]
      {
        assert all[i + 1] != all[j + 1];
      }
    }
  }

  /** Every object of the tree has distinct member names. */
  ghost predicate DistinctNames(v: Json) {
    match v
    case Leaf => true
    case Str(_) => true
    case Arr(items) => DistinctInItems(items)
    case Obj(members) =>
      NoDuplicates(Names(members)) && DistinctInMembers(members)
  }

  ghost predicate DistinctInItems(items: Items) {
    match items
    case NoItem => true
    case Item(v, tail) => DistinctNames(v) && DistinctInItems(tail)
  }

  ghost predicate DistinctInMembers(members: Members) {
    match members
    case NoMember => true
    case Member(_, v, rest) => DistinctNames(v) && DistinctInMembers(rest)
  }

  /** A tree has no duplicates exactly when the names in each of its objects are distinct. */
  lemma {:induction false} NoDuplicatesMeansDistinct(v: Json, path: seq<string>)
    ensures Duplicates(v, path) == [] <==> DistinctNames(v)
    decreases v
  {
    match v
    case Leaf =>
    case Str(_) =>
    case Arr(items) => NoDuplicatesInItems(items, path);
    case Obj(members) => NoDuplicatesInMembers(members, path, {});
  }

  lemma {:induction false} NoDuplicatesInItems(items: Items, path: seq<string>)
    ensures ItemDuplicates(items, path) == [] <==> DistinctInItems(items)
    decreases items
  {
    if items.Item? {
      NoDuplicatesMeansDistinct(items.head, path);
      NoDuplicatesInItems(items.tail, path);
    }
  }

  lemma {:induction false} NoDuplicatesInMembers(members: Members, path: seq<string>, earlier: set<string>)
    ensures MemberDuplicates(members, path, earlier) == [] <==>
            NoDuplicates(Names(members)) && Avoids(Names(members), earlier) && DistinctInMembers(members)
    decreases members
  {
    if members.Member? {
      var name, rest := members.name, members.rest;
      NoDuplicatesMeansDistinct(members.value, path + [name]);
      NoDuplicatesInMembers(rest, path, earlier + {name});
      DistinctCons(name, Names(rest), earlier);
    }
  }

  /** The gate as callers use it: accepted input is one JSON tree whose objects all have distinct names. */
  lemma RejectMeansDistinct(v: Json)
    ensures Reject(Tokens(v)).None? <==> DistinctNames(v)
  {
    RejectAgreesWithFind(Tokens(v));
    FindIsExact(Tokens(v));
    NoDuplicatesMeansDistinct(v, []);
  }

  // ----- Duplicates, written out -----

  /** The members of an object, in order. */
  function Entries(members: Members): seq<(string, Json)> {
    match members
    case NoMember => []
    case Member(name, v, rest) => [(name, v)] + Entries(rest)
  }

  predicate Occurs(entries: seq<(string, Json)>, name: string) {
    exists i :: 0 <= i < |entries| && entries[i].0 == name
  }

  /** Member by member: itself, if an earlier one has its name, and then what is inside its value. */
  function Reported(entries: seq<(string, Json)>, path: seq<string>): seq<Duplicate>
    decreases |entries|
  {
    if entries == [] then []
    else
      var init, last := entries[..|entries| - 1], entries[|entries| - 1];
      Reported(init, path)
      + (if Occurs(init, last.0) then [Duplicate(last.0, path + [last.0])] else [])
      + Duplicates(last.1, path + [last.0])
  }

  /** The names in `earlier` are those of the members already passed. */
  lemma {:induction false} ReportedFrom(passed: seq<(string, Json)>, members: Members, path: seq<string>,
                                        earlier: set<string>)
    requires forall name :: name in earlier <==> Occurs(passed, name)
    ensures Reported(passed + Entries(members), path) ==
            Reported(passed, path) + MemberDuplicates(members, path, earlier)
    decreases members
  {
    if members.NoMember? {
      assert passed + [] == passed && Reported(passed, path) + [] == Reported(passed, path);
    } else {
      var name, v, rest := members.name, members.value, members.rest;
      var more := passed + [(name, v)];
      OccursPush(passed, name, v);
      ReportedFrom(more, rest, path, earlier + {name});
      assert passed + Entries(members) == more + Entries(rest);
      ReportedMember(passed, name, v, rest, path, earlier);
    }
  }

  lemma ReportedMember(passed: seq<(string, Json)>, name: string, v: Json, rest: Members, path: seq<string>,
                       earlier: set<string>)
    requires name in earlier <==> Occurs(passed, name)
    ensures Reported(passed + [(name, v)], path) + MemberDuplicates(rest, path, earlier + {name}) ==
            Reported(passed, path) + MemberDuplicates(Member(name, v, rest), path, earlier)
  {
    ReportedPush(passed, name, v, path);
    var here: seq<Duplicate> := if name in earlier then [Duplicate(name, path + [name])] else [];
    Regroup(Reported(passed, path), here, Duplicates(v, path + [name]), MemberDuplicates(rest, path, earlier + {name}));
  }

  lemma Regroup<T>(a: seq<T>, b: seq<T>, c: seq<T>, d: seq<T>)
    ensures (a + b + c) + d == a + (b + c + d)
  {
  }

  lemma OccursPush(passed: seq<(string, Json)>, name: string, v: Json)
    ensures forall other :: Occurs(passed + [(name, v)], other) <==> Occurs(passed, other) || other == name
  {
    var more := passed + [(name, v)];
    assert more[|passed|].0 == name;
    forall other | Occurs(passed, other)
      ensures Occurs(more, other)
    {
      var i :| 0 <= i < |passed| && passed[i].0 == other;
      assert more[i].0 == other;
    }
  }

  lemma ReportedPush(passed: seq<(string, Json)>, name: string, v: Json, path: seq<string>)
    ensures Reported(passed + [(name, v)], path) ==
            Reported(passed, path)
            + (if Occurs(passed, name) then [Duplicate(name, path + [name])] else [])
            + Duplicates(v, path + [name])
  {
    assert (passed + [(name, v)])[..|passed|] == passed;
  }

  /** The duplicates of a value: none in a scalar; those of the elements of an array, in order and with the path of
      the array; and those of an object member by member, each with the names that lead to it. */
  lemma DuplicatesExactly(members: Members, v: Json, tail: Items, text: string, path: seq<string>)
    ensures Duplicates(Leaf, path) == [] && Duplicates(Str(text), path) == [] && Duplicates(Arr(NoItem), path) == []
    ensures Duplicates(Arr(Item(v, tail)), path) == Duplicates(v, path) + Duplicates(Arr(tail), path)
    ensures Duplicates(Obj(members), path) == Reported(Entries(members), path)
  {
    ReportedFrom([], members, path, {});
    assert [] + Entries(members) == Entries(members);
    assert [] + Duplicates(Obj(members), path) == Duplicates(Obj(members), path);
  }

  // ----- Errors -----

  /** What an opening delimiter makes of the tokens after it. */
  lemma OpenErrors(ts: seq<Token>, stop: bool)
    ensures ScanValue([ObjOpen] + ts, [], stop) == ScanMembers(ts, [], {}, stop)
    ensures ScanValue([ArrOpen] + ts, [], stop) == ScanItems(ts, [], stop)
    ensures ts != [] && ts[0] == Scalar ==> ScanMembers(ts, [], {}, stop) == Failed(NameNotAString, [])
    ensures !More(ts) ==>
              && ScanMembers(ts, [], {}, stop) == (if ts == [] then Failed(EndOfInput, [])
                                                   else if ts[0] == ObjClose then Done(ts[1..], [])
                                                   else Failed(BadObjectClosing, []))
              && ScanItems(ts, [], stop) == (if ts == [] then Failed(EndOfInput, [])
                                             else if ts[0] == ArrClose then Done(ts[1..], [])
                                             else Failed(BadArrayClosing, []))
  {
    assert ([ObjOpen] + ts)[1..] == ts && ([ArrOpen] + ts)[1..] == ts;
    if ts != [] && ts[0] == Scalar {
      assert ScanMember(ts, [], {}, stop) == Failed(NameNotAString, []);
    }
  }

  /** What is wrong with the input is reported as it is: nothing there, rejected text, a stray closing delimiter; and
      after an opening one, nothing again, a member name that is no string, or the wrong closing delimiter. */
  lemma ErrorsExactly(ts: seq<Token>)
    ensures ts == [] ==> Reject(ts) == Some(EndOfInput)
    ensures ts != [] && ts[0] == Malformed ==> Reject(ts) == Some(Syntax)
    ensures ts != [] && ts[0] in {ObjClose, ArrClose} ==> Reject(ts) == Some(BadDelimiter)
    ensures ts == [] ==> Reject([ObjOpen] + ts) == Reject([ArrOpen] + ts) == Some(EndOfInput)
    ensures ts != [] && ts[0] == Scalar ==> Reject([ObjOpen] + ts) == Some(NameNotAString)
    ensures ts != [] && ts[0] == ArrClose ==> Reject([ObjOpen] + ts) == Some(BadObjectClosing)
    ensures ts != [] && ts[0] == ObjClose ==> Reject([ArrOpen] + ts) == Some(BadArrayClosing)
  {
    OpenErrors(ts, true);
  }

  /** Whatever follows a value is an error of its own, also for a value without duplicates. */
  lemma TrailingIsRefused(v: Json, more: seq<Token>)
    requires more != []
    ensures Find(Tokens(v) + more) == FindFailed(if more[0] == Malformed then Syntax else MultipleValues)
    ensures DistinctNames(v) ==>
              Reject(Tokens(v) + more) == Some(if more[0] == Malformed then Syntax else MultipleValues)
  {
    ScansTree(v, more, []);
    StoppingCuts(Tokens(v) + more, []);
    NoDuplicatesMeansDistinct(v, []);
  }
}
