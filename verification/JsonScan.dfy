/** Scanning one JSON value for duplicate object members over a decoder's token stream, either stopping at the
    first duplicate or collecting all of them. Member names are those of section 4 of RFC 8259. */
module JsonScan {
  import opened Basics

  /** What the decoder yields; `Malformed` stands for input it rejects. */
  datatype Token = Scalar | Text(text: string) | ObjOpen | ObjClose | ArrOpen | ArrClose | Malformed

  datatype Duplicate = Duplicate(name: string, path: seq<string>)

  datatype Error =
    | EndOfInput
    | Syntax
    | NameNotAString
    | BadObjectClosing
    | BadArrayClosing
    | BadDelimiter
    | MultipleValues
    | DuplicateMember(duplicate: Duplicate)

  // ----- JSON trees and their duplicates -----

  datatype Json = Leaf | Str(text: string) | Arr(items: Items) | Obj(members: Members)
  datatype Items = NoItem | Item(head: Json, tail: Items)
  datatype Members = NoMember | Member(name: string, value: Json, rest: Members)

  function Tokens(v: Json): (ts: seq<Token>)
    ensures ts != []
  {
    match v
    case Leaf => [Scalar]
    case Str(s) => [Text(s)]
    case Arr(items) => [ArrOpen] + ItemTokens(items) + [ArrClose]
    case Obj(members) => [ObjOpen] + MemberTokens(members) + [ObjClose]
  }

  function ItemTokens(items: Items): seq<Token> {
    match items
    case NoItem => []
    case Item(v, tail) => Tokens(v) + ItemTokens(tail)
  }

  function MemberTokens(members: Members): seq<Token> {
    match members
    case NoMember => []
    case Member(name, v, rest) => [Text(name)] + Tokens(v) + MemberTokens(rest)
  }

  /** The duplicates of a value in document order: a member whose name an earlier member of its object has,
      before those inside its value. Array positions do not appear in paths. */
  function Duplicates(v: Json, path: seq<string>): seq<Duplicate> {
    match v
    case Leaf => []
    case Str(_) => []
    case Arr(items) => ItemDuplicates(items, path)
    case Obj(members) => MemberDuplicates(members, path, {})
  }

  function ItemDuplicates(items: Items, path: seq<string>): seq<Duplicate> {
    match items
    case NoItem => []
    case Item(v, tail) => Duplicates(v, path) + ItemDuplicates(tail, path)
  }

  function MemberDuplicates(members: Members, path: seq<string>, earlier: set<string>): seq<Duplicate> {
    match members
    case NoMember => []
    case Member(name, v, rest) =>
      (if name in earlier then [Duplicate(name, path + [name])] else [])
      + Duplicates(v, path + [name]) + MemberDuplicates(rest, path, earlier + {name})
  }

  // ----- The scan as a function -----

  datatype Scan =
    | Done(rest: seq<Token>, found: seq<Duplicate>)
    | Failed(error: Error, found: seq<Duplicate>)

  function Prepend(found: seq<Duplicate>, scan: Scan): Scan {
    match scan
    case Done(rest, more) => Done(rest, found + more)
    case Failed(error, more) => Failed(error, found + more)
  }

  /** `Decoder.More`: something other than a closing delimiter is next. */
  predicate More(ts: seq<Token>) {
    ts != [] && ts[0] != ObjClose && ts[0] != ArrClose
  }

  function ScanValue(ts: seq<Token>, path: seq<string>, stop: bool): (r: Scan)
    ensures r.Done? ==> |r.rest| < |ts|
    decreases |ts|, 1
  {
    if ts == [] then Failed(EndOfInput, [])
    else
      match ts[0]
      case Malformed => Failed(Syntax, [])
      case Scalar => Done(ts[1..], [])
      case Text(_) => Done(ts[1..], [])
      case ObjOpen => ScanMembers(ts[1..], path, {}, stop)
      case ArrOpen => ScanItems(ts[1..], path, stop)
      case ObjClose => Failed(BadDelimiter, [])
      case ArrClose => Failed(BadDelimiter, [])
  }

  /** A name and its value. */
  function ScanMember(ts: seq<Token>, path: seq<string>, members: set<string>, stop: bool): (r: Scan)
    requires More(ts)
    ensures r.Done? ==> ts[0].Text? && |r.rest| < |ts|
    decreases |ts|, 1
  {
    if ts[0] == Malformed then Failed(Syntax, [])
    else if !ts[0].Text? then Failed(NameNotAString, [])
    else
      var name := ts[0].text;
      var here := Duplicate(name, path + [name]);
      if name in members && stop then Failed(DuplicateMember(here), [])
      else Prepend(if name in members then [here] else [], ScanValue(ts[1..], path + [name], stop))
  }

  function ScanMembers(ts: seq<Token>, path: seq<string>, members: set<string>, stop: bool): (r: Scan)
    ensures r.Done? ==> |r.rest| < |ts|
    decreases |ts|, 2
  {
    if !More(ts) then
      if ts == [] then Failed(EndOfInput, [])
      else if ts[0] == ObjClose then Done(ts[1..], []) else Failed(BadObjectClosing, [])
    else
      match ScanMember(ts, path, members, stop)
      case Failed(error, inside) => Failed(error, inside)
      case Done(rest, inside) => Prepend(inside, ScanMembers(rest, path, members + {ts[0].text}, stop))
  }

  function ScanItems(ts: seq<Token>, path: seq<string>, stop: bool): (r: Scan)
    ensures r.Done? ==> |r.rest| < |ts|
    decreases |ts|, 2
  {
    if !More(ts) then
      if ts == [] then Failed(EndOfInput, [])
      else if ts[0] == ArrClose then Done(ts[1..], []) else Failed(BadArrayClosing, [])
    else
      match ScanValue(ts, path, stop)
      case Failed(error, inside) => Failed(error, inside)
      case Done(rest, inside) => Prepend(inside, ScanItems(rest, path, stop))
  }

  /** `ensureSingleJsonValue`. */
  function EnsureSingle(rest: seq<Token>): Option<Error> {
    if rest == [] then None else if rest[0] == Malformed then Some(Syntax) else Some(MultipleValues)
  }

  // ----- The program -----

  class Decoder {
    var rest: seq<Token>

    constructor (input: seq<Token>)
      ensures rest == input
    {
      rest := input;
    }

    method Next() returns (token: Token, error: Option<Error>)
      modifies this
      ensures old(rest) == [] ==> error == Some(EndOfInput) && rest == old(rest)
      ensures old(rest) != [] && old(rest)[0] == Malformed ==> error == Some(Syntax) && rest == old(rest)
      ensures old(rest) != [] && old(rest)[0] != Malformed ==>
                error.None? && token == old(rest)[0] && rest == old(rest)[1..]
    {
      token, error := Malformed, None;
      if rest == [] {
        error := Some(EndOfInput);
      } else if rest[0] == Malformed {
        error := Some(Syntax);
      } else {
        token := rest[0];
        rest := rest[1..];
      }
    }
  }

  /** The scanner with its shared list of duplicates. */
  class Scanner {
    const decoder: Decoder
    var duplicates: seq<Duplicate>

    constructor (decoder: Decoder)
      ensures this.decoder == decoder && duplicates == []
    {
      this.decoder := decoder;
      duplicates := [];
    }

    /** The state and result agree with a scan. */
    ghost predicate Agrees(scan: Scan, before: seq<Duplicate>, error: Option<Error>)
      reads this, decoder
    {
      && duplicates == before + scan.found
      && match scan
         case Done(rest, _) => error.None? && decoder.rest == rest
         case Failed(e, _) => error == Some(e)
    }

    method ScanOne(path: seq<string>, stop: bool) returns (error: Option<Error>)
      modifies this, decoder
      ensures Agrees(ScanValue(old(decoder.rest), path, stop), old(duplicates), error)
      decreases |decoder.rest|, 0
    {
      var token, failure := decoder.Next();
      if failure.Some? {
        return failure;
      }
      match token
      case ObjOpen =>
        error := ScanObject(path, stop);
      case ArrOpen =>
        error := ScanArray(path, stop);
      case ObjClose => error := Some(BadDelimiter);
      case ArrClose => error := Some(BadDelimiter);
      case _ => error := None;
    }

    /** The closing delimiter, once there is no more. */
    method Close(delimiter: Token, otherwise: Error) returns (error: Option<Error>)
      requires !More(decoder.rest)
      modifies decoder
      ensures old(decoder.rest) == [] ==> error == Some(EndOfInput)
      ensures old(decoder.rest) != [] ==>
                if old(decoder.rest)[0] == delimiter then error.None? && decoder.rest == old(decoder.rest)[1..]
                else error == Some(otherwise)
    {
      var closing, failure := decoder.Next();
      if failure.Some? {
        return failure;
      }
      return if closing != delimiter then Some(otherwise) else None;
    }

    method ScanOneMember(path: seq<string>, members: set<string>, stop: bool)
      returns (error: Option<Error>, seen: set<string>)
      requires More(decoder.rest)
      modifies this, decoder
      ensures Agrees(ScanMember(old(decoder.rest), path, members, stop), old(duplicates), error)
      ensures error.None? ==> old(decoder.rest[0]).Text? && seen == members + {old(decoder.rest[0]).text}
      decreases |decoder.rest|, 1
    {
      seen := members;
      var nameToken, failure := decoder.Next();
      if failure.Some? {
        return failure, seen;
      }
      if !nameToken.Text? {
        return Some(NameNotAString), seen;
      }
      var name := nameToken.text;
      ghost var here: seq<Duplicate> := [];
      if name in seen {
        var duplicate := Duplicate(name, path + [name]);
        if stop {
          return Some(DuplicateMember(duplicate)), seen;
        }
        duplicates := duplicates + [duplicate];
        here := [duplicate];
      } else {
        seen := seen + {name};
      }
      ghost var inside := ScanValue(decoder.rest, path + [name], stop);
      error := ScanOne(path + [name], stop);
      assert duplicates == old(duplicates) + (here + inside.found);
    }

    /** One turn of the member loop. `scan` is the whole scan, of which `found` has been reported. */
    method NextMember(path: seq<string>, members: set<string>, stop: bool, ghost scan: Scan,
                      ghost before: seq<Duplicate>, ghost found: seq<Duplicate>)
      returns (error: Option<Error>, seen: set<string>, ghost more: seq<Duplicate>)
      requires More(decoder.rest) && duplicates == before + found
      requires scan == Prepend(found, ScanMembers(decoder.rest, path, members, stop))
      modifies this, decoder
      ensures duplicates == before + more
      ensures error.Some? ==> scan == Failed(error.value, more)
      ensures error.None? ==>
                |decoder.rest| < old(|decoder.rest|) && scan == Prepend(more, ScanMembers(decoder.rest, path, seen, stop))
      decreases |decoder.rest|, 2
    {
      ghost var member := ScanMember(decoder.rest, path, members, stop);
      StepMembers(decoder.rest, path, members, stop, found);
      error, seen := ScanOneMember(path, members, stop);
      more := found + member.found;
      assert duplicates == (before + found) + member.found == before + more;
    }

    method ScanObject(path: seq<string>, stop: bool) returns (error: Option<Error>)
      modifies this, decoder
      ensures Agrees(ScanMembers(old(decoder.rest), path, {}, stop), old(duplicates), error)
      decreases |decoder.rest|, 3
    {
      var members: set<string> := {};
      ghost var before, found: seq<Duplicate> := duplicates, [];
      ghost var scan := ScanMembers(decoder.rest, path, {}, stop);
      PrependNothing(scan);
      while More(decoder.rest)
        invariant |decoder.rest| <= old(|decoder.rest|) && duplicates == before + found
        invariant scan == Prepend(found, ScanMembers(decoder.rest, path, members, stop))
        decreases |decoder.rest|
      {
        error, members, found := NextMember(path, members, stop, scan, before, found);
        if error.Some? {
          return error;
        }
      }
      LastMember(decoder.rest, path, members, stop, found);
      error := Close(ObjClose, BadObjectClosing);
    }

    /** One turn of the element loop. */
    method NextItem(path: seq<string>, stop: bool, ghost scan: Scan, ghost before: seq<Duplicate>,
                    ghost found: seq<Duplicate>)
      returns (error: Option<Error>, ghost more: seq<Duplicate>)
      requires More(decoder.rest) && duplicates == before + found
      requires scan == Prepend(found, ScanItems(decoder.rest, path, stop))
      modifies this, decoder
      ensures duplicates == before + more
      ensures error.Some? ==> scan == Failed(error.value, more)
      ensures error.None? ==>
                |decoder.rest| < old(|decoder.rest|) && scan == Prepend(more, ScanItems(decoder.rest, path, stop))
      decreases |decoder.rest|, 2
    {
      ghost var value := ScanValue(decoder.rest, path, stop);
      StepItems(decoder.rest, path, stop, found);
      error := ScanOne(path, stop);
      more := found + value.found;
      assert duplicates == (before + found) + value.found == before + more;
    }

    method ScanArray(path: seq<string>, stop: bool) returns (error: Option<Error>)
      modifies this, decoder
      ensures Agrees(ScanItems(old(decoder.rest), path, stop), old(duplicates), error)
      decreases |decoder.rest|, 3
    {
      ghost var before, found: seq<Duplicate> := duplicates, [];
      ghost var scan := ScanItems(decoder.rest, path, stop);
      PrependNothing(scan);
      while More(decoder.rest)
        invariant |decoder.rest| <= old(|decoder.rest|) && duplicates == before + found
        invariant scan == Prepend(found, ScanItems(decoder.rest, path, stop))
        decreases |decoder.rest|
      {
        error, found := NextItem(path, stop, scan, before, found);
        if error.Some? {
          return error;
        }
      }
      LastItem(decoder.rest, path, stop, found);
      error := Close(ArrClose, BadArrayClosing);
    }
  }

  lemma PrependNothing(scan: Scan)
    ensures Prepend([], scan) == scan
  {
    assert [] + scan.found == scan.found;
  }

  lemma LastMember(ts: seq<Token>, path: seq<string>, members: set<string>, stop: bool, found: seq<Duplicate>)
    requires !More(ts)
    ensures Prepend(found, ScanMembers(ts, path, members, stop)) ==
            if ts == [] then Failed(EndOfInput, found)
            else if ts[0] == ObjClose then Done(ts[1..], found) else Failed(BadObjectClosing, found)
  {
    assert found + [] == found;
  }

  lemma LastItem(ts: seq<Token>, path: seq<string>, stop: bool, found: seq<Duplicate>)
    requires !More(ts)
    ensures Prepend(found, ScanItems(ts, path, stop)) ==
            if ts == [] then Failed(EndOfInput, found)
            else if ts[0] == ArrClose then Done(ts[1..], found) else Failed(BadArrayClosing, found)
  {
    assert found + [] == found;
  }

  lemma StepItems(ts: seq<Token>, path: seq<string>, stop: bool, found: seq<Duplicate>)
    requires More(ts)
    ensures var v := ScanValue(ts, path, stop);
            Prepend(found, ScanItems(ts, path, stop)) ==
            if v.Failed? then Failed(v.error, found + v.found)
            else Prepend(found + v.found, ScanItems(v.rest, path, stop))
  {
    var v := ScanValue(ts, path, stop);
    if v.Done? {
      PrependTwice(found, v.found, ScanItems(v.rest, path, stop));
    }
  }

  lemma StepMembers(ts: seq<Token>, path: seq<string>, members: set<string>, stop: bool, found: seq<Duplicate>)
    requires More(ts)
    ensures var m := ScanMember(ts, path, members, stop);
            Prepend(found, ScanMembers(ts, path, members, stop)) ==
            if m.Failed? then Failed(m.error, found + m.found)
            else Prepend(found + m.found, ScanMembers(m.rest, path, members + {ts[0].text}, stop))
  {
    var m := ScanMember(ts, path, members, stop);
    if m.Done? {
      PrependTwice(found, m.found, ScanMembers(m.rest, path, members + {ts[0].text}, stop));
    }
  }

  lemma PrependTwice(a: seq<Duplicate>, b: seq<Duplicate>, scan: Scan)
    ensures Prepend(a, Prepend(b, scan)) == Prepend(a + b, scan)
  {
    assert a + (b + scan.found) == (a + b) + scan.found;
  }

  function Reject(ts: seq<Token>): Option<Error> {
    match ScanValue(ts, [], true)
    case Failed(error, _) => Some(error)
    case Done(rest, _) => EnsureSingle(rest)
  }

  datatype Found = Found(duplicates: seq<Duplicate>) | FindFailed(error: Error)

  function Find(ts: seq<Token>): Found {
    match ScanValue(ts, [], false)
    case Failed(error, _) => FindFailed(error)
    case Done(rest, found) => if EnsureSingle(rest).Some? then FindFailed(EnsureSingle(rest).value) else Found(found)
  }

  method FinishSingle(decoder: Decoder) returns (error: Option<Error>)
    modifies decoder
    ensures error == EnsureSingle(old(decoder.rest))
  {
    var token, failure := decoder.Next();
    return if failure.None? then Some(MultipleValues) else if failure == Some(EndOfInput) then None else failure;
  }

  method RejectDuplicateMembers(input: seq<Token>) returns (error: Option<Error>)
    ensures error == Reject(input)
  {
    var decoder := new Decoder(input);
    var scanner := new Scanner(decoder);
    error := scanner.ScanOne([], true);
    if error.None? {
      error := FinishSingle(decoder);
    }
  }

  method FindDuplicateMembers(input: seq<Token>) returns (found: Found)
    ensures found == Find(input)
  {
    var decoder := new Decoder(input);
    var scanner := new Scanner(decoder);
    var error := scanner.ScanOne([], false);
    if error.None? {
      error := FinishSingle(decoder);
    }
    return if error.Some? then FindFailed(error.value) else Found(scanner.duplicates);
  }
}
