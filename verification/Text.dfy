/** White-space trimming and small helpers on lists of strings, shared by several modules. */
module Text {

  /** The characters Go's `unicode.IsSpace` accepts. */
  predicate IsSpace(c: char) {
    || c in {'\t', '\n', '\U{0B}', '\U{0C}', '\r', ' ', '\U{85}', '\U{A0}', '\U{1680}'}
    || '\U{2000}' <= c <= '\U{200A}'
    || c in {'\U{2028}', '\U{2029}', '\U{202F}', '\U{205F}', '\U{3000}'}
  }

  function TrimLeft(s: string): (r: string) {
    if s != "" && IsSpace(s[0]) then TrimLeft(s[1..]) else s
  }

  function TrimRight(s: string): (r: string) {
    if s != "" && IsSpace(s[|s| - 1]) then TrimRight(s[..|s| - 1]) else s
  }

  function Trim(s: string): (r: string) {
    TrimRight(TrimLeft(s))
  }

  predicate Trimmed(s: string) {
    s != "" ==> !IsSpace(s[0]) && !IsSpace(s[|s| - 1])
  }

  lemma {:induction false} TrimLeftStart(s: string)
    ensures TrimLeft(s) == "" || !IsSpace(TrimLeft(s)[0])
  {
    if s != "" && IsSpace(s[0]) { TrimLeftStart(s[1..]); }
  }

  lemma {:induction false} TrimRightEnds(s: string)
    ensures TrimRight(s) == "" || (!IsSpace(TrimRight(s)[|TrimRight(s)| - 1]) && TrimRight(s)[0] == s[0])
  {
    if s != "" && IsSpace(s[|s| - 1]) { TrimRightEnds(s[..|s| - 1]); }
  }

  /** Trimming leaves nothing to trim, and trims nothing that is already clean. */
  lemma TrimIsTrimmed(s: string)
    ensures Trimmed(Trim(s))
    ensures Trimmed(s) ==> Trim(s) == s
  {
    TrimLeftStart(s);
    TrimRightEnds(TrimLeft(s));
  }

  /** The non-blank entries, trimmed. */
  function Cleaned(input: seq<string>): (kept: seq<string>) {
    if input == [] then []
    else Cleaned(input[..|input| - 1]) + if Trim(input[|input| - 1]) == "" then [] else [Trim(input[|input| - 1])]
  }

  predicate HasLine(input: seq<string>, key: string) {
    key != "" && exists i :: 0 <= i < |input| && Trim(input[i]) == key
  }

  lemma HasLinePush(input: seq<string>, line: string, key: string)
    ensures HasLine(input + [line], key) <==> HasLine(input, key) || (key != "" && Trim(line) == key)
  {
    var more := input + [line];
    if HasLine(input, key) {
      var i :| 0 <= i < |input| && Trim(input[i]) == key;
      assert Trim(more[i]) == key;
    }
    if key != "" && Trim(line) == key {
      assert Trim(more[|input|]) == key;
    }
  }

  lemma {:induction false} CleanedHas(input: seq<string>, key: string)
    ensures key in Cleaned(input) <==> HasLine(input, key)
  {
    if input != [] {
      var init := input[..|input| - 1];
      CleanedHas(init, key);
      assert input == init + [input[|input| - 1]];
      HasLinePush(init, input[|input| - 1], key);
    }
  }

  /** The space characters of ASCII: tab, line feed, vertical tab, form feed, carriage return and blank. */
  lemma AsciiSpaces(c: char)
    requires c as int < 128
    ensures IsSpace(c) <==> c as int in {9, 10, 11, 12, 13, 32}
  {
  }

  lemma {:induction false} TrimLeftDrops(s: string) returns (i: nat)
    ensures i <= |s| && TrimLeft(s) == s[i..] && forall k :: 0 <= k < i ==> IsSpace(s[k])
  {
    if s != "" && IsSpace(s[0]) {
      var rest := s[1..];
      i := TrimLeftDrops(rest);
      assert rest[i..] == s[i + 1..] && forall k :: 0 <= k < i ==> rest[k] == s[k + 1];
      i := i + 1;
    } else {
      i := 0;
    }
  }

  lemma {:induction false} TrimRightDrops(s: string) returns (j: nat)
    ensures j <= |s| && TrimRight(s) == s[..j] && forall k :: j <= k < |s| ==> IsSpace(s[k])
  {
    if s != "" && IsSpace(s[|s| - 1]) {
      var rest := s[..|s| - 1];
      j := TrimRightDrops(rest);
      assert rest[..j] == s[..j] && forall k :: 0 <= k < |rest| ==> rest[k] == s[k];
    } else {
      j := |s|;
    }
  }

  /** Trimming drops space characters at both ends and nothing else. */
  lemma TrimDrops(s: string) returns (i: nat, j: nat)
    ensures i <= j <= |s| && Trim(s) == s[i..j]
    ensures forall k :: 0 <= k < i || j <= k < |s| ==> IsSpace(s[k])
  {
    i := TrimLeftDrops(s);
    var rest := s[i..];
    j := TrimRightDrops(rest);
    assert rest[..j] == s[i..i + j] && forall k :: 0 <= k < |rest| ==> rest[k] == s[i + k];
    j := i + j;
    forall k | j <= k < |s|
      ensures IsSpace(s[k])
    {
      assert s[k] == rest[k - i];
    }
  }

  /** Cleaning goes line by line, in order: each line that is not blank, trimmed. */
  lemma CleanedByLine(input: seq<string>, line: string)
    ensures Cleaned([]) == []
    ensures Cleaned(input + [line]) == Cleaned(input) + if Trim(line) == "" then [] else [Trim(line)]
  {
    assert (input + [line])[..|input|] == input;
  }

  /** The space characters beyond ASCII. */
  lemma OtherSpaces(c: char)
    requires 128 <= c as int
    ensures IsSpace(c) <==>
            c as int in {133, 160, 5760, 8232, 8233, 8239, 8287, 12288} || 8192 <= c as int <= 8202
  {
  }

  /** A text is blank exactly if all of it is space. */
  lemma BlankExactly(s: string)
    ensures Trim(s) != "" <==> exists k :: 0 <= k < |s| && !IsSpace(s[k])
  {
    var i, j := TrimDrops(s);
    TrimIsTrimmed(s);
    if Trim(s) != "" {
      assert Trim(s)[0] == s[i];
    }
  }
}
