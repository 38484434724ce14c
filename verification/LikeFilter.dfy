/** The keyword filter of the admin top-up list: a substring search written as SQL LIKE with an escape
    character (section 8.5 of ISO/IEC 9075:1992). */
module LikeFilter {
  import opened Basics

  /** `s LIKE p ESCAPE '!'`. A pattern that ends in a lone escape matches nothing. */
  predicate Like(s: string, p: string)
    decreases |p|, |s|
  {
    if p == "" then s == ""
    else if p[0] == '%' then Like(s, p[1..]) || (s != "" && Like(s[1..], p))
    else if p[0] == '!' then |p| >= 2 && s != "" && s[0] == p[1] && Like(s[1..], p[2..])
    else s != "" && (p[0] == '_' || p[0] == s[0]) && Like(s[1..], p[1..])
  }

  function EscapeChar(c: char): string {
    if c == '!' || c == '%' || c == '_' then ['!', c] else [c]
  }

  function EscapeLike(value: string): (escaped: string) {
    if value == "" then "" else EscapeChar(value[0]) + EscapeLike(value[1..])
  }

  function Pattern(keyword: string): string {
    "%" + EscapeLike(keyword) + "%"
  }

  /** One escaped character consumes exactly that character. */
  lemma EscapedChar(s: string, c: char, p: string)
    ensures Like(s, EscapeChar(c) + p) <==> s != "" && s[0] == c && Like(s[1..], p)
  {
    var q := EscapeChar(c) + p;
    if EscapeChar(c) == [c] {
      assert q[0] == c && q[1..] == p;
    } else {
      assert q[0] == '!' && q[1] == c && q[2..] == p;
    }
  }

  lemma EscapeSplit(v: string, rest: string)
    requires v != ""
    ensures EscapeLike(v) + rest == EscapeChar(v[0]) + (EscapeLike(v[1..]) + rest)
  {
  }

  lemma PrefixStep(s: string, v: string, tail: string, more: string)
    requires s != "" && v != "" && tail == s[1..] && more == v[1..]
    ensures v <= s <==> v[0] == s[0] && more <= tail
    ensures v <= s ==> s[|v|..] == tail[|more|..]
  {
    assert v == [v[0]] + more && s == [s[0]] + tail;
  }

  /** An escaped text matches itself and nothing else, whatever pattern follows. */
  lemma {:induction false} EscapedIsLiteral(s: string, v: string, rest: string)
    ensures Like(s, EscapeLike(v) + rest) <==> v <= s && Like(s[|v|..], rest)
    decreases |v|
  {
    if v == "" {
      assert EscapeLike(v) + rest == rest && s[0..] == s;
    } else {
      var more := v[1..];
      EscapeSplit(v, rest);
      EscapedChar(s, v[0], EscapeLike(more) + rest);
      if s != "" {
        var tail := s[1..];
        EscapedIsLiteral(tail, more, rest);
        PrefixStep(s, v, tail, more);
      }
    }
  }

  lemma {:induction false} PercentMatchesAll(s: string)
    ensures Like(s, "%")
    decreases |s|
  {
    assert "%"[1..] == "";
    if s != "" { PercentMatchesAll(s[1..]); }
  }

  predicate SubstringAt(s: string, v: string, i: int) {
    0 <= i && i + |v| <= |s| && s[i..i + |v|] == v
  }

  predicate Contains(s: string, v: string) {
    exists i :: 0 <= i <= |s| && SubstringAt(s, v, i)
  }

  lemma ContainsStep(s: string, v: string, tail: string)
    requires s != "" && tail == s[1..]
    ensures Contains(s, v) <==> v <= s || Contains(tail, v)
  {
    if v <= s {
      assert SubstringAt(s, v, 0);
    }
    if Contains(tail, v) {
      var i :| 0 <= i <= |tail| && SubstringAt(tail, v, i);
      assert tail[i..i + |v|] == s[i + 1..i + 1 + |v|];
      assert SubstringAt(s, v, i + 1);
    }
    if Contains(s, v) {
      var i :| 0 <= i <= |s| && SubstringAt(s, v, i);
      if i > 0 {
        assert s == [s[0]] + tail;
        assert tail[i - 1..i - 1 + |v|] == s[i..i + |v|];
        assert SubstringAt(tail, v, i - 1);
      } else {
        assert s[..|v|] == v;
      }
    }
  }

  lemma PatternStep(s: string, v: string)
    ensures Like(s, Pattern(v)) <==> Like(s, EscapeLike(v) + "%") || (s != "" && Like(s[1..], Pattern(v)))
  {
    assert Pattern(v)[1..] == EscapeLike(v) + "%";
  }

  lemma LiteralThenAnything(s: string, v: string)
    ensures Like(s, EscapeLike(v) + "%") <==> v <= s
  {
    EscapedIsLiteral(s, v, "%");
    if v <= s {
      PercentMatchesAll(s[|v|..]);
    }
  }

  /** The pattern built from a text matches exactly the strings that contain the text. */
  lemma {:induction false} PatternMeansContains(s: string, v: string)
    ensures Like(s, Pattern(v)) <==> Contains(s, v)
    decreases |s|
  {
    PatternStep(s, v);
    LiteralThenAnything(s, v);
    if s == "" {
      assert Contains(s, v) <==> SubstringAt(s, v, 0);
    } else {
      var tail := s[1..];
      ContainsStep(s, v, tail);
      PatternMeansContains(tail, v);
    }
  }

  datatype TopUp = TopUp(tradeNo: string, username: Option<string>)

  /** The keyword condition of `adminTopUpQuery`; the user may be missing from the join. */
  predicate KeywordMatches(keyword: string, row: TopUp) {
    keyword == "" || Like(row.tradeNo, Pattern(keyword)) ||
    (row.username.Some? && Like(row.username.value, Pattern(keyword)))
  }

  /** A keyword finds exactly the rows whose trade number or user name contains it, taken literally. */
  lemma KeywordIsLiteral(keyword: string, row: TopUp)
    ensures KeywordMatches(keyword, row) <==>
            keyword == "" || Contains(row.tradeNo, keyword) ||
            (row.username.Some? && Contains(row.username.value, keyword))
  {
    PatternMeansContains(row.tradeNo, keyword);
    if row.username.Some? { PatternMeansContains(row.username.value, keyword); }
  }

  // ----- Patterns and escapes, written out -----

  lemma {:induction false} PercentSplits(s: string, p: string)
    ensures Like(s, "%" + p) <==> exists i :: 0 <= i <= |s| && Like(s[i..], p)
    decreases |s|
  {
    var q := "%" + p;
    assert q[0] == '%' && q[1..] == p && s[0..] == s;
    if s != "" {
      var tail := s[1..];
      PercentSplits(tail, p);
      assert forall i :: 0 <= i <= |tail| ==> tail[i..] == s[i + 1..];
      if i :| 0 <= i <= |tail| && Like(tail[i..], p) {
        assert Like(s[i + 1..], p);
      }
      if i :| 0 <= i <= |s| && Like(s[i..], p) {
        assert i > 0 ==> Like(tail[i - 1..], p);
      }
    }
  }

  /** A percent sign stands for any text, an underscore for any character, a character after the escape for itself,
      and so does any other character; the empty pattern matches the empty text. */
  lemma LikeExactly(s: string, c: char, p: string)
    ensures Like(s, "") <==> s == ""
    ensures Like(s, "%" + p) <==> exists i :: 0 <= i <= |s| && Like(s[i..], p)
    ensures Like(s, "_" + p) <==> s != "" && Like(s[1..], p)
    ensures Like(s, ['!', c] + p) <==> s != "" && s[0] == c && Like(s[1..], p)
    ensures c !in "%_!" ==> (Like(s, [c] + p) <==> s != "" && s[0] == c && Like(s[1..], p))
    ensures !Like(s, "!")
  {
    PercentSplits(s, p);
    assert ("_" + p)[1..] == p && ("_" + p)[0] == '_';
    assert (['!', c] + p)[2..] == p && (['!', c] + p)[0] == '!' && (['!', c] + p)[1] == c;
    assert ([c] + p)[1..] == p && ([c] + p)[0] == c;
    assert "%_!" == ['%', '_', '!'];
  }

  /** Escaping goes character by character and puts the escape before the three special ones. */
  lemma {:induction false} EscapeExactly(a: string, b: string, c: char)
    ensures EscapeLike("") == "" && EscapeLike(a + b) == EscapeLike(a) + EscapeLike(b)
    ensures EscapeLike([c]) == if c in "%_!" then ['!', c] else [c]
    decreases |a|
  {
    assert "%_!" == ['%', '_', '!'] && [c][1..] == "";
    if a == "" {
      assert a + b == b;
    } else {
      EscapeExactly(a[1..], b, c);
      assert (a + b)[1..] == a[1..] + b;
    }
  }
}
