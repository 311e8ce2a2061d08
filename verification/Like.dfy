/** Keyword search: `LIKE ... ESCAPE '\'` over a pattern built from the keyword. */
module Like {
  /** Section 8.5 of ISO/IEC 9075:1992, with backslash as the escape character. */
  predicate Matches(p: string, s: string)
    decreases |p|, |s|
  {
    if p == "" then s == ""
    else if p[0] == '%' then Matches(p[1..], s) || (s != "" && Matches(p, s[1..]))
    else if p[0] == '_' then s != "" && Matches(p[1..], s[1..])
    else if p[0] == '\\' then |p| >= 2 && s != "" && s[0] == p[1] && Matches(p[2..], s[1..])
    else s != "" && s[0] == p[0] && Matches(p[1..], s[1..])
  }

  /** What the three special characters mean, and any other one. */
  lemma PatternsMean(p: string, c: char, s: string)
    ensures Matches("_" + p, s) <==> s != "" && Matches(p, s[1..])
    ensures Matches("%" + p, s) <==> Matches(p, s) || (s != "" && Matches("%" + p, s[1..]))
    ensures Matches(['\\', c] + p, s) <==> s != "" && s[0] == c && Matches(p, s[1..])
    ensures c != '%' && c != '_' && c != '\\' ==> (Matches([c] + p, s) <==> s != "" && s[0] == c && Matches(p, s[1..]))
    ensures Matches("", s) <==> s == ""
    ensures !Matches("\\", s)
  {
    assert ("_" + p)[1..] == p && ("%" + p)[1..] == p && ([c] + p)[1..] == p && (['\\', c] + p)[2..] == p;
  }

  predicate IsMeta(c: char) {
    c == '\\' || c == '%' || c == '_'
  }

  /** Every escape character is followed by a character that may be escaped. */
  predicate WellFormed(p: string) {
    if p == "" then true
    else if p[0] == '\\' then |p| >= 2 && IsMeta(p[1]) && WellFormed(p[2..])
    else WellFormed(p[1..])
  }

  /** `str.replace` of one character. */
  function Replace(s: string, c: char, with: string): string {
    if s == "" then "" else (if s[0] == c then with else [s[0]]) + Replace(s[1..], c, with)
  }

  /** Three replacements, one after the other; the backslash goes first. */
  function LikePattern(value: string): string {
    "%" + Replace(Replace(Replace(value, '\\', "\\\\"), '%', "\\%"), '_', "\\_") + "%"
  }

  /** The same escape in one pass. */
  function Escaped(value: string): string {
    if value == "" then "" else (if IsMeta(value[0]) then ['\\', value[0]] else [value[0]]) + Escaped(value[1..])
  }

  predicate OccursAt(s: string, value: string, i: nat) {
    i + |value| <= |s| && s[i..i + |value|] == value
  }

  predicate Contains(s: string, value: string) {
    exists i | 0 <= i <= |s| :: OccursAt(s, value, i)
  }

  lemma {:induction false} ReplaceDistributes(a: string, b: string, c: char, with: string)
    ensures Replace(a + b, c, with) == Replace(a, c, with) + Replace(b, c, with)
  {
    if a == "" {
      assert a + b == b;
    } else {
      assert (a + b)[1..] == a[1..] + b;
      ReplaceDistributes(a[1..], b, c, with);
    }
  }

  /** The replacements do not disturb one another. */
  lemma {:induction false} ReplacesEscapeOnce(value: string)
    ensures Replace(Replace(Replace(value, '\\', "\\\\"), '%', "\\%"), '_', "\\_") == Escaped(value)
  {
    if value == "" {
    } else {
      var c, rest := value[0], value[1..];
      ReplacesEscapeOnce(rest);
      var head := if c == '\\' then "\\\\" else [c];
      var tail := Replace(rest, '\\', "\\\\");
      assert Replace(value, '\\', "\\\\") == head + tail;
      ReplaceDistributes(head, tail, '%', "\\%");
      var head' := if c == '%' then "\\%" else head;
      assert head[1..] == if c == '\\' then "\\" else "";
      assert Replace(head, '%', "\\%") == head';
      ReplaceDistributes(head', Replace(tail, '%', "\\%"), '_', "\\_");
      assert head'[1..] == if c == '%' then "%" else if c == '\\' then "\\" else "";
      assert Replace(head', '_', "\\_") == if c == '_' then "\\_" else head';
    }
  }

  /** An escaped value matches itself and nothing else. */
  lemma {:induction false} EscapedMatchesLiterally(value: string, rest: string, s: string)
    ensures Matches(Escaped(value) + rest, s) <==> value <= s && Matches(rest, s[|value|..])
  {
    var p := Escaped(value) + rest;
    if value == "" {
      assert p == rest && s[0..] == s;
    } else {
      var tail := Escaped(value[1..]) + rest;
      if IsMeta(value[0]) {
        assert p == ['\\', value[0]] + tail && p[2..] == tail;
      } else {
        assert p == [value[0]] + tail && p[1..] == tail;
      }
      if s != "" && s[0] == value[0] {
        EscapedMatchesLiterally(value[1..], rest, s[1..]);
        assert |s| >= |value| ==> s[1..][|value[1..]|..] == s[|value|..];
        assert value == [value[0]] + value[1..] && s == [s[0]] + s[1..];
      }
    }
  }

  lemma {:induction false} PercentMatchesAll(s: string)
    ensures Matches("%", s)
  {
    if s == "" {
    } else {
      PercentMatchesAll(s[1..]);
    }
  }

  /** A leading percent sign skips any prefix. */
  lemma {:induction false} PercentSkips(q: string, s: string)
    ensures Matches("%" + q, s) <==> exists i | 0 <= i <= |s| :: Matches(q, s[i..])
  {
    assert ("%" + q)[1..] == q && s[0..] == s;
    if s == "" {
    } else {
      PercentSkips(q, s[1..]);
      if i :| 0 <= i <= |s[1..]| && Matches(q, s[1..][i..]) {
        assert s[1..][i..] == s[i + 1..];
      }
      if i :| 0 < i <= |s| && Matches(q, s[i..]) {
        assert s[1..][i - 1..] == s[i..];
      }
    }
  }

  /** A text matches the pattern of a keyword exactly when the keyword occurs in it. */
  lemma PatternFindsSubstrings(value: string, s: string)
    ensures Matches(LikePattern(value), s) <==> Contains(s, value)
  {
    ReplacesEscapeOnce(value);
    var q := Escaped(value) + "%";
    assert LikePattern(value) == "%" + q;
    PercentSkips(q, s);
    forall i | 0 <= i <= |s|
      ensures Matches(q, s[i..]) <==> OccursAt(s, value, i)
    {
      EscapedMatchesLiterally(value, "%", s[i..]);
      if i + |value| <= |s| {
        PercentMatchesAll(s[i..][|value|..]);
        assert s[i..][..|value|] == s[i..i + |value|];
      }
    }
  }

  lemma {:induction false} EscapedIsWellFormed(value: string, rest: string)
    requires WellFormed(rest)
    ensures WellFormed(Escaped(value) + rest)
  {
    var p := Escaped(value) + rest;
    if value == "" {
      assert p == rest;
    } else {
      EscapedIsWellFormed(value[1..], rest);
      var tail := Escaped(value[1..]) + rest;
      if IsMeta(value[0]) {
        assert p == ['\\', value[0]] + tail && p[2..] == tail;
      } else {
        assert p == [value[0]] + tail && p[1..] == tail;
      }
    }
  }

  /** The pattern never ends in, or misuses, an escape character. */
  lemma PatternIsWellFormed(value: string)
    ensures WellFormed(LikePattern(value))
  {
    ReplacesEscapeOnce(value);
    EscapedIsWellFormed(value, "%");
    assert LikePattern(value)[1..] == Escaped(value) + "%";
  }

  // ---------------------------------------------------------------- ignoring case

  /** Folding case may turn one character into several. */
  function Folded(fold: char -> string, s: string): string {
    if s == "" then "" else fold(s[0]) + Folded(fold, s[1..])
  }

  /** ILIKE compares the two texts after folding case. */
  predicate IMatches(fold: char -> string, p: string, s: string) {
    Matches(Folded(fold, p), Folded(fold, s))
  }

  predicate Plain(s: string) {
    forall c | c in s :: !IsMeta(c)
  }

  /** Case folding leaves the pattern characters alone and makes no new ones. */
  ghost predicate KeepsMeta(fold: char -> string) {
    forall c {:trigger fold(c)} :: if IsMeta(c) then fold(c) == [c] else Plain(fold(c))
  }

  lemma {:induction false} FoldedDistributes(fold: char -> string, a: string, b: string)
    ensures Folded(fold, a + b) == Folded(fold, a) + Folded(fold, b)
  {
    if a == "" {
      assert a + b == b;
    } else {
      assert (a + b)[1..] == a[1..] + b;
      FoldedDistributes(fold, a[1..], b);
    }
  }

  lemma {:induction false} EscapedDistributes(a: string, b: string)
    ensures Escaped(a + b) == Escaped(a) + Escaped(b)
  {
    if a == "" {
      assert a + b == b;
    } else {
      assert (a + b)[1..] == a[1..] + b;
      EscapedDistributes(a[1..], b);
    }
  }

  lemma {:induction false} PlainIsEscaped(s: string)
    requires Plain(s)
    ensures Escaped(s) == s
  {
    if s == "" {
    } else {
      PlainIsEscaped(s[1..]);
      assert s[0] in s;
    }
  }

  lemma FoldedHead(fold: char -> string, c: char)
    requires KeepsMeta(fold)
    ensures Folded(fold, if IsMeta(c) then ['\\', c] else [c]) == Escaped(fold(c))
  {
    assert Folded(fold, [c]) == fold(c);
    if IsMeta(c) {
      assert IsMeta('\\') && fold('\\') == ['\\'] && ['\\', c][1..] == [c];
    } else {
      PlainIsEscaped(fold(c));
    }
  }

  lemma {:induction false} FoldCommutesWithEscape(fold: char -> string, value: string)
    requires KeepsMeta(fold)
    ensures Folded(fold, Escaped(value)) == Escaped(Folded(fold, value))
  {
    if value == "" {
    } else {
      var c, rest := value[0], value[1..];
      var head := if IsMeta(c) then ['\\', c] else [c];
      FoldCommutesWithEscape(fold, rest);
      FoldedDistributes(fold, head, Escaped(rest));
      EscapedDistributes(fold(c), Folded(fold, rest));
      FoldedHead(fold, c);
    }
  }

  /** Keyword search ignores case, and only case. */
  lemma KeywordFindsSubstrings(fold: char -> string, value: string, s: string)
    requires KeepsMeta(fold)
    ensures IMatches(fold, LikePattern(value), s) <==> Contains(Folded(fold, s), Folded(fold, value))
  {
    ReplacesEscapeOnce(value);
    ReplacesEscapeOnce(Folded(fold, value));
    FoldCommutesWithEscape(fold, value);
    assert IsMeta('%') && fold('%') == "%" && Folded(fold, "%") == "%";
    FoldedDistributes(fold, "%" + Escaped(value), "%");
    FoldedDistributes(fold, "%", Escaped(value));
    PatternFindsSubstrings(Folded(fold, value), Folded(fold, s));
  }
}
