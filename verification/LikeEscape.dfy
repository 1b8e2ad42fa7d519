/** Escaping user input for ILIKE .. ESCAPE '\' (the four copies of _escape_ilike).

    `Like` is the pattern matcher of PostgreSQL (section 9.7.1 of its documentation); ILIKE is LIKE on
    both sides folded to one case, character by character. */
module LikeEscape {

  const ESC: char := '\\'

  // str.replace with a one-character needle
  function Replace(s: string, needle: char, sub: string): string {
    if s == "" then "" else (if s[0] == needle then sub else [s[0]]) + Replace(s[1..], needle, sub)
  }

  function EscapeIlike(s: string): string {
    Replace(Replace(Replace(s, '\\', "\\\\"), '%', "\\%"), '_', "\\_")
  }

  predicate Special(c: char) {
    c == '\\' || c == '%' || c == '_'
  }

  // The single pass the three chained replacements amount to.
  function EscapeOnce(s: string): string {
    if s == "" then "" else (if Special(s[0]) then [ESC, s[0]] else [s[0]]) + EscapeOnce(s[1..])
  }

  lemma ReplaceFirst(c: char, rest: string, needle: char, sub: string)
    ensures Replace([c] + rest, needle, sub) == (if c == needle then sub else [c]) + Replace(rest, needle, sub)
  {
    assert ([c] + rest)[1..] == rest;
  }

  lemma ReplaceNone(needle: char, sub: string)
    ensures Replace("", needle, sub) == ""
  {
  }

  lemma {:induction false} ReplaceAppend(a: string, b: string, needle: char, sub: string)
    ensures Replace(a + b, needle, sub) == Replace(a, needle, sub) + Replace(b, needle, sub)
  {
    hide Replace;
    if a == "" {
      ReplaceNone(needle, sub);
      assert a + b == b;
    } else {
      var rest := a[1..];
      ReplaceAppend(rest, b, needle, sub);
      ReplaceFirst(a[0], rest, needle, sub);
      ReplaceFirst(a[0], rest + b, needle, sub);
      assert a == [a[0]] + rest && a + b == [a[0]] + (rest + b);
    }
  }

  lemma ReplaceShort(c: char, d: char, needle: char, sub: string)
    ensures Replace([c], needle, sub) == if c == needle then sub else [c]
    ensures Replace([c, d], needle, sub) == (if c == needle then sub else [c]) + (if d == needle then sub else [d])
  {
    assert [c][1..] == "" && [c, d][1..] == [d] && [d][1..] == "";
    assert Replace([d], needle, sub) == (if d == needle then sub else [d]) + "";
  }

  /** Chaining the three replacements in this order escapes every special character exactly once:
      backslashes added later are never escaped again. */
  lemma {:induction false} ChainIsSinglePass(s: string)
    ensures EscapeIlike(s) == EscapeOnce(s)
  {
    if s != "" {
      var c, rest := s[0], s[1..];
      ChainIsSinglePass(rest);
      var one := if c == '\\' then "\\\\" else [c];
      var two := if c == '%' then "\\%" else one;
      var three := if c == '_' then "\\_" else two;
      var r1 := Replace(rest, '\\', "\\\\");
      var r2 := Replace(r1, '%', "\\%");
      ReplaceAppend(one, r1, '%', "\\%");
      ReplaceAppend(two, r2, '_', "\\_");
      ReplaceShort(c, c, '%', "\\%");
      ReplaceShort(c, c, '_', "\\_");
      ReplaceShort('\\', '\\', '%', "\\%");
      ReplaceShort('\\', '\\', '_', "\\_");
      ReplaceShort('\\', '%', '_', "\\_");
      assert Replace(one, '%', "\\%") == two;
      assert Replace(two, '_', "\\_") == three;
    }
  }

  // ---- The matcher ----

  // A pattern that ends in a lone escape character is an error; here it matches nothing.
  predicate Like(p: string, t: string)
    decreases |p| + |t|
  {
    if p == "" then t == ""
    else if p[0] == '%' then Like(p[1..], t) || (t != "" && Like(p, t[1..]))
    else if t == "" then false
    else if p[0] == '_' then Like(p[1..], t[1..])
    else if p[0] == ESC then |p| >= 2 && p[1] == t[0] && Like(p[2..], t[1..])
    else p[0] == t[0] && Like(p[1..], t[1..])
  }

  /** What the pattern characters mean: an underscore takes any one character, a backslash makes the next one
      literal, and any other character but % stands for itself. */
  lemma PatternCharacters(c: char, p: string, t: string)
    ensures Like("_" + p, t) <==> t != "" && Like(p, t[1..])
    ensures Like(['\\', c] + p, t) <==> t != "" && t[0] == c && Like(p, t[1..])
    ensures c !in {'\\', '%', '_'} ==> (Like([c] + p, t) <==> t != "" && t[0] == c && Like(p, t[1..]))
    ensures Like("", t) <==> t == ""
  {
    assert ("_" + p)[1..] == p && (['\\', c] + p)[2..] == p && ([c] + p)[1..] == p;
  }

  // No lone escape character at the end.
  predicate WellFormed(p: string) {
    p == "" || if p[0] == ESC then |p| >= 2 && WellFormed(p[2..]) else WellFormed(p[1..])
  }

  function Fold(fold: char -> char, s: string): (r: string)
    ensures |r| == |s| && forall i :: 0 <= i < |s| ==> r[i] == fold(s[i])
  {
    if s == "" then "" else [fold(s[0])] + Fold(fold, s[1..])
  }

  // Case folding that leaves the pattern characters alone, as lower() does.
  ghost predicate KeepsSpecials(fold: char -> char) {
    forall c: char :: (Special(c) || Special(fold(c))) ==> fold(c) == c
  }

  predicate ILike(fold: char -> char, p: string, t: string) {
    Like(Fold(fold, p), Fold(fold, t))
  }

  ghost predicate Occurs(s: string, t: string) {
    exists i :: 0 <= i <= |t| && s <= t[i..]
  }

  lemma {:induction false} PercentMatchesAll(t: string)
    ensures Like("%", t)
  {
    assert "%"[1..] == "";
    if t != "" {
      PercentMatchesAll(t[1..]);
    }
  }

  // A leading % skips any number of characters.
  lemma {:induction false} PercentSkips(p: string, t: string)
    ensures Like("%" + p, t) <==> exists i :: 0 <= i <= |t| && Like(p, t[i..])
  {
    assert ("%" + p)[1..] == p;
    assert t[0..] == t;
    if t != "" {
      PercentSkips(p, t[1..]);
      forall i | 0 <= i < |t|
        ensures t[1..][i..] == t[i + 1..]
      {
      }
      if Like("%" + p, t) {
        if !Like(p, t) {
          var i :| 0 <= i <= |t[1..]| && Like(p, t[1..][i..]);
          assert Like(p, t[i + 1..]);
        } else {
          assert Like(p, t[0..]);
        }
      }
      if i :| 0 <= i <= |t| && Like(p, t[i..]) {
        if i > 0 {
          assert Like(p, t[1..][i - 1..]);
        }
      }
    } else {
      assert forall i :: 0 <= i <= |t| ==> t[i..] == t;
      assert Like(p, t) ==> 0 <= 0 <= |t| && Like(p, t[0..]);
    }
  }

  // An escaped string matches itself and nothing else, before whatever the trailing % takes.
  lemma {:induction false} EscapedIsLiteral(u: string, v: string)
    ensures Like(EscapeOnce(u) + "%", v) <==> u <= v
  {
    if u == "" {
      assert EscapeOnce(u) + "%" == "%";
      PercentMatchesAll(v);
    } else {
      var rest := EscapeOnce(u[1..]) + "%";
      if Special(u[0]) {
        assert EscapeOnce(u) + "%" == [ESC, u[0]] + rest;
        assert ([ESC, u[0]] + rest)[2..] == rest;
      } else {
        assert EscapeOnce(u) + "%" == [u[0]] + rest;
        assert ([u[0]] + rest)[1..] == rest;
      }
      if v != "" {
        EscapedIsLiteral(u[1..], v[1..]);
        assert u == [u[0]] + u[1..] && v == [v[0]] + v[1..];
        assert u <= v <==> u[0] == v[0] && u[1..] <= v[1..];
      }
    }
  }

  lemma {:induction false} EscapedIsWellFormed(s: string)
    ensures WellFormed(EscapeOnce(s) + "%")
  {
    if s == "" {
      assert EscapeOnce(s) + "%" == "%" && "%"[1..] == "";
    } else {
      EscapedIsWellFormed(s[1..]);
      var rest := EscapeOnce(s[1..]) + "%";
      if Special(s[0]) {
        assert EscapeOnce(s) + "%" == [ESC, s[0]] + rest;
        assert ([ESC, s[0]] + rest)[2..] == rest;
      } else {
        assert EscapeOnce(s) + "%" == [s[0]] + rest;
        assert ([s[0]] + rest)[1..] == rest;
      }
    }
  }

  lemma {:induction false} FoldEscape(fold: char -> char, s: string)
    requires KeepsSpecials(fold)
    ensures Fold(fold, EscapeOnce(s)) == EscapeOnce(Fold(fold, s))
  {
    if s != "" {
      FoldEscape(fold, s[1..]);
      assert Special(s[0]) <==> Special(fold(s[0]));
      assert Fold(fold, s)[1..] == Fold(fold, s[1..]);
    }
  }

  /** Main result, for every search text s and every stored text t: the escaped pattern never is an
      error, and it matches t exactly when s occurs in t up to case. */
  lemma EscapedPatternFindsSubstring(fold: char -> char, s: string, t: string)
    requires KeepsSpecials(fold)
    ensures ILike(fold, "%" + EscapeIlike(s) + "%", t) <==> Occurs(Fold(fold, s), Fold(fold, t))
    ensures WellFormed("%" + EscapeIlike(s) + "%")
  {
    ChainIsSinglePass(s);
    EscapedIsWellFormed(s);
    var e := EscapeOnce(s);
    var u, v := Fold(fold, s), Fold(fold, t);
    assert "%" + e + "%" == "%" + (e + "%");
    assert ("%" + (e + "%"))[1..] == e + "%";
    FoldEscape(fold, s);
    assert fold('%') == '%';
    assert Fold(fold, "%" + e + "%") == "%" + (EscapeOnce(u) + "%");
    PercentSkips(EscapeOnce(u) + "%", v);
    forall i | 0 <= i <= |v|
      ensures Like(EscapeOnce(u) + "%", v[i..]) <==> u <= v[i..]
    {
      EscapedIsLiteral(u, v[i..]);
    }
  }

  // ---- Why the escape is needed ----

  predicate Plain(s: string) {
    forall c <- s :: !Special(c)
  }

  // The shortest text that the unescaped pattern s + "%" accepts.
  function Shortest(s: string): string {
    if s == "" then ""
    else if s[0] == '%' then Shortest(s[1..])
    else if s[0] == '_' then "a" + Shortest(s[1..])
    else if s[0] == ESC then (if |s| == 1 then "%" else [s[1]] + Shortest(s[2..]))
    else [s[0]] + Shortest(s[1..])
  }

  lemma {:induction false} ShortestMatches(s: string)
    ensures Like(s + "%", Shortest(s))
    ensures |Shortest(s)| <= |s|
    ensures !Plain(s) ==> Shortest(s) != s
  {
    if s == "" {
      PercentMatchesAll("");
      assert s + "%" == "%";
    } else {
      var p, t := s + "%", Shortest(s);
      assert p[1..] == s[1..] + "%";
      assert s == [s[0]] + s[1..];
      if s[0] == ESC && |s| == 1 {
        assert p[2..] == "" && t[1..] == "";
      } else if s[0] == ESC {
        ShortestMatches(s[2..]);
        assert p[2..] == s[2..] + "%" && t[1..] == Shortest(s[2..]);
      } else {
        ShortestMatches(s[1..]);
        if s[0] != '%' {
          assert t[1..] == Shortest(s[1..]);
        }
      }
    }
  }

  /** Without the escape the pattern is right for all texts if and only if the search text has no
      special character. */
  lemma UnescapedRightIffPlain(s: string)
    ensures (forall t: string :: Like("%" + s + "%", t) <==> Occurs(s, t)) <==> Plain(s)
  {
    assert "%" + s + "%" == "%" + (s + "%");
    if Plain(s) {
      PlainNeedsNoEscape(s);
      forall t: string
        ensures Like("%" + s + "%", t) <==> Occurs(s, t)
      {
        PercentSkips(s + "%", t);
        forall i | 0 <= i <= |t|
          ensures Like(s + "%", t[i..]) <==> s <= t[i..]
        {
          EscapedIsLiteral(s, t[i..]);
        }
      }
    } else {
      var t := Shortest(s);
      ShortestMatches(s);
      PercentSkips(s + "%", t);
      assert t[0..] == t;
      assert Like("%" + s + "%", t);
      assert !Occurs(s, t);
    }
  }

  lemma {:induction false} PlainNeedsNoEscape(s: string)
    requires Plain(s)
    ensures EscapeOnce(s) == s
  {
    if s != "" {
      PlainNeedsNoEscape(s[1..]);
    }
  }
}
