/**
  PostgreSQL's `ILIKE` as used by `column.ilike(f"%{value}%")`: `%` matches
  any run of characters, `_` any one character, a backslash makes the next
  character literal (the default escape), and letters compare after case
  folding. The filter value is placed between two `%` without escaping.
 */
module Like {
  import opened Text

  datatype Token = AnyRun | AnyChar | Lit(c: char)

  predicate IsSpecial(c: char) {
    c == '%' || c == '_' || c == '\\'
  }

  /** A string in which no character has a meaning in a LIKE pattern. */
  predicate IsPlain(s: string) {
    forall i :: 0 <= i < |s| ==> !IsSpecial(s[i])
  }

  /** Tokenizes a LIKE pattern. A trailing lone backslash, which PostgreSQL rejects,
      never occurs in the patterns this layer builds (they end in `%`). */
  function Tokens(p: string): seq<Token>
    decreases |p|
  {
    if p == [] then []
    else if p[0] == '%' then [AnyRun] + Tokens(p[1..])
    else if p[0] == '_' then [AnyChar] + Tokens(p[1..])
    else if p[0] == '\\' && |p| >= 2 then [Lit(p[1])] + Tokens(p[2..])
    else [Lit(p[0])] + Tokens(p[1..])
  }

  function Lits(s: string): seq<Token> {
    if s == [] then [] else [Lit(s[0])] + Lits(s[1..])
  }

  predicate Matches(t: string, ts: seq<Token>)
    decreases |t| + |ts|
  {
    if ts == [] then t == []
    else match ts[0]
      case AnyRun => Matches(t, ts[1..]) || (t != [] && Matches(t[1..], ts))
      case AnyChar => t != [] && Matches(t[1..], ts[1..])
      case Lit(c) => t != [] && Lower(t[0]) == Lower(c) && Matches(t[1..], ts[1..])
  }

  /** `t ILIKE pattern`. */
  predicate ILike(t: string, pattern: string) {
    Matches(t, Tokens(pattern))
  }

  /** The pattern built from a filter string. */
  function SubstringPattern(s: string): string {
    "%" + s + "%"
  }

  /** `s` occurs in `t` at position `i`, ignoring case. */
  predicate OccursAt(t: string, s: string, i: int) {
    0 <= i && i + |s| <= |t| && forall j :: 0 <= j < |s| ==> Lower(t[i + j]) == Lower(s[j])
  }

  predicate ContainsIgnoringCase(t: string, s: string) {
    exists i :: 0 <= i <= |t| - |s| && OccursAt(t, s, i)
  }

  lemma {:induction false} TokensOfPlain(s: string, q: string)
    requires IsPlain(s)
    ensures Tokens(s + q) == Lits(s) + Tokens(q)
  {
    if s != [] {
      var p := s + q;
      assert p[0] == s[0] && !IsSpecial(s[0]);
      assert p[1..] == s[1..] + q;
      TokensOfPlain(s[1..], q);
      calc {
        Tokens(p);
        [Lit(s[0])] + Tokens(s[1..] + q);
        [Lit(s[0])] + (Lits(s[1..]) + Tokens(q));
        ([Lit(s[0])] + Lits(s[1..])) + Tokens(q);
        Lits(s) + Tokens(q);
      }
    } else {
      assert s + q == q;
    }
  }

  lemma {:induction false} AnyRunMatchesAll(t: string)
    ensures Matches(t, [AnyRun])
    decreases |t|
  {
    if t != [] {
      AnyRunMatchesAll(t[1..]);
    }
  }

  lemma {:induction false} LitsPrefix(t: string, s: string)
    ensures Matches(t, Lits(s) + [AnyRun]) <==> OccursAt(t, s, 0)
    decreases |s|
  {
    if s == [] {
      assert Lits(s) + [AnyRun] == [AnyRun];
      AnyRunMatchesAll(t);
    } else if t != [] {
      var ts := Lits(s) + [AnyRun];
      assert ts[0] == Lit(s[0]) && ts[1..] == Lits(s[1..]) + [AnyRun];
      LitsPrefix(t[1..], s[1..]);
      if t != [] && Lower(t[0]) == Lower(s[0]) && OccursAt(t[1..], s[1..], 0) {
        forall j | 0 <= j < |s| ensures Lower(t[j]) == Lower(s[j]) {
          if j > 0 {
            assert Lower(t[1..][j - 1]) == Lower(s[1..][j - 1]);
          }
        }
      }
      if OccursAt(t, s, 0) {
        assert Lower(t[0 + 0]) == Lower(s[0]);
        forall j | 0 <= j < |s| - 1 ensures Lower(t[1..][0 + j]) == Lower(s[1..][j]) {
          assert Lower(t[0 + (j + 1)]) == Lower(s[j + 1]);
        }
      }
    }
  }

  lemma {:induction false} AnyRunThen(t: string, rest: seq<Token>)
    ensures Matches(t, [AnyRun] + rest) <==> exists i :: 0 <= i <= |t| && Matches(t[i..], rest)
    decreases |t|
  {
    var ts := [AnyRun] + rest;
    assert ts[0] == AnyRun && ts[1..] == rest;
    if t != [] {
      AnyRunThen(t[1..], rest);
      assert t[0..] == t;
      if exists i :: 0 <= i <= |t| && Matches(t[i..], rest) {
        var i :| 0 <= i <= |t| && Matches(t[i..], rest);
        if i > 0 {
          assert t[1..][i - 1..] == t[i..];
        }
      }
      if Matches(t[1..], ts) {
        var i :| 0 <= i <= |t[1..]| && Matches(t[1..][i..], rest);
        assert t[1..][i..] == t[i + 1..];
        assert 0 <= i + 1 <= |t| && Matches(t[i + 1..], rest);
      }
    } else {
      assert t[0..] == t;
      if exists i :: 0 <= i <= |t| && Matches(t[i..], rest) {
        var i :| 0 <= i <= |t| && Matches(t[i..], rest);
        assert i == 0;
      }
    }
  }

  lemma OccursShift(t: string, s: string, i: int)
    requires 0 <= i <= |t|
    ensures OccursAt(t[i..], s, 0) <==> OccursAt(t, s, i)
  {
    if OccursAt(t[i..], s, 0) {
      forall j | 0 <= j < |s| ensures Lower(t[i + j]) == Lower(s[j]) {
        assert t[i..][0 + j] == t[i + j];
      }
    }
    if OccursAt(t, s, i) {
      forall j | 0 <= j < |s| ensures Lower(t[i..][0 + j]) == Lower(s[j]) {
        assert t[i..][0 + j] == t[i + j];
      }
    }
  }

  /** For a filter string without `%`, `_` or backslash, the ILIKE predicate is a
      case-insensitive substring test. */
  lemma PlainSubstring(t: string, s: string)
    requires IsPlain(s)
    ensures ILike(t, SubstringPattern(s)) <==> ContainsIgnoringCase(t, s)
  {
    var p := SubstringPattern(s);
    assert p[1..] == s + "%";
    TokensOfPlain(s, "%");
    assert Tokens("%") == [AnyRun];
    assert Tokens(p) == [AnyRun] + (Lits(s) + [AnyRun]);
    AnyRunThen(t, Lits(s) + [AnyRun]);
    if ILike(t, p) {
      var i :| 0 <= i <= |t| && Matches(t[i..], Lits(s) + [AnyRun]);
      LitsPrefix(t[i..], s);
      OccursShift(t, s, i);
    }
    if ContainsIgnoringCase(t, s) {
      var i :| 0 <= i <= |t| - |s| && OccursAt(t, s, i);
      OccursShift(t, s, i);
      LitsPrefix(t[i..], s);
    }
  }

  /** An underscore in the filter string is a wildcard: the filter "_" matches "abc",
      which does not contain an underscore. */
  lemma UnderscoreIsWildcard()
    ensures ILike("abc", SubstringPattern("_"))
    ensures !ContainsIgnoringCase("abc", "_")
  {
    assert SubstringPattern("_") == "%_%";
    assert Tokens("%_%") == [AnyRun, AnyChar, AnyRun];
    AnyRunMatchesAll("bc");
    assert ([AnyRun, AnyChar, AnyRun])[1..] == [AnyChar, AnyRun];
    assert ([AnyChar, AnyRun])[1..] == [AnyRun];
    assert "abc"[1..] == "bc";
    forall i | 0 <= i <= |"abc"| - |"_"| ensures !OccursAt("abc", "_", i) {
      assert Lower("abc"[i + 0]) != Lower("_"[0]);
    }
  }
}
