/**
 * Model of `escapeRegExp` (backend/utils/misc.ts:7-9).
 *
 * The source calls `str.replace(/[.*+?^${}()|[\]\\]/g, "\\$&")`: the global
 * flag and the one-character class make it a per-character rewrite in which
 * each metacharacter is replaced by a backslash followed by itself (`$&` is
 * the matched text) and every other character is copied.
 */
module RegExpEscape {

  /** The fourteen characters of the class in the pattern. */
  predicate IsMeta(c: char) {
    c in ".*+?^${}()|[]\\"
  }

  /** Number of metacharacters in `s`. */
  function CountMeta(s: string): nat {
    if |s| == 0 then 0 else (if IsMeta(s[0]) then 1 else 0) + CountMeta(s[1..])
  }

  /** What the replacement `"\\$&"` makes of one character. */
  function Token(c: char): string {
    if IsMeta(c) then ['\\', c] else [c]
  }

  /** `escapeRegExp(s)`: one backslash more per metacharacter, and the
      string comes back unchanged exactly when it holds no metacharacter. */
  function Escape(s: string): (r: string)
    ensures |r| == |s| + CountMeta(s)
    ensures r == s <==> CountMeta(s) == 0
  {
    if |s| == 0 then "" else Token(s[0]) + Escape(s[1..])
  }

  /** Drops a backslash and keeps the character after it; copies every other
      character. The inverse of `Escape`. */
  function Unescape(o: string): (r: string)
    ensures |r| <= |o|
    decreases |o|
  {
    if |o| == 0 then ""
    else if o[0] == '\\' && |o| >= 2 then [o[1]] + Unescape(o[2..])
    else [o[0]] + Unescape(o[1..])
  }

  /** The shape of an escaped string, read left to right: every position is
      either a non-metacharacter, or a backslash followed by a metacharacter. */
  predicate WellEscaped(o: string)
    decreases |o|
  {
    || |o| == 0
    || (|o| >= 2 && o[0] == '\\' && IsMeta(o[1]) && WellEscaped(o[2..]))
    || (|o| >= 1 && !IsMeta(o[0]) && WellEscaped(o[1..]))
  }

  /** Whether `p` matches the whole of `t`, as if anchored with `^` and `$`,
      for a pattern built only of literal characters and escaped
      metacharacters: a non-metacharacter matches itself and `\c`, for a
      metacharacter `c`, matches `c`. An unescaped metacharacter is a
      regular-expression operator and a backslash before any other character
      is a class escape such as `\d`; both are outside this fragment and
      match nothing here. */
  predicate MatchesLiteral(p: string, t: string)
    decreases |p|
  {
    if |p| == 0 then |t| == 0
    else if p[0] == '\\' then
      |p| >= 2 && IsMeta(p[1]) && |t| >= 1 && t[0] == p[1] && MatchesLiteral(p[2..], t[1..])
    else if IsMeta(p[0]) then false
    else |t| >= 1 && t[0] == p[0] && MatchesLiteral(p[1..], t[1..])
  }

  /** The `g` flag makes the rewrite distribute over concatenation. */
  lemma {:induction false} EscapeConcat(a: string, b: string)
    ensures Escape(a + b) == Escape(a) + Escape(b)
    decreases |a|
  {
    if |a| == 0 {
      assert a + b == b;
    } else {
      assert (a + b)[0] == a[0];
      assert (a + b)[1..] == a[1..] + b;
      EscapeConcat(a[1..], b);
    }
  }

  /** Where each input character lands: the character at index `i` of `s`
      starts at `i` plus the number of metacharacters before it; a
      metacharacter appears there behind a backslash, any other character
      appears there alone. */
  lemma EscapePosition(s: string, i: int)
    requires 0 <= i < |s|
    ensures IsMeta(s[i]) ==>
      var p := i + CountMeta(s[..i]);
      p + 1 < |Escape(s)| && Escape(s)[p] == '\\' && Escape(s)[p + 1] == s[i]
    ensures !IsMeta(s[i]) ==>
      var p := i + CountMeta(s[..i]);
      p < |Escape(s)| && Escape(s)[p] == s[i]
  {
    assert s == s[..i] + s[i..];
    EscapeConcat(s[..i], s[i..]);
    assert s[i..][0] == s[i];
    assert Escape(s[i..]) == Token(s[i]) + Escape(s[i..][1..]);
  }

  /** Every output is well formed: no character other than a metacharacter
      is preceded by an inserted backslash, and no metacharacter is left bare. */
  lemma {:induction false} EscapeWellEscaped(s: string)
    ensures WellEscaped(Escape(s))
    decreases |s|
  {
    if |s| > 0 {
      EscapeWellEscaped(s[1..]);
      var o := Escape(s);
      assert o == Token(s[0]) + Escape(s[1..]);
      if IsMeta(s[0]) {
        assert o[2..] == Escape(s[1..]);
      } else {
        assert o[1..] == Escape(s[1..]);
      }
    }
  }

  /** Unescaping an escaped string recovers it exactly. */
  lemma {:induction false} UnescapeEscape(s: string)
    ensures Unescape(Escape(s)) == s
    decreases |s|
  {
    if |s| > 0 {
      UnescapeEscape(s[1..]);
      var o := Escape(s);
      assert o == Token(s[0]) + Escape(s[1..]);
      if IsMeta(s[0]) {
        assert o[2..] == Escape(s[1..]);
      } else {
        assert o[1..] == Escape(s[1..]);
        assert s[0] != '\\';
        if |o| >= 2 {
          assert o[0] != '\\';
        }
      }
      assert s == [s[0]] + s[1..];
    }
  }

  /** Every well-formed escaped string is the escape of its unescaping, so
      `Escape` is onto the well-formed strings. */
  lemma {:induction false} EscapeUnescape(o: string)
    requires WellEscaped(o)
    ensures Escape(Unescape(o)) == o
    decreases |o|
  {
    if |o| > 0 {
      if |o| >= 2 && o[0] == '\\' && IsMeta(o[1]) && WellEscaped(o[2..]) {
        EscapeUnescape(o[2..]);
        var u := Unescape(o);
        assert u == [o[1]] + Unescape(o[2..]);
        assert u[0] == o[1] && u[1..] == Unescape(o[2..]);
        assert o == [o[0], o[1]] + o[2..];
      } else {
        assert !IsMeta(o[0]) && WellEscaped(o[1..]);
        EscapeUnescape(o[1..]);
        var u := Unescape(o);
        assert u == [o[0]] + Unescape(o[1..]);
        assert u[0] == o[0] && u[1..] == Unescape(o[1..]);
        assert o == [o[0]] + o[1..];
      }
    }
  }

  /** Distinct inputs have distinct escapes. */
  lemma EscapeInjective(a: string, b: string)
    requires Escape(a) == Escape(b)
    ensures a == b
  {
    UnescapeEscape(a);
    UnescapeEscape(b);
  }

  /** The purpose of `escapeRegExp`: the escaped text, used as a pattern
      anchored with `^` and `$` and without flags, matches the whole of a
      string exactly when that string is the original text. */
  lemma {:induction false} EscapeMatchesExactly(s: string, t: string)
    ensures MatchesLiteral(Escape(s), t) <==> t == s
    decreases |s|
  {
    var o := Escape(s);
    if |s| == 0 {
    } else {
      assert o == Token(s[0]) + Escape(s[1..]);
      if IsMeta(s[0]) {
        assert o[0] == '\\' && o[1] == s[0] && o[2..] == Escape(s[1..]);
      } else {
        assert o[0] == s[0] && o[1..] == Escape(s[1..]);
      }
      if |t| >= 1 {
        EscapeMatchesExactly(s[1..], t[1..]);
        assert t == s <==> (t[0] == s[0] && t[1..] == s[1..]) by {
          if t[0] == s[0] && t[1..] == s[1..] {
            assert t == [t[0]] + t[1..] && s == [s[0]] + s[1..];
          }
        }
      }
    }
  }

  /** Unanchored search, as `RegExp.prototype.test` does it: some substring
      of `t` matches the whole pattern `p`. */
  predicate SearchMatches(p: string, t: string) {
    exists i, j :: 0 <= i <= j <= |t| && MatchesLiteral(p, t[i..j])
  }

  /** `s` occurs in `t` starting at index `i`. */
  predicate OccursAt(s: string, t: string, i: int) {
    0 <= i <= |t| - |s| && t[i..i + |s|] == s
  }

  /** Searched for without anchors, the escaped text is found in `t` exactly
      when the original text occurs somewhere in `t`. */
  lemma EscapeSearch(s: string, t: string)
    ensures SearchMatches(Escape(s), t) <==> exists i :: OccursAt(s, t, i)
  {
    if SearchMatches(Escape(s), t) {
      var i, j :| 0 <= i <= j <= |t| && MatchesLiteral(Escape(s), t[i..j]);
      EscapeMatchesExactly(s, t[i..j]);
      assert OccursAt(s, t, i);
    }
    if exists i :: OccursAt(s, t, i) {
      var i :| OccursAt(s, t, i);
      EscapeMatchesExactly(s, t[i..i + |s|]);
      assert MatchesLiteral(Escape(s), t[i..i + |s|]);
    }
  }

  /** A worked example: `a.b*c` becomes `a\.b\*c`. */
  lemma EscapeExample()
    ensures Escape("a.b*c") == "a\\.b\\*c"
  {
  }
}
