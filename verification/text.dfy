/**
 * The string handling the core relies on: Go's `strings.TrimSpace`,
 * `strings.HasPrefix` and `strings.TrimPrefix`, and the `ILIKE` pattern
 * match the database applies in task search.
 */
module Text {

  /** Go's `unicode.IsSpace`: the Latin-1 spaces plus the other White_Space code points. */
  predicate IsSpace(c: char)
  {
    || c == '\t' || c == '\n' || c == '\U{000B}' || c == '\U{000C}' || c == '\r' || c == ' '
    || c == '\U{0085}' || c == '\U{00A0}' || c == '\U{1680}'
    || ('\U{2000}' <= c <= '\U{200A}')
    || c == '\U{2028}' || c == '\U{2029}' || c == '\U{202F}' || c == '\U{205F}' || c == '\U{3000}'
  }

  predicate IsBlank(s: string)
  {
    forall k :: 0 <= k < |s| ==> IsSpace(s[k])
  }

  /** Drops the leading white space: what remains is a suffix that starts with a non-space. */
  function TrimLeft(s: string): (r: string)
    ensures |r| <= |s| && r == s[|s| - |r|..]
    ensures IsBlank(s[..|s| - |r|])
    ensures r != [] ==> !IsSpace(r[0])
  {
    if s != [] && IsSpace(s[0]) then TrimLeft(s[1..]) else s
  }

  /** Drops the trailing white space: what remains is a prefix that ends with a non-space. */
  function TrimRight(s: string): (r: string)
    ensures |r| <= |s| && r == s[..|r|]
    ensures IsBlank(s[|r|..])
    ensures r != [] ==> !IsSpace(r[|r| - 1])
  {
    if s != [] && IsSpace(s[|s| - 1]) then TrimRight(s[..|s| - 1]) else s
  }

  /** `r` is `s` with a blank prefix and a blank suffix removed. */
  ghost predicate IsTrimOf(s: string, r: string)
  {
    exists i :: TrimmedAt(s, r, i)
  }

  /** `r` is the slice of `s` at `i`, and all of `s` around it is blank. */
  predicate TrimmedAt(s: string, r: string, i: int)
  {
    0 <= i <= |s| - |r| && r == s[i..i + |r|] && IsBlank(s[..i]) && IsBlank(s[i + |r|..])
  }

  /**
   * `strings.TrimSpace`: the slice of `s` left after removing leading and
   * trailing white space; it neither starts nor ends with white space and is
   * empty exactly when `s` is blank.
   */
  function TrimSpace(s: string): (r: string)
    ensures IsTrimOf(s, r)
    ensures r == [] <==> IsBlank(s)
    ensures r != [] ==> !IsSpace(r[0]) && !IsSpace(r[|r| - 1])
  {
    TrimBothIsSlice(s);
    TrimBothEmptyIffBlank(s);
    TrimRight(TrimLeft(s))
  }

  lemma TrimBothIsSlice(s: string)
    ensures IsTrimOf(s, TrimRight(TrimLeft(s)))
  {
    var l := TrimLeft(s);
    var r := TrimRight(l);
    var i := |s| - |l|;
    assert l == s[i..];
    assert r == s[i..i + |r|];
    assert s[i + |r|..] == l[|r|..];
    assert TrimmedAt(s, r, i);
  }

  lemma TrimBothEmptyIffBlank(s: string)
    ensures TrimRight(TrimLeft(s)) == [] <==> IsBlank(s)
  {
    var l := TrimLeft(s);
    var r := TrimRight(l);
    var i := |s| - |l|;
    assert l == s[i..];
    if r == [] {
      forall k | 0 <= k < |s|
        ensures IsSpace(s[k])
      {
        if k < i {
          assert s[..i][k] == s[k];
        } else {
          assert l[k - i] == s[k];
          assert l[|r|..][k - i] == l[k - i];
        }
      }
    } else {
      assert r[0] == s[i];
    }
  }

  /** Trimming is idempotent. */
  lemma TrimSpaceIdempotent(s: string)
    ensures TrimSpace(TrimSpace(s)) == TrimSpace(s)
  {
    var r := TrimSpace(s);
    var r2 := TrimSpace(r);
    if r != [] {
      var i :| TrimmedAt(r, r2, i);
    }
  }

  predicate HasPrefix(s: string, prefix: string)
    ensures HasPrefix(s, prefix) <==> |prefix| <= |s| && s == prefix + s[|prefix|..]
  {
    |prefix| <= |s| && s[..|prefix|] == prefix
  }

  /** `strings.TrimPrefix`: removes one leading copy of `prefix` when there is one. */
  function TrimPrefix(s: string, prefix: string): (r: string)
    ensures HasPrefix(s, prefix) ==> prefix + r == s
    ensures !HasPrefix(s, prefix) ==> r == s
  {
    if HasPrefix(s, prefix) then s[|prefix|..] else s
  }

  /** Removing a prefix that was just prepended gives back the rest exactly. */
  lemma TrimPrefixOfConcat(prefix: string, rest: string)
    ensures TrimPrefix(prefix + rest, prefix) == rest
  {
    assert (prefix + rest)[..|prefix|] == prefix;
  }

  // ---------------------------------------------------------------------
  // ILIKE

  /** Characters with a meaning in a LIKE pattern: any string, any one character, escape. */
  predicate IsLikeSpecial(c: char)
  {
    c == '%' || c == '_' || c == '\\'
  }

  predicate IsLiteral(q: string)
  {
    forall k :: 0 <= k < |q| ==> !IsLikeSpecial(q[k])
  }

  /** Case-insensitive equality of two strings of equal length, under the case folding `fold`. */
  predicate FoldEq(a: string, b: string, fold: char -> char)
  {
    |a| == |b| && forall k :: 0 <= k < |a| ==> fold(a[k]) == fold(b[k])
  }

  /** `q` occurs somewhere in `s`, ignoring case. */
  ghost predicate ContainsFolded(s: string, q: string, fold: char -> char)
  {
    exists i :: OccursAt(s, q, i, fold)
  }

  predicate OccursAt(s: string, q: string, i: int, fold: char -> char)
  {
    0 <= i <= |s| - |q| && FoldEq(s[i..i + |q|], q, fold)
  }

  /**
   * `s ILIKE p`: the whole of `s` matches `p`, where `%` matches any string,
   * `_` any one character, a backslash makes the next character literal, and
   * every other character matches itself up to case (`fold`). A pattern
   * that ends in a lone backslash matches nothing (the database rejects it;
   * search never builds one, as its patterns end in `%`).
   */
  predicate Like(s: string, p: string, fold: char -> char)
    ensures IsLiteral(p) ==> (Like(s, p, fold) <==> FoldEq(s, p, fold))
    decreases |s| + |p|
  {
    if p == [] then s == []
    else if p[0] == '%' then Like(s, p[1..], fold) || (s != [] && Like(s[1..], p, fold))
    else if p[0] == '_' then s != [] && Like(s[1..], p[1..], fold)
    else if p[0] == '\\' then
      |p| >= 2 && s != [] && fold(s[0]) == fold(p[1]) && Like(s[1..], p[2..], fold)
    else s != [] && fold(s[0]) == fold(p[0]) && Like(s[1..], p[1..], fold)
  }

  /** A trailing `%` matches any rest. */
  lemma {:induction false} LikePercentAll(s: string, fold: char -> char)
    ensures Like(s, "%", fold)
  {
    if s != [] {
      LikePercentAll(s[1..], fold);
    }
  }

  /** A literal followed by `%` matches exactly the strings that start with it, up to case. */
  lemma {:induction false} LikeLiteralPrefix(s: string, q: string, fold: char -> char)
    requires IsLiteral(q)
    ensures Like(s, q + "%", fold) <==> |q| <= |s| && FoldEq(s[..|q|], q, fold)
  {
    if q == [] {
      assert q + "%" == "%";
      LikePercentAll(s, fold);
    } else {
      assert (q + "%")[1..] == q[1..] + "%";
      if s != [] {
        LikeLiteralPrefix(s[1..], q[1..], fold);
        if |q| <= |s| && FoldEq(s[..|q|], q, fold) {
          assert fold(s[0]) == fold(q[0]);
          assert FoldEq(s[1..][..|q[1..]|], q[1..], fold) by {
            forall k | 0 <= k < |q| - 1
              ensures fold(s[1..][..|q[1..]|][k]) == fold(q[1..][k])
            {
              assert s[..|q|][k + 1] == s[k + 1];
            }
          }
        }
        if Like(s, q + "%", fold) {
          assert FoldEq(s[..|q|], q, fold) by {
            forall k | 0 <= k < |q|
              ensures fold(s[..|q|][k]) == fold(q[k])
            {
              if k > 0 { assert s[1..][..|q[1..]|][k - 1] == s[k]; }
            }
          }
        }
      }
    }
  }

  /** A leading `%` lets the rest of the pattern match any suffix. */
  lemma {:induction false} LikeLeadingPercent(s: string, r: string, fold: char -> char)
    ensures Like(s, "%" + r, fold) <==> exists k :: 0 <= k <= |s| && Like(s[k..], r, fold)
  {
    assert ("%" + r)[1..] == r;
    assert s[0..] == s;
    if s != [] {
      LikeLeadingPercent(s[1..], r, fold);
      if exists k :: 0 <= k <= |s| && Like(s[k..], r, fold) {
        var k :| 0 <= k <= |s| && Like(s[k..], r, fold);
        if k > 0 {
          assert s[1..][k - 1..] == s[k..];
        }
      }
      if Like(s[1..], "%" + r, fold) {
        var k :| 0 <= k <= |s[1..]| && Like(s[1..][k..], r, fold);
        assert s[1..][k..] == s[k + 1..];
      }
    }
  }

  /**
   * The search pattern `%q%` built from a query without LIKE metacharacters
   * matches exactly the strings that contain `q`, ignoring case.
   */
  lemma LikeContains(s: string, q: string, fold: char -> char)
    requires IsLiteral(q)
    ensures Like(s, "%" + q + "%", fold) <==> ContainsFolded(s, q, fold)
  {
    assert "%" + q + "%" == "%" + (q + "%");
    LikeLeadingPercent(s, q + "%", fold);
    if ContainsFolded(s, q, fold) {
      var i :| OccursAt(s, q, i, fold);
      LikeLiteralPrefix(s[i..], q, fold);
      assert s[i..][..|q|] == s[i..i + |q|];
    }
    if Like(s, "%" + q + "%", fold) {
      var k :| 0 <= k <= |s| && Like(s[k..], q + "%", fold);
      LikeLiteralPrefix(s[k..], q, fold);
      assert s[k..][..|q|] == s[k..k + |q|];
      assert OccursAt(s, q, k, fold);
    }
  }

  /** Text matches a pattern that starts with the same literal text once the rest matches. */
  lemma {:induction false} LikeLiteralThen(a: string, s: string, p: string, fold: char -> char)
    requires IsLiteral(a) && Like(s, p, fold)
    ensures Like(a + s, a + p, fold)
  {
    if a == [] {
      assert a + s == s && a + p == p;
    } else {
      var s', p' := a + s, a + p;
      assert s'[1..] == a[1..] + s && p'[1..] == a[1..] + p;
      assert IsLiteral(a[1..]) by {
        assert forall k :: 0 <= k < |a| - 1 ==> a[1..][k] == a[k + 1];
      }
      LikeLiteralThen(a[1..], s, p, fold);
      assert s'[0] == a[0] && p'[0] == a[0] && !IsLikeSpecial(a[0]);
      assert Like(s'[1..], p'[1..], fold);
    }
  }

  /** `_` takes exactly one character, whichever it is. */
  lemma LikeAnyOne(c: char, s: string, p: string, fold: char -> char)
    requires Like(s, p, fold)
    ensures Like([c] + s, "_" + p, fold)
  {
    assert ([c] + s)[1..] == s;
    assert ("_" + p)[1..] == p;
  }

  /** A pattern that a suffix matches, behind a leading `%`, matches the whole text. */
  lemma LikeSomewhere(x: string, t: string, r: string, fold: char -> char)
    requires Like(t, r, fold)
    ensures Like(x + t, "%" + r, fold)
  {
    LikeLeadingPercent(x + t, r, fold);
    assert (x + t)[|x|..] == t;
  }

  /**
   * An unescaped `_` in a search query matches any one character: text
   * holding `a`, then any character `c`, then `b` matches `%a_b%` whatever
   * `c` is, and whatever surrounds it.
   */
  lemma UnderscoreIsWildcard(x: string, a: string, c: char, b: string, y: string, fold: char -> char)
    requires IsLiteral(a) && IsLiteral(b)
    ensures Like(x + a + [c] + b + y, "%" + a + "_" + b + "%", fold)
  {
    LikePercentAll(y, fold);
    LikeLiteralThen(b, y, "%", fold);
    LikeAnyOne(c, b + y, b + "%", fold);
    LikeLiteralThen(a, [c] + (b + y), "_" + (b + "%"), fold);
    LikeSomewhere(x, a + ([c] + (b + y)), a + ("_" + (b + "%")), fold);
    Regroup(x, a, [c], b, y);
    Regroup("%", a, "_", b, "%");
  }

  lemma Regroup(v: string, w: string, x: string, y: string, z: string)
    ensures v + (w + (x + (y + z))) == v + w + x + y + z
  {
  }
}
