/**
 * PostgreSQL's LIKE / ILIKE, which the listing's search compiles to
 * (`Blog.title.ilike(f"%{search}%")`). '%' matches any run of characters,
 * '_' any single character, and '\' (the default escape) makes the next
 * character literal. Case folding is ASCII only.
 */
module SqlLike {
  import opened Strings

  const ESCAPE: char := '\\'

  /** `s LIKE p`. A lone trailing escape is taken literally. */
  function Like(s: string, p: string): bool
    decreases |s| + |p|
  {
    if p == [] then s == []
    else if p[0] == '%' then Like(s, p[1..]) || (s != [] && Like(s[1..], p))
    else if p[0] == '_' then s != [] && Like(s[1..], p[1..])
    else if p[0] == ESCAPE && |p| >= 2 then s != [] && s[0] == p[1] && Like(s[1..], p[2..])
    else s != [] && s[0] == p[0] && Like(s[1..], p[1..])
  }

  /** `s ILIKE p`. */
  function ILike(s: string, p: string): bool {
    Like(Lower(s), Lower(p))
  }

  /** The pattern characters that do not stand for themselves. */
  predicate IsPatternChar(c: char) {
    c == '%' || c == '_' || c == ESCAPE
  }

  predicate NoPatternChars(q: string) {
    forall i :: 0 <= i < |q| ==> !IsPatternChar(q[i])
  }

  lemma {:induction false} PercentMatchesAll(s: string)
    ensures Like(s, "%")
    decreases |s|
  {
    if s != [] {
      PercentMatchesAll(s[1..]);
    }
  }

  /** Without pattern characters, `q%` matches exactly the strings that start with q. */
  lemma {:induction false} LiteralPrefixPattern(s: string, q: string)
    requires NoPatternChars(q)
    ensures Like(s, q + "%") <==> StartsWith(s, q)
    decreases |q|
  {
    if q == [] {
      assert q + "%" == "%";
      PercentMatchesAll(s);
    } else {
      var p := q + "%";
      assert p[0] == q[0] && p[1..] == q[1..] + "%";
      LiteralPrefixPattern(if s == [] then s else s[1..], q[1..]);
      if s != [] && s[0] == q[0] {
        assert StartsWith(s, q) <==> StartsWith(s[1..], q[1..]) by {
          if StartsWith(s[1..], q[1..]) {
            assert s[..|q|] == [s[0]] + s[1..][..|q| - 1];
          }
        }
      }
    }
  }

  /** Without pattern characters, `%q%` matches exactly the strings that contain q. */
  lemma {:induction false} LiteralInfixPattern(s: string, q: string)
    requires NoPatternChars(q)
    ensures Like(s, "%" + q + "%") <==> Contains(s, q)
    decreases |s|
  {
    var r := q + "%";
    assert "%" + q + "%" == "%" + r;
    assert ("%" + r)[1..] == r;
    LiteralPrefixPattern(s, q);
    assert StartsWith(s, q) <==> OccursAt(s, q, 0);
    if s == [] {
      assert Contains(s, q) <==> OccursAt(s, q, 0);
    } else {
      LiteralInfixPattern(s[1..], q);
      if Contains(s, q) && !OccursAt(s, q, 0) {
        var i :| 0 <= i <= |s| && OccursAt(s, q, i);
        OccursShift(s, q, i - 1);
        assert OccursAt(s[1..], q, i - 1);
      }
      if Contains(s[1..], q) {
        var i :| 0 <= i <= |s[1..]| && OccursAt(s[1..], q, i);
        OccursShift(s, q, i);
        assert OccursAt(s, q, i + 1);
      }
    }
  }

  /** Lower-casing leaves '%' alone and creates no pattern characters. */
  lemma LowerOfLiteralPattern(q: string)
    requires NoPatternChars(q)
    ensures Lower("%" + q + "%") == "%" + Lower(q) + "%"
    ensures NoPatternChars(Lower(q))
  {
    var p := "%" + q + "%";
    assert Lower(p)[0] == '%';
    assert Lower(p)[|p| - 1] == '%';
    forall i | 1 <= i < |p| - 1 ensures Lower(p)[i] == Lower(q)[i - 1] {
      assert p[i] == q[i - 1];
    }
  }

  /**
   * The search filter on a term without '%', '_' or '\' keeps exactly the
   * titles that contain the term, ignoring ASCII letter case.
   */
  lemma SearchIsCaseInsensitiveSubstring(title: string, term: string)
    requires NoPatternChars(term)
    ensures ILike(title, "%" + term + "%") <==> Contains(Lower(title), Lower(term))
  {
    LowerOfLiteralPattern(term);
    LiteralInfixPattern(Lower(title), Lower(term));
  }

  /**
   * The search term is not escaped: "_" keeps a title such as "a" although
   * it contains no underscore, and "%" keeps every title.
   */
  lemma SearchTermIsAPattern(title: string)
    ensures ILike("a", "%" + "_" + "%") && !Contains(Lower("a"), "_")
    ensures ILike(title, "%" + "%" + "%")
  {
    assert "%" + "_" + "%" == "%_%";
    assert Lower("a") == "a";
    assert Lower("%_%") == "%_%";
    assert "%_%"[1..] == "_%" && "_%"[1..] == "%" && "a"[1..] == "" && "%"[1..] == "";
    assert Like("", "");
    assert Like("", "%");
    assert Like("a", "_%");
    assert Like("a", "%_%");
    assert !Contains("a", "_") by {
      forall i | 0 <= i <= 1 ensures !OccursAt("a", "_", i) {
        if i == 0 {
          assert "a"[0..1] == "a";
        }
      }
    }
    assert "%" + "%" + "%" == "%%%";
    assert Lower("%%%") == "%%%";
    var t := Lower(title);
    PercentMatchesAll(t);
    assert "%%%"[1..] == "%%" && "%%"[1..] == "%";
    assert Like(t, "%%");
    assert Like(t, "%%%");
  }
}
