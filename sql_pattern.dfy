/** Postgres LIKE and ILIKE pattern matching, as used by the advocates
    route: `%` matches any run of characters, `_` matches exactly one, and
    every other character matches itself. */
module SqlPattern {
  import opened Text

  /** `s LIKE p` */
  function Like(s: string, p: string): (b: bool)
    ensures NoWildcards(p) ==> (b <==> s == p)
    decreases |s| + |p|
  {
    if p == [] then s == []
    else if p[0] == '%' then Like(s, p[1..]) || (s != [] && Like(s[1..], p))
    else if p[0] == '_' then s != [] && Like(s[1..], p[1..])
    else s != [] && s[0] == p[0] && Like(s[1..], p[1..])
  }

  /** `s ILIKE p`: LIKE after case folding both sides. */
  function ILike(s: string, p: string): (b: bool)
    ensures NoWildcards(p) ==> (b <==> Lower(s) == Lower(p))
  {
    assert NoWildcards(p) ==> NoWildcards(Lower(p));
    Like(Lower(s), Lower(p))
  }

  /** The pattern `%t%` that the route builds around a search term. */
  function ContainsPattern(t: string): (p: string)
    ensures |p| == |t| + 2 && p[0] == '%' && p[|p| - 1] == '%'
  {
    "%" + t + "%"
  }

  /** A string with no LIKE metacharacter in it. */
  predicate NoWildcards(t: string) {
    forall i :: 0 <= i < |t| ==> t[i] != '%' && t[i] != '_'
  }

  /** `%` on its own matches every string. */
  lemma {:induction false} LikePercentAll(s: string)
    ensures Like(s, "%")
    decreases |s|
  {
    if s != [] {
      LikePercentAll(s[1..]);
    }
  }

  /** Any pattern matches itself character by character in front of a
      matching rest (a `%` in it matches the single `%`, a `_` the `_`). */
  lemma {:induction false} LikeSelfPrefix(t: string, u: string, q: string)
    requires Like(u, q)
    ensures Like(t + u, t + q)
    decreases |t|
  {
    if t != [] {
      LikeSelfPrefix(t[1..], u, q);
      var s, p := t + u, t + q;
      assert s[1..] == t[1..] + u && p[1..] == t[1..] + q;
      assert s[0] == t[0] && p[0] == t[0];
      assert Like(s[1..], p[1..]);
      if t[0] == '%' {
        assert Like(s[1..], p);
      }
      assert Like(s, p);
    } else {
      assert t + u == u && t + q == q;
    }
  }

  /** A leading `%` may skip any prefix of the subject. */
  lemma {:induction false} LikeSkip(s: string, k: nat, q: string)
    requires k <= |s| && Like(s[k..], q)
    ensures Like(s, "%" + q)
    decreases k
  {
    var p := "%" + q;
    assert p[1..] == q;
    if k > 0 {
      assert s[1..][k - 1..] == s[k..];
      LikeSkip(s[1..], k - 1, q);
    }
  }

  /** Conversely, a leading `%` matches by skipping some prefix. */
  lemma {:induction false} LikeSkipInverse(s: string, q: string) returns (k: nat)
    requires Like(s, "%" + q)
    ensures k <= |s| && Like(s[k..], q)
    decreases |s|
  {
    var p := "%" + q;
    assert p[1..] == q;
    if Like(s, q) {
      k := 0;
    } else {
      var k' := LikeSkipInverse(s[1..], q);
      assert s[1..][k'..] == s[k' + 1..];
      k := k' + 1;
    }
  }

  /** A wildcard-free pattern prefix matches only itself. */
  lemma {:induction false} LiteralPrefixInverse(t: string, s: string, q: string)
    requires NoWildcards(t) && Like(s, t + q)
    ensures |t| <= |s| && s[..|t|] == t && Like(s[|t|..], q)
    decreases |t|
  {
    if t != [] {
      var p := t + q;
      assert p[0] == t[0] && p[1..] == t[1..] + q;
      assert s != [] && s[0] == t[0] && Like(s[1..], p[1..]);
      LiteralPrefixInverse(t[1..], s[1..], q);
      assert s[..|t|] == [s[0]] + s[1..][..|t| - 1];
      assert s[1..][|t| - 1..] == s[|t|..];
    } else {
      assert t + q == q;
    }
  }

  /** `s LIKE '%t%'` holds whenever `t` occurs in `s`, whatever `t` holds. */
  lemma ContainsPatternComplete(s: string, t: string, k: int)
    requires OccursAt(t, s, k)
    ensures Like(s, ContainsPattern(t))
  {
    var rest := s[k + |t|..];
    LikePercentAll(rest);
    LikeSelfPrefix(t, rest, "%");
    assert s[k..] == t + rest;
    LikeSkip(s, k, t + "%");
    assert ContainsPattern(t) == "%" + (t + "%");
  }

  /** For a wildcard-free `t`, `s LIKE '%t%'` holds only if `t` occurs in `s`. */
  lemma ContainsPatternSound(s: string, t: string)
    requires NoWildcards(t) && Like(s, ContainsPattern(t))
    ensures IsSubstring(t, s)
  {
    assert ContainsPattern(t) == "%" + (t + "%");
    var k := LikeSkipInverse(s, t + "%");
    LiteralPrefixInverse(t, s[k..], "%");
    assert s[k..][..|t|] == s[k..k + |t|];
    assert OccursAt(t, s, k);
  }

  /** The ILIKE clause `col ILIKE '%t%'` on a wildcard-free term is exactly
      a case-insensitive substring test. */
  lemma ILikeContainsIff(s: string, t: string)
    requires NoWildcards(t)
    ensures ILike(s, ContainsPattern(t)) <==> Includes(Lower(s), Lower(t))
  {
    LowerConcat("%" + t, "%");
    LowerConcat("%", t);
    assert Lower(ContainsPattern(t)) == ContainsPattern(Lower(t));
    assert NoWildcards(Lower(t));
    if ILike(s, ContainsPattern(t)) {
      ContainsPatternSound(Lower(s), Lower(t));
    }
    if Includes(Lower(s), Lower(t)) {
      var k :| OccursAt(Lower(t), Lower(s), k);
      ContainsPatternComplete(Lower(s), Lower(t), k);
    }
  }

  /** Completeness needs no restriction on the term: a case-insensitive
      occurrence always satisfies the ILIKE clause. */
  lemma ILikeContainsComplete(s: string, t: string, k: int)
    requires OccursAt(t, s, k)
    ensures ILike(s, ContainsPattern(t))
  {
    LowerConcat("%" + t, "%");
    LowerConcat("%", t);
    assert Lower(ContainsPattern(t)) == ContainsPattern(Lower(t));
    OccursLower(t, s, k);
    ContainsPatternComplete(Lower(s), Lower(t), k);
  }
}
