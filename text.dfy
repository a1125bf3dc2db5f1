/** Case-insensitive text matching as the zone search uses it: SQLite's `LIKE`
    operator (no ESCAPE clause, ASCII-only case folding) and the ASCII subset of
    Python's `str.lower()`/`str.startswith()`. */
module Text {

  /** ASCII case folding: 'A'..'Z' become 'a'..'z', every other character is kept. */
  function Lower(c: char): (d: char)
    ensures 'A' <= c <= 'Z' ==> 'a' <= d <= 'z' && d as int - c as int == 32
    ensures !('A' <= c <= 'Z') ==> d == c
  {
    if 'A' <= c <= 'Z' then (c as int + 32) as char else c
  }

  /** Folding never turns anything else into one of the two LIKE wildcards. */
  lemma LowerFixesWildcards(c: char)
    ensures Lower(c) == '%' <==> c == '%'
    ensures Lower(c) == '_' <==> c == '_'
  {
  }

  /** `a` and `b` are equal up to ASCII case. */
  predicate EqualsCI(a: string, b: string)
  {
    |a| == |b| && forall k :: 0 <= k < |a| ==> Lower(a[k]) == Lower(b[k])
  }

  /** Python's `t.lower().startswith(s.lower())` on ASCII text. */
  predicate StartsWithCI(t: string, s: string)
  {
    |s| <= |t| && EqualsCI(t[..|s|], s)
  }

  /** `s` occurs in `t` at position `i`, up to ASCII case. */
  predicate OccursAt(t: string, s: string, i: int)
  {
    0 <= i <= |t| - |s| && EqualsCI(t[i..i + |s|], s)
  }

  /** `s` occurs in `t` at some position, up to ASCII case. */
  ghost predicate ContainsCI(t: string, s: string)
  {
    exists i :: OccursAt(t, s, i)
  }

  predicate NoWildcards(s: string)
  {
    '%' !in s && '_' !in s
  }

  /** SQLite's `t LIKE p` without an ESCAPE clause: '%' matches any run of
      characters (possibly empty), '_' matches exactly one character, and any
      other character matches itself up to ASCII case. */
  predicate Like(p: string, t: string)
    decreases |p| + |t|
  {
    if p == [] then t == []
    else if p[0] == '%' then Like(p[1..], t) || (t != [] && Like(p, t[1..]))
    else t != [] && (p[0] == '_' || Lower(p[0]) == Lower(t[0])) && Like(p[1..], t[1..])
  }

  /** The pattern `'%' + s + '%'` that the zone search hands to LIKE. */
  function ContainsPattern(s: string): (p: string)
    ensures |p| == |s| + 2 && p[0] == '%' && p[|p| - 1] == '%'
    ensures p[1..|p| - 1] == s
  {
    "%" + s + "%"
  }

  /** A single '%' matches every text. */
  lemma {:induction false} LikePercentMatchesAll(t: string)
    ensures Like("%", t)
    decreases |t|
  {
    if t != [] {
      LikePercentMatchesAll(t[1..]);
    }
  }

  lemma StartsWithCIStep(t: string, s: string)
    requires s != []
    ensures StartsWithCI(t, s) <==>
            t != [] && Lower(s[0]) == Lower(t[0]) && StartsWithCI(t[1..], s[1..])
  {
    if t != [] && Lower(s[0]) == Lower(t[0]) && StartsWithCI(t[1..], s[1..]) {
      forall k | 0 <= k < |s| ensures Lower(t[..|s|][k]) == Lower(s[k]) {
        if k > 0 {
          assert t[1..][..|s[1..]|][k - 1] == t[..|s|][k];
        }
      }
    }
    if StartsWithCI(t, s) {
      forall k | 0 <= k < |s[1..]| ensures Lower(t[1..][..|s[1..]|][k]) == Lower(s[1..][k]) {
        assert t[1..][..|s[1..]|][k] == t[..|s|][k + 1];
      }
    }
  }

  /** For a needle without wildcards, `s + '%'` matches exactly the texts that start with `s`. */
  lemma {:induction false} LikePrefixPattern(s: string, t: string)
    requires NoWildcards(s)
    ensures Like(s + "%", t) <==> StartsWithCI(t, s)
    decreases |s|
  {
    if s == [] {
      assert s + "%" == "%";
      LikePercentMatchesAll(t);
    } else {
      var p := s + "%";
      assert p[0] == s[0] && p[1..] == s[1..] + "%";
      assert s[0] in s;
      StartsWithCIStep(t, s);
      if t != [] {
        assert forall x :: x in s[1..] ==> x in s;
        LikePrefixPattern(s[1..], t[1..]);
      }
    }
  }

  /** Whatever the needle holds, a text that starts with it literally matches `s + '%'`:
      each wildcard of `s` can match the very character it stands for. */
  lemma {:induction false} StartsWithMatchesPrefixPattern(s: string, t: string)
    requires StartsWithCI(t, s)
    ensures Like(s + "%", t)
    decreases |s|
  {
    if s == [] {
      assert s + "%" == "%";
      LikePercentMatchesAll(t);
    } else {
      var p := s + "%";
      assert p[0] == s[0] && p[1..] == s[1..] + "%";
      StartsWithCIStep(t, s);
      StartsWithMatchesPrefixPattern(s[1..], t[1..]);
      if s[0] == '%' {
        LowerFixesWildcards(t[0]);
        assert Like(p, t[1..]);
      }
    }
  }

  /** A leading '%' lets the rest of the pattern match any suffix of the text. */
  lemma {:induction false} LikeLeadingPercent(q: string, t: string)
    ensures Like("%" + q, t) <==> exists i :: 0 <= i <= |t| && Like(q, t[i..])
    decreases |t|
  {
    var p := "%" + q;
    assert p[0] == '%' && p[1..] == q;
    if t == [] {
      if Like(p, t) {
        assert Like(q, t[0..]);
      }
    } else {
      LikeLeadingPercent(q, t[1..]);
      if Like(p, t[1..]) {
        var i :| 0 <= i <= |t[1..]| && Like(q, t[1..][i..]);
        assert t[1..][i..] == t[i + 1..];
      }
      if Like(q, t) {
        assert t[0..] == t;
      }
      if exists i :: 0 <= i <= |t| && Like(q, t[i..]) {
        var i :| 0 <= i <= |t| && Like(q, t[i..]);
        if i > 0 {
          assert t[1..][i - 1..] == t[i..];
        }
      }
    }
  }

  /** The zone search's `LIKE '%' || s || '%'` is a case-insensitive substring test
      when the search string holds no wildcard. */
  lemma LikeContainsIsSubstring(s: string, t: string)
    requires NoWildcards(s)
    ensures Like(ContainsPattern(s), t) <==> ContainsCI(t, s)
  {
    assert ContainsPattern(s) == "%" + (s + "%");
    LikeLeadingPercent(s + "%", t);
    if Like(ContainsPattern(s), t) {
      var i :| 0 <= i <= |t| && Like(s + "%", t[i..]);
      LikePrefixPattern(s, t[i..]);
      assert t[i..][..|s|] == t[i..i + |s|];
      assert OccursAt(t, s, i);
    }
    if ContainsCI(t, s) {
      var i :| OccursAt(t, s, i);
      assert t[i..][..|s|] == t[i..i + |s|];
      LikePrefixPattern(s, t[i..]);
    }
  }

  /** Any text that starts with `s` (up to case) is found by the search for `s`,
      wildcards in `s` included. */
  lemma StartsWithIsFoundByLike(s: string, t: string)
    requires StartsWithCI(t, s)
    ensures Like(ContainsPattern(s), t)
  {
    assert ContainsPattern(s) == "%" + (s + "%");
    StartsWithMatchesPrefixPattern(s, t);
    LikeLeadingPercent(s + "%", t);
    assert t[0..] == t;
  }

  /** The empty search string matches every text. */
  lemma EmptySearchMatchesAll(t: string)
    ensures Like(ContainsPattern(""), t)
  {
    assert StartsWithCI(t, "") by {
      assert t[..0] == "";
    }
    StartsWithIsFoundByLike("", t);
  }
}
