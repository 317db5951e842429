/** PostgreSQL's ILIKE, as the search filters use it: '%' matches any run
    of characters, '_' any one character, '\' makes the next character
    literal, and letters compare without regard to ASCII case. */
module Like {

  function Lower(c: char): char {
    if 'A' <= c <= 'Z' then (c as int + 32) as char else c
  }

  /** ILIKE of s against pattern p (p well escaped). */
  predicate ILike(s: string, p: string)
    decreases |s| + |p|
  {
    if p == [] then s == []
    else if p[0] == '%' then ILike(s, p[1..]) || (s != [] && ILike(s[1..], p))
    else if p[0] == '_' then s != [] && ILike(s[1..], p[1..])
    else if p[0] == '\\' then
      |p| >= 2 && s != [] && Lower(s[0]) == Lower(p[1]) && ILike(s[1..], p[2..])
    else s != [] && Lower(s[0]) == Lower(p[0]) && ILike(s[1..], p[1..])
  }

  /** No escape character is left without a character to escape. A
      pattern ending in a lone '\' makes PostgreSQL raise an error. */
  predicate WellEscaped(p: string)
    decreases |p|
  {
    if p == [] then true
    else if p[0] == '\\' then |p| >= 2 && WellEscaped(p[2..])
    else WellEscaped(p[1..])
  }

  predicate IsMeta(c: char) {
    c == '%' || c == '_' || c == '\\'
  }

  /** Text with no pattern metacharacter in it stands for itself. */
  predicate Literal(l: string) {
    forall i :: 0 <= i < |l| ==> !IsMeta(l[i])
  }

  predicate EqualFold(a: string, b: string) {
    |a| == |b| && forall i :: 0 <= i < |a| ==> Lower(a[i]) == Lower(b[i])
  }

  /** l occurs in s at index i, ignoring ASCII case. */
  predicate FoldAt(s: string, l: string, i: int) {
    0 <= i <= |s| - |l| && EqualFold(s[i..i + |l|], l)
  }

  /** s contains l, ignoring ASCII case. */
  predicate ContainsFold(s: string, l: string) {
    exists i :: 0 <= i <= |s| && FoldAt(s, l, i)
  }

  /** s ends with l, ignoring ASCII case. */
  predicate EndsWithFold(s: string, l: string) {
    |l| <= |s| && EqualFold(s[|s| - |l|..], l)
  }

  /** A pattern with no '\' in it is well escaped. */
  lemma {:induction false} NoEscapeWellEscaped(p: string)
    requires forall i :: 0 <= i < |p| ==> p[i] != '\\'
    ensures WellEscaped(p)
    decreases |p|
  {
    if p != [] {
      NoEscapeWellEscaped(p[1..]);
    }
  }

  lemma {:induction false} LiteralWellEscaped(l: string, rest: string)
    requires Literal(l) && WellEscaped(rest)
    ensures WellEscaped(l + rest)
    decreases |l|
  {
    if l != [] {
      assert (l + rest)[1..] == l[1..] + rest;
      LiteralWellEscaped(l[1..], rest);
    } else {
      assert l + rest == rest;
    }
  }

  /** A literal prefix of the pattern must match the same number of
      characters of s, up to case. */
  lemma {:induction false} LiteralThen(s: string, l: string, rest: string)
    requires Literal(l)
    ensures ILike(s, l + rest) <==> |l| <= |s| && EqualFold(s[..|l|], l) && ILike(s[|l|..], rest)
    decreases |l|
  {
    if l != [] {
      assert (l + rest)[0] == l[0] && (l + rest)[1..] == l[1..] + rest;
      assert !IsMeta(l[0]);
      if s != [] {
        LiteralThen(s[1..], l[1..], rest);
        if |l| <= |s| {
          assert s[1..][..|l| - 1] == s[1..|l|];
          assert s[1..][|l| - 1..] == s[|l|..];
          assert EqualFold(s[..|l|], l) <==> Lower(s[0]) == Lower(l[0]) && EqualFold(s[1..][..|l| - 1], l[1..]);
        }
      }
    } else {
      assert l + rest == rest && s[..0] == l && s[0..] == s;
    }
  }

  /** A lone '%' matches everything. */
  lemma {:induction false} AnyMatches(s: string)
    ensures ILike(s, "%")
    decreases |s|
  {
    if s != [] {
      AnyMatches(s[1..]);
    }
    assert "%"[1..] == [];
  }

  /** A leading '%' lets the rest of the pattern match any suffix. */
  lemma {:induction false} LeadingAny(s: string, q: string)
    ensures ILike(s, "%" + q) <==> exists i :: 0 <= i <= |s| && ILike(s[i..], q)
    decreases |s|
  {
    assert ("%" + q)[0] == '%' && ("%" + q)[1..] == q;
    assert s[0..] == s;
    if s != [] {
      LeadingAny(s[1..], q);
      if exists i :: 0 <= i <= |s| && ILike(s[i..], q) {
        var i :| 0 <= i <= |s| && ILike(s[i..], q);
        if i > 0 {
          assert s[1..][i - 1..] == s[i..];
        }
      }
      if exists i :: 0 <= i <= |s| - 1 && ILike(s[1..][i..], q) {
        var i :| 0 <= i <= |s| - 1 && ILike(s[1..][i..], q);
        assert s[1..][i..] == s[i + 1..];
      }
    }
  }

  /** The name filter's pattern "%"+name+"%" matches exactly the names
      containing name, ignoring case, when name has no metacharacter. */
  lemma ContainsPattern(s: string, name: string)
    requires Literal(name)
    ensures ILike(s, "%" + name + "%") <==> ContainsFold(s, name)
  {
    assert "%" + name + "%" == "%" + (name + "%");
    LeadingAny(s, name + "%");
    forall i | 0 <= i <= |s|
      ensures ILike(s[i..], name + "%") <==> FoldAt(s, name, i)
    {
      LiteralThen(s[i..], name, "%");
      if |name| <= |s| - i {
        AnyMatches(s[i..][|name|..]);
        assert s[i..][..|name|] == s[i..i + |name|];
      }
    }
  }

  /** The type filter's pattern "%"+suffix matches exactly the names ending
      in suffix, ignoring case, when suffix has no metacharacter. */
  lemma SuffixPattern(s: string, suffix: string)
    requires Literal(suffix)
    ensures ILike(s, "%" + suffix) <==> EndsWithFold(s, suffix)
  {
    LeadingAny(s, suffix);
    forall i | 0 <= i <= |s|
      ensures ILike(s[i..], suffix) <==> (i == |s| - |suffix| && EqualFold(s[i..], suffix))
    {
      LiteralThen(s[i..], suffix, "");
      assert suffix + "" == suffix;
      if |suffix| <= |s| - i {
        assert s[i..][..|suffix|] == s[i..i + |suffix|];
      }
    }
    if EndsWithFold(s, suffix) {
      var i := |s| - |suffix|;
      assert ILike(s[i..], suffix);
    }
  }
}
