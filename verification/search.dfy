/**
  The title filter of the post listing. The handler asks for
  `Post.title.contains(search)`, which the ORM renders as the SQL predicate
  `title LIKE '%' || search || '%'` without escaping `search`; PostgreSQL then
  reads `%`, `_` and `\` inside `search` as pattern syntax. `ContainsAsWritten`
  is that predicate, `Contains` is the plain substring test the handler
  evidently means, and the two agree exactly on searches free of pattern
  characters.
 */
module Search {

  /** `p` matches the whole of `s` under PostgreSQL's LIKE with the default
      escape character `\`: `%` matches any run, `_` any one character,
      `\c` the character `c` literally. A pattern ending in a lone `\` is an
      error in PostgreSQL; it matches nothing here (a `%...%` pattern never
      ends that way). */
  predicate Like(p: string, s: string)
    decreases |p| + |s|
  {
    if |p| == 0 then |s| == 0
    else if p[0] == '%' then Like(p[1..], s) || (|s| > 0 && Like(p, s[1..]))
    else if p[0] == '_' then |s| > 0 && Like(p[1..], s[1..])
    else if p[0] == '\\' then
      |p| > 1 && |s| > 0 && s[0] == p[1] && Like(p[2..], s[1..])
    else |s| > 0 && s[0] == p[0] && Like(p[1..], s[1..])
  }

  /** The filter as written: the search term spliced between two `%`. */
  predicate ContainsAsWritten(search: string, title: string)
  {
    Like("%" + search + "%", title)
  }

  /** `q` is a prefix of `s`. */
  predicate IsPrefix(q: string, s: string)
  {
    |q| <= |s| && s[..|q|] == q
  }

  /** `q` occurs in `s` as a contiguous substring. */
  predicate Contains(q: string, s: string)
    decreases |s|
  {
    IsPrefix(q, s) || (|s| > 0 && Contains(q, s[1..]))
  }

  /** No character of `q` has a meaning in a LIKE pattern. */
  predicate Literal(q: string)
  {
    forall i :: 0 <= i < |q| ==> q[i] != '%' && q[i] != '_' && q[i] != '\\'
  }

  /** `Contains` is the textbook substring relation: some suffix starts with `q`. */
  lemma {:induction false} ContainsIffSomeSuffix(q: string, s: string)
    ensures Contains(q, s) <==> exists k :: 0 <= k <= |s| && IsPrefix(q, s[k..])
    decreases |s|
  {
    if Contains(q, s) {
      if !IsPrefix(q, s) {
        ContainsIffSomeSuffix(q, s[1..]);
        var k :| 0 <= k <= |s[1..]| && IsPrefix(q, s[1..][k..]);
        assert s[1..][k..] == s[k + 1..];
      } else {
        assert s[0..] == s;
      }
    }
    if exists k :: 0 <= k <= |s| && IsPrefix(q, s[k..]) {
      var k :| 0 <= k <= |s| && IsPrefix(q, s[k..]);
      if k == 0 {
        assert s[0..] == s;
      } else {
        assert s[1..][k - 1..] == s[k..];
        ContainsIffSomeSuffix(q, s[1..]);
      }
    }
  }

  /** The empty search matches every title, under both the intended test
      and the filter as written (the pattern `%%`). */
  lemma EmptySearchMatchesAll(title: string)
    ensures Contains("", title)
    ensures ContainsAsWritten("", title)
  {
    assert title[..0] == "";
    AsWrittenAgreesOnLiterals("", title);
  }

  /** A trailing `%` matches any remainder. */
  lemma {:induction false} PercentMatchesAll(s: string)
    ensures Like("%", s)
    decreases |s|
  {
    if |s| > 0 {
      PercentMatchesAll(s[1..]);
    }
  }

  /** A leading `%` lets the rest of the pattern match any suffix. */
  lemma {:induction false} LeadingPercent(r: string, s: string)
    ensures Like("%" + r, s) <==> exists k :: 0 <= k <= |s| && Like(r, s[k..])
    decreases |s|
  {
    var p := "%" + r;
    assert p[0] == '%' && p[1..] == r;
    assert s[0..] == s;
    if |s| > 0 {
      LeadingPercent(r, s[1..]);
      assert Like(p, s) == (Like(r, s) || Like(p, s[1..]));
      if Like(p, s[1..]) {
        var k :| 0 <= k <= |s[1..]| && Like(r, s[1..][k..]);
        assert s[1..][k..] == s[k + 1..];
      }
      if exists k :: 0 <= k <= |s| && Like(r, s[k..]) {
        var k :| 0 <= k <= |s| && Like(r, s[k..]);
        if k > 0 {
          assert s[1..][k - 1..] == s[k..];
          assert Like(r, s[1..][k - 1..]);
        }
      }
    } else {
      assert Like(p, s) == Like(r, s);
    }
  }

  /** A literal prefix of a pattern matches itself and nothing else. */
  lemma {:induction false} LiteralPrefix(q: string, r: string, s: string)
    requires Literal(q)
    ensures Like(q + r, s) <==> IsPrefix(q, s) && Like(r, s[|q|..])
    decreases |q|
  {
    if |q| > 0 {
      var p := q + r;
      assert p[0] == q[0];
      assert p[1..] == q[1..] + r;
      if |s| > 0 {
        LiteralPrefix(q[1..], r, s[1..]);
        if |q| <= |s| {
          assert s[1..][|q| - 1..] == s[|q|..];
        }
        if IsPrefix(q, s) {
          assert s[1..][..|q| - 1] == s[..|q|][1..];
        }
        if IsPrefix(q[1..], s[1..]) && s[0] == q[0] {
          assert s[..|q|] == [s[0]] + s[1..][..|q| - 1];
        }
      }
    } else {
      assert q + r == r;
      assert s[0..] == s;
    }
  }

  /** On searches free of pattern characters the filter as written is the
      intended substring test. */
  lemma AsWrittenAgreesOnLiterals(search: string, title: string)
    requires Literal(search)
    ensures ContainsAsWritten(search, title) <==> Contains(search, title)
  {
    var p := "%" + search + "%";
    assert p == "%" + (search + "%");
    LeadingPercent(search + "%", title);
    ContainsIffSomeSuffix(search, title);
    forall k | 0 <= k <= |title|
      ensures Like(search + "%", title[k..]) <==> IsPrefix(search, title[k..])
    {
      LiteralPrefix(search, "%", title[k..]);
      if |search| <= |title[k..]| {
        PercentMatchesAll(title[k..][|search|..]);
      }
    }
  }

  /** The discrepancy: the search `_` lists the title `a`, which does not
      contain an underscore. */
  lemma UnderscoreIsAWildcard()
    ensures ContainsAsWritten("_", "a")
    ensures !Contains("_", "a")
  {
    assert ("%" + "_" + "%")[1..] == "_%";
    assert "_%"[1..] == "%";
    assert "a"[1..] == "";
    assert Like("%", "");
    assert Like("_%", "a");
    assert !IsPrefix("_", "a");
    assert !Contains("_", "");
  }
}
