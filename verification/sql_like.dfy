/** SQL `LIKE` matching, which `get_tags` uses through SQLAlchemy's `ilike`
    (backend/crud.py): `%` matches any run of characters, `_` any single
    character, and every other character itself. `ilike` compares both sides
    lower-cased. */
module SqlLike {
  import opened Strings

  predicate Wildcard(c: char) {
    c == '%' || c == '_'
  }

  /** `s LIKE p`, with no escape character. */
  predicate Like(p: string, s: string)
    decreases |p| + |s|
  {
    if p == [] then s == []
    else if p[0] == '%' then Like(p[1..], s) || (s != [] && Like(p, s[1..]))
    else if p[0] == '_' then s != [] && Like(p[1..], s[1..])
    else s != [] && s[0] == p[0] && Like(p[1..], s[1..])
  }

  /** `name ILIKE pattern`: both sides lower-cased (ASCII), then `LIKE`. */
  predicate ILike(p: string, s: string) {
    Like(Lower(p), Lower(s))
  }

  /** A pattern that ends with `%` and is otherwise literal matches exactly
      the strings that start with the literal part. */
  lemma {:induction false} LikePrefix(q: string, s: string)
    requires forall i :: 0 <= i < |q| ==> !Wildcard(q[i])
    ensures Like(q + ['%'], s) <==> StartsWith(s, q)
    decreases |q|
  {
    if q == [] {
      LikeAnything(s);
      assert [] + ['%'] == ['%'];
    } else {
      var p := q + ['%'];
      assert p[0] == q[0] && p[1..] == q[1..] + ['%'];
      if s != [] {
        LikePrefix(q[1..], s[1..]);
        assert StartsWith(s, q) <==> s[0] == q[0] && StartsWith(s[1..], q[1..]) by {
          if |q| <= |s| {
            assert s[..|q|] == [s[0]] + s[1..][..|q| - 1];
            assert q == [q[0]] + q[1..];
          }
        }
      }
    }
  }

  /** `%` alone matches everything. */
  lemma {:induction false} LikeAnything(s: string)
    ensures Like(['%'], s)
    decreases |s|
  {
    var p := ['%'];
    assert p[1..] == [];
    if s != [] {
      LikeAnything(s[1..]);
    }
  }

  /** A leading `%` lets the rest of the pattern match any suffix. */
  lemma {:induction false} LikeLeadingPercent(p: string, s: string)
    ensures Like(['%'] + p, s) <==> exists i :: 0 <= i <= |s| && Like(p, s[i..])
    decreases |s|
  {
    var pp := ['%'] + p;
    assert pp[0] == '%' && pp[1..] == p;
    assert s[0..] == s;
    if s != [] {
      LikeLeadingPercent(p, s[1..]);
      assert Like(pp, s) <==> Like(p, s) || Like(pp, s[1..]);
      if exists i :: 0 <= i <= |s| && Like(p, s[i..]) {
        var i :| 0 <= i <= |s| && Like(p, s[i..]);
        if i > 0 {
          assert s[i..] == s[1..][i - 1..];
          assert Like(pp, s[1..]);
        }
        assert Like(pp, s);
      }
      if Like(pp, s[1..]) {
        var i :| 0 <= i <= |s[1..]| && Like(p, s[1..][i..]);
        assert s[1..][i..] == s[i + 1..];
      }
    }
  }

  /** `LIKE '%q%'` for a wildcard-free `q` is the substring test. */
  lemma ContainsPattern(q: string, s: string)
    requires forall i :: 0 <= i < |q| ==> !Wildcard(q[i])
    ensures Like(['%'] + q + ['%'], s) <==> Contains(s, q)
  {
    assert ['%'] + q + ['%'] == ['%'] + (q + ['%']);
    LikeLeadingPercent(q + ['%'], s);
    forall i | 0 <= i <= |s| ensures Like(q + ['%'], s[i..]) <==> StartsWith(s[i..], q) {
      LikePrefix(q, s[i..]);
    }
  }
}
