/** PostgreSQL's LIKE operator, to the extent the id-path queries rely on it. */
module SqlLike {

  /** `s LIKE pattern`: `%` matches any run, `_` any one character, and a backslash
      takes the next pattern character literally. */
  predicate Like(s: string, pattern: string)
    decreases |pattern|, |s|
  {
    if pattern == "" then s == ""
    else if pattern[0] == '%' then Like(s, pattern[1..]) || (s != "" && Like(s[1..], pattern))
    else if pattern[0] == '_' then s != "" && Like(s[1..], pattern[1..])
    else if pattern[0] == '\\' && |pattern| > 1 then
      s != "" && s[0] == pattern[1] && Like(s[1..], pattern[2..])
    else s != "" && s[0] == pattern[0] && Like(s[1..], pattern[1..])
  }

  predicate Literal(p: string) {
    '%' !in p && '_' !in p && '\\' !in p
  }

  lemma {:induction false} LikeAnything(s: string)
    ensures Like(s, "%")
  {
    if s != "" {
      LikeAnything(s[1..]);
    }
  }

  /** `LIKE literal%` is the plain prefix test. */
  lemma {:induction false} LikePrefix(s: string, p: string)
    requires Literal(p)
    ensures Like(s, p + "%") <==> p <= s
    decreases |p|
  {
    if p == "" {
      assert p + "%" == "%";
      LikeAnything(s);
    } else {
      assert p[0] in p;
      assert (p + "%")[1..] == p[1..] + "%";
      if s != "" {
        LikePrefix(s[1..], p[1..]);
        if s[0] == p[0] {
          assert p <= s <==> p[1..] <= s[1..] by {
            assert s == [s[0]] + s[1..] && p == [p[0]] + p[1..];
          }
        }
      }
    }
  }
}
