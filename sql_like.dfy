/** PostgreSQL's `ILIKE` pattern match, as the title search uses it: `%`
    stands for any run of characters, `_` for any one character, a backslash
    makes the next pattern character literal, and letters are compared
    without regard to case. Case is folded over ASCII only. */
module SqlLike {

  /** Folds an ASCII capital to its small letter; every other character is
      its own fold. */
  function Fold(c: char): (f: char)
    ensures 'A' <= c <= 'Z' ==> 'a' <= f <= 'z' && f as int - c as int == 32
    ensures !('A' <= c <= 'Z') ==> f == c
  {
    if 'A' <= c <= 'Z' then (c as int + 32) as char else c
  }

  /** The three characters that are not literal in a `LIKE` pattern. */
  predicate IsSpecial(c: char) {
    c == '%' || c == '_' || c == '\\'
  }

  predicate HasNoSpecials(q: string) {
    forall i | 0 <= i < |q| :: !IsSpecial(q[i])
  }

  /** `s ILIKE p`. A pattern ending in a lone backslash is rejected by the
      database; the search never builds one, since its patterns end in `%`,
      and here such a pattern matches nothing. */
  predicate ILike(s: string, p: string)
    decreases |s| + |p|
  {
    if p == [] then s == []
    else if p[0] == '%' then ILike(s, p[1..]) || (s != [] && ILike(s[1..], p))
    else if p[0] == '_' then s != [] && ILike(s[1..], p[1..])
    else if p[0] == '\\' then |p| >= 2 && s != [] && Fold(s[0]) == Fold(p[1]) && ILike(s[1..], p[2..])
    else s != [] && Fold(s[0]) == Fold(p[0]) && ILike(s[1..], p[1..])
  }

  /** `s` starts with `q`, letter case aside. */
  predicate StartsWithIgnoringCase(s: string, q: string) {
    |q| <= |s| && forall k | 0 <= k < |q| :: Fold(s[k]) == Fold(q[k])
  }

  /** `q` occurs somewhere in `s`, letter case aside: the reference meaning
      of the title search. */
  predicate ContainsIgnoringCase(s: string, q: string) {
    exists i | 0 <= i <= |s| :: StartsWithIgnoringCase(s[i..], q)
  }

  /** A trailing `%` matches whatever is left. */
  lemma {:induction false} PercentMatchesAll(s: string)
    ensures ILike(s, "%")
  {
    if s != [] {
      PercentMatchesAll(s[1..]);
    }
  }

  /** A literal `q` followed by `%` matches exactly the texts that start
      with `q`. */
  lemma {:induction false} LiteralPrefix(s: string, q: string)
    requires HasNoSpecials(q)
    ensures ILike(s, q + "%") <==> StartsWithIgnoringCase(s, q)
    decreases |q|
  {
    if q == [] {
      assert q + "%" == "%";
      PercentMatchesAll(s);
    } else {
      assert (q + "%")[1..] == q[1..] + "%";
      if s != [] {
        LiteralPrefix(s[1..], q[1..]);
        if StartsWithIgnoringCase(s, q) {
          assert forall k | 0 <= k < |q| - 1 :: s[1..][k] == s[k + 1] && q[1..][k] == q[k + 1];
        }
        if StartsWithIgnoringCase(s[1..], q[1..]) && Fold(s[0]) == Fold(q[0]) {
          forall k | 0 <= k < |q| ensures Fold(s[k]) == Fold(q[k]) {
            if k > 0 {
              assert s[1..][k - 1] == s[k] && q[1..][k - 1] == q[k];
            }
          }
        }
      }
    }
  }

  /** The search pattern `%q%` for a literal `q` matches exactly the texts
      containing `q`, letter case aside. */
  lemma {:induction false} SearchPatternMeansContains(s: string, q: string)
    requires HasNoSpecials(q)
    ensures ILike(s, "%" + q + "%") <==> ContainsIgnoringCase(s, q)
    decreases |s|
  {
    var p := "%" + q + "%";
    assert p[1..] == q + "%";
    LiteralPrefix(s, q);
    assert s[0..] == s;
    if s == [] {
      if ContainsIgnoringCase(s, q) {
        var i :| 0 <= i <= |s| && StartsWithIgnoringCase(s[i..], q);
        assert i == 0;
      }
    } else {
      SearchPatternMeansContains(s[1..], q);
      if ILike(s[1..], p) {
        var i :| 0 <= i <= |s| - 1 && StartsWithIgnoringCase(s[1..][i..], q);
        assert s[1..][i..] == s[i + 1..];
      }
      if ContainsIgnoringCase(s, q) && !StartsWithIgnoringCase(s, q) {
        var i :| 0 <= i <= |s| && StartsWithIgnoringCase(s[i..], q);
        assert i > 0;
        assert s[1..][i - 1..] == s[i..];
      }
    }
  }
}
