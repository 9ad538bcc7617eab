/**
 * The two SQL string operators the classifier uses around its regular
 * expressions: DuckDB's `LIKE` and `LOWER`.
 */
module SqlLike {

  /** `s LIKE pattern` as DuckDB evaluates it: `%` matches any run of
      characters (possibly empty), `_` matches exactly one character, and
      every other pattern character, brackets included, matches only itself.
      No escape character is declared in the source, and the match is
      case-sensitive. */
  predicate Like(s: string, pattern: string)
    decreases |s|, |pattern|
  {
    if pattern == [] then s == []
    else if pattern[0] == '%' then Like(s, pattern[1..]) || (s != [] && Like(s[1..], pattern))
    else s != [] && (pattern[0] == '_' || pattern[0] == s[0]) && Like(s[1..], pattern[1..])
  }

  /** A pattern fragment with no wildcard: every character stands for itself. */
  predicate NoWildcards(w: string) {
    forall i :: 0 <= i < |w| ==> w[i] != '%' && w[i] != '_'
  }

  /** A lone `%` accepts every string. */
  lemma {:induction false} PercentAcceptsAll(s: string)
    ensures Like(s, "%")
  {
    if s != [] {
      PercentAcceptsAll(s[1..]);
    }
  }

  /** `s LIKE 'w%'` for a wildcard-free `w` is exactly "s starts with w". */
  lemma {:induction false} LikePrefix(s: string, w: string)
    requires NoWildcards(w)
    ensures Like(s, w + "%") <==> w <= s
  {
    if w == [] {
      assert w + "%" == "%";
      PercentAcceptsAll(s);
    } else {
      assert (w + "%")[0] == w[0];
      assert (w + "%")[1..] == w[1..] + "%";
      if s != [] {
        LikePrefix(s[1..], w[1..]);
        assert w <= s <==> w[0] == s[0] && w[1..] <= s[1..];
      }
    }
  }

  predicate IsUpperAscii(c: char) {
    'A' <= c <= 'Z'
  }

  /** DuckDB's `LOWER` on one character, restricted to ASCII: `A`..`Z`
      become `a`..`z`, every other character is left as it is. */
  function LowerChar(c: char): char {
    if IsUpperAscii(c) then (c as int - 'A' as int + 'a' as int) as char else c
  }

  /** `LOWER(s)`, character by character. */
  function Lower(s: string): (r: string)
    ensures |r| == |s|
  {
    seq(|s|, i requires 0 <= i < |s| => LowerChar(s[i]))
  }

  /** Lowering changes exactly the upper-case ASCII letters, and the only
      character that lowers to a given non-letter is that character itself. */
  lemma LowerCharFixes(c: char)
    ensures LowerChar(c) == c <==> !IsUpperAscii(c)
    ensures !('a' <= LowerChar(c) <= 'z') ==> LowerChar(c) == c
  {
  }

  /** A string is left unchanged by `LOWER` exactly when it holds no
      upper-case ASCII letter. */
  lemma {:induction false} LowerFixedExactly(s: string)
    ensures Lower(s) == s <==> forall i :: 0 <= i < |s| ==> !IsUpperAscii(s[i])
  {
    if Lower(s) == s {
      forall i | 0 <= i < |s| ensures !IsUpperAscii(s[i]) {
        assert Lower(s)[i] == LowerChar(s[i]);
        LowerCharFixes(s[i]);
      }
    }
    if forall i :: 0 <= i < |s| ==> !IsUpperAscii(s[i]) {
      forall i | 0 <= i < |s| ensures Lower(s)[i] == s[i] {
        LowerCharFixes(s[i]);
      }
    }
  }
}
