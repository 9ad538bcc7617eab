/**
 * The fragment of RE2 (the engine behind DuckDB's `REGEXP_MATCHES`) that the
 * classifier's patterns use: bracketed character classes made of single
 * characters and ranges, a repeat count on each class (`{m,n}`, `+`, or the
 * implicit exactly-once of a plain character), and the `^` / `$` anchors.
 * Matching is case-sensitive; `$` matches only at the end of the text.
 */
module Re2 {

  /** `lo-hi` inside brackets; a single character `c` is `Range(c, c)`. */
  datatype Range = Range(lo: char, hi: char)

  type CharClass = seq<Range>

  /** How many times an atom repeats: `{min,max}` or `{min,}` (`+` is `{1,}`). */
  datatype Repeat = Between(min: nat, max: nat) | AtLeast(min: nat)

  datatype Atom = Atom(cls: CharClass, repeat: Repeat)

  datatype Pattern = Pattern(anchoredStart: bool, atoms: seq<Atom>, anchoredEnd: bool)

  predicate InClass(c: char, cls: CharClass) {
    exists i :: 0 <= i < |cls| && cls[i].lo <= c <= cls[i].hi
  }

  predicate AllInClass(s: string, cls: CharClass) {
    forall i :: 0 <= i < |s| ==> InClass(s[i], cls)
  }

  predicate Admits(r: Repeat, k: nat) {
    match r
    case Between(min, max) => min <= k <= max
    case AtLeast(min) => min <= k
  }

  /** The bracket expression that lists `chars` one by one. */
  function OneOf(chars: string): (cls: CharClass)
    ensures forall c :: InClass(c, cls) <==> c in chars
  {
    var cls := seq(|chars|, i requires 0 <= i < |chars| => Range(chars[i], chars[i]));
    assert forall i :: 0 <= i < |chars| ==> cls[i] == Range(chars[i], chars[i]);
    cls
  }

  /** A plain pattern character: itself, exactly once. */
  function Lit(c: char): Atom {
    Atom([Range(c, c)], Between(1, 1))
  }

  /** A run of plain pattern characters. */
  function Literal(w: string): seq<Atom> {
    if w == [] then [] else [Lit(w[0])] + Literal(w[1..])
  }

  /** The atoms, in order, match all of `s`: the first atom takes some
      admissible number `k` of leading characters, all in its class, and the
      remaining atoms match the rest. */
  predicate MatchAll(atoms: seq<Atom>, s: string)
    decreases |atoms|
  {
    if atoms == [] then s == []
    else exists k :: 0 <= k <= |s| && Admits(atoms[0].repeat, k)
                     && AllInClass(s[..k], atoms[0].cls) && MatchAll(atoms[1..], s[k..])
  }

  /** `REGEXP_MATCHES(s, p)`: some substring matches the atoms, starting at
      the beginning of `s` when `p` has `^` and ending at its end when `p`
      has `$`. */
  predicate Matches(s: string, p: Pattern) {
    exists i, j :: 0 <= i <= j <= |s| && (p.anchoredStart ==> i == 0)
                   && (p.anchoredEnd ==> j == |s|) && MatchAll(p.atoms, s[i..j])
  }

  /** With both anchors, `REGEXP_MATCHES` is a match of the whole string. */
  lemma AnchoredMatchesWhole(s: string, p: Pattern)
    requires p.anchoredStart && p.anchoredEnd
    ensures Matches(s, p) <==> MatchAll(p.atoms, s)
  {
    assert s[0..|s|] == s;
  }

  /** One atom matches `s` exactly when the length of `s` is an admissible
      repeat count and every character of `s` is in the class. */
  lemma MatchOne(a: Atom, s: string)
    ensures MatchAll([a], s) <==> Admits(a.repeat, |s|) && AllInClass(s, a.cls)
  {
    var atoms := [a];
    assert atoms[0] == a && atoms[1..] == [];
    if MatchAll(atoms, s) {
      var k :| 0 <= k <= |s| && Admits(a.repeat, k) && AllInClass(s[..k], a.cls)
               && MatchAll(atoms[1..], s[k..]);
      assert k == |s| && s[..k] == s;
    }
    if Admits(a.repeat, |s|) && AllInClass(s, a.cls) {
      assert s[..|s|] == s && s[|s|..] == [];
      assert MatchAll(atoms[1..], s[|s|..]);
    }
  }

  /** An atom that takes exactly one character, in front of `rest`. */
  lemma MatchOneChar(a: Atom, rest: seq<Atom>, s: string)
    requires a.repeat == Between(1, 1)
    ensures MatchAll([a] + rest, s) <==> s != [] && InClass(s[0], a.cls) && MatchAll(rest, s[1..])
  {
    var atoms := [a] + rest;
    assert atoms[0] == a && atoms[1..] == rest;
    if s != [] && InClass(s[0], a.cls) && MatchAll(rest, s[1..]) {
      assert s[..1] == [s[0]];
      assert AllInClass(s[..1], a.cls);
    }
  }

  /** A run of plain characters `w` in front of `rest` consumes exactly the
      prefix `w` of the string. */
  lemma {:induction false} MatchLiteral(w: string, rest: seq<Atom>, s: string)
    ensures MatchAll(Literal(w) + rest, s) <==> w <= s && MatchAll(rest, s[|w|..])
  {
    if w == [] {
      assert Literal(w) + rest == rest;
      assert s[0..] == s;
    } else {
      var tail := Literal(w[1..]) + rest;
      assert Literal(w) == [Lit(w[0])] + Literal(w[1..]);
      assert ([Lit(w[0])] + Literal(w[1..])) + rest == [Lit(w[0])] + (Literal(w[1..]) + rest);
      MatchOneChar(Lit(w[0]), tail, s);
      if s != [] {
        MatchLiteral(w[1..], rest, s[1..]);
        assert InClass(s[0], Lit(w[0]).cls) <==> s[0] == w[0] by {
          assert Lit(w[0]).cls[0] == Range(w[0], w[0]);
        }
        assert w <= s <==> s[0] == w[0] && w[1..] <= s[1..];
        if w <= s {
          assert s[1..][|w| - 1..] == s[|w|..];
        }
      }
    }
  }
}
