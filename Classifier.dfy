/**
 * The address classifier: the SQL `CASE` expression of count.py that maps one
 * address string to one of seven labels, first matching rule wins.
 * `Classify` transcribes the rules as written (a `LIKE` prefix test, on
 * `LOWER(address)` for the SegWit family, an exact `LENGTH` where the source
 * has one, and an anchored `REGEXP_MATCHES`); the lemmas below give each
 * label its meaning in closed form.
 */
module Classifier {
  import opened SqlLike
  import opened Re2

  datatype Category = P2PKH | P2SH | P2WPKH | P2WSH | P2TR | FutureSegWit | Other

  /** The text the query stores in its `type` column. */
  function Label(c: Category): string {
    match c
    case P2PKH => "P2PKH"
    case P2SH => "P2SH"
    case P2WPKH => "P2WPKH (Bech32 v0)"
    case P2WSH => "P2WSH (Bech32 v0)"
    case P2TR => "P2TR (Bech32m v1)"
    case FutureSegWit => "Future SegWit (Bech32m v2+)"
    case Other => "Other"
  }

  /** Distinct categories carry distinct labels, so grouping or filtering by
      the `type` text is grouping or filtering by category. */
  lemma LabelsDistinct(c: Category, d: Category)
    ensures Label(c) == Label(d) <==> c == d
  {
    if c != d {
      assert |Label(c)| != |Label(d)| || Label(c)[2] != Label(d)[2] || Label(c)[3] != Label(d)[3];
    }
  }

  // ---------------------------------------------------------------------
  // Alphabets and patterns, as the query spells them

  /** `123456789ABCDEFGHJKLMNPQRSTUVWXYZabcdefghijkmnopqrstuvwxyz`, written as
      its six runs of consecutive characters (the same 58 characters in the
      same order). */
  const Base58Alphabet: string :=
    "123456789" + "ABCDEFGH" + "JKLMN" + "PQRSTUVWXYZ" + "abcdefghijk" + "mnopqrstuvwxyz"
  const Bech32Charset: string := "qpzry9x8gf2tvdw0s3jn54khce6mua7l"

  predicate IsBase58Char(c: char) {
    c in Base58Alphabet
  }

  predicate IsBech32Char(c: char) {
    c in Bech32Charset
  }

  /** The base58 alphabet is the ASCII digits and letters without the four
      look-alikes `0`, `O`, `I` and `l`. */
  lemma Base58AlphabetMeaning(c: char)
    ensures IsBase58Char(c) <==>
      ('1' <= c <= '9' || ('A' <= c <= 'Z' && c != 'I' && c != 'O') || ('a' <= c <= 'z' && c != 'l'))
  {
    assert c in "123456789" <==> '1' <= c <= '9';
    assert c in "ABCDEFGH" <==> 'A' <= c <= 'H';
    assert c in "JKLMN" <==> 'J' <= c <= 'N';
    assert c in "PQRSTUVWXYZ" <==> 'P' <= c <= 'Z';
    assert c in "abcdefghijk" <==> 'a' <= c <= 'k';
    assert c in "mnopqrstuvwxyz" <==> 'm' <= c <= 'z';
  }

  /** The bech32 charset is the digits without `1` and the lower-case
      letters without `b`, `i` and `o`; it holds no upper-case letter. */
  lemma Bech32CharsetMeaning(c: char)
    ensures IsBech32Char(c) <==>
      (('0' <= c <= '9' && c != '1') || ('a' <= c <= 'z' && c != 'b' && c != 'i' && c != 'o'))
  {
  }

  /** `^[<base58>]{26,35}$` (P2PKH and P2SH). */
  const LegacyPattern: Pattern := Pattern(true, [Atom(OneOf(Base58Alphabet), Between(26, 35))], true)

  /** `^<prefix>[<bech32>]+$` (P2WPKH and P2WSH with `bc1q`, P2TR with `bc1p`). */
  function WitnessPattern(prefix: string): Pattern {
    Pattern(true, Literal(prefix) + [Atom(OneOf(Bech32Charset), AtLeast(1))], true)
  }

  /** `[2-9m-z]`, the witness-version class of the last rule. */
  const VersionClass: CharClass := [Range('2', '9'), Range('m', 'z')]

  /** `^bc1[2-9m-z][<bech32>]+$` (Future SegWit). */
  const FutureSegwitPattern: Pattern :=
    Pattern(true, Literal("bc1") + [Atom(VersionClass, Between(1, 1)), Atom(OneOf(Bech32Charset), AtLeast(1))], true)

  // ---------------------------------------------------------------------
  // The WHEN conditions and the CASE expression

  predicate WhenP2pkh(a: string) {
    Like(a, "1%") && Matches(a, LegacyPattern)
  }

  predicate WhenP2sh(a: string) {
    Like(a, "3%") && Matches(a, LegacyPattern)
  }

  predicate WhenP2wpkh(a: string) {
    Like(Lower(a), "bc1q%") && |a| == 42 && Matches(a, WitnessPattern("bc1q"))
  }

  predicate WhenP2wsh(a: string) {
    Like(Lower(a), "bc1q%") && |a| == 62 && Matches(a, WitnessPattern("bc1q"))
  }

  predicate WhenP2tr(a: string) {
    Like(Lower(a), "bc1p%") && Matches(a, WitnessPattern("bc1p"))
  }

  predicate WhenFutureSegwit(a: string) {
    Like(Lower(a), "bc1[2-9m-z]%") && Matches(a, FutureSegwitPattern)
  }

  /** The `CASE` expression: the first `WHEN` that holds decides, `ELSE 'Other'`. */
  function Classify(address: string): Category {
    if WhenP2pkh(address) then P2PKH
    else if WhenP2sh(address) then P2SH
    else if WhenP2wpkh(address) then P2WPKH
    else if WhenP2wsh(address) then P2WSH
    else if WhenP2tr(address) then P2TR
    else if WhenFutureSegwit(address) then FutureSegWit
    else Other
  }

  // ---------------------------------------------------------------------
  // What the patterns accept

  /** `lead`, then only base58 characters, 26 to 35 characters in all. */
  predicate LegacyShape(a: string, lead: char) {
    26 <= |a| <= 35 && a[0] == lead && forall i :: 0 <= i < |a| ==> IsBase58Char(a[i])
  }

  /** `prefix`, then one or more bech32 characters and nothing else. */
  predicate WitnessShape(a: string, prefix: string) {
    |prefix| < |a| && prefix <= a && forall i :: |prefix| <= i < |a| ==> IsBech32Char(a[i])
  }

  lemma LegacyPatternMeaning(a: string)
    ensures Matches(a, LegacyPattern) <==> 26 <= |a| <= 35 && forall i :: 0 <= i < |a| ==> IsBase58Char(a[i])
  {
    AnchoredMatchesWhole(a, LegacyPattern);
    MatchOne(Atom(OneOf(Base58Alphabet), Between(26, 35)), a);
  }

  lemma WitnessPatternMeaning(a: string, prefix: string)
    ensures Matches(a, WitnessPattern(prefix)) <==> WitnessShape(a, prefix)
  {
    var program := Atom(OneOf(Bech32Charset), AtLeast(1));
    AnchoredMatchesWhole(a, WitnessPattern(prefix));
    MatchLiteral(prefix, [program], a);
    if prefix <= a {
      var tail := a[|prefix|..];
      MatchOne(program, tail);
      assert AllInClass(tail, program.cls) <==> forall i :: |prefix| <= i < |a| ==> IsBech32Char(a[i]) by {
        assert forall i :: |prefix| <= i < |a| ==> a[i] == tail[i - |prefix|];
      }
    }
  }

  lemma FutureSegwitPatternMeaning(a: string)
    ensures Matches(a, FutureSegwitPattern) <==>
      5 <= |a| && "bc1" <= a && InClass(a[3], VersionClass)
      && forall i :: 4 <= i < |a| ==> IsBech32Char(a[i])
  {
    var version := Atom(VersionClass, Between(1, 1));
    var program := Atom(OneOf(Bech32Charset), AtLeast(1));
    AnchoredMatchesWhole(a, FutureSegwitPattern);
    MatchLiteral("bc1", [version, program], a);
    if "bc1" <= a {
      var rest := a[3..];
      MatchOneChar(version, [program], rest);
      if rest != [] {
        MatchOne(program, rest[1..]);
        assert AllInClass(rest[1..], program.cls) <==> forall i :: 4 <= i < |a| ==> IsBech32Char(a[i]) by {
          assert forall i :: 4 <= i < |a| ==> a[i] == rest[1..][i - 4];
        }
      }
    }
  }

  // ---------------------------------------------------------------------
  // What each WHEN condition means

  /** A lower-case, wildcard-free prefix of `a` survives `LOWER`, so the
      `LIKE` prefix test of a SegWit rule holds whenever its regex does. */
  lemma LowerKeepsPrefix(a: string, prefix: string)
    requires prefix <= a
    requires forall i :: 0 <= i < |prefix| ==> !IsUpperAscii(prefix[i])
    ensures prefix <= Lower(a)
  {
    forall i | 0 <= i < |prefix| ensures Lower(a)[i] == prefix[i] {
      LowerCharFixes(a[i]);
    }
  }

  lemma WhenP2pkhMeaning(a: string)
    ensures WhenP2pkh(a) <==> LegacyShape(a, '1')
  {
    LikePrefix(a, "1");
    LegacyPatternMeaning(a);
  }

  lemma WhenP2shMeaning(a: string)
    ensures WhenP2sh(a) <==> LegacyShape(a, '3')
  {
    LikePrefix(a, "3");
    LegacyPatternMeaning(a);
  }

  lemma WhenSegwitV0Meaning(a: string)
    ensures WhenP2wpkh(a) <==> |a| == 42 && WitnessShape(a, "bc1q")
    ensures WhenP2wsh(a) <==> |a| == 62 && WitnessShape(a, "bc1q")
  {
    LikePrefix(Lower(a), "bc1q");
    assert "bc1q" + "%" == "bc1q%";
    WitnessPatternMeaning(a, "bc1q");
    if WitnessShape(a, "bc1q") {
      LowerKeepsPrefix(a, "bc1q");
    }
  }

  lemma WhenP2trMeaning(a: string)
    ensures WhenP2tr(a) <==> WitnessShape(a, "bc1p")
  {
    LikePrefix(Lower(a), "bc1p");
    assert "bc1p" + "%" == "bc1p%";
    WitnessPatternMeaning(a, "bc1p");
    if WitnessShape(a, "bc1p") {
      LowerKeepsPrefix(a, "bc1p");
    }
  }

  /** In `LIKE`, `[2-9m-z]` is seven literal characters: the lowered address
      must carry a literal `[` as its fourth character, and only `[` lowers
      to `[`. */
  lemma FutureSegwitLikeNeedsBracket(a: string)
    ensures Like(Lower(a), "bc1[2-9m-z]%") ==> 4 <= |a| && a[3] == '['
  {
    LikePrefix(Lower(a), "bc1[2-9m-z]");
    assert "bc1[2-9m-z]" + "%" == "bc1[2-9m-z]%";
    if "bc1[2-9m-z]" <= Lower(a) {
      assert Lower(a)[3] == '[';
      LowerCharFixes(a[3]);
    }
  }

  /** The Future SegWit `WHEN` can never hold: its `LIKE` wants a literal `[`
      in fourth position, its regex a character of `[2-9m-z]` there. */
  lemma FutureSegwitRuleNeverHolds(a: string)
    ensures !WhenFutureSegwit(a)
  {
    FutureSegwitLikeNeedsBracket(a);
    FutureSegwitPatternMeaning(a);
  }

  // ---------------------------------------------------------------------
  // What each label means

  lemma ClassifyP2pkh(a: string)
    ensures Classify(a) == P2PKH <==> LegacyShape(a, '1')
  {
    WhenP2pkhMeaning(a);
  }

  lemma ClassifyP2sh(a: string)
    ensures Classify(a) == P2SH <==> LegacyShape(a, '3')
  {
    WhenP2pkhMeaning(a);
    WhenP2shMeaning(a);
  }

  lemma ClassifyP2wpkh(a: string)
    ensures Classify(a) == P2WPKH <==> |a| == 42 && WitnessShape(a, "bc1q")
  {
    WhenP2pkhMeaning(a);
    WhenP2shMeaning(a);
    WhenSegwitV0Meaning(a);
  }

  lemma ClassifyP2wsh(a: string)
    ensures Classify(a) == P2WSH <==> |a| == 62 && WitnessShape(a, "bc1q")
  {
    WhenP2pkhMeaning(a);
    WhenP2shMeaning(a);
    WhenSegwitV0Meaning(a);
  }

  lemma ClassifyP2tr(a: string)
    ensures Classify(a) == P2TR <==> WitnessShape(a, "bc1p")
  {
    WhenP2pkhMeaning(a);
    WhenP2shMeaning(a);
    WhenSegwitV0Meaning(a);
    WhenP2trMeaning(a);
  }

  lemma ClassifyNeverFutureSegwit(a: string)
    ensures Classify(a) != FutureSegWit
  {
    FutureSegwitRuleNeverHolds(a);
  }

  lemma ClassifyOther(a: string)
    ensures Classify(a) == Other <==>
      && !LegacyShape(a, '1')
      && !LegacyShape(a, '3')
      && !((|a| == 42 || |a| == 62) && WitnessShape(a, "bc1q"))
      && !WitnessShape(a, "bc1p")
  {
    WhenP2pkhMeaning(a);
    WhenP2shMeaning(a);
    WhenSegwitV0Meaning(a);
    WhenP2trMeaning(a);
    FutureSegwitRuleNeverHolds(a);
  }

  /** An address of the shape the Future SegWit pattern accepts is labelled
      `Other` unless an earlier rule takes it: `p` and `q` also lie in the
      version class, so `bc1p...` is Taproot and `bc1q...` of length 42 or 62
      is SegWit v0. */
  lemma FutureShapeIsOther(a: string)
    requires 5 <= |a| && "bc1" <= a && InClass(a[3], VersionClass)
    requires forall i :: 4 <= i < |a| ==> IsBech32Char(a[i])
    ensures Classify(a) == Other <==> a[3] != 'p' && !(a[3] == 'q' && (|a| == 42 || |a| == 62))
  {
    ClassifyOther(a);
    assert a[..3] == "bc1";
    assert a[0] == 'b';
    if a[3] == 'p' {
      assert a[..4] == "bc1p";
      assert WitnessShape(a, "bc1p");
    } else if a[3] == 'q' {
      assert a[..4] == "bc1q";
      assert WitnessShape(a, "bc1q");
    } else {
      assert !("bc1p" <= a) && !("bc1q" <= a);
    }
  }

  // ---------------------------------------------------------------------
  // Rule order does not matter

  /** The `WHEN` condition of the rule that yields `c`; `Other` has none. */
  predicate When(c: Category, a: string) {
    match c
    case P2PKH => WhenP2pkh(a)
    case P2SH => WhenP2sh(a)
    case P2WPKH => WhenP2wpkh(a)
    case P2WSH => WhenP2wsh(a)
    case P2TR => WhenP2tr(a)
    case FutureSegWit => WhenFutureSegwit(a)
    case Other => false
  }

  /** First-match-wins evaluation of the rules in an arbitrary order. */
  function FirstMatch(order: seq<Category>, a: string): Category {
    if order == [] then Other
    else if When(order[0], a) then order[0]
    else FirstMatch(order[1..], a)
  }

  /** No address satisfies two `WHEN` conditions: they differ in the first
      character, in the fourth, or in the exact length. */
  lemma RulesDisjoint(a: string, c: Category, d: Category)
    ensures When(c, a) && When(d, a) ==> c == d
  {
    WhenP2pkhMeaning(a);
    WhenP2shMeaning(a);
    WhenSegwitV0Meaning(a);
    WhenP2trMeaning(a);
    FutureSegwitRuleNeverHolds(a);
  }

  /** `Classify` yields the label of the rule that holds, or `Other` when
      none does. */
  lemma ClassifyIsTheMatchingRule(a: string)
    ensures Classify(a) != Other ==> When(Classify(a), a)
    ensures Classify(a) == Other <==> forall c :: !When(c, a)
  {
    if Classify(a) == Other {
      forall c ensures !When(c, a) {
      }
    } else {
      assert When(Classify(a), a);
    }
  }

  /** Evaluating the rules in `order` yields the first one whose condition
      holds, or `Other` when none of them holds. */
  lemma {:induction false} FirstMatchMeaning(order: seq<Category>, a: string)
    ensures FirstMatch(order, a) == Other || When(FirstMatch(order, a), a)
    ensures (exists i :: 0 <= i < |order| && When(order[i], a)) ==> When(FirstMatch(order, a), a)
    ensures (forall i :: 0 <= i < |order| ==> !When(order[i], a)) ==> FirstMatch(order, a) == Other
    ensures FirstMatch(order, a) != Other ==>
              exists k :: 0 <= k < |order| && order[k] == FirstMatch(order, a) && When(order[k], a)
                          && forall j :: 0 <= j < k ==> !When(order[j], a)
  {
    if order != [] {
      var rest := order[1..];
      FirstMatchMeaning(rest, a);
      if When(order[0], a) {
        assert order[0] == FirstMatch(order, a);
      } else {
        if exists i :: 0 <= i < |order| && When(order[i], a) {
          var i :| 0 <= i < |order| && When(order[i], a);
          assert rest[i - 1] == order[i];
        }
        if forall i :: 0 <= i < |order| ==> !When(order[i], a) {
          assert forall i :: 0 <= i < |rest| ==> !When(rest[i], a) by {
            forall i | 0 <= i < |rest| ensures !When(rest[i], a) {
              assert rest[i] == order[i + 1];
            }
          }
        }
        if FirstMatch(rest, a) != Other {
          var k :| 0 <= k < |rest| && rest[k] == FirstMatch(rest, a) && When(rest[k], a)
                   && forall j :: 0 <= j < k ==> !When(rest[j], a);
          assert order[k + 1] == rest[k];
          forall j | 0 <= j < k + 1 ensures !When(order[j], a) {
            if j > 0 {
              assert order[j] == rest[j - 1];
            }
          }
        }
      }
    }
  }

  /** Evaluating the six rules in any order that contains them all gives the
      same label as the source's order. */
  lemma FirstMatchAnyOrder(order: seq<Category>, a: string)
    requires forall c :: c != Other ==> c in order
    ensures FirstMatch(order, a) == Classify(a)
  {
    var k := Classify(a);
    FirstMatchMeaning(order, a);
    ClassifyIsTheMatchingRule(a);
    RulesDisjoint(a, FirstMatch(order, a), k);
    if k != Other {
      assert k in order;
      var i :| 0 <= i < |order| && order[i] == k;
      assert When(order[i], a);
    }
  }

  // ---------------------------------------------------------------------
  // Case, length and the spelled-out examples

  /** Every address labelled P2WPKH, P2WSH or P2TR is free of upper-case
      letters: the regex runs on the address itself, not on `LOWER(address)`. */
  lemma SegwitLabelsAreLowercase(a: string)
    ensures Classify(a) in {P2WPKH, P2WSH, P2TR} ==>
      Lower(a) == a && forall i :: 0 <= i < |a| ==> !IsUpperAscii(a[i])
  {
    ClassifyP2wpkh(a);
    ClassifyP2wsh(a);
    ClassifyP2tr(a);
    if Classify(a) in {P2WPKH, P2WSH, P2TR} {
      var prefix := if Classify(a) == P2TR then "bc1p" else "bc1q";
      assert WitnessShape(a, prefix);
      forall i | 0 <= i < |a| ensures !IsUpperAscii(a[i]) {
        if i < 4 {
          assert a[i] == prefix[i];
        } else {
          Bech32CharsetMeaning(a[i]);
        }
      }
      LowerFixedExactly(a);
    }
  }

  /** An address whose `LOWER` starts with `bc1` but which holds an
      upper-case letter anywhere is labelled `Other`, even though the
      `LIKE` prefix tests of the SegWit rules accept it. */
  lemma UppercaseSegwitIsOther(a: string, i: int)
    requires Like(Lower(a), "bc1%")
    requires 0 <= i < |a| && IsUpperAscii(a[i])
    ensures Classify(a) == Other
  {
    LikePrefix(Lower(a), "bc1");
    assert "bc1" + "%" == "bc1%";
    assert LowerChar(a[0]) == 'b';
    ClassifyP2pkh(a);
    ClassifyP2sh(a);
    SegwitLabelsAreLowercase(a);
    ClassifyNeverFutureSegwit(a);
  }

  /** The SegWit rules are not case-insensitive: the same 38-character
      program after `bc1q` and after `BC1Q` gets two different labels. */
  lemma UppercasePrefixIsNotFolded(x: string)
    requires |x| == 38 && forall i :: 0 <= i < |x| ==> IsBech32Char(x[i])
    ensures Classify("bc1q" + x) == P2WPKH
    ensures Classify("BC1Q" + x) == Other
  {
    LowerPrefixIsP2wpkh(x);
    UpperPrefixIsOther(x);
  }

  /** The `bc1q` half of `UppercasePrefixIsNotFolded`. */
  lemma LowerPrefixIsP2wpkh(x: string)
    requires |x| == 38 && forall i :: 0 <= i < |x| ==> IsBech32Char(x[i])
    ensures Classify("bc1q" + x) == P2WPKH
  {
    var lower := "bc1q" + x;
    assert WitnessShape(lower, "bc1q") by {
      assert lower[..4] == "bc1q";
      forall i | 4 <= i < |lower| ensures IsBech32Char(lower[i]) {
        assert lower[i] == x[i - 4];
      }
    }
    ClassifyP2wpkh(lower);
  }

  /** The `BC1Q` half of `UppercasePrefixIsNotFolded`. */
  lemma UpperPrefixIsOther(x: string)
    ensures Classify("BC1Q" + x) == Other
  {
    var upper := "BC1Q" + x;
    var folded := Lower(upper);
    assert upper[0] == 'B' && upper[1] == 'C' && upper[2] == '1';
    assert folded[0] == LowerChar('B') == 'b';
    assert folded[1] == LowerChar('C') == 'c';
    assert folded[2] == LowerChar('1') == '1';
    assert "bc1" <= folded;
    LikePrefix(folded, "bc1");
    assert "bc1" + "%" == "bc1%";
    UppercaseSegwitIsOther(upper, 0);
  }

  /** A `bc1q` address with a valid program but a length other than 42 or 62
      is `Other`: there is no separate bucket for it. */
  lemma SegwitV0LengthIsExact(a: string)
    requires WitnessShape(a, "bc1q") && |a| != 42 && |a| != 62
    ensures Classify(a) == Other
  {
    ClassifyOther(a);
  }

  /** An address starting with `1` or `3` outside 26..35 characters is `Other`. */
  lemma LegacyLengthIsBounded(a: string)
    requires |a| > 0 && (a[0] == '1' || a[0] == '3')
    requires |a| < 26 || 35 < |a|
    ensures Classify(a) == Other
  {
    ClassifyOther(a);
  }

  /** The addresses used as examples of each label. */
  lemma ExampleP2pkh()
    ensures Classify("1BvBMSEYstWetqTFn5Au4m4GFg7xJaNVN2") == P2PKH
  {
    var a := "1BvBMSEYstWetqTFn5Au4m4GFg7xJaNVN2";
    forall i | 0 <= i < |a| ensures IsBase58Char(a[i]) {
      Base58AlphabetMeaning(a[i]);
    }
    ClassifyP2pkh(a);
  }

  lemma ExampleP2sh()
    ensures Classify("3J98t1WpEZ73CNmQviecrnyiWrnqRhWNLy") == P2SH
  {
    var a := "3J98t1WpEZ73CNmQviecrnyiWrnqRhWNLy";
    forall i | 0 <= i < |a| ensures IsBase58Char(a[i]) {
      Base58AlphabetMeaning(a[i]);
    }
    ClassifyP2sh(a);
  }

  lemma ExampleP2wpkh()
    ensures Classify("bc1qw508d6qejxtdg4y5r3zarvary0c5xw7kv8f3t4") == P2WPKH
  {
    var a := "bc1qw508d6qejxtdg4y5r3zarvary0c5xw7kv8f3t4";
    forall i | 4 <= i < |a| ensures IsBech32Char(a[i]) {
      Bech32CharsetMeaning(a[i]);
    }
    ClassifyP2wpkh(a);
  }

  /** Appending bech32 characters keeps a witness-program shape. */
  lemma WitnessShapeExtends(a: string, prefix: string, y: string)
    requires WitnessShape(a, prefix)
    requires forall i :: 0 <= i < |y| ==> IsBech32Char(y[i])
    ensures WitnessShape(a + y, prefix)
  {
    assert (a + y)[..|a|] == a;
    forall i | |prefix| <= i < |a + y| ensures IsBech32Char((a + y)[i]) {
      if i >= |a| {
        assert (a + y)[i] == y[i - |a|];
      }
    }
  }

  /** The Taproot example, cut in two halves of 31 characters. */
  lemma ExampleP2trHalves()
    ensures "bc1p5cyxnuxmeuwuvkwfem96lqzszd02n6xdcjrs20cac6yqjjwudpjxqfcngc"
      == "bc1p5cyxnuxmeuwuvkwfem96lqzszd0" + "2n6xdcjrs20cac6yqjjwudpjxqfcngc"
  {
  }

  lemma ExampleP2trFirstHalf()
    ensures WitnessShape("bc1p5cyxnuxmeuwuvkwfem96lqzszd0", "bc1p")
  {
    var x := "bc1p5cyxnuxmeuwuvkwfem96lqzszd0";
    forall i | 4 <= i < |x| ensures IsBech32Char(x[i]) {
      Bech32CharsetMeaning(x[i]);
    }
  }

  lemma ExampleP2trSecondHalf()
    ensures forall i :: 0 <= i < 31 ==> IsBech32Char("2n6xdcjrs20cac6yqjjwudpjxqfcngc"[i])
  {
    var y := "2n6xdcjrs20cac6yqjjwudpjxqfcngc";
    forall i | 0 <= i < |y| ensures IsBech32Char(y[i]) {
      Bech32CharsetMeaning(y[i]);
    }
  }

  lemma ExampleP2tr()
    ensures Classify("bc1p5cyxnuxmeuwuvkwfem96lqzszd02n6xdcjrs20cac6yqjjwudpjxqfcngc") == P2TR
  {
    ExampleP2trHalves();
    ExampleP2trFirstHalf();
    ExampleP2trSecondHalf();
    WitnessShapeExtends("bc1p5cyxnuxmeuwuvkwfem96lqzszd0", "bc1p", "2n6xdcjrs20cac6yqjjwudpjxqfcngc");
    ClassifyP2tr("bc1p5cyxnuxmeuwuvkwfem96lqzszd0" + "2n6xdcjrs20cac6yqjjwudpjxqfcngc");
  }

  lemma ExampleOther()
    ensures Classify("not_an_address") == Other
  {
    ClassifyOther("not_an_address");
  }
}
