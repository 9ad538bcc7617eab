# Bitcoin address classifier — a Dafny model

The script `count.py` reads a table of Bitcoin addresses and labels each address with a `CASE` expression. The labels are:

- `P2PKH` (legacy, leading `1`)
- `P2SH` (leading `3`)
- `P2WPKH (Bech32 v0)` and `P2WSH (Bech32 v0)`: native SegWit v0, 42 or 62 characters
- `P2TR (Bech32m v1)`: Taproot
- `Future SegWit (Bech32m v2+)`
- `Other`

It then prints how many addresses carry each label, most frequent first. It also writes every address labelled `Other` to a CSV file.

This project models that pipeline as pure functions, and proves what each label means.

- `SqlLike` holds the two SQL string operators the `CASE` uses.
  - `Like` is DuckDB `LIKE`: `%` and `_` are wildcards, every other character is literal (brackets included), there is no escape character, and the match is case-sensitive.
  - `Lower` is `LOWER`, restricted to ASCII.
- `Re2` holds the subset of RE2 that the `REGEXP_MATCHES` patterns use:
  - character classes built from characters and ranges;
  - the repeats `{m,n}`, `+` and exactly-once;
  - the `^` and `$` anchors.

  `Matches` has search semantics, so a pattern anchored at both ends matches the whole string.
- `Classifier` holds the rest of the classification.
  - `Classify` is the `CASE`: the six `WHEN` conditions are tested in source order, and the first one that holds wins.
  - The lemmas give each label a closed form: the set of addresses that receive it, stated without `LIKE` or regular expressions.
- `Summary` holds the two queries that consume the labels.
  - `Summary` is `GROUP BY type ORDER BY count DESC`.
  - `Others` is the export query, `WHERE type = 'Other'`.
  - Both are defined over a sequence of addresses.

### Two consequences of the conditions as written

The model follows the code as written, and two of its consequences are proved:

- **Native SegWit is matched case-sensitively.** The `LOWER(address) LIKE 'bc1q%'` and `LIKE 'bc1p%'` prefix tests (count.py:33, 41, 49) compare the lower-cased address. The regular expressions that follow them (count.py:37, 45, 52) compare the address itself. They accept only lower-case `bc1q`/`bc1p` and the lower-case bech32 charset. An address written in upper case is therefore labelled `Other`. `UppercaseSegwitIsOther` and `UppercasePrefixIsNotFolded` prove this.
- **No address receives the label `Future SegWit (Bech32m v2+)`.** In `LIKE`, `[2-9m-z]` is not a class: it is the literal text `[2-9m-z]`. The `LIKE` test at count.py:56 therefore needs a `[` as the fourth character, while the regular expression at count.py:59 needs a character from `2-9` or `m-z` there. `FutureSegwitRuleNeverHolds` and `ClassifyNeverFutureSegwit` prove that the two tests never hold together. An address of the shape the regular expression at count.py:59 accepts is labelled `Other` unless an earlier rule takes it. Only two such shapes are taken, because `p` and `q` also lie in `m-z`: `bc1p…` is Taproot, and `bc1q…` of length 42 or 62 is SegWit v0. `FutureShapeIsOther` proves this.

## Model

| member | source | states |
|---|---|---|
| SqlLike.PercentAcceptsAll | count.py:19 | the pattern `%` accepts every string |
| SqlLike.LikePrefix | count.py:19 | `s LIKE 'w%'` with a wildcard-free `w` holds exactly when `w` is a prefix of `s` |
| SqlLike.Lower | count.py:33 | `LOWER` keeps the length of the string |
| SqlLike.LowerFixedExactly | count.py:33 | `LOWER(s) = s` exactly when `s` has no upper-case ASCII letter |
| Re2.OneOf | count.py:22 | a bracket class listing characters admits exactly those characters |
| Re2.AnchoredMatchesWhole | count.py:20-22 | with `^` and `$`, `REGEXP_MATCHES` holds exactly when the atoms match the whole string |
| Re2.MatchOne | count.py:22 | one repeated class matches `s` exactly when `|s|` is an admissible count and every character is in the class |
| Re2.MatchOneChar | count.py:59 | a single-character class in front of more atoms consumes exactly the first character |
| Re2.MatchLiteral | count.py:37 | literal pattern text `w` in front of more atoms consumes exactly the prefix `w` |
| Classifier.LabelsDistinct | count.py:23-63 | the seven label strings are pairwise different, so `type = 'Other'` selects exactly the `Other` category |
| Classifier.Base58AlphabetMeaning | count.py:22 | the legacy class is the digits 1-9, A-Z without I and O, and a-z without l |
| Classifier.Bech32CharsetMeaning | count.py:37 | the bech32 class is the digits without 1, and a-z without b, i and o |
| Classifier.LegacyPatternMeaning | count.py:20-22 | the legacy pattern matches exactly the strings of 26 to 35 base58 characters |
| Classifier.WitnessPatternMeaning | count.py:35-37 | `^bc1q[...]+$` (likewise `bc1p`) matches exactly prefix + at least one bech32 character |
| Classifier.FutureSegwitPatternMeaning | count.py:57-59 | the Future SegWit pattern matches exactly `bc1`, then a character from 2-9 or m-z, then at least one bech32 character |
| Classifier.LowerKeepsPrefix | count.py:33 | when the address starts with a lower-case prefix, so does its `LOWER` |
| Classifier.WhenP2pkhMeaning | count.py:19-22 | the P2PKH condition holds exactly for 26 to 35 base58 characters starting with `1` |
| Classifier.WhenP2shMeaning | count.py:26-29 | the P2SH condition holds exactly for 26 to 35 base58 characters starting with `3` |
| Classifier.WhenSegwitV0Meaning | count.py:33-45 | the two v0 conditions hold exactly for lower-case `bc1q` + bech32 of length 42, respectively 62 |
| Classifier.WhenP2trMeaning | count.py:49-52 | the Taproot condition holds exactly for lower-case `bc1p` + at least one bech32 character |
| Classifier.FutureSegwitLikeNeedsBracket | count.py:56 | `LOWER(a) LIKE 'bc1[2-9m-z]%'` forces a literal `[` at index 3 |
| Classifier.FutureSegwitRuleNeverHolds | count.py:56-59 | no address satisfies the Future SegWit condition |
| Classifier.ClassifyP2pkh | count.py:19-23 | an address is labelled `P2PKH` exactly when it is 26 to 35 base58 characters starting with `1` |
| Classifier.ClassifyP2sh | count.py:26-30 | an address is labelled `P2SH` exactly when it is 26 to 35 base58 characters starting with `3` |
| Classifier.ClassifyP2wpkh | count.py:33-38 | an address is labelled `P2WPKH` exactly when it is 42 characters, `bc1q` then bech32 |
| Classifier.ClassifyP2wsh | count.py:41-46 | an address is labelled `P2WSH` exactly when it is 62 characters, `bc1q` then bech32 |
| Classifier.ClassifyP2tr | count.py:49-53 | an address is labelled `P2TR` exactly when it is `bc1p` then at least one bech32 character |
| Classifier.ClassifyNeverFutureSegwit | count.py:56-60 | no address is labelled `Future SegWit` |
| Classifier.FutureShapeIsOther | count.py:17-64 | an address of the shape `^bc1[2-9m-z][bech32]+$` is labelled `Other` exactly when it is neither `bc1p…` nor `bc1q…` of length 42 or 62 |
| Classifier.ClassifyOther | count.py:62-63 | an address is labelled `Other` exactly when it has none of the five shapes above |
| Classifier.RulesDisjoint | count.py:17-60 | no address satisfies two `WHEN` conditions, so the first-match order never decides |
| Classifier.ClassifyIsTheMatchingRule | count.py:17-64 | the label is the category whose condition holds, or `Other` when none does |
| Classifier.FirstMatchMeaning | count.py:17-64 | evaluating the conditions in a given order yields the first one that holds, else `Other` |
| Classifier.FirstMatchAnyOrder | count.py:17-64 | evaluating the six conditions in any order gives the same label as the source order |
| Classifier.SegwitLabelsAreLowercase | count.py:33-53 | every address labelled P2WPKH, P2WSH or P2TR is entirely lower-case |
| Classifier.UppercaseSegwitIsOther | count.py:33-60 | an address whose `LOWER` starts with `bc1` but which has an upper-case letter is labelled `Other` |
| Classifier.UppercasePrefixIsNotFolded | count.py:33-38 | `bc1q` + 38 bech32 characters is P2WPKH, and the same address with `BC1Q` is `Other` |
| Classifier.LowerPrefixIsP2wpkh | count.py:33-38 | `bc1q` + 38 bech32 characters is labelled P2WPKH |
| Classifier.UpperPrefixIsOther | count.py:33-60 | any address starting with `BC1Q` is labelled `Other` |
| Classifier.SegwitV0LengthIsExact | count.py:33-46 | a well-formed `bc1q` address whose length is neither 42 nor 62 is labelled `Other` |
| Classifier.LegacyLengthIsBounded | count.py:19-30 | an address starting with `1` or `3` but shorter than 26 or longer than 35 characters is labelled `Other` |
| Classifier.ExampleP2pkh | count.py:19-23 | `1BvBMSEYstWetqTFn5Au4m4GFg7xJaNVN2` is labelled P2PKH |
| Classifier.ExampleP2sh | count.py:26-30 | `3J98t1WpEZ73CNmQviecrnyiWrnqRhWNLy` is labelled P2SH |
| Classifier.ExampleP2wpkh | count.py:33-38 | `bc1qw508d6qejxtdg4y5r3zarvary0c5xw7kv8f3t4` is labelled P2WPKH |
| Classifier.ExampleP2tr | count.py:49-53 | a 62-character `bc1p` address is labelled P2TR |
| Classifier.ExampleOther | count.py:62-63 | `not_an_address` is labelled `Other` |
| Summary.CountOf | count.py:70-72 | a group count is at most the number of rows, and it is zero exactly when no address has that label |
| Summary.CountOfAppend | count.py:70-72 | counting over two concatenated batches is the sum of the two counts |
| Summary.CountsCoverRows | count.py:70-72 | the counts over all seven categories add up to the number of addresses |
| Summary.GroupRowsMeaning | count.py:70-72 | the grouped rows are exactly the present categories, each with its count |
| Summary.GroupRowsTotal | count.py:70-72 | the grouped counts add up to the counts of the grouped categories |
| Summary.GroupRowsDistinct | count.py:72 | grouping a list of distinct categories gives at most one row per category |
| Summary.GroupRowsAbsent | count.py:72 | a category with no rows produces no group |
| Summary.InsertByCount | count.py:73 | inserting a row into the ordered rows keeps every row, adding the new one |
| Summary.SortByCountDesc | count.py:73 | ordering by count keeps exactly the same rows |
| Summary.SortByCountDescSorted | count.py:73 | the ordered rows have non-increasing counts |
| Summary.SortByCountDescTotal | count.py:73 | ordering keeps the sum of the counts |
| Summary.SortByCountDescDistinct | count.py:73 | ordering keeps the categories distinct |
| Summary.Summary | count.py:69-74 | the summary has one row per present label, each with its exact count, and the rows are distinct, ordered by count descending and add up to the number of addresses |
| Summary.Others | count.py:78-83 | the export holds only addresses labelled `Other`, as many as the `Other` count |
| Summary.OthersMultiset | count.py:80-82 | each address appears in the export as often as in the input when it is labelled `Other`, and never otherwise |
| Summary.ExportMatchesSummary | count.py:69-83 | the summary has an `Other` row exactly when the export is non-empty, and that row's count is the number of exported addresses |
| Summary.OthersAppend | count.py:78-83 | the export of two concatenated batches is the two exports concatenated |
| Summary.ExampleSummary | count.py:69-74 | the same P2PKH address twice and one P2SH address summarise to `[(P2PKH, 2), (P2SH, 1)]` |

## Left out

- The DuckDB connection, `PRAGMA threads` and `read_parquet` are not modelled. The input table is a parameter: a sequence of address strings.
- Parallel execution is left out. `CountOfAppend` and `OthersAppend` state that counting and exporting split over batches.
- Printing the summary data frame and the progress message is left out. These are I/O.
- The file write of `COPY ... TO 'other_addresses.csv'` is left out. Its header and delimiter are I/O. `Others` models the selected rows.
- Summary: the order among labels with equal counts is left out. SQL leaves it unspecified. The contract states only what holds for any order: the order is non-increasing, the rows are distinct, and their contents are exact. The function picks one order by insertion.
- Others: the row order of the export is left out, because SQL does not fix it. The function keeps input order. `OthersMultiset` states the selected addresses as a multiset.
- `NULL` addresses are left out. `CASE` would label them `Other`, but addresses are modelled as plain strings.
- Lower: only ASCII letters are lowered. Non-ASCII letters can never satisfy the ASCII-only regular expressions, so this does not affect any label.
- Checksums are left out. The source never validates a Base58Check or bech32 checksum, so the model does not either.
- Re2: only the regular-expression features that appear in the four patterns are modelled.
