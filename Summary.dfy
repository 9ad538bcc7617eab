/**
 * The two queries count.py runs over the classified view: the per-type
 * summary (`GROUP BY type ... ORDER BY count DESC`) and the export of every
 * address labelled `Other`. The rows of the input file are a sequence of
 * address strings; duplicates are separate rows.
 */
module Summary {
  import opened Classifier

  /** `COUNT(*)` over the rows whose label is that of `c`. */
  function CountOf(xs: seq<string>, c: Category): (n: nat)
    ensures n <= |xs|
    ensures n == 0 <==> forall i :: 0 <= i < |xs| ==> Classify(xs[i]) != c
  {
    if xs == [] then 0
    else
      assert forall i :: 1 <= i < |xs| ==> xs[1..][i - 1] == xs[i];
      (if Classify(xs[0]) == c then 1 else 0) + CountOf(xs[1..], c)
  }

  /** Counting two batches of rows apart and adding the counts gives the
      count over both: the per-category merge of a partitioned scan. */
  lemma {:induction false} CountOfAppend(xs: seq<string>, ys: seq<string>, c: Category)
    ensures CountOf(xs + ys, c) == CountOf(xs, c) + CountOf(ys, c)
  {
    if xs == [] {
      assert xs + ys == ys;
    } else {
      assert (xs + ys)[0] == xs[0];
      assert (xs + ys)[1..] == xs[1..] + ys;
      CountOfAppend(xs[1..], ys, c);
    }
  }

  const AllCategories: seq<Category> := [P2PKH, P2SH, P2WPKH, P2WSH, P2TR, FutureSegWit, Other]

  lemma AllCategoriesListed(c: Category)
    ensures multiset(AllCategories)[c] == 1
  {
  }

  /** The counts of the categories in `cs`, added up. */
  function SumOver(cs: seq<Category>, xs: seq<string>): nat {
    if cs == [] then 0 else CountOf(xs, cs[0]) + SumOver(cs[1..], xs)
  }

  /** One more row adds one to the sum, once for each time its category is listed. */
  lemma {:induction false} SumOverStep(cs: seq<Category>, x: string, rest: seq<string>)
    ensures SumOver(cs, [x] + rest) == multiset(cs)[Classify(x)] + SumOver(cs, rest)
  {
    if cs != [] {
      assert cs == [cs[0]] + cs[1..];
      assert ([x] + rest)[0] == x && ([x] + rest)[1..] == rest;
      SumOverStep(cs[1..], x, rest);
    }
  }

  lemma {:induction false} SumOverNoRows(cs: seq<Category>)
    ensures SumOver(cs, []) == 0
  {
    if cs != [] {
      SumOverNoRows(cs[1..]);
    }
  }

  /** Every row is counted under exactly one category. */
  lemma {:induction false} CountsCoverRows(xs: seq<string>)
    ensures SumOver(AllCategories, xs) == |xs|
  {
    if xs != [] {
      var rest := xs[1..];
      assert xs == [xs[0]] + rest;
      CountsCoverRows(rest);
      SumOverStep(AllCategories, xs[0], rest);
      AllCategoriesListed(Classify(xs[0]));
    } else {
      SumOverNoRows(AllCategories);
    }
  }

  // ---------------------------------------------------------------------
  // GROUP BY type ... ORDER BY count DESC

  datatype SummaryRow = SummaryRow(category: Category, count: nat)

  function Total(rows: seq<SummaryRow>): nat {
    if rows == [] then 0 else rows[0].count + Total(rows[1..])
  }

  predicate DistinctCategories(rows: seq<SummaryRow>) {
    forall i, j :: 0 <= i < j < |rows| ==> rows[i].category != rows[j].category
  }

  predicate SortedByCountDesc(rows: seq<SummaryRow>) {
    forall i, j :: 0 <= i < j < |rows| ==> rows[i].count >= rows[j].count
  }

  /** One row for each category of `cs` that occurs in `xs`, in the order of `cs`. */
  function GroupRows(cs: seq<Category>, xs: seq<string>): seq<SummaryRow> {
    if cs == [] then []
    else if CountOf(xs, cs[0]) >= 1 then [SummaryRow(cs[0], CountOf(xs, cs[0]))] + GroupRows(cs[1..], xs)
    else GroupRows(cs[1..], xs)
  }

  /** The grouped rows are exactly the categories of `cs` that occur, each
      with its count. */
  lemma {:induction false} GroupRowsMeaning(cs: seq<Category>, xs: seq<string>)
    ensures forall r :: r in GroupRows(cs, xs) ==> r.category in cs && r.count >= 1 && r.count == CountOf(xs, r.category)
    ensures forall c :: c in cs && CountOf(xs, c) >= 1 ==> SummaryRow(c, CountOf(xs, c)) in GroupRows(cs, xs)
  {
    if cs != [] {
      var rest := GroupRows(cs[1..], xs);
      GroupRowsMeaning(cs[1..], xs);
      assert forall c :: c in cs ==> c == cs[0] || c in cs[1..];
      assert forall c :: c in cs[1..] ==> c in cs;
      var n := CountOf(xs, cs[0]);
      assert n >= 1 ==> GroupRows(cs, xs) == [SummaryRow(cs[0], n)] + rest;
    }
  }

  /** The grouped counts add up to the counts of `cs`. */
  lemma {:induction false} GroupRowsTotal(cs: seq<Category>, xs: seq<string>)
    ensures Total(GroupRows(cs, xs)) == SumOver(cs, xs)
  {
    if cs != [] {
      GroupRowsTotal(cs[1..], xs);
      var rows := GroupRows(cs, xs);
      if CountOf(xs, cs[0]) >= 1 {
        assert rows[1..] == GroupRows(cs[1..], xs);
      }
    }
  }

  /** Listing each category once gives each row once. */
  lemma {:induction false} GroupRowsDistinct(cs: seq<Category>, xs: seq<string>)
    requires forall i, j :: 0 <= i < j < |cs| ==> cs[i] != cs[j]
    ensures DistinctCategories(GroupRows(cs, xs))
  {
    if cs != [] {
      var rest := GroupRows(cs[1..], xs);
      GroupRowsDistinct(cs[1..], xs);
      if CountOf(xs, cs[0]) >= 1 {
        GroupRowsMeaning(cs[1..], xs);
        assert cs[0] !in cs[1..];
        assert Lacks(rest, cs[0]) by {
          forall k | 0 <= k < |rest| ensures rest[k].category != cs[0] {
            assert rest[k] in rest;
          }
        }
      }
    }
  }

  /** Categories that occur nowhere give no rows. */
  lemma {:induction false} GroupRowsAbsent(cs: seq<Category>, xs: seq<string>)
    requires forall i :: 0 <= i < |cs| ==> CountOf(xs, cs[i]) == 0
    ensures GroupRows(cs, xs) == []
  {
    if cs != [] {
      GroupRowsAbsent(cs[1..], xs);
    }
  }

  /** No row counts more than `n`. */
  predicate CountsAtMost(rows: seq<SummaryRow>, n: nat) {
    forall k :: 0 <= k < |rows| ==> rows[k].count <= n
  }

  /** No row is about category `c`. */
  predicate Lacks(rows: seq<SummaryRow>, c: Category) {
    forall k :: 0 <= k < |rows| ==> rows[k].category != c
  }

  /** Puts `r` in front of the first row whose count is not larger. */
  function InsertByCount(r: SummaryRow, rows: seq<SummaryRow>): (out: seq<SummaryRow>)
    ensures multiset(out) == multiset(rows) + multiset{r}
  {
    if rows == [] || rows[0].count <= r.count then
      [r] + rows
    else
      assert rows == [rows[0]] + rows[1..];
      [rows[0]] + InsertByCount(r, rows[1..])
  }

  lemma {:induction false} InsertByCountTotal(r: SummaryRow, rows: seq<SummaryRow>)
    ensures Total(InsertByCount(r, rows)) == r.count + Total(rows)
  {
    if rows != [] && rows[0].count > r.count {
      InsertByCountTotal(r, rows[1..]);
    }
  }

  /** Inserting keeps every bound on counts and categories that `r` itself
      respects. */
  lemma {:induction false} InsertByCountBounds(r: SummaryRow, rows: seq<SummaryRow>, n: nat, c: Category)
    ensures CountsAtMost(rows, n) && r.count <= n ==> CountsAtMost(InsertByCount(r, rows), n)
    ensures Lacks(rows, c) && r.category != c ==> Lacks(InsertByCount(r, rows), c)
  {
    var out := InsertByCount(r, rows);
    if rows != [] && rows[0].count > r.count {
      InsertByCountBounds(r, rows[1..], n, c);
      assert out == [rows[0]] + InsertByCount(r, rows[1..]);
    }
  }

  lemma {:induction false} InsertByCountSorted(r: SummaryRow, rows: seq<SummaryRow>)
    requires SortedByCountDesc(rows)
    ensures SortedByCountDesc(InsertByCount(r, rows))
  {
    if rows != [] && rows[0].count > r.count {
      var rest := InsertByCount(r, rows[1..]);
      InsertByCountSorted(r, rows[1..]);
      assert CountsAtMost(rows[1..], rows[0].count);
      InsertByCountBounds(r, rows[1..], rows[0].count, r.category);
      assert InsertByCount(r, rows) == [rows[0]] + rest;
    }
  }

  lemma {:induction false} InsertByCountDistinct(r: SummaryRow, rows: seq<SummaryRow>)
    requires DistinctCategories(rows) && Lacks(rows, r.category)
    ensures DistinctCategories(InsertByCount(r, rows))
  {
    if rows != [] && rows[0].count > r.count {
      var rest := InsertByCount(r, rows[1..]);
      InsertByCountDistinct(r, rows[1..]);
      assert Lacks(rows[1..], rows[0].category);
      InsertByCountBounds(r, rows[1..], 0, rows[0].category);
      assert InsertByCount(r, rows) == [rows[0]] + rest;
    }
  }

  /** Insertion sort on the counts, largest first. */
  function SortByCountDesc(rows: seq<SummaryRow>): (out: seq<SummaryRow>)
    ensures multiset(out) == multiset(rows)
  {
    if rows == [] then []
    else
      assert rows == [rows[0]] + rows[1..];
      InsertByCount(rows[0], SortByCountDesc(rows[1..]))
  }

  lemma {:induction false} SortByCountDescTotal(rows: seq<SummaryRow>)
    ensures Total(SortByCountDesc(rows)) == Total(rows)
  {
    if rows != [] {
      SortByCountDescTotal(rows[1..]);
      InsertByCountTotal(rows[0], SortByCountDesc(rows[1..]));
    }
  }

  /** The sorted rows come largest count first. */
  lemma {:induction false} SortByCountDescSorted(rows: seq<SummaryRow>)
    ensures SortedByCountDesc(SortByCountDesc(rows))
  {
    if rows != [] {
      SortByCountDescSorted(rows[1..]);
      InsertByCountSorted(rows[0], SortByCountDesc(rows[1..]));
    }
  }

  lemma {:induction false} SortByCountDescLacks(rows: seq<SummaryRow>, c: Category)
    requires Lacks(rows, c)
    ensures Lacks(SortByCountDesc(rows), c)
  {
    if rows != [] {
      SortByCountDescLacks(rows[1..], c);
      InsertByCountBounds(rows[0], SortByCountDesc(rows[1..]), 0, c);
    }
  }

  lemma {:induction false} SortByCountDescDistinct(rows: seq<SummaryRow>)
    requires DistinctCategories(rows)
    ensures DistinctCategories(SortByCountDesc(rows))
  {
    if rows != [] {
      var rest := SortByCountDesc(rows[1..]);
      SortByCountDescDistinct(rows[1..]);
      assert Lacks(rows[1..], rows[0].category);
      SortByCountDescLacks(rows[1..], rows[0].category);
      InsertByCountDistinct(rows[0], rest);
    }
  }

  lemma AllCategoriesDistinct()
    ensures forall i, j :: 0 <= i < j < |AllCategories| ==> AllCategories[i] != AllCategories[j]
  {
  }

  /** The summary table: one row per label present with its count, largest
      count first. Rows with equal counts come in no fixed order in the
      source; this model picks one. */
  function Summary(xs: seq<string>): (rows: seq<SummaryRow>)
    ensures SortedByCountDesc(rows)
    ensures DistinctCategories(rows)
    ensures forall r :: r in rows ==> r.count >= 1 && r.count == CountOf(xs, r.category)
    ensures forall c :: CountOf(xs, c) >= 1 ==> SummaryRow(c, CountOf(xs, c)) in rows
    ensures Total(rows) == |xs|
  {
    var grouped := GroupRows(AllCategories, xs);
    var rows := SortByCountDesc(grouped);
    SummaryShape(xs, grouped, rows);
    SummaryContents(xs, grouped, rows);
    rows
  }

  lemma SummaryShape(xs: seq<string>, grouped: seq<SummaryRow>, rows: seq<SummaryRow>)
    requires grouped == GroupRows(AllCategories, xs) && rows == SortByCountDesc(grouped)
    ensures SortedByCountDesc(rows)
    ensures DistinctCategories(rows)
    ensures Total(rows) == |xs|
  {
    CountsCoverRows(xs);
    AllCategoriesDistinct();
    GroupRowsTotal(AllCategories, xs);
    GroupRowsDistinct(AllCategories, xs);
    SortByCountDescSorted(grouped);
    SortByCountDescTotal(grouped);
    SortByCountDescDistinct(grouped);
  }

  lemma SummaryContents(xs: seq<string>, grouped: seq<SummaryRow>, rows: seq<SummaryRow>)
    requires grouped == GroupRows(AllCategories, xs) && rows == SortByCountDesc(grouped)
    ensures forall r :: r in rows ==> r.count >= 1 && r.count == CountOf(xs, r.category)
    ensures forall c :: CountOf(xs, c) >= 1 ==> SummaryRow(c, CountOf(xs, c)) in rows
  {
    GroupRowsMeaning(AllCategories, xs);
    forall c ensures c in AllCategories {
      AllCategoriesListed(c);
    }
    assert forall r :: r in rows <==> r in grouped by {
      assert forall r :: r in rows <==> r in multiset(rows);
      assert forall r :: r in grouped <==> r in multiset(grouped);
    }
  }

  // ---------------------------------------------------------------------
  // WHERE type = 'Other'

  /** The exported addresses: the rows whose `type` is the text `Other`,
      duplicates kept. */
  function Others(xs: seq<string>): (out: seq<string>)
    ensures |out| == CountOf(xs, Other)
    ensures forall a :: a in out ==> Classify(a) == Other
  {
    if xs == [] then []
    else
      LabelsDistinct(Classify(xs[0]), Other);
      (if Label(Classify(xs[0])) == "Other" then [xs[0]] else []) + Others(xs[1..])
  }

  /** The export keeps every `Other` row, as many times as it occurs, and
      nothing else. */
  lemma {:induction false} OthersMultiset(xs: seq<string>, a: string)
    ensures multiset(Others(xs))[a] == if Classify(a) == Other then multiset(xs)[a] else 0
  {
    if xs != [] {
      assert xs == [xs[0]] + xs[1..];
      OthersMultiset(xs[1..], a);
      LabelsDistinct(Classify(xs[0]), Other);
    }
  }

  /** The export holds as many addresses as the summary's `Other` row
      counts, and the summary has an `Other` row exactly when the export is
      not empty. */
  lemma ExportMatchesSummary(xs: seq<string>)
    ensures Others(xs) != [] <==> SummaryRow(Other, |Others(xs)|) in Summary(xs)
    ensures forall r :: r in Summary(xs) && r.category == Other ==> r.count == |Others(xs)|
  {
  }

  /** Exporting two batches apart and concatenating gives the export of both. */
  lemma {:induction false} OthersAppend(xs: seq<string>, ys: seq<string>)
    ensures Others(xs + ys) == Others(xs) + Others(ys)
  {
    if xs == [] {
      assert xs + ys == ys;
    } else {
      assert (xs + ys)[0] == xs[0];
      assert (xs + ys)[1..] == xs[1..] + ys;
      OthersAppend(xs[1..], ys);
    }
  }

  lemma CountsOfPair(a: string, b: string)
    requires Classify(a) == P2PKH && Classify(b) == P2SH
    ensures CountOf([a, a, b], P2PKH) == 2 && CountOf([a, a, b], P2SH) == 1
    ensures forall c :: CountOf([a, a, b], c) >= 1 ==> c == P2PKH || c == P2SH
  {
    var xs := [a, a, b];
    assert xs[0] == a && xs[1..] == [a, b];
    assert xs[1..][0] == a && xs[1..][1..] == [b];
    assert [b][0] == b && [b][1..] == [];
    assert CountOf([b], P2PKH) == 0 && CountOf([b], P2SH) == 1;
    assert CountOf([a, b], P2PKH) == 1 && CountOf([a, b], P2SH) == 1;
    forall c | c != P2PKH && c != P2SH ensures CountOf(xs, c) == 0 {
      assert forall i :: 0 <= i < |xs| ==> Classify(xs[i]) != c;
    }
  }

  /** Grouping one P2PKH address twice and one P2SH address. */
  lemma GroupedPair(a: string, b: string)
    requires Classify(a) == P2PKH && Classify(b) == P2SH
    ensures GroupRows(AllCategories, [a, a, b]) == [SummaryRow(P2PKH, 2), SummaryRow(P2SH, 1)]
  {
    var xs := [a, a, b];
    CountsOfPair(a, b);
    var tail := [P2WPKH, P2WSH, P2TR, FutureSegWit, Other];
    GroupRowsAbsent(tail, xs);
    assert GroupRows([P2SH] + tail, xs) == [SummaryRow(P2SH, 1)] by {
      assert ([P2SH] + tail)[1..] == tail;
    }
    assert AllCategories[1..] == [P2SH] + tail;
  }

  /** Two rows of one P2PKH address and one row of a P2SH address give two
      summary rows, the P2PKH one first. */
  lemma SummaryOfPair(a: string, b: string)
    requires Classify(a) == P2PKH && Classify(b) == P2SH
    ensures Summary([a, a, b]) == [SummaryRow(P2PKH, 2), SummaryRow(P2SH, 1)]
  {
    var r1, r2 := SummaryRow(P2PKH, 2), SummaryRow(P2SH, 1);
    GroupedPair(a, b);
    assert SortByCountDesc([r2]) == [r2] by {
      assert [r2][1..] == [];
    }
    assert SortByCountDesc([r1, r2]) == [r1, r2] by {
      assert [r1, r2][1..] == [r2];
    }
  }

  /** The aggregation example: duplicates are counted separately. */
  lemma ExampleSummary()
    ensures Summary(["1BvBMSEYstWetqTFn5Au4m4GFg7xJaNVN2", "1BvBMSEYstWetqTFn5Au4m4GFg7xJaNVN2",
                     "3J98t1WpEZ73CNmQviecrnyiWrnqRhWNLy"])
            == [SummaryRow(P2PKH, 2), SummaryRow(P2SH, 1)]
  {
    ExampleP2pkh();
    ExampleP2sh();
    SummaryOfPair("1BvBMSEYstWetqTFn5Au4m4GFg7xJaNVN2", "3J98t1WpEZ73CNmQviecrnyiWrnqRhWNLy");
  }
}
