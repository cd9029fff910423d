/** Model of the split decision in `main` of src/train.py: per-class counts of
    the label column (`value_counts`), the held-out fraction and whether the
    split is stratified. */
module Train {
  import opened Wrappers

  // ---------------------------------------------------------------------------
  // value_counts
  // ---------------------------------------------------------------------------

  /** A value of the label column: categories are free-form strings. */
  type Category = string

  /** One entry of `y.value_counts()`: a label and how often it occurs. */
  datatype ClassCount = ClassCount(category: Category, count: nat)

  /** Each label has one entry, and every entry counts at least one row. */
  predicate WellFormed(cs: seq<ClassCount>) {
    && (forall i, j | 0 <= i < j < |cs| :: cs[i].category != cs[j].category)
    && (forall i | 0 <= i < |cs| :: cs[i].count >= 1)
  }

  /** The labels that have an entry. */
  function Labels(cs: seq<ClassCount>): set<Category> {
    set i | 0 <= i < |cs| :: cs[i].category
  }

  /** The count recorded for `x`, 0 when `x` has no entry. */
  function CountOf(cs: seq<ClassCount>, x: Category): nat {
    if cs == [] then 0
    else if cs[0].category == x then cs[0].count
    else CountOf(cs[1..], x)
  }

  /** The sum of all counts. */
  function Total(cs: seq<ClassCount>): nat {
    if cs == [] then 0 else cs[0].count + Total(cs[1..])
  }

  lemma LabelsCons(cs: seq<ClassCount>)
    requires cs != []
    ensures Labels(cs) == {cs[0].category} + Labels(cs[1..])
  {
    forall x | x in Labels(cs)
      ensures x in {cs[0].category} + Labels(cs[1..])
    {
      var i :| 0 <= i < |cs| && cs[i].category == x;
      if i > 0 {
        assert cs[1..][i - 1].category == x;
      }
    }
    forall x | x in Labels(cs[1..])
      ensures x in Labels(cs)
    {
      var i :| 0 <= i < |cs[1..]| && cs[1..][i].category == x;
      assert cs[i + 1].category == x;
    }
  }

  /** Count one more row labelled `x`: bump its entry, or append a new entry
      for a label not seen before. */
  function Tally(cs: seq<ClassCount>, x: Category): (r: seq<ClassCount>)
    ensures |r| == |cs| || |r| == |cs| + 1
  {
    if cs == [] then [ClassCount(x, 1)]
    else if cs[0].category == x then [ClassCount(x, cs[0].count + 1)] + cs[1..]
    else [cs[0]] + Tally(cs[1..], x)
  }

  /** Tallying `x` adds one row to the total. */
  lemma {:induction false} TallyTotal(cs: seq<ClassCount>, x: Category)
    ensures Total(Tally(cs, x)) == Total(cs) + 1
  {
    if cs != [] && cs[0].category != x {
      TallyTotal(cs[1..], x);
    }
  }

  /** Tallying `x` adds one to the count of `x` and leaves every other count alone. */
  lemma {:induction false} TallyCounts(cs: seq<ClassCount>, x: Category)
    ensures forall y :: CountOf(Tally(cs, x), y) == CountOf(cs, y) + (if y == x then 1 else 0)
  {
    if cs != [] {
      if cs[0].category == x {
        assert Tally(cs, x)[1..] == cs[1..];
      } else {
        TallyCounts(cs[1..], x);
        assert Tally(cs, x)[1..] == Tally(cs[1..], x);
      }
    }
  }

  /** Tallying `x` gives `x` an entry and removes none. */
  lemma {:induction false} TallyLabels(cs: seq<ClassCount>, x: Category)
    ensures Labels(Tally(cs, x)) == Labels(cs) + {x}
  {
    var r := Tally(cs, x);
    LabelsCons(r);
    if cs != [] {
      LabelsCons(cs);
      if cs[0].category == x {
        assert r[1..] == cs[1..];
      } else {
        TallyLabels(cs[1..], x);
        assert r[1..] == Tally(cs[1..], x);
      }
    }
  }

  /** Tallying `x` gives no entry to a label other than `x` that had none. */
  lemma TallyAvoids(cs: seq<ClassCount>, x: Category, c: Category)
    requires c != x && c !in Labels(cs)
    ensures forall j | 0 <= j < |Tally(cs, x)| :: Tally(cs, x)[j].category != c
  {
    TallyLabels(cs, x);
    var r := Tally(cs, x);
    forall j | 0 <= j < |r|
      ensures r[j].category != c
    {
      assert r[j].category in Labels(r);
    }
  }

  /** The first entry of a well-formed list has a label no later entry has. */
  lemma HeadLabelFresh(cs: seq<ClassCount>)
    requires WellFormed(cs) && cs != []
    ensures cs[0].category !in Labels(cs[1..])
  {
    forall k | 0 <= k < |cs[1..]|
      ensures cs[1..][k].category != cs[0].category
    {
      assert cs[1..][k] == cs[k + 1];
    }
  }

  /** An entry for a new label in front of a well-formed list keeps it well formed. */
  lemma ConsWellFormed(h: ClassCount, rest: seq<ClassCount>)
    requires WellFormed(rest) && h.count >= 1
    requires forall j | 0 <= j < |rest| :: rest[j].category != h.category
    ensures WellFormed([h] + rest)
  {
    var r := [h] + rest;
    forall i, j | 0 <= i < j < |r|
      ensures r[i].category != r[j].category
    {
      assert r[j] == rest[j - 1];
      if i > 0 {
        assert r[i] == rest[i - 1];
      }
    }
  }

  /** Tallying keeps one entry per label, each counting at least one row. */
  lemma {:induction false} TallyWellFormed(cs: seq<ClassCount>, x: Category)
    requires WellFormed(cs)
    ensures WellFormed(Tally(cs, x))
  {
    if cs != [] {
      var rest := cs[1..];
      TailWellFormed(cs);
      HeadLabelFresh(cs);
      if cs[0].category != x {
        TallyWellFormed(rest, x);
        TallyAvoids(rest, x, cs[0].category);
        ConsWellFormed(cs[0], Tally(rest, x));
      } else {
        forall j | 0 <= j < |rest|
          ensures rest[j].category != x
        {
          assert rest[j].category in Labels(rest);
        }
        ConsWellFormed(ClassCount(x, cs[0].count + 1), rest);
      }
    }
  }

  /** Dropping the first entry of a well-formed list keeps it well formed. */
  lemma TailWellFormed(cs: seq<ClassCount>)
    requires WellFormed(cs) && cs != []
    ensures WellFormed(cs[1..])
  {
    var rest := cs[1..];
    forall i, j | 0 <= i < j < |rest|
      ensures rest[i].category != rest[j].category
    {
      assert rest[i] == cs[i + 1] && rest[j] == cs[j + 1];
    }
  }

  /** `y.value_counts()` over the label column, in first-appearance order: one
      entry per distinct label, each count the number of rows with that label,
      the counts adding up to the number of rows. */
  function ValueCounts(labels: seq<Category>): (cs: seq<ClassCount>)
    ensures WellFormed(cs)
    ensures Labels(cs) == set x | x in labels
    ensures forall y :: CountOf(cs, y) == multiset(labels)[y]
    ensures Total(cs) == |labels|
  {
    if labels == [] then []
    else
      var init := labels[..|labels| - 1];
      var last := labels[|labels| - 1];
      assert labels == init + [last];
      assert (set x | x in labels) == (set x | x in init) + {last};
      var counts := ValueCounts(init);
      TallyTotal(counts, last);
      TallyCounts(counts, last);
      TallyLabels(counts, last);
      TallyWellFormed(counts, last);
      Tally(ValueCounts(init), last)
  }

  /** With one entry per label, the number of entries is the number of
      distinct labels. */
  lemma {:induction false} EntriesAreDistinctLabels(cs: seq<ClassCount>)
    requires WellFormed(cs)
    ensures |Labels(cs)| == |cs|
  {
    if cs != [] {
      LabelsCons(cs);
      EntriesAreDistinctLabels(cs[1..]);
      assert cs[0].category !in Labels(cs[1..]);
    }
  }

  /** In a well-formed table the count looked up for an entry's label is that
      entry's count. */
  lemma {:induction false} CountOfEntry(cs: seq<ClassCount>, i: nat)
    requires WellFormed(cs) && i < |cs|
    ensures CountOf(cs, cs[i].category) == cs[i].count
  {
    if i > 0 {
      CountOfEntry(cs[1..], i - 1);
    }
  }

  /** `class_counts.min()`; `None` for an empty table, where pandas gives NaN. */
  function MinCount(cs: seq<ClassCount>): (m: Option<nat>)
    ensures m.None? <==> cs == []
    ensures m.Some? ==> (exists i | 0 <= i < |cs| :: cs[i].count == m.value)
    ensures m.Some? ==> forall i | 0 <= i < |cs| :: cs[i].count >= m.value
  {
    if cs == [] then None
    else
      match MinCount(cs[1..])
      case None => Some(cs[0].count)
      case Some(rest) =>
        assert forall i | 1 <= i < |cs| :: cs[i] == cs[1..][i - 1];
        if cs[0].count <= rest then Some(cs[0].count)
        else
          var j :| 0 <= j < |cs[1..]| && cs[1..][j].count == rest;
          assert cs[j + 1].count == rest;
          Some(rest)
  }

  // ---------------------------------------------------------------------------
  // The split decision
  // ---------------------------------------------------------------------------

  /** The held-out fraction `test_size`: 0.25 or 0.5. */
  datatype TestSize = Quarter | Half

  /** `int(n_samples * test_size)`. Both fractions are exact binary fractions,
      so the product is exact and `int` truncates it: floor division. */
  function HeldOut(n: nat, ts: TestSize): (h: nat)
    ensures ts == Quarter ==> 4 * h <= n < 4 * h + 4
    ensures ts == Half ==> 2 * h <= n < 2 * h + 2
  {
    match ts
    case Quarter => n / 4
    case Half => n / 2
  }

  /** What `main` prints and passes on to `train_test_split`. */
  datatype SplitPlan = SplitPlan(nSamples: nat, nClasses: nat, testSize: TestSize, stratify: bool)

  /** Lines 42-46 of `main`, from the number of rows, the number of classes and
      the smallest class count. The fraction is raised to one half exactly when
      a quarter of the rows is fewer than the classes; a stratified split always
      has at least two rows per class and room for every class in the test part. */
  function Decide(nSamples: nat, nClasses: nat, minCount: Option<nat>): (plan: SplitPlan)
    ensures plan.nSamples == nSamples && plan.nClasses == nClasses
    ensures plan.testSize == Quarter <==> nSamples / 4 >= nClasses
    ensures plan.stratify ==> minCount.Some? && minCount.value >= 2 && nClasses <= nSamples / 2
    ensures plan.testSize == Half && plan.stratify ==> nSamples / 4 < nClasses <= nSamples / 2
    ensures minCount.None? ==> !plan.stratify
  {
    var testSize := if HeldOut(nSamples, Quarter) < nClasses then Half else Quarter;
    var stratify := (minCount.Some? && minCount.value >= 2) && HeldOut(nSamples, testSize) >= nClasses;
    SplitPlan(nSamples, nClasses, testSize, stratify)
  }

  /** The split decision of `main` (src/train.py:38-46) on the label column. */
  function SplitPolicy(labels: seq<Category>): (plan: SplitPlan)
    ensures plan.nSamples == |labels|
    ensures plan.nClasses == |set x | x in labels|
    ensures plan.testSize == Quarter <==> |labels| / 4 >= plan.nClasses
    ensures plan.stratify <==>
      && labels != []
      && (forall x | x in labels :: multiset(labels)[x] >= 2)
      && HeldOut(|labels|, plan.testSize) >= plan.nClasses
  {
    var counts := ValueCounts(labels);
    EntriesAreDistinctLabels(counts);
    var plan := Decide(|labels|, |counts|, MinCount(counts));
    assert labels != [] ==> labels[0] in labels;
    assert (MinCount(counts).Some? && MinCount(counts).value >= 2) <==>
      (labels != [] && forall x | x in labels :: multiset(labels)[x] >= 2) by {
      forall x | x in labels
        ensures exists i | 0 <= i < |counts| :: counts[i].category == x
      {
        assert x in Labels(counts);
      }
      forall i | 0 <= i < |counts|
        ensures CountOf(counts, counts[i].category) == counts[i].count
      {
        CountOfEntry(counts, i);
      }
    }
    plan
  }

  // ---------------------------------------------------------------------------
  // Worked examples
  // ---------------------------------------------------------------------------

  /** A label column holding `n` rows of category `c`. */
  function Repeat(c: Category, n: nat): (r: seq<Category>)
    ensures |r| == n
  {
    if n == 0 then [] else [c] + Repeat(c, n - 1)
  }

  lemma {:induction false} RepeatContents(c: Category, n: nat)
    ensures forall y :: multiset(Repeat(c, n))[y] == if y == c then n else 0
    ensures forall y :: y in Repeat(c, n) <==> n > 0 && y == c
  {
    if n > 0 {
      RepeatContents(c, n - 1);
      assert Repeat(c, n) == [c] + Repeat(c, n - 1);
    }
  }

  /** Class sizes 1, 1 and 50: 52 rows, a quarter (13) is enough for the three
      classes, but a class of one row rules out stratification. */
  lemma ImbalancedExample(a: Category, b: Category, c: Category)
    requires a != b && b != c && a != c
    ensures SplitPolicy([a, b] + Repeat(c, 50)) == SplitPlan(52, 3, Quarter, false)
  {
    var tail := Repeat(c, 50);
    var labels := [a, b] + tail;
    RepeatContents(c, 50);
    assert |labels| == 52;
    assert (set x | x in labels) == {a, b, c};
    assert |{a, b, c}| == 3 by {
      assert {a, b, c} == {a, b} + {c};
    }
    assert multiset(labels)[a] == 1 by {
      assert multiset(labels) == multiset([a, b]) + multiset(tail);
    }
    var plan := SplitPolicy(labels);
    assert plan.nClasses == 3;
    assert plan.testSize == Quarter;
    assert !plan.stratify;
  }

  /** Five distinct categories make five classes. */
  lemma FiveDistinct(a: Category, b: Category, c: Category, d: Category, e: Category)
    requires a != b && a != c && a != d && a != e
    requires b != c && b != d && b != e
    requires c != d && c != e && d != e
    ensures |{a, b, c, d, e}| == 5
  {
    assert {a, b, c, d, e} == {a, b, c, d} + {e};
    assert {a, b, c, d} == {a, b, c} + {d};
    assert {a, b, c} == {a, b} + {c};
  }

  /** A label column of `n` rows for each category of `cats`, block after block. */
  function Blocks(cats: seq<Category>, n: nat): (r: seq<Category>)
    ensures |r| == n * |cats|
  {
    if cats == [] then [] else Repeat(cats[0], n) + Blocks(cats[1..], n)
  }

  lemma {:induction false} BlocksContents(cats: seq<Category>, n: nat)
    requires n > 0
    ensures forall y :: y in Blocks(cats, n) <==> y in cats
    ensures forall y | y in cats :: multiset(Blocks(cats, n))[y] >= n
  {
    if cats != [] {
      RepeatContents(cats[0], n);
      BlocksContents(cats[1..], n);
      assert forall y | y in cats :: y == cats[0] || y in cats[1..];
    }
  }

  /** Five classes of ten rows each: 50 rows, a quarter (12) is enough for the
      five classes, and every class has two rows or more, so the split is
      stratified. */
  lemma BalancedExample(a: Category, b: Category, c: Category, d: Category, e: Category)
    requires a != b && a != c && a != d && a != e
    requires b != c && b != d && b != e
    requires c != d && c != e && d != e
    ensures SplitPolicy(Blocks([a, b, c, d, e], 10)) == SplitPlan(50, 5, Quarter, true)
  {
    var labels := Blocks([a, b, c, d, e], 10);
    BlocksContents([a, b, c, d, e], 10);
    assert |labels| == 50;
    assert (set x | x in labels) == {a, b, c, d, e};
    FiveDistinct(a, b, c, d, e);
    var plan := SplitPolicy(labels);
    assert plan.nClasses == 5;
    assert plan.testSize == Quarter;
    assert forall x | x in labels :: multiset(labels)[x] >= 2;
    assert plan.stratify;
  }
}
