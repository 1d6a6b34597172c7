/** The data and annotation logic of the hybrid violin/swarm chart
    (`create_hybrid_plot`). The axes the chart draws on are modelled by the
    ordered log of the drawing commands issued on them; what a command
    looks like on screen is not modelled. */
module HybridPlot {
  import opened Wrappers
  import opened Categories
  import opened Stats
  import opened Seqs

  /** A table row as the chart sees it: a value cell and a category cell,
      either of which may be missing. */
  datatype Obs = Obs(value: Option<real>, category: Option<string>)

  /** A row that survives `dropna` on both columns. */
  datatype Point = Point(value: real, category: string)

  /** The category drawn as a violin. */
  const Independent: string := "Independent"

  /** The category that gets one label when all its values coincide. */
  const SinglePriceGroup: string := "FPG Beers & Story"

  /** Which annotation a label is: the lone value of the single-price
      group, or the median, highest or lowest value of a category. The
      first three sit 5 points above their value, the lowest 12 below. */
  datatype LabelKind = SingleLabel | MedianLabel | MaxLabel | MinLabel

  datatype Command =
    | Text(x: real, y: real, message: string)
    | Violin(data: seq<Point>, order: seq<string>)
    | Swarm(data: seq<Point>, order: seq<string>)
      /** A horizontal segment from x0 to x1 at height `level`. */
    | Tick(x0: real, x1: real, level: real)
      /** A label at category index `at` and height `value`, showing that
          value as a dollar amount. */
    | Label(at: int, value: real, kind: LabelKind)
    | SetTitle(title: string)
    | SetXLabel(text: string)
    | SetYLabel(text: string)

  /** The axes passed in by the caller. */
  class Axes {
    var log: seq<Command>

    constructor()
      ensures log == []
    {
      log := [];
    }

    method Issue(c: Command)
      modifies this
      ensures log == old(log) + [c]
    {
      log := log + [c];
    }
  }

  /** The rows with both cells present, in table order. */
  function Complete(rows: seq<Obs>): (r: seq<Point>)
    ensures |r| <= |rows|
  {
    if |rows| == 0 then []
    else
      var rest := Complete(rows[1..]);
      if rows[0].value.Some? && rows[0].category.Some?
      then [Point(rows[0].value.value, rows[0].category.value)] + rest
      else rest
  }

  /** The rows of category `cat`, in table order. */
  function Where(points: seq<Point>, cat: string): (r: seq<Point>)
    ensures |r| <= |points|
  {
    if |points| == 0 then []
    else
      var rest := Where(points[1..], cat);
      if points[0].category == cat then [points[0]] + rest else rest
  }

  function Values(points: seq<Point>): (r: seq<real>)
    ensures |r| == |points|
    ensures forall k :: 0 <= k < |points| ==> r[k] == points[k].value
  {
    seq(|points|, k requires 0 <= k < |points| => points[k].value)
  }

  /** The category column of the kept rows. */
  function CategoryColumn(points: seq<Point>): (r: seq<string>)
    ensures |r| == |points|
    ensures forall k :: 0 <= k < |points| ==> r[k] == points[k].category
  {
    seq(|points|, k requires 0 <= k < |points| => points[k].category)
  }

  /** `sorted(plot_df[category_col].unique())`. */
  function Order(points: seq<Point>): (r: seq<string>)
    ensures Increasing(r)
  {
    SortedDistinct(CategoryColumn(points))
  }

  function Placeholder(title: string): Command
  {
    Text(0.5, 0.5, "No data available for " + title)
  }

  /** The annotations of the category at index `i` with values `vals`. */
  function CategoryAnnotations(i: nat, cat: string, vals: seq<real>): (r: seq<Command>)
    ensures |vals| == 0 ==> r == []
  {
    if |vals| == 0 then []
    else if cat == SinglePriceGroup && AllEqual(vals, vals[0]) then
      [Label(i, vals[0], SingleLabel)]
    else
      var median := Median(vals);
      [Tick(i as real - 0.2, i as real + 0.2, median),
       Label(i, median, MedianLabel),
       Label(i, Max(vals), MaxLabel),
       Label(i, Min(vals), MinLabel)]
  }

  /** The annotations of the first `n` categories of `order`. */
  function Annotations(points: seq<Point>, order: seq<string>, n: nat): seq<Command>
    requires n <= |order|
  {
    if n == 0 then []
    else
      Annotations(points, order, n - 1)
      + CategoryAnnotations(n - 1, order[n - 1], Values(Where(points, order[n - 1])))
  }

  /** The violin, when there are "Independent" rows, then the swarm. */
  function Opening(points: seq<Point>, order: seq<string>): (r: seq<Command>)
    ensures 1 <= |r| <= 2 && r[|r| - 1] == Swarm(points, order)
    ensures |r| == 2 <==> |Where(points, Independent)| > 0
    ensures |r| == 2 ==> r[0] == Violin(Where(points, Independent), order)
  {
    var independent := Where(points, Independent);
    (if |independent| > 0 then [Violin(independent, order)] else [])
    + [Swarm(points, order)]
  }

  /** Everything the chart issues on its axes. The second test of the
      guard is pandas' `nunique() == 0` on the category column. */
  function PlotCommands(rows: seq<Obs>, categoryCol: string, title: string, ylabel: string): (r: seq<Command>)
    ensures |r| > 0
    ensures r == [Placeholder(title)] || r[|r| - 1] == SetYLabel(ylabel)
  {
    var kept := Complete(rows);
    var order := Order(kept);
    if |kept| == 0 || |order| == 0 then [Placeholder(title)]
    else
      Opening(kept, order) + Annotations(kept, order, |order|)
      + [SetTitle(title), SetXLabel(categoryCol), SetYLabel(ylabel)]
  }

  lemma SummaryAnnotations(i: nat, cat: string, vals: seq<real>)
    requires |vals| > 0 && !(cat == SinglePriceGroup && AllEqual(vals, vals[0]))
    ensures CategoryAnnotations(i, cat, vals)
         == [Tick(i as real - 0.2, i as real + 0.2, Median(vals)),
             Label(i, Median(vals), MedianLabel),
             Label(i, Max(vals), MaxLabel),
             Label(i, Min(vals), MinLabel)]
  {
  }

  lemma AnnotationsStep(points: seq<Point>, order: seq<string>, n: nat)
    requires n < |order|
    ensures Annotations(points, order, n + 1)
         == Annotations(points, order, n)
            + CategoryAnnotations(n, order[n], Values(Where(points, order[n])))
  {
  }

  lemma NothingToDraw(rows: seq<Obs>, categoryCol: string, title: string, ylabel: string)
    requires |Complete(rows)| == 0 || |Order(Complete(rows))| == 0
    ensures PlotCommands(rows, categoryCol, title, ylabel) == [Placeholder(title)]
  {
  }

  lemma SomethingToDraw(rows: seq<Obs>, categoryCol: string, title: string, ylabel: string)
    requires |Complete(rows)| > 0 && |Order(Complete(rows))| > 0
    ensures PlotCommands(rows, categoryCol, title, ylabel)
         == Opening(Complete(rows), Order(Complete(rows)))
            + Annotations(Complete(rows), Order(Complete(rows)), |Order(Complete(rows))|)
            + [SetTitle(title), SetXLabel(categoryCol), SetYLabel(ylabel)]
  {
  }

  /** `dropna` keeps exactly the rows with both cells present. */
  lemma {:induction false} CompleteMembers(rows: seq<Obs>, p: Point)
    ensures p in Complete(rows) <==> Obs(Some(p.value), Some(p.category)) in rows
  {
    if |rows| > 0 {
      CompleteMembers(rows[1..], p);
      assert rows == [rows[0]] + rows[1..];
    }
  }

  /** The rows selected for a category are the kept rows of that category. */
  lemma {:induction false} WhereMembers(points: seq<Point>, cat: string, p: Point)
    ensures p in Where(points, cat) <==> p in points && p.category == cat
  {
    if |points| > 0 {
      WhereMembers(points[1..], cat, p);
      assert points == [points[0]] + points[1..];
    }
  }

  /** The kept rows of a table split in two are the kept rows of the first
      part followed by those of the second: `dropna` keeps the table order. */
  lemma {:induction false} CompleteAppend(a: seq<Obs>, b: seq<Obs>)
    ensures Complete(a + b) == Complete(a) + Complete(b)
  {
    if |a| == 0 {
      assert a + b == b;
    } else {
      assert (a + b)[0] == a[0];
      assert (a + b)[1..] == a[1..] + b;
      CompleteAppend(a[1..], b);
      var head := if a[0].value.Some? && a[0].category.Some?
        then [Point(a[0].value.value, a[0].category.value)] else [];
      AppendAssoc(head, Complete(a[1..]), Complete(b));
    }
  }

  /** Selecting a category keeps the order of the kept rows. */
  lemma {:induction false} WhereAppend(a: seq<Point>, b: seq<Point>, cat: string)
    ensures Where(a + b, cat) == Where(a, cat) + Where(b, cat)
  {
    if |a| == 0 {
      assert a + b == b;
    } else {
      assert (a + b)[0] == a[0];
      assert (a + b)[1..] == a[1..] + b;
      WhereAppend(a[1..], b, cat);
      var head := if a[0].category == cat then [a[0]] else [];
      AppendAssoc(head, Where(a[1..], cat), Where(b, cat));
    }
  }

  predicate HasCategory(points: seq<Point>, cat: string)
  {
    exists p :: p in points && p.category == cat
  }

  /** The category order lists exactly the categories of the kept rows. */
  lemma OrderMembers(points: seq<Point>, cat: string)
    ensures cat in Order(points) <==> HasCategory(points, cat)
  {
    var column := CategoryColumn(points);
    if cat in column {
      var k :| 0 <= k < |column| && column[k] == cat;
      assert points[k] in points;
    }
    if HasCategory(points, cat) {
      var p :| p in points && p.category == cat;
      var k :| 0 <= k < |points| && points[k] == p;
      assert column[k] == cat;
    }
  }

  /** The category order is strictly increasing and lists exactly the
      categories of the kept rows; no other sequence does both, so it is
      what `sorted(unique())` returns. */
  lemma OrderIsSortedUnique(points: seq<Point>, s: seq<string>)
    requires Increasing(s)
    requires forall cat :: cat in s <==> HasCategory(points, cat)
    ensures Order(points) == s
  {
    forall cat ensures cat in Order(points) <==> cat in s {
      OrderMembers(points, cat);
    }
    IncreasingUnique(Order(points), s);
  }

  /** Once rows remain there is at least one category, so the guard's
      `nunique() == 0` test never decides anything on its own. */
  lemma DistinctCheckRedundant(points: seq<Point>)
    requires |points| > 0
    ensures |Order(points)| > 0
  {
    OrderMembers(points, points[0].category);
    assert points[0] in points;
  }

  /** Every category in the order has rows, so the loop never takes its
      `continue` branch. */
  lemma EveryCategoryHasValues(points: seq<Point>, i: nat)
    requires i < |Order(points)|
    ensures |Values(Where(points, Order(points)[i]))| > 0
  {
    var cat := Order(points)[i];
    OrderMembers(points, cat);
    var p :| p in points && p.category == cat;
    WhereMembers(points, cat, p);
  }

  /** The placeholder is the whole output exactly when no complete row
      remains. */
  lemma PlaceholderIffNoRows(rows: seq<Obs>, categoryCol: string, title: string, ylabel: string)
    ensures PlotCommands(rows, categoryCol, title, ylabel) == [Placeholder(title)]
        <==> |Complete(rows)| == 0
  {
    var kept := Complete(rows);
    if |kept| > 0 {
      DistinctCheckRedundant(kept);
      SomethingToDraw(rows, categoryCol, title, ylabel);
    }
  }

  predicate HasViolin(cmds: seq<Command>)
  {
    exists c :: c in cmds && c.Violin?
  }

  lemma HasViolinAppend(a: seq<Command>, b: seq<Command>)
    ensures HasViolin(a + b) <==> HasViolin(a) || HasViolin(b)
  {
    if HasViolin(a + b) {
      var c :| c in a + b && c.Violin?;
      assert c in a || c in b;
    }
    if HasViolin(b) {
      var c :| c in b && c.Violin?;
      assert c in a + b;
    }
    if HasViolin(a) {
      var c :| c in a && c.Violin?;
      assert c in a + b;
    }
  }

  /** Annotations are ticks and labels only. */
  lemma AnnotationsAreMarks(points: seq<Point>, order: seq<string>, n: nat)
    requires n <= |order|
    ensures !HasViolin(Annotations(points, order, n))
  {
    if HasViolin(Annotations(points, order, n)) {
      var c :| c in Annotations(points, order, n) && c.Violin?;
      var k := AnnotationSource(points, order, n, c);
      CategoryAnnotationsPlaced(k, order[k], Values(Where(points, order[k])));
      assert false;
    }
  }

  lemma IndependentRows(points: seq<Point>)
    ensures |Where(points, Independent)| > 0 <==> HasCategory(points, Independent)
  {
    var independent := Where(points, Independent);
    if |independent| > 0 {
      WhereMembers(points, Independent, independent[0]);
    }
    if HasCategory(points, Independent) {
      var p :| p in points && p.category == Independent;
      WhereMembers(points, Independent, p);
    }
  }

  /** A violin is drawn exactly when some kept row is "Independent", and it
      is drawn first, over those rows, in the category order. */
  lemma ViolinIffIndependent(rows: seq<Obs>, categoryCol: string, title: string, ylabel: string)
    ensures HasViolin(PlotCommands(rows, categoryCol, title, ylabel))
        <==> HasCategory(Complete(rows), Independent)
    ensures HasCategory(Complete(rows), Independent) ==>
      PlotCommands(rows, categoryCol, title, ylabel)[0]
        == Violin(Where(Complete(rows), Independent), Order(Complete(rows)))
  {
    var kept := Complete(rows);
    IndependentRows(kept);
    if |kept| == 0 {
      NothingToDraw(rows, categoryCol, title, ylabel);
      assert !HasViolin([Placeholder(title)]);
    } else {
      var order := Order(kept);
      var opening := Opening(kept, order);
      DistinctCheckRedundant(kept);
      SomethingToDraw(rows, categoryCol, title, ylabel);
      DrawnViolin(kept, order, title, categoryCol, ylabel);
      var drawn := opening + Annotations(kept, order, |order|);
      assert drawn[0] == opening[0];
      assert (drawn + [SetTitle(title), SetXLabel(categoryCol), SetYLabel(ylabel)])[0] == opening[0];
    }
  }

  /** Of the commands drawn for a non-empty table, only the opening can be a
      violin, and it is one exactly when some row is `Independent`. */
  lemma DrawnViolin(points: seq<Point>, order: seq<string>, title: string, categoryCol: string, ylabel: string)
    ensures HasViolin(Opening(points, order) + Annotations(points, order, |order|)
                      + [SetTitle(title), SetXLabel(categoryCol), SetYLabel(ylabel)])
        <==> |Where(points, Independent)| > 0
  {
    var opening := Opening(points, order);
    var annotations := Annotations(points, order, |order|);
    var closing := [SetTitle(title), SetXLabel(categoryCol), SetYLabel(ylabel)];
    AnnotationsAreMarks(points, order, |order|);
    HasViolinAppend(opening, annotations);
    HasViolinAppend(opening + annotations, closing);
    assert !HasViolin(closing);
    if |Where(points, Independent)| > 0 {
      assert opening[0].Violin?;
      assert HasViolin(opening);
    } else {
      assert opening == [Swarm(points, order)];
      assert !HasViolin(opening);
    }
  }

  /** When rows remain, a swarm over all of them is drawn in the category
      order. */
  lemma SwarmOverKeptRows(rows: seq<Obs>, categoryCol: string, title: string, ylabel: string)
    requires |Complete(rows)| > 0
    ensures Swarm(Complete(rows), Order(Complete(rows))) in PlotCommands(rows, categoryCol, title, ylabel)
  {
    DistinctCheckRedundant(Complete(rows));
    SomethingToDraw(rows, categoryCol, title, ylabel);
  }

  lemma SingleAnnotation(i: nat, cat: string, vals: seq<real>)
    requires |vals| > 0 && cat == SinglePriceGroup && AllEqual(vals, vals[0])
    ensures CategoryAnnotations(i, cat, vals) == [Label(i, vals[0], SingleLabel)]
  {
  }

  /** The placement facts of one category's annotations. */
  predicate Placed(i: nat, cat: string, vals: seq<real>, cmds: seq<Command>)
  {
    forall c :: c in cmds ==>
      (c.Label? || c.Tick?) &&
      (c.Label? ==> c.at == i && |vals| > 0 && Min(vals) <= c.value <= Max(vals)
                    && (c.kind == SingleLabel ==> cat == SinglePriceGroup))
      && (c.Tick? ==> c.x0 == i as real - 0.2 && c.x1 == i as real + 0.2
                      && |vals| > 0 && c.level == Median(vals))
  }

  lemma SinglePlaced(i: nat, cat: string, vals: seq<real>)
    requires |vals| > 0 && cat == SinglePriceGroup && AllEqual(vals, vals[0])
    ensures Placed(i, cat, vals, CategoryAnnotations(i, cat, vals))
  {
    SingleAnnotation(i, cat, vals);
    assert vals[0] in vals;
  }

  lemma SummaryPlaced(i: nat, cat: string, vals: seq<real>)
    requires |vals| > 0 && !(cat == SinglePriceGroup && AllEqual(vals, vals[0]))
    ensures Placed(i, cat, vals, CategoryAnnotations(i, cat, vals))
  {
    SummaryAnnotations(i, cat, vals);
    var lo, hi := Min(vals), Max(vals);
    assert lo <= hi by {
      assert hi in vals;
    }
  }

  /** Each annotation of one category sits at its index and within the
      range of its values; the tick spans 0.2 either side of the index at
      the median; a single label only ever marks the single-price group. */
  lemma CategoryAnnotationsPlaced(i: nat, cat: string, vals: seq<real>)
    ensures Placed(i, cat, vals, CategoryAnnotations(i, cat, vals))
  {
    if |vals| == 0 {
      assert CategoryAnnotations(i, cat, vals) == [];
    } else if cat == SinglePriceGroup && AllEqual(vals, vals[0]) {
      SinglePlaced(i, cat, vals);
    } else {
      SummaryPlaced(i, cat, vals);
    }
  }

  /** The annotations of the first `n` categories, one part per category. */
  function AnnotationParts(points: seq<Point>, order: seq<string>, n: nat): (r: seq<seq<Command>>)
    requires n <= |order|
    ensures |r| == n
  {
    if n == 0 then []
    else
      AnnotationParts(points, order, n - 1) + [Part(points, order, n - 1)]
  }

  /** What the loop issues for the `k`-th category of the order. */
  function Part(points: seq<Point>, order: seq<string>, k: nat): seq<Command>
    requires k < |order|
  {
    CategoryAnnotations(k, order[k], Values(Where(points, order[k])))
  }

  lemma {:induction false} AnnotationPartAt(points: seq<Point>, order: seq<string>, n: nat, k: nat)
    requires k < n <= |order|
    ensures AnnotationParts(points, order, n)[k] == Part(points, order, k)
  {
    var init := AnnotationParts(points, order, n - 1);
    var last := Part(points, order, n - 1);
    assert AnnotationParts(points, order, n) == init + [last];
    if k < n - 1 {
      AnnotationPartAt(points, order, n - 1, k);
      assert (init + [last])[k] == init[k];
    } else {
      assert (init + [last])[k] == last;
    }
  }

  /** The loop's output is its categories' annotations one after the other. */
  lemma {:induction false} AnnotationsFlatten(points: seq<Point>, order: seq<string>, n: nat)
    requires n <= |order|
    ensures Annotations(points, order, n) == Flatten(AnnotationParts(points, order, n))
  {
    if n > 0 {
      var parts := AnnotationParts(points, order, n);
      AnnotationsFlatten(points, order, n - 1);
      assert parts[..n - 1] == AnnotationParts(points, order, n - 1);
    }
  }

  /** A command among the first `n` categories' annotations belongs to
      one of them. */
  lemma AnnotationSource(points: seq<Point>, order: seq<string>, n: nat, c: Command)
      returns (k: nat)
    requires n <= |order|
    requires c in Annotations(points, order, n)
    ensures k < n && c in CategoryAnnotations(k, order[k], Values(Where(points, order[k])))
  {
    AnnotationsFlatten(points, order, n);
    k := FlattenSource(AnnotationParts(points, order, n), c);
    AnnotationPartAt(points, order, n, k);
  }

  /** Over the whole loop: every label is at the index of a category in
      the order, within the range of that category's values. */
  lemma LabelsPlaced(points: seq<Point>, order: seq<string>, n: nat)
    requires n <= |order|
    ensures forall c :: c in Annotations(points, order, n) && c.Label? ==>
      0 <= c.at < n
      && |Values(Where(points, order[c.at]))| > 0
      && Min(Values(Where(points, order[c.at]))) <= c.value <= Max(Values(Where(points, order[c.at])))
  {
    forall c: Command | c in Annotations(points, order, n) && c.Label?
      ensures 0 <= c.at < n
      ensures |Values(Where(points, order[c.at]))| > 0
      ensures Min(Values(Where(points, order[c.at]))) <= c.value <= Max(Values(Where(points, order[c.at])))
    {
      var k := AnnotationSource(points, order, n, c);
      CategoryAnnotationsPlaced(k, order[k], Values(Where(points, order[k])));
    }
  }
}
