/** Drawing the hybrid violin/swarm chart on the caller's axes, one command
    at a time, as `create_hybrid_plot` does. */
module HybridChart {
  import opened Stats
  import opened HybridPlot
  import opened Seqs

  /** One pass of the annotation loop: labels category `cat`, drawn at
      index `i`, whose values are `vals`. */
  method AnnotateCategory(ax: Axes, i: nat, cat: string, vals: seq<real>)
    modifies ax
    ensures ax.log == old(ax.log) + CategoryAnnotations(i, cat, vals)
  {
    if |vals| == 0 {
      // the source skips a category without values
    } else if cat == SinglePriceGroup && AllEqual(vals, vals[0]) {
      ax.Issue(Label(i, vals[0], SingleLabel));
    } else {
      AnnotateSummary(ax, i, cat, vals);
    }
  }

  /** The median tick and the median, highest and lowest labels. */
  method AnnotateSummary(ax: Axes, i: nat, cat: string, vals: seq<real>)
    requires |vals| > 0 && !(cat == SinglePriceGroup && AllEqual(vals, vals[0]))
    modifies ax
    ensures ax.log == old(ax.log) + CategoryAnnotations(i, cat, vals)
  {
    var median := Median(vals);
    var lowest, highest := Min(vals), Max(vals);
    var tick := Tick(i as real - 0.2, i as real + 0.2, median);
    var medianLabel := Label(i, median, MedianLabel);
    var maxLabel := Label(i, highest, MaxLabel);
    var minLabel := Label(i, lowest, MinLabel);
    ax.Issue(tick);
    ax.Issue(medianLabel);
    ax.Issue(maxLabel);
    ax.Issue(minLabel);
    AppendFour(old(ax.log), tick, medianLabel, maxLabel, minLabel);
    SummaryAnnotations(i, cat, vals);
  }

  lemma AppendFour<T>(s: seq<T>, a: T, b: T, c: T, d: T)
    ensures s + [a] + [b] + [c] + [d] == s + [a, b, c, d]
  {
  }

  /** The annotation loop: every category of `order` in turn, at its
      index. */
  method AnnotateAll(ax: Axes, kept: seq<Point>, order: seq<string>)
    modifies ax
    ensures ax.log == old(ax.log) + Annotations(kept, order, |order|)
  {
    var i := 0;
    while i < |order|
      invariant 0 <= i <= |order|
      invariant ax.log == old(ax.log) + Annotations(kept, order, i)
    {
      var vals := Values(Where(kept, order[i]));
      AnnotateCategory(ax, i, order[i], vals);
      AnnotationsStep(kept, order, i);
      AppendAssoc(old(ax.log), Annotations(kept, order, i), CategoryAnnotations(i, order[i], vals));
      i := i + 1;
    }
  }

  /** The violin over the "Independent" rows, if there are any, and the
      swarm over all kept rows, both in the category order. */
  method DrawOpening(ax: Axes, kept: seq<Point>, order: seq<string>)
    modifies ax
    ensures ax.log == old(ax.log) + Opening(kept, order)
  {
    var independent := Where(kept, Independent);
    if |independent| > 0 {
      ax.Issue(Violin(independent, order));
      AppendAssoc(old(ax.log), [Violin(independent, order)], [Swarm(kept, order)]);
    }
    ax.Issue(Swarm(kept, order));
  }

  /** Draws the chart on `ax`, one command at a time. */
  method DrawHybridPlot(ax: Axes, rows: seq<Obs>, categoryCol: string, title: string, ylabel: string)
    modifies ax
    ensures ax.log == old(ax.log) + PlotCommands(rows, categoryCol, title, ylabel)
  {
    var kept := Complete(rows);
    if |kept| == 0 || |Order(kept)| == 0 {
      ax.Issue(Placeholder(title));
      NothingToDraw(rows, categoryCol, title, ylabel);
      return;
    }
    var order := Order(kept);
    DrawOpening(ax, kept, order);
    AnnotateAll(ax, kept, order);
    var closing := [SetTitle(title), SetXLabel(categoryCol), SetYLabel(ylabel)];
    ghost var annotated := ax.log;
    ax.Issue(SetTitle(title));
    ax.Issue(SetXLabel(categoryCol));
    ax.Issue(SetYLabel(ylabel));
    assert ax.log == annotated + closing;
    SomethingToDraw(rows, categoryCol, title, ylabel);
    AppendAssoc(old(ax.log), Opening(kept, order), Annotations(kept, order, |order|));
    AppendAssoc(old(ax.log), Opening(kept, order) + Annotations(kept, order, |order|), closing);
  }
}
