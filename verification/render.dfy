/**
 * `FieldHolder`: the data pipeline, the fragment buckets, the rows and cells,
 * and the assembly of the final table markup.
 *
 * The tag builder (`createTag`) and the record position markers
 * (`FirstLast`, `EvenOdd`) belong to collaborators outside the model; they
 * come in as the uninterpreted functions of a `Markup` value.
 */
module GridRender {
  import opened Outcomes
  import opened Strings
  import opened GridComponents
  import opened GridColumns

  /** The rendering collaborators. */
  datatype Markup = Markup(
    tag: (string, Attrs, string) -> string,   // createTag(name, attributes, content)
    firstLast: (nat, nat) -> string,          // FirstLast() after iteratorProperties(idx, count)
    evenOdd: (nat, nat) -> string)            // EvenOdd() after iteratorProperties(idx, count)

  /* ----- data pipeline ----- */

  /** One pipeline stage: only a data manipulator replaces the list. */
  function Manipulate<R>(c: Component<R>, data: seq<R>): seq<R>
  {
    if c.manipulator.Some? then c.manipulator.value(data) else data
  }

  /** The `getManipulatedData` loop: a left fold in registration order. */
  function Pipeline<R>(cs: seq<Component<R>>, data: seq<R>): seq<R>
    decreases |cs|
  {
    if |cs| == 0 then data else Pipeline(cs[1..], Manipulate(cs[0], data))
  }

  /** Later components see the output of earlier ones. */
  lemma {:induction false} PipelineAppend<R>(cs1: seq<Component<R>>, cs2: seq<Component<R>>, data: seq<R>)
    ensures Pipeline(cs1 + cs2, data) == Pipeline(cs2, Pipeline(cs1, data))
    decreases |cs1|
  {
    if |cs1| == 0 {
      assert cs1 + cs2 == cs2;
    } else {
      assert (cs1 + cs2)[1..] == cs1[1..] + cs2;
      PipelineAppend(cs1[1..], cs2, Manipulate(cs1[0], data));
    }
  }

  /**
   * Two manipulators T1 then T2, with any other components around them, give
   * T2(T1(list)): the first registered transform runs first.
   */
  lemma PipelineOrder<R>(a: seq<Component<R>>, c1: Component<R>, b: seq<Component<R>>, c2: Component<R>, d: seq<Component<R>>, data: seq<R>)
    requires c1.manipulator.Some? && c2.manipulator.Some?
    requires forall i :: 0 <= i < |a| ==> a[i].manipulator.None?
    requires forall i :: 0 <= i < |b| ==> b[i].manipulator.None?
    requires forall i :: 0 <= i < |d| ==> d[i].manipulator.None?
    ensures Pipeline(a + [c1] + b + [c2] + d, data) == c2.manipulator.value(c1.manipulator.value(data))
  {
    var t1 := c1.manipulator.value(data);
    var t2 := c2.manipulator.value(t1);
    PipelineSkipsOthers(a, data);
    PipelineAppend(a, [c1], data);
    PipelineSingle(c1, data);
    assert Pipeline(a + [c1], data) == t1;
    PipelineAppend(a + [c1], b, data);
    PipelineSkipsOthers(b, t1);
    assert Pipeline(a + [c1] + b, data) == t1;
    PipelineAppend(a + [c1] + b, [c2], data);
    PipelineSingle(c2, t1);
    assert Pipeline(a + [c1] + b + [c2], data) == t2;
    PipelineAppend(a + [c1] + b + [c2], d, data);
    PipelineSkipsOthers(d, t2);
  }

  /** A single component's pipeline is its own stage. */
  lemma PipelineSingle<R>(c: Component<R>, data: seq<R>)
    ensures Pipeline([c], data) == Manipulate(c, data)
  {
    assert [c][1..] == [];
  }

  /** Components without the manipulator capability leave the list alone. */
  lemma {:induction false} PipelineSkipsOthers<R>(cs: seq<Component<R>>, data: seq<R>)
    requires forall i :: 0 <= i < |cs| ==> cs[i].manipulator.None?
    ensures Pipeline(cs, data) == data
    decreases |cs|
  {
    if |cs| > 0 {
      PipelineSkipsOthers(cs[1..], data);
    }
  }

  /* ----- fragment buckets ----- */

  /** The fragments the HTML providers contribute to `region`, in registration order. */
  function Fragments<R>(cs: seq<Component<R>>, region: string): seq<string>
    decreases |cs|
  {
    if |cs| == 0 then []
    else
      var own := if cs[0].html.Some? && region in cs[0].html.value then [cs[0].html.value[region]] else [];
      own + Fragments(cs[1..], region)
  }

  /** The component contributes a fragment to `region`. */
  predicate Contributes<R>(c: Component<R>, region: string)
  {
    c.html.Some? && region in c.html.value
  }

  /** Contributions accumulate: a later component's fragment goes after earlier ones. */
  lemma {:induction false} FragmentsAppend<R>(cs1: seq<Component<R>>, cs2: seq<Component<R>>, region: string)
    ensures Fragments(cs1 + cs2, region) == Fragments(cs1, region) + Fragments(cs2, region)
    decreases |cs1|
  {
    if |cs1| == 0 {
      assert cs1 + cs2 == cs2;
    } else {
      assert (cs1 + cs2)[1..] == cs1[1..] + cs2;
      FragmentsAppend(cs1[1..], cs2, region);
    }
  }

  /** A bucket is empty exactly when no HTML provider contributes to its region. */
  lemma {:induction false} FragmentsEmpty<R>(cs: seq<Component<R>>, region: string)
    ensures Fragments(cs, region) == [] <==> forall i :: 0 <= i < |cs| ==> !Contributes(cs[i], region)
    decreases |cs|
  {
    if |cs| > 0 {
      FragmentsEmpty(cs[1..], region);
      assert forall i :: 1 <= i < |cs| ==> cs[1..][i - 1] == cs[i];
    }
  }

  /* ----- cells and rows ----- */

  /**
   * The two lookups a row makes per column, already applied to its record:
   * `getColumnContent` and `getColumnAttributes`.
   */
  datatype RowLookups = RowLookups(
    content: string -> Result<Option<string>>,
    attributes: string -> Result<Attrs>)

  /** The grid's lookups for one record, through the column dispatch. */
  function LookupsFor<R>(cs: seq<Component<R>>, record: R): RowLookups
  {
    RowLookups(
      column => GetColumnContent(cs, record, column),
      column => GetColumnAttributes(cs, record, column))
  }

  /** The lookups of every record of the grid. */
  function GridLookups<R>(cs: seq<Component<R>>): R -> RowLookups
  {
    record => LookupsFor(cs, record)
  }

  /** The cell of `column` renders without an exception. */
  predicate CellRenders(look: RowLookups, column: string)
  {
    var content := look.content(column);
    content.Ok? && (content.value.Some? ==> look.attributes(column).Ok?)
  }

  /** The cell has content, i.e. it is not skipped. */
  predicate HasContent(look: RowLookups, column: string)
  {
    var content := look.content(column);
    content.Ok? && content.value.Some?
  }

  /** The `<td>` of a cell that renders and has content. */
  function Cell(env: Markup, look: RowLookups, column: string): string
    requires CellRenders(look, column) && HasContent(look, column)
  {
    env.tag("td", look.attributes(column).value, look.content(column).value.value)
  }

  /**
   * The inner `foreach($columns ...)` of one row: a column whose content is
   * null gives no cell, the others give a `<td>`; the first exception stops it.
   */
  function RenderCells(env: Markup, look: RowLookups, columns: seq<string>): (r: Result<seq<string>>)
    ensures r.Ok? <==> RowRenders(look, columns)
    ensures r.Ok? ==> |r.value| <= |columns|
    decreases |columns|
  {
    if |columns| == 0 then Ok([])
    else
      var content :- look.content(columns[0]);
      if content.None? then RenderCells(env, look, columns[1..])
      else
        var attrs :- look.attributes(columns[0]);
        var rest :- RenderCells(env, look, columns[1..]);
        Ok([env.tag("td", attrs, content.value)] + rest)
  }

  /**
   * A row whose every column has content has one `<td>` per column, in
   * column order.
   */
  lemma {:induction false} AllCellsPresent(env: Markup, look: RowLookups, columns: seq<string>)
    requires forall j :: 0 <= j < |columns| ==> CellRenders(look, columns[j]) && HasContent(look, columns[j])
    ensures RenderCells(env, look, columns).Ok?
    ensures |RenderCells(env, look, columns).value| == |columns|
    ensures forall j :: 0 <= j < |columns| ==> RenderCells(env, look, columns).value[j] == Cell(env, look, columns[j])
    decreases |columns|
  {
    if |columns| > 0 {
      AllCellsPresent(env, look, columns[1..]);
      var r := RenderCells(env, look, columns);
      var rest := RenderCells(env, look, columns[1..]);
      assert CellRenders(look, columns[0]) && HasContent(look, columns[0]);
      assert r.value == [Cell(env, look, columns[0])] + rest.value;
      forall j | 1 <= j < |columns|
        ensures r.value[j] == Cell(env, look, columns[j])
      {
        assert columns[1..][j - 1] == columns[j];
      }
    }
  }

  /** A row whose every column has null content has no cells at all. */
  lemma {:induction false} AllCellsSkipped(env: Markup, look: RowLookups, columns: seq<string>)
    requires forall j :: 0 <= j < |columns| ==> look.content(columns[j]) == Ok(None)
    ensures RenderCells(env, look, columns) == Ok([])
    decreases |columns|
  {
    if |columns| > 0 {
      AllCellsSkipped(env, look, columns[1..]);
    }
  }

  /**
   * Skipping is local: dropping a column whose content is null from the
   * column list changes nothing in the row, and the other cells still render.
   */
  lemma {:induction false} NullCellSkipped(env: Markup, look: RowLookups, columns: seq<string>, k: nat)
    requires k < |columns|
    requires look.content(columns[k]) == Ok(None)
    ensures RenderCells(env, look, columns) == RenderCells(env, look, columns[..k] + columns[k + 1..])
    decreases k
  {
    if k > 0 {
      var shorter := columns[..k] + columns[k + 1..];
      assert shorter[0] == columns[0];
      assert shorter[1..] == columns[1..][..k - 1] + columns[1..][k..];
      NullCellSkipped(env, look, columns[1..], k - 1);
    } else {
      assert columns[..0] + columns[1..] == columns[1..];
    }
  }

  /** The `<tr>` of the record at position `idx` of `total`. */
  function Row(env: Markup, idx: nat, total: nat, cells: seq<string>): string
  {
    "<tr class='" + env.firstLast(idx, total) + " " + env.evenOdd(idx, total) + "'>" + Join("", cells) + "</tr>"
  }

  /** Every cell of the record's row renders: no lookup raises. */
  predicate RowRenders(look: RowLookups, columns: seq<string>)
  {
    forall j :: 0 <= j < |columns| ==> CellRenders(look, columns[j])
  }

  /** Every record from position `k` on renders its row. */
  predicate RowsRender<R>(lookups: R -> RowLookups, columns: seq<string>, data: seq<R>, k: nat)
  {
    forall m :: k <= m < |data| ==> RowRenders(lookups(data[m]), columns)
  }

  /** The records from `k` on render exactly when record `k` and those after it do. */
  lemma RowsRenderStep<R>(lookups: R -> RowLookups, columns: seq<string>, data: seq<R>, k: nat)
    requires k < |data|
    ensures RowsRender(lookups, columns, data, k) <==>
      RowRenders(lookups(data[k]), columns) && RowsRender(lookups, columns, data, k + 1)
  {
  }

  /**
   * The outer `foreach($list ...)`: one row per record from position `k` on,
   * `lookups` giving each record's column lookups.
   */
  function RenderRows<R>(lookups: R -> RowLookups, env: Markup, columns: seq<string>, data: seq<R>, k: nat): (r: Result<seq<string>>)
    requires k <= |data|
    ensures r.Ok? <==> RowsRender(lookups, columns, data, k)
    ensures r.Ok? ==> |r.value| == |data| - k
    decreases |data| - k
  {
    if k == |data| then Ok([])
    else
      var cells := RenderCells(env, lookups(data[k]), columns);
      var rest := RenderRows(lookups, env, columns, data, k + 1);
      RowsRenderStep(lookups, columns, data, k);
      if cells.Err? then Err(cells.error)
      else if rest.Err? then rest
      else Ok([Row(env, k, |data|, cells.value)] + rest.value)
  }

  /**
   * Rows come in record order: the row at position `m - k` is that of record
   * `m`, marked with its own position among all rendered records and holding
   * that record's cells.
   */
  lemma {:induction false} RowsInOrder<R>(lookups: R -> RowLookups, env: Markup, columns: seq<string>, data: seq<R>, k: nat, m: nat)
    requires k <= m < |data|
    requires RenderRows(lookups, env, columns, data, k).Ok?
    ensures RenderCells(env, lookups(data[m]), columns).Ok?
    ensures RenderRows(lookups, env, columns, data, k).value[m - k] ==
      Row(env, m, |data|, RenderCells(env, lookups(data[m]), columns).value)
    decreases m - k
  {
    var cells := RenderCells(env, lookups(data[k]), columns);
    var rest := RenderRows(lookups, env, columns, data, k + 1);
    assert cells.Ok? && rest.Ok?;
    var rows := RenderRows(lookups, env, columns, data, k).value;
    assert rows == [Row(env, k, |data|, cells.value)] + rest.value;
    if m > k {
      RowsInOrder(lookups, env, columns, data, k + 1, m);
      assert rows[m - k] == rest.value[m - (k + 1)];
    }
  }

  /* ----- assembly ----- */

  /** The five named buckets of `$content`. */
  datatype Buckets = Buckets(header: seq<string>, body: seq<string>, footer: seq<string>, before: seq<string>, after: seq<string>)

  /** The records that reach the rows: the data source after the pipeline. */
  function RenderedData<R>(g: Grid<R>): seq<R>
  {
    Pipeline(g.components, if g.list.Some? then g.list.value.records else [])
  }

  /**
   * Fill the buckets: every bucket holds its region's fragments, and the body
   * bucket holds in addition one row per rendered record, after the fragments.
   */
  function CollectBuckets<R>(g: Grid<R>, env: Markup): (r: Result<Buckets>)
    ensures r.Ok? <==> RowsRender(GridLookups(g.components), GetColumns(g.components), RenderedData(g), 0)
    ensures r.Ok? ==> r.value.header == Fragments(g.components, "header")
    ensures r.Ok? ==> r.value.footer == Fragments(g.components, "footer")
    ensures r.Ok? ==> r.value.before == Fragments(g.components, "before")
    ensures r.Ok? ==> r.value.after == Fragments(g.components, "after")
    ensures r.Ok? ==> |r.value.body| == |Fragments(g.components, "body")| + |RenderedData(g)|
    ensures r.Ok? ==> r.value.body[..|Fragments(g.components, "body")|] == Fragments(g.components, "body")
  {
    var cs := g.components;
    var columns := GetColumns(cs);
    var data := RenderedData(g);
    var rows :- RenderRows(GridLookups(cs), env, columns, data, 0);
    Ok(Buckets(Fragments(cs, "header"), Fragments(cs, "body") + rows, Fragments(cs, "footer"),
               Fragments(cs, "before"), Fragments(cs, "after")))
  }

  /**
   * When the buckets are collected, the body bucket holds, after the body
   * fragments, the row of each rendered record, in record order, built from that record's cells over the grid's
   * columns.
   */
  lemma BodyRowsInOrder<R>(g: Grid<R>, env: Markup, m: nat)
    requires m < |RenderedData(g)|
    ensures CollectBuckets(g, env).Ok? ==>
      && RenderCells(env, GridLookups(g.components)(RenderedData(g)[m]), GetColumns(g.components)).Ok?
      && CollectBuckets(g, env).value.body[|Fragments(g.components, "body")| + m] ==
           Row(env, m, |RenderedData(g)|,
               RenderCells(env, GridLookups(g.components)(RenderedData(g)[m]), GetColumns(g.components)).value)
  {
    if CollectBuckets(g, env).Ok? {
      var cs := g.components;
      var columns := GetColumns(cs);
      var data := RenderedData(g);
      var rows := RenderRows(GridLookups(cs), env, columns, data, 0);
      var frags := Fragments(cs, "body");
      BucketsBody(g, env);
      RowsInOrder(GridLookups(cs), env, columns, data, 0, m);
      BodyIndex(frags, rows.value, m);
    }
  }

  /** The body bucket is the body fragments followed by the rendered rows. */
  lemma BucketsBody<R>(g: Grid<R>, env: Markup)
    requires CollectBuckets(g, env).Ok?
    ensures RenderRows(GridLookups(g.components), env, GetColumns(g.components), RenderedData(g), 0).Ok?
    ensures CollectBuckets(g, env).value.body ==
      Fragments(g.components, "body") + RenderRows(GridLookups(g.components), env, GetColumns(g.components), RenderedData(g), 0).value
  {
  }

  /** Indexing past a prefix lands in the suffix. */
  lemma BodyIndex(frags: seq<string>, rows: seq<string>, m: nat)
    requires m < |rows|
    ensures (frags + rows)[|frags| + m] == rows[m]
  {
  }

  /** A table section: omitted entirely when its bucket is empty. */
  function Section(env: Markup, name: string, fragments: seq<string>): (s: string)
    ensures fragments == [] ==> s == ""
  {
    if |fragments| == 0 then "" else env.tag(name, [], Join("\n", fragments))
  }

  /** The attributes of the `<table>` element. */
  function TableAttrs<R>(g: Grid<R>): Attrs
  {
    [("id", g.id), ("class", Some("field CompositeField " + g.extraClass))]
  }

  /** The final markup: before-fragments, the table, after-fragments. */
  function Assemble<R>(g: Grid<R>, env: Markup, b: Buckets): (html: string)
    ensures exists inner :: html == Join("\n", b.before) + env.tag("table", TableAttrs(g), inner) + Join("\n", b.after)
  {
    var head := Section(env, "thead", b.header);
    var body := Section(env, "tbody", b.body);
    var foot := Section(env, "tfoot", b.footer);
    var before := Join("\n", b.before);
    var table := env.tag("table", TableAttrs(g), head + "\n" + foot + "\n" + body);
    var after := Join("\n", b.after);
    before + table + after
  }

  /**
   * `FieldHolder`: renders when every cell of every rendered record renders;
   * the before- and after-fragments frame the table from outside.
   */
  function FieldHolder<R>(g: Grid<R>, env: Markup): (r: Result<string>)
    ensures r.Ok? <==> RowsRender(GridLookups(g.components), GetColumns(g.components), RenderedData(g), 0)
    ensures r.Ok? ==> exists inner ::
      r.value == Join("\n", Fragments(g.components, "before")) + env.tag("table", TableAttrs(g), inner) +
                 Join("\n", Fragments(g.components, "after"))
  {
    var b :- CollectBuckets(g, env);
    Ok(Assemble(g, env, b))
  }

  /**
   * An empty record list renders without error whatever the columns are: no
   * lookup happens, so even an unclaimed column raises nothing.
   */
  lemma EmptyListRenders<R>(g: Grid<R>, env: Markup)
    requires RenderedData(g) == []
    ensures FieldHolder(g, env).Ok?
  {
  }

  /**
   * A column nobody handles breaks rendering as soon as there is a record:
   * its content lookup raises `Bad column`, so `FieldHolder` fails.
   */
  lemma UnclaimedColumnFails<R>(g: Grid<R>, env: Markup, j: nat)
    requires |RenderedData(g)| > 0
    requires j < |GetColumns(g.components)| && !Claimed(g.components, GetColumns(g.components)[j])
    ensures FieldHolder(g, env).Err?
  {
    var cs := g.components;
    var columns := GetColumns(cs);
    var record := RenderedData(g)[0];
    assert GetColumnContent(cs, record, columns[j]).Err?;
    assert !CellRenders(GridLookups(cs)(record), columns[j]);
    assert !RowRenders(GridLookups(cs)(record), columns);
  }

  /**
   * The rendered markup section by section: inside the table, the header
   * section, a newline, the footer section, a newline, and the body section
   * built from the body fragments followed by the rows; before- and
   * after-fragments outside it.
   */
  lemma FieldHolderSections<R>(g: Grid<R>, env: Markup)
    ensures FieldHolder(g, env).Ok? ==>
      && RenderRows(GridLookups(g.components), env, GetColumns(g.components), RenderedData(g), 0).Ok?
      && FieldHolder(g, env).value ==
           Join("\n", Fragments(g.components, "before")) +
           env.tag("table", TableAttrs(g),
             Section(env, "thead", Fragments(g.components, "header")) + "\n" +
             Section(env, "tfoot", Fragments(g.components, "footer")) + "\n" +
             Section(env, "tbody", Fragments(g.components, "body") +
               RenderRows(GridLookups(g.components), env, GetColumns(g.components), RenderedData(g), 0).value)) +
           Join("\n", Fragments(g.components, "after"))
  {
    if FieldHolder(g, env).Ok? {
      var b := CollectBuckets(g, env).value;
      BucketsBody(g, env);
      FieldHolderAssembles(g, env, b);
    }
  }

  /**
   * With no record to render and no body fragment, the body bucket is empty
   * and the table holds no `<tbody>`: only the header and footer sections
   * and their two separators.
   */
  lemma EmptyBodyNoTbody<R>(g: Grid<R>, env: Markup)
    requires RenderedData(g) == []
    requires forall i :: 0 <= i < |g.components| ==> !Contributes(g.components[i], "body")
    ensures FieldHolder(g, env) ==
      Ok(Join("\n", Fragments(g.components, "before")) +
         env.tag("table", TableAttrs(g),
           Section(env, "thead", Fragments(g.components, "header")) + "\n" +
           Section(env, "tfoot", Fragments(g.components, "footer")) + "\n") +
         Join("\n", Fragments(g.components, "after")))
  {
    FragmentsEmpty(g.components, "body");
    var b := CollectBuckets(g, env).value;
    BucketsBody(g, env);
    assert b.body == [];
    FieldHolderAssembles(g, env, b);
    var head := Section(env, "thead", b.header);
    var foot := Section(env, "tfoot", b.footer);
    assert head + "\n" + foot + "\n" + Section(env, "tbody", b.body) == head + "\n" + foot + "\n";
  }

  /**
   * With no header and no footer fragments, `<thead>` and `<tfoot>` are
   * absent: the table holds just the separators and the body section.
   */
  lemma NoHeaderNoFooter<R>(g: Grid<R>, env: Markup, b: Buckets)
    requires forall i :: 0 <= i < |g.components| ==> !Contributes(g.components[i], "header")
    requires forall i :: 0 <= i < |g.components| ==> !Contributes(g.components[i], "footer")
    requires CollectBuckets(g, env) == Ok(b)
    ensures FieldHolder(g, env) ==
      Ok(Join("\n", b.before) + env.tag("table", TableAttrs(g), "\n\n" + Section(env, "tbody", b.body)) + Join("\n", b.after))
  {
    FragmentsEmpty(g.components, "header");
    FragmentsEmpty(g.components, "footer");
    FieldHolderAssembles(g, env, b);
    AssembleWithoutHeadFoot(g, env, b);
  }

  /** `FieldHolder` assembles the buckets it collected. */
  lemma FieldHolderAssembles<R>(g: Grid<R>, env: Markup, b: Buckets)
    requires CollectBuckets(g, env) == Ok(b)
    ensures FieldHolder(g, env) == Ok(Assemble(g, env, b))
  {
  }

  /** Empty header and footer buckets leave only the separators and the body section. */
  lemma AssembleWithoutHeadFoot<R>(g: Grid<R>, env: Markup, b: Buckets)
    requires b.header == [] && b.footer == []
    ensures Assemble(g, env, b) ==
      Join("\n", b.before) + env.tag("table", TableAttrs(g), "\n\n" + Section(env, "tbody", b.body)) + Join("\n", b.after)
  {
    var body := Section(env, "tbody", b.body);
    assert Section(env, "thead", b.header) + "\n" + Section(env, "tfoot", b.footer) + "\n" + body == "\n\n" + body;
  }
}
