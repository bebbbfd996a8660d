/**
 * Column composition and column dispatch of a GridField: the column list
 * built by the column providers, the column-name-to-handler map, and the
 * content, attribute and metadata lookups that go through that map.
 *
 * The dispatch map binds a column name to the POSITION of its handler in the
 * component sequence, which stands for the PHP object reference.
 */
module GridColumns {
  import opened Outcomes
  import opened GridComponents

  /* ----- getColumns ----- */

  /** One step of `getColumns`: only a column provider touches the list. */
  function Augment<R>(c: Component<R>, columns: seq<string>): seq<string>
  {
    if c.columns.Some? then c.columns.value.augment(columns) else columns
  }

  /** Left fold of `Augment` over the components, in registration order. */
  function ColumnsFold<R>(cs: seq<Component<R>>, columns: seq<string>): seq<string>
    decreases |cs|
  {
    if |cs| == 0 then columns else ColumnsFold(cs[1..], Augment(cs[0], columns))
  }

  /** `getColumns`: every column provider augments the list that starts empty. */
  function GetColumns<R>(cs: seq<Component<R>>): seq<string>
  {
    ColumnsFold(cs, [])
  }

  /** Registering more components continues the fold where it stopped. */
  lemma {:induction false} ColumnsFoldAppend<R>(cs1: seq<Component<R>>, cs2: seq<Component<R>>, columns: seq<string>)
    ensures ColumnsFold(cs1 + cs2, columns) == ColumnsFold(cs2, ColumnsFold(cs1, columns))
    decreases |cs1|
  {
    if |cs1| == 0 {
      assert cs1 + cs2 == cs2;
    } else {
      assert (cs1 + cs2)[1..] == cs1[1..] + cs2;
      ColumnsFoldAppend(cs1[1..], cs2, Augment(cs1[0], columns));
    }
  }

  /** A component that is not a column provider never changes the column list. */
  lemma GetColumnsIgnoresOthers<R>(before: seq<Component<R>>, c: Component<R>, after: seq<Component<R>>)
    requires c.columns.None?
    ensures GetColumns(before + [c] + after) == GetColumns(before + after)
  {
    ColumnsFoldAppend(before + [c], after, []);
    ColumnsFoldAppend(before, [c], []);
    ColumnsFoldAppend(before, after, []);
    assert ColumnsFold([c], ColumnsFold(before, [])) == ColumnsFold(before, []);
  }

  /** The provider appends exactly `added`, whatever the list holds so far. */
  ghost predicate Appends<R>(c: Component<R>, added: seq<string>)
  {
    if c.columns.Some? then
      forall columns: seq<string> {:trigger c.columns.value.augment(columns)} ::
        c.columns.value.augment(columns) == columns + added
    else added == []
  }

  /** Concatenation of a list of lists. */
  function Flatten(xss: seq<seq<string>>): seq<string>
  {
    if |xss| == 0 then [] else xss[0] + Flatten(xss[1..])
  }

  /**
   * When every provider simply appends its own columns, the column list is
   * all of them in registration order, duplicates kept: nothing deduplicates.
   */
  lemma {:induction false} GetColumnsOfAppenders<R>(cs: seq<Component<R>>, added: seq<seq<string>>, columns: seq<string>)
    requires |added| == |cs|
    requires forall i :: 0 <= i < |cs| ==> Appends(cs[i], added[i])
    ensures ColumnsFold(cs, columns) == columns + Flatten(added)
    decreases |cs|
  {
    if |cs| == 0 {
      assert columns + [] == columns;
    } else {
      assert Appends(cs[0], added[0]);
      assert Augment(cs[0], columns) == columns + added[0];
      forall i | 0 <= i < |cs| - 1
        ensures Appends(cs[1..][i], added[1..][i])
      {
        assert cs[1..][i] == cs[i + 1] && added[1..][i] == added[i + 1];
      }
      GetColumnsOfAppenders(cs[1..], added[1..], columns + added[0]);
      assert Flatten(added) == added[0] + Flatten(added[1..]);
      assert columns + added[0] + Flatten(added[1..]) == columns + (added[0] + Flatten(added[1..]));
    }
  }

  /* ----- buildColumnDispatch ----- */

  /** The component handles `column` through `getColumnsHandled`. */
  predicate Handles<R>(c: Component<R>, column: string)
  {
    c.columns.Some? && column in c.columns.value.handled
  }

  /** Some component of the grid handles `column`. */
  predicate Claimed<R>(cs: seq<Component<R>>, column: string)
  {
    exists i :: 0 <= i < |cs| && Handles(cs[i], column)
  }

  /** Component `i` handles `column`, and none of the components after it (below `k`) does. */
  predicate LastClaimantBelow<R>(cs: seq<Component<R>>, k: nat, column: string, i: nat)
    requires k <= |cs|
  {
    i < k && Handles(cs[i], column) && forall j :: i < j < k ==> !Handles(cs[j], column)
  }

  /** Component `i` is the last component of the grid to handle `column`. */
  predicate IsLastClaimant<R>(cs: seq<Component<R>>, column: string, i: nat)
  {
    LastClaimantBelow(cs, |cs|, column, i)
  }

  /** `$this->columnDispatch[$column] = $item` for every name in `names`. */
  function Bind(d: map<string, nat>, names: seq<string>, i: nat): (d': map<string, nat>)
    ensures d'.Keys == d.Keys + set n | n in names
    ensures forall n :: n in names ==> d'[n] == i
    ensures forall n :: n in d && n !in names ==> d'[n] == d[n]
    decreases |names|
  {
    if |names| == 0 then d else Bind(d[names[0] := i], names[1..], i)
  }

  /** The names a component hands to the dispatch (none unless it provides columns). */
  function HandledBy<R>(c: Component<R>): seq<string>
  {
    if c.columns.Some? then c.columns.value.handled else []
  }

  /** The dispatch map after the first `k` components have been scanned. */
  function DispatchPrefix<R>(cs: seq<Component<R>>, k: nat): (d: map<string, nat>)
    requires k <= |cs|
    ensures forall column :: column in d <==> exists i :: 0 <= i < k && Handles(cs[i], column)
    ensures forall column :: column in d ==> LastClaimantBelow(cs, k, column, d[column])
    decreases k
  {
    if k == 0 then map[]
    else
      var prev := DispatchPrefix(cs, k - 1);
      var d := Bind(prev, HandledBy(cs[k - 1]), k - 1);
      DispatchStep(cs, k, prev, d);
      d
  }

  /** Scanning component `k - 1` keeps the dispatch invariant. */
  lemma DispatchStep<R>(cs: seq<Component<R>>, k: nat, prev: map<string, nat>, d: map<string, nat>)
    requires 0 < k <= |cs|
    requires forall column :: column in prev <==> exists i :: 0 <= i < k - 1 && Handles(cs[i], column)
    requires forall column :: column in prev ==> LastClaimantBelow(cs, k - 1, column, prev[column])
    requires d == Bind(prev, HandledBy(cs[k - 1]), k - 1)
    ensures forall column :: column in d <==> exists i :: 0 <= i < k && Handles(cs[i], column)
    ensures forall column :: column in d ==> LastClaimantBelow(cs, k, column, d[column])
  {
    forall column
      ensures column in d <==> exists i :: 0 <= i < k && Handles(cs[i], column)
      ensures column in d ==> LastClaimantBelow(cs, k, column, d[column])
    {
      DispatchStepAt(cs, k, prev, d, column);
    }
  }

  /** `DispatchStep` for a single column. */
  lemma DispatchStepAt<R>(cs: seq<Component<R>>, k: nat, prev: map<string, nat>, d: map<string, nat>, column: string)
    requires 0 < k <= |cs|
    requires column in prev <==> exists i :: 0 <= i < k - 1 && Handles(cs[i], column)
    requires column in prev ==> LastClaimantBelow(cs, k - 1, column, prev[column])
    requires d == Bind(prev, HandledBy(cs[k - 1]), k - 1)
    ensures column in d <==> exists i :: 0 <= i < k && Handles(cs[i], column)
    ensures column in d ==> LastClaimantBelow(cs, k, column, d[column])
  {
    if column in HandledBy(cs[k - 1]) {
      assert Handles(cs[k - 1], column);
      assert d[column] == k - 1;
    } else {
      assert !Handles(cs[k - 1], column);
      if column in prev {
        assert d[column] == prev[column];
      }
    }
  }

  /**
   * `buildColumnDispatch`: a column is in the map exactly when some column
   * provider handles it, and it is bound to the LAST such provider.
   */
  function BuildColumnDispatch<R>(cs: seq<Component<R>>): (d: map<string, nat>)
    ensures forall column :: column in d <==> Claimed(cs, column)
    ensures forall column :: column in d ==> IsLastClaimant(cs, column, d[column])
  {
    DispatchPrefix(cs, |cs|)
  }

  /** The last claimant of a column is unique. */
  lemma LastClaimantUnique<R>(cs: seq<Component<R>>, column: string, i: nat, j: nat)
    requires IsLastClaimant(cs, column, i) && IsLastClaimant(cs, column, j)
    ensures i == j
  {
  }

  /** Every name some column provider handles. */
  function HandledNames<R>(cs: seq<Component<R>>): set<string>
  {
    set i, column | 0 <= i < |cs| && cs[i].columns.Some? && column in cs[i].columns.value.handled :: column
  }

  /** `getColumnCount`: the number of distinct handled column names. */
  function GetColumnCount<R>(cs: seq<Component<R>>): (n: nat)
    ensures n == |HandledNames(cs)|
  {
    var d := BuildColumnDispatch(cs);
    assert d.Keys == HandledNames(cs) by {
      forall column | column in HandledNames(cs)
        ensures column in d
      {
        var i :| 0 <= i < |cs| && cs[i].columns.Some? && column in cs[i].columns.value.handled;
        assert Handles(cs[i], column);
      }
    }
    |d.Keys|
  }

  /* ----- lookups through the dispatch map ----- */

  function BadColumn(column: string): Error
  {
    InvalidArgument("Bad column '" + column + "'")
  }

  function NonArray(className: string, accessor: string): Error
  {
    LogicError("Non-array response from " + className + "::" + accessor + "()")
  }

  /** What the grid makes of an attribute or metadata answer. */
  function NormaliseArray(raw: Returned, className: string, accessor: string): Result<Attrs>
  {
    match raw
    case ArrayResult(entries) => Ok(entries)
    case ScalarResult(truthy) => if truthy then Err(NonArray(className, accessor)) else Ok([])
  }

  /**
   * The last component handling `column`, found by scanning backwards: an
   * independent reference for the dispatch map, which scans forwards and
   * overwrites.
   */
  function LastClaimantFrom<R>(cs: seq<Component<R>>, column: string, k: nat): (i: nat)
    requires k <= |cs|
    requires exists j :: 0 <= j < k && Handles(cs[j], column)
    ensures LastClaimantBelow(cs, k, column, i)
    decreases k
  {
    if Handles(cs[k - 1], column) then k - 1 else LastClaimantFrom(cs, column, k - 1)
  }

  /** The last component of the grid handling a claimed column. */
  function LastClaimant<R>(cs: seq<Component<R>>, column: string): (i: nat)
    requires Claimed(cs, column)
    ensures IsLastClaimant(cs, column, i)
  {
    LastClaimantFrom(cs, column, |cs|)
  }

  /** The dispatch map binds every claimed column to its last claimant. */
  lemma DispatchFindsLastClaimant<R>(cs: seq<Component<R>>, column: string)
    requires Claimed(cs, column)
    ensures column in BuildColumnDispatch(cs)
    ensures BuildColumnDispatch(cs)[column] == LastClaimant(cs, column)
  {
    var d := BuildColumnDispatch(cs);
    LastClaimantUnique(cs, column, d[column], LastClaimant(cs, column));
  }

  /**
   * `getColumnContent`: an unclaimed column is an InvalidArgument; otherwise
   * the content comes from the last provider that handles the column.
   */
  function GetColumnContent<R>(cs: seq<Component<R>>, record: R, column: string): (r: Result<Option<string>>)
    ensures r.Err? <==> !Claimed(cs, column)
    ensures r.Err? ==> r.error == BadColumn(column)
    ensures r.Ok? ==> r.value == cs[LastClaimant(cs, column)].columns.value.content(record, column)
  {
    var d := BuildColumnDispatch(cs);
    if column in d then
      DispatchFindsLastClaimant(cs, column);
      Ok(cs[d[column]].columns.value.content(record, column))
    else Err(BadColumn(column))
  }

  /**
   * `getColumnAttributes`: an unclaimed column is an InvalidArgument; for a
   * claimed one, the last provider's answer is returned when it is an array,
   * a falsy answer becomes the empty array, and any other answer is a
   * LogicException naming the provider's class.
   */
  function GetColumnAttributes<R>(cs: seq<Component<R>>, record: R, column: string): (r: Result<Attrs>)
    ensures !Claimed(cs, column) ==> r == Err(BadColumn(column))
    ensures Claimed(cs, column) ==>
      var handler := cs[LastClaimant(cs, column)];
      var raw := handler.columns.value.attributes(record, column);
      && (raw.ArrayResult? ==> r == Ok(raw.entries))
      && (raw == ScalarResult(false) ==> r == Ok([]))
      && (raw == ScalarResult(true) ==> r == Err(NonArray(handler.className, "getColumnAttributes")))
  {
    var d := BuildColumnDispatch(cs);
    if column in d then
      DispatchFindsLastClaimant(cs, column);
      var handler := cs[d[column]];
      NormaliseArray(handler.columns.value.attributes(record, column), handler.className, "getColumnAttributes")
    else Err(BadColumn(column))
  }

  /** `getColumnMetadata`: as `getColumnAttributes`, without a record. */
  function GetColumnMetadata<R>(cs: seq<Component<R>>, column: string): (r: Result<Attrs>)
    ensures !Claimed(cs, column) ==> r == Err(BadColumn(column))
    ensures Claimed(cs, column) ==>
      var handler := cs[LastClaimant(cs, column)];
      var raw := handler.columns.value.metadata(column);
      && (raw.ArrayResult? ==> r == Ok(raw.entries))
      && (raw == ScalarResult(false) ==> r == Ok([]))
      && (raw == ScalarResult(true) ==> r == Err(NonArray(handler.className, "getColumnMetadata")))
  {
    var d := BuildColumnDispatch(cs);
    if column in d then
      DispatchFindsLastClaimant(cs, column);
      var handler := cs[d[column]];
      NormaliseArray(handler.columns.value.metadata(column), handler.className, "getColumnMetadata")
    else Err(BadColumn(column))
  }

  /**
   * A later provider that handles a column takes it over: after registering
   * `c`, every column `c` handles is answered by `c`.
   */
  lemma LaterProviderShadows<R>(cs: seq<Component<R>>, c: Component<R>, record: R, column: string)
    requires Handles(c, column)
    ensures GetColumnContent(cs + [c], record, column) == Ok(c.columns.value.content(record, column))
  {
    var cs' := cs + [c];
    assert cs'[|cs|] == c;
    assert IsLastClaimant(cs', column, |cs|);
    LastClaimantUnique(cs', column, LastClaimant(cs', column), |cs|);
  }
}
