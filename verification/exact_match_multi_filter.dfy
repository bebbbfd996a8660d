/**
 * `ExactMatchMultiFilter`: the `Column IN ('v1','v2',...)` clause of a
 * search filter.
 *
 * PHP's `is_numeric` and `Convert::raw2sql` are collaborators outside the
 * model and come in as function parameters; so does the column name that
 * `getDbName` would compute after `applyRelation`.
 */
module ExactMatchMultiFilter {
  import opened Outcomes
  import opened Strings

  /** The filter's value: PHP null, a string, or an array (its values, in order). */
  datatype FilterValue = NullValue | StringValue(s: string) | ArrayValue(items: seq<string>)

  /**
   * The value list `apply` builds: a string is split at every comma; an
   * array's values are copied in order, its keys dropped; null iterates to
   * nothing.
   */
  function NormaliseValue(v: FilterValue): (values: seq<string>)
    ensures v.StringValue? ==> |values| == Count(v.s, ',') + 1 && Join(",", values) == v.s
    ensures v.ArrayValue? ==> values == v.items
    ensures v.NullValue? ==> values == []
  {
    match v
    case NullValue => []
    case StringValue(s) =>
      SplitCount(s, ',');
      JoinSplit(s, ",");
      Split(s, ",")
    case ArrayValue(items) => items
  }

  /** `str_replace("'", '', s)`: every single quote removed, the rest kept in order. */
  function StripQuotes(s: string): (r: string)
    ensures '\'' !in r
    ensures |r| == |s| - Count(s, '\'')
    decreases |s|
  {
    if |s| == 0 then ""
    else if s[0] == '\'' then StripQuotes(s[1..])
    else [s[0]] + StripQuotes(s[1..])
  }

  /** Stripping quotes leaves a quote-free string unchanged (so stripping twice is stripping once). */
  lemma {:induction false} StripQuotesFixesQuoteFree(s: string)
    requires '\'' !in s
    ensures StripQuotes(s) == s
    decreases |s|
  {
    if |s| > 0 {
      assert s[0] != '\'';
      assert forall c :: c in s[1..] ==> c in s;
      StripQuotesFixesQuoteFree(s[1..]);
    }
  }

  /** Stripping works character by character: it distributes over concatenation. */
  lemma {:induction false} StripQuotesConcat(a: string, b: string)
    ensures StripQuotes(a + b) == StripQuotes(a) + StripQuotes(b)
    decreases |a|
  {
    if |a| == 0 {
      assert a + b == b;
    } else {
      assert (a + b)[0] == a[0];
      assert (a + b)[1..] == a[1..] + b;
      StripQuotesConcat(a[1..], b);
    }
  }

  /** On one character: a quote is removed, any other character is kept. */
  lemma StripQuotesChar(c: char)
    ensures StripQuotes([c]) == if c == '\'' then "" else [c]
  {
    assert [c][1..] == "";
  }

  /** The treatment of one item: numeric items as they are, others stripped and escaped. */
  function QuoteItem(item: string, isNumeric: string -> bool, escape: string -> string): string
  {
    if isNumeric(item) then item else escape(StripQuotes(item))
  }

  /**
   * The `for` loop of `apply`: rewrites each non-numeric value in place and
   * leaves numeric ones alone; positions and count are preserved.
   */
  method QuoteValues(values: seq<string>, isNumeric: string -> bool, escape: string -> string) returns (quoted: seq<string>)
    ensures |quoted| == |values|
    ensures forall i :: 0 <= i < |values| && isNumeric(values[i]) ==> quoted[i] == values[i]
    ensures forall i :: 0 <= i < |values| && !isNumeric(values[i]) ==> quoted[i] == escape(StripQuotes(values[i]))
  {
    quoted := values;
    var i := 0;
    while i < |quoted|
      invariant 0 <= i <= |quoted| == |values|
      invariant forall j :: 0 <= j < i ==> quoted[j] == QuoteItem(values[j], isNumeric, escape)
      invariant forall j :: i <= j < |quoted| ==> quoted[j] == values[j]
    {
      if !isNumeric(quoted[i]) {
        var stripped := StripQuotes(quoted[i]);
        quoted := quoted[i := escape(stripped)];
      }
      i := i + 1;
    }
  }

  /**
   * Every value given its treatment, built value by value; it agrees with the
   * in-place loop position by position.
   */
  function QuoteAll(values: seq<string>, isNumeric: string -> bool, escape: string -> string): (quoted: seq<string>)
    ensures |quoted| == |values|
    ensures forall i :: 0 <= i < |values| ==> quoted[i] == QuoteItem(values[i], isNumeric, escape)
    decreases |values|
  {
    if |values| == 0 then []
    else [QuoteItem(values[0], isNumeric, escape)] + QuoteAll(values[1..], isNumeric, escape)
  }

  /** The clause text for a non-empty list of already quoted items. */
  function InClause(dbName: string, quoted: seq<string>): string
  {
    dbName + " IN ('" + Join("','", quoted) + "')"
  }

  /**
   * `apply`: no clause (PHP `false`) exactly when the value list is empty;
   * otherwise the column, `IN`, and every item treated, in the original order.
   */
  method Apply(dbName: string, value: FilterValue, isNumeric: string -> bool, escape: string -> string)
    returns (clause: Option<string>)
    ensures clause.None? <==> value.NullValue? || value == ArrayValue([])
    ensures clause.Some? ==> clause.value == InClause(dbName, QuoteAll(NormaliseValue(value), isNumeric, escape))
  {
    var values := NormaliseValue(value);
    if |values| == 0 {
      return None;
    }
    var quoted := QuoteValues(values, isNumeric, escape);
    assert quoted == QuoteAll(values, isNumeric, escape);
    clause := Some(InClause(dbName, quoted));
  }

  /**
   * The clause reads back: when no item holds a single quote (true of
   * stripped items whenever the escape adds none, and of numeric strings),
   * the text between `IN ('` and `')` splits at `','` into exactly the
   * items, one per value, in order.
   */
  lemma InClauseReadsBack(dbName: string, quoted: seq<string>)
    requires |quoted| >= 1
    requires forall i :: 0 <= i < |quoted| ==> '\'' !in quoted[i]
    ensures var clause := InClause(dbName, quoted);
      && StartsWith(clause, dbName + " IN ('")
      && |clause| >= |dbName| + 8
      && clause[|clause| - 2..] == "')"
      && Split(clause[|dbName| + 6..|clause| - 2], "','") == quoted
  {
    var clause := InClause(dbName, quoted);
    var inner := Join("','", quoted);
    assert clause == (dbName + " IN ('") + inner + "')";
    assert clause[|dbName| + 6..|clause| - 2] == inner;
    assert "','"[0] == '\'';
    SplitJoin(quoted, "','");
  }

  /**
   * One value per list entry: provided numeric strings hold no quote and the
   * escape introduces none, the clause `apply` builds splits back into one
   * item per normalised value, each the treatment of the value at the same
   * position.
   */
  lemma ClauseListsEveryValue(dbName: string, values: seq<string>,
                              isNumeric: string -> bool, escape: string -> string)
    requires |values| >= 1
    requires forall s :: isNumeric(s) ==> '\'' !in s
    requires forall s :: '\'' !in s ==> '\'' !in escape(s)
    ensures var clause := InClause(dbName, QuoteAll(values, isNumeric, escape));
      && |clause| >= |dbName| + 8
      && |Split(clause[|dbName| + 6..|clause| - 2], "','")| == |values|
      && forall i :: 0 <= i < |values| ==>
           Split(clause[|dbName| + 6..|clause| - 2], "','")[i] == QuoteItem(values[i], isNumeric, escape)
  {
    var quoted := QuoteAll(values, isNumeric, escape);
    forall i | 0 <= i < |quoted|
      ensures '\'' !in quoted[i]
    {
      if !isNumeric(values[i]) {
        var stripped := StripQuotes(values[i]);
        assert '\'' !in escape(stripped);
      }
    }
    InClauseReadsBack(dbName, quoted);
  }

  /** `isEmpty`: the value is null or the empty string (`== null || == ''`). */
  function IsEmpty(v: FilterValue): (empty: bool)
    ensures empty <==> v.NullValue? || v == StringValue("") || v == ArrayValue([])
  {
    match v
    case NullValue => true
    case StringValue(s) => s == ""
    case ArrayValue(items) => |items| == 0
  }

  /**
   * `isEmpty` against `apply`: a value that leaves `apply` nothing to list
   * (so no clause) is empty, and an empty value other than "" leaves it
   * nothing to list.
   */
  lemma IsEmptyAgainstApply(v: FilterValue)
    ensures NormaliseValue(v) == [] ==> IsEmpty(v)
    ensures IsEmpty(v) && v != StringValue("") ==> NormaliseValue(v) == []
  {
    if v.StringValue? {
      assert |NormaliseValue(v)| >= 1;
    }
  }

  /**
   * A string value never yields an empty list, even the empty string, so
   * `apply` always emits a clause for it, while `isEmpty` still calls "" empty.
   */
  lemma EmptyStringStillFilters()
    ensures NormaliseValue(StringValue("")) == [""]
    ensures IsEmpty(StringValue(""))
  {
    var v := NormaliseValue(StringValue(""));
    assert |v| == 1;
    assert Join(",", v) == v[0];
  }
}
