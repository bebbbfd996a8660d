/**
 * The parsing half of `GridField::getCastedValue`: how a casting definition
 * is read into a field type, a rendering method and its extra parameters.
 * Building the typed field and calling the method are left to `DBField`.
 */
module GridCasting {
  import opened Outcomes
  import opened Strings

  /** A casting definition: a single string, or an array whose head is the definition. */
  datatype CastingDefinition = Spec(spec: string) | SpecArray(items: seq<string>)

  /** What `DBField::create` and `call_user_func_array` receive. */
  datatype CastingPlan = CastingPlan(fieldType: string, castingMethod: string, params: seq<string>)

  const Arrow: string := "->"

  /** The rendering method used when the definition names none. */
  const DefaultMethod: string := "XML"

  /**
   * Read a definition string: without `->` it is the field type and `XML` is
   * called; with one, the text before the first `->` is the field type and
   * the text between the first and the second `->` (or the end of the
   * definition, when there is no second one) the method.
   */
  function ParseSpec(spec: string, params: seq<string>): (plan: CastingPlan)
    ensures plan.params == params
    ensures Free(spec, Arrow) ==> plan == CastingPlan(spec, DefaultMethod, params)
    ensures !Free(spec, Arrow) ==>
      && Free(plan.fieldType, Arrow) && Free(plan.castingMethod, Arrow)
      && StartsWith(spec, plan.fieldType + Arrow + plan.castingMethod)
    ensures !Free(spec, Arrow) ==>
      var n := |plan.fieldType| + |Arrow| + |plan.castingMethod|;
      n <= |spec| && (n == |spec| || OccursAt(spec, Arrow, n))
  {
    if IndexOf(spec, Arrow).None? then CastingPlan(spec, DefaultMethod, params)
    else
      var parts := Split(spec, Arrow);
      SplitHeadTwo(spec, Arrow);
      SplitSecondEnds(spec, Arrow);
      CastingPlan(parts[0], parts[1], params)
  }

  /** When `sep` occurs, the first two pieces of `explode` rebuild a prefix of the text. */
  lemma SplitHeadTwo(s: string, sep: string)
    requires |sep| > 0
    requires IndexOf(s, sep).Some?
    ensures |Split(s, sep)| >= 2
    ensures var parts := Split(s, sep); StartsWith(s, parts[0] + sep + parts[1])
  {
    var i := IndexOf(s, sep).value;
    SplitUnfold(s, sep);
    var rest := s[i + |sep|..];
    var tail := Split(rest, sep);
    var parts := Split(s, sep);
    assert parts == [s[..i]] + tail;
    assert parts[0] == s[..i] && parts[1] == tail[0];
    JoinSplit(rest, sep);
    JoinPrefix(sep, tail);
    SplitAround(s, sep, i);
    PrefixUnderPrefix(s[..i] + sep, rest, tail[0]);
  }

  /**
   * When `sep` occurs, the second piece of `explode` runs up to the next
   * occurrence of `sep` or to the end of the text.
   */
  lemma SplitSecondEnds(s: string, sep: string)
    requires |sep| > 0
    requires IndexOf(s, sep).Some?
    ensures |Split(s, sep)| >= 2
    ensures var parts := Split(s, sep);
      var n := |parts[0]| + |sep| + |parts[1]|;
      n <= |s| && (n == |s| || OccursAt(s, sep, n))
  {
    var i := IndexOf(s, sep).value;
    SplitUnfold(s, sep);
    var rest := s[i + |sep|..];
    var tail := Split(rest, sep);
    var parts := Split(s, sep);
    assert parts == [s[..i]] + tail;
    assert |parts[0]| == i && parts[1] == tail[0];
    SplitHeadEnds(rest, sep);
    EndsAfter(s, sep, i, tail[0]);
  }

  /** A piece that ends where the suffix after `i + |sep|` has `sep` (or ends) does so in the whole. */
  lemma EndsAfter(s: string, sep: string, i: nat, p: string)
    requires i + |sep| <= |s|
    requires |p| <= |s| - (i + |sep|)
    requires |p| == |s| - (i + |sep|) || OccursAt(s[i + |sep|..], sep, |p|)
    ensures var n := i + |sep| + |p|; n <= |s| && (n == |s| || OccursAt(s, sep, n))
  {
    if |p| < |s| - (i + |sep|) {
      OccursShift(s, sep, i + |sep|, |p|);
    }
  }

  /** An occurrence in a suffix is an occurrence in the whole, shifted by the cut. */
  lemma OccursShift(s: string, sep: string, k: nat, m: nat)
    requires k <= |s|
    requires OccursAt(s[k..], sep, m)
    ensures OccursAt(s, sep, k + m)
  {
    assert s[k..][m..m + |sep|] == s[k + m..k + m + |sep|];
  }

  /** The first piece of `explode` runs up to the first occurrence of `sep` or to the end. */
  lemma SplitHeadEnds(t: string, sep: string)
    requires |sep| > 0
    ensures var p := Split(t, sep)[0];
      |p| <= |t| && (|p| == |t| || OccursAt(t, sep, |p|))
  {
    if IndexOf(t, sep).Some? {
      SplitUnfold(t, sep);
    }
  }

  /** A prefix of the tail extends a fixed head to a prefix of the whole. */
  lemma PrefixUnderPrefix(head: string, rest: string, q: string)
    requires StartsWith(rest, q)
    ensures StartsWith(head + rest, head + q)
  {
    assert (head + rest)[..|head + q|] == head + rest[..|q|];
  }

  /** The first part of a join is a prefix of it. */
  lemma JoinPrefix(sep: string, parts: seq<string>)
    requires |parts| >= 1
    ensures StartsWith(Join(sep, parts), parts[0])
  {
  }

  /**
   * `getCastedValue`'s reading of its definition: an array contributes its
   * head as the definition and its tail, in order, as parameters; an empty
   * array leaves no definition at all (`None`: the source then hands a null
   * type to `DBField::create`).
   */
  function ParseCasting(def: CastingDefinition): (r: Option<CastingPlan>)
    ensures def.Spec? ==> r.Some? && r.value.params == []
    ensures def.SpecArray? ==> (r.None? <==> def.items == [])
    ensures def.SpecArray? && r.Some? ==> r.value.params == def.items[1..]
    ensures r.Some? ==> r.value == ParseSpec(if def.Spec? then def.spec else def.items[0], r.value.params)
  {
    match def
    case Spec(spec) => Some(ParseSpec(spec, []))
    case SpecArray(items) =>
      if |items| == 0 then None else Some(ParseSpec(items[0], items[1..]))
  }
}
