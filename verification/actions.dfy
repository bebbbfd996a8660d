/**
 * Action dispatch of a GridField (`handleAction`): the action name is
 * lower-cased, the components are scanned in registration order, and the
 * first action provider whose lower-cased action list holds the name handles
 * it; no later component is consulted.
 */
module GridActions {
  import opened Outcomes
  import opened Strings
  import opened GridComponents

  /**
   * `array_map('strtolower', $actions)`, built name by name; the list keeps
   * its length and each position holds the lower-cased name from there.
   */
  function LowerAll(names: seq<string>): (r: seq<string>)
    ensures |r| == |names|
    ensures forall i :: 0 <= i < |names| ==> r[i] == Lower(names[i])
    decreases |names|
  {
    if |names| == 0 then [] else [Lower(names[0])] + LowerAll(names[1..])
  }

  /** The component is an action provider that declares the lower-cased name `lname`. */
  predicate ClaimsAction<R>(c: Component<R>, lname: string)
  {
    c.actions.Some? && lname in LowerAll(c.actions.value.actions)
  }

  /** Component `i` claims `lname`, and no component before it does. */
  predicate IsFirstActionClaimant<R>(cs: seq<Component<R>>, lname: string, i: nat)
  {
    i < |cs| && ClaimsAction(cs[i], lname) && forall j :: 0 <= j < i ==> !ClaimsAction(cs[j], lname)
  }

  function CannotHandle(lname: string): Error
  {
    InvalidArgument("Can't handle action '" + lname + "'")
  }

  /** The `foreach` of `handleAction`, from component `k` on. */
  function DispatchFrom<R>(cs: seq<Component<R>>, k: nat, lname: string, args: ActionArgs, data: FormData): (r: Result<string>)
    requires k <= |cs|
    ensures r.Err? <==> forall j :: k <= j < |cs| ==> !ClaimsAction(cs[j], lname)
    ensures r.Err? ==> r.error == CannotHandle(lname)
    ensures r.Ok? ==>
      exists i: nat :: k <= i < |cs| && ClaimsAction(cs[i], lname) &&
        (forall j :: k <= j < i ==> !ClaimsAction(cs[j], lname)) &&
        r.value == cs[i].actions.value.handle(lname, args, data)
    decreases |cs| - k
  {
    if k == |cs| then Err(CannotHandle(lname))
    else if ClaimsAction(cs[k], lname) then Ok(cs[k].actions.value.handle(lname, args, data))
    else DispatchFrom(cs, k + 1, lname, args, data)
  }

  /**
   * `handleAction`: dispatched to the first component claiming the
   * lower-cased name, which receives that lower-cased name; an
   * InvalidArgument when nobody claims it.
   */
  function HandleAction<R>(cs: seq<Component<R>>, name: string, args: ActionArgs, data: FormData): (r: Result<string>)
    ensures r.Err? <==> forall j :: 0 <= j < |cs| ==> !ClaimsAction(cs[j], Lower(name))
    ensures r.Err? ==> r.error == CannotHandle(Lower(name))
    ensures r.Ok? ==>
      exists i: nat :: IsFirstActionClaimant(cs, Lower(name), i) &&
        r.value == cs[i].actions.value.handle(Lower(name), args, data)
  {
    DispatchFrom(cs, 0, Lower(name), args, data)
  }

  /** Some action provider declares `name` in some capitalisation. */
  predicate DeclaredInAnyCase<R>(cs: seq<Component<R>>, name: string)
  {
    exists i :: 0 <= i < |cs| && DeclaresInAnyCase(cs[i], name)
  }

  /**
   * Matching ignores case on both sides: an action is handled exactly when
   * some provider declares it in some capitalisation.
   */
  lemma HandleActionIgnoresCase<R>(cs: seq<Component<R>>, name: string, args: ActionArgs, data: FormData)
    ensures HandleAction(cs, name, args, data).Ok? <==> DeclaredInAnyCase(cs, name)
  {
    forall i | 0 <= i < |cs|
      ensures ClaimsAction(cs[i], Lower(name)) <==> DeclaresInAnyCase(cs[i], name)
    {
      ClaimsIffDeclares(cs[i], name);
    }
  }

  /** The component declares `name` in some capitalisation. */
  predicate DeclaresInAnyCase<R>(c: Component<R>, name: string)
  {
    c.actions.Some? && exists j :: 0 <= j < |c.actions.value.actions| && Lower(c.actions.value.actions[j]) == Lower(name)
  }

  /** One component claims the lower-cased name exactly when it declares the name in some capitalisation. */
  lemma ClaimsIffDeclares<R>(c: Component<R>, name: string)
    ensures ClaimsAction(c, Lower(name)) <==> DeclaresInAnyCase(c, name)
  {
    if c.actions.Some? {
      var acts := c.actions.value.actions;
      var lowered := LowerAll(acts);
      if Lower(name) in lowered {
        var j :| 0 <= j < |lowered| && lowered[j] == Lower(name);
        assert Lower(acts[j]) == Lower(name);
      }
      if DeclaresInAnyCase(c, name) {
        var j :| 0 <= j < |acts| && Lower(acts[j]) == Lower(name);
        assert lowered[j] == Lower(name);
      }
    }
  }

  /** Two names that lower-case alike are dispatched identically. */
  lemma HandleActionSameLowerCase<R>(cs: seq<Component<R>>, n1: string, n2: string, args: ActionArgs, data: FormData)
    requires Lower(n1) == Lower(n2)
    ensures HandleAction(cs, n1, args, data) == HandleAction(cs, n2, args, data)
  {
  }

  /**
   * Short-circuit: once component `i` is the first to claim the action, the
   * components registered after it are never consulted; replacing them by
   * anything leaves the outcome unchanged.
   */
  lemma HandleActionIgnoresLater<R>(cs: seq<Component<R>>, i: nat, later: seq<Component<R>>, name: string, args: ActionArgs, data: FormData)
    requires IsFirstActionClaimant(cs, Lower(name), i)
    ensures HandleAction(cs[..i + 1] + later, name, args, data) == HandleAction(cs, name, args, data)
    ensures HandleAction(cs, name, args, data) == Ok(cs[i].actions.value.handle(Lower(name), args, data))
  {
    var lname := Lower(name);
    var cs' := cs[..i + 1] + later;
    assert cs'[i] == cs[i];
    FirstClaimantResult(cs, i, name, args, data);
    assert IsFirstActionClaimant(cs', lname, i) by {
      forall j | 0 <= j < i
        ensures !ClaimsAction(cs'[j], lname)
      {
        assert cs'[j] == cs[j];
      }
    }
    FirstClaimantResult(cs', i, name, args, data);
  }

  /**
   * The alter-action scenario: a component declaring `DeleteRecord` handles a
   * request for `deleterecord`, and receives the lower-cased name; whatever is
   * registered after it, even another claimant, is not consulted.
   */
  lemma DeleteRecordScenario<R>(c: Component<R>, later: seq<Component<R>>, args: ActionArgs, data: FormData)
    requires c.actions.Some? && "DeleteRecord" in c.actions.value.actions
    ensures HandleAction([c] + later, "deleterecord", args, data) ==
      Ok(c.actions.value.handle("deleterecord", args, data))
  {
    var acts := c.actions.value.actions;
    var j :| 0 <= j < |acts| && acts[j] == "DeleteRecord";
    LowerDeleteRecord();
    ClaimsIffDeclares(c, "deleterecord");
    assert DeclaresInAnyCase(c, "deleterecord") by {
      assert Lower(acts[j]) == Lower("deleterecord");
    }
    var cs := [c] + later;
    assert cs[0] == c;
    FirstClaimantResult(cs, 0, "deleterecord", args, data);
  }

  /** Both spellings of the scenario's action lower-case to `deleterecord`. */
  lemma LowerDeleteRecord()
    ensures Lower("DeleteRecord") == "deleterecord"
    ensures Lower("deleterecord") == "deleterecord"
  {
  }

  /** The first claimant's handler produces the dispatch result. */
  lemma FirstClaimantResult<R>(cs: seq<Component<R>>, i: nat, name: string, args: ActionArgs, data: FormData)
    requires IsFirstActionClaimant(cs, Lower(name), i)
    ensures HandleAction(cs, name, args, data) == Ok(cs[i].actions.value.handle(Lower(name), args, data))
  {
    var lname := Lower(name);
    var r := DispatchFrom(cs, 0, lname, args, data);
    assert r.Ok?;
    var i': nat :| IsFirstActionClaimant(cs, lname, i') &&
      r.value == cs[i'].actions.value.handle(lname, args, data);
    FirstClaimantUnique(cs, lname, i, i');
  }

  /** At most one component is the first to claim a name. */
  lemma FirstClaimantUnique<R>(cs: seq<Component<R>>, lname: string, i: nat, i': nat)
    requires IsFirstActionClaimant(cs, lname, i) && IsFirstActionClaimant(cs, lname, i')
    ensures i == i'
  {
  }
}
