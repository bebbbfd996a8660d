/**
 * The grid's data model: components as bundles of optional capabilities, and
 * the grid that holds them in registration order.
 *
 * Every capability method of a PHP component receives the grid itself; within
 * one render pass or one action dispatch the grid does not change, so each
 * capability is modelled as a plain function already closed over that grid.
 */
module GridComponents {
  import opened Outcomes

  /** An HTML attribute list; a `None` value is a PHP `null` entry. */
  type Attrs = seq<(string, Option<string>)>

  /**
   * What a column provider returns from `getColumnAttributes` or
   * `getColumnMetadata`: either an array, or any other PHP value, of which
   * only its truthiness matters to the grid.
   */
  datatype Returned = ArrayResult(entries: Attrs) | ScalarResult(truthy: bool)

  /** The `GridField_ColumnProvider` capability over records of type `R`. */
  datatype ColumnProvider<!R> = ColumnProvider(
    augment: seq<string> -> seq<string>,        // augmentColumns, on the shared column list
    handled: seq<string>,                       // getColumnsHandled
    content: (R, string) -> Option<string>,     // getColumnContent; None is PHP null
    attributes: (R, string) -> Returned,        // getColumnAttributes
    metadata: string -> Returned)               // getColumnMetadata

  /** Arguments stashed with an action, and the submitted form data. */
  type ActionArgs = map<string, string>
  type FormData = map<string, string>

  /** The `GridField_ActionProvider` capability. */
  datatype ActionProvider = ActionProvider(
    actions: seq<string>,                                 // getActions
    handle: (string, ActionArgs, FormData) -> string)     // handleAction

  /**
   * A component: the class name PHP's `get_class` reports, and one optional
   * slot per capability interface it may implement.
   */
  datatype Component<!R> = Component(
    className: string,
    columns: Option<ColumnProvider<R>>,                   // GridField_ColumnProvider
    manipulator: Option<seq<R> -> seq<R>>,                // GridField_DataManipulator
    html: Option<map<string, string>>,                    // GridField_HTMLProvider
    actions: Option<ActionProvider>)                      // GridField_ActionProvider

  /** The data source: its records in iteration order and its `dataClass`. */
  datatype DataList<R> = DataList(records: seq<R>, dataClass: string)

  /** The parts of a GridField that the modelled operations read. */
  datatype Grid<!R> = Grid(
    components: seq<Component<R>>,
    list: Option<DataList<R>>,
    modelClassName: string,
    id: Option<string>,
    extraClass: string)

  /** PHP truthiness of a string: everything except "" and "0". */
  predicate Truthy(s: string)
  {
    s != "" && s != "0"
  }

  const NoModelClass: string :=
    "GridField doesn't have a modelClassName, so it doesn't know the columns of this grid."

  /**
   * `getModelClass`: an explicit model class name wins, then the list's data
   * class; with neither, a LogicException.
   */
  function GetModelClass<R>(g: Grid<R>): (r: Result<string>)
    ensures r.Ok? <==> Truthy(g.modelClassName) || (g.list.Some? && Truthy(g.list.value.dataClass))
    ensures r.Ok? ==> Truthy(r.value)
    ensures Truthy(g.modelClassName) ==> r == Ok(g.modelClassName)
    ensures !Truthy(g.modelClassName) && r.Ok? ==> r.value == g.list.value.dataClass
    ensures r.Err? ==> r.error == LogicError(NoModelClass)
  {
    if Truthy(g.modelClassName) then Ok(g.modelClassName)
    else if g.list.Some? && Truthy(g.list.value.dataClass) then Ok(g.list.value.dataClass)
    else Err(LogicError(NoModelClass))
  }
}
