# GridField and ExactMatchMultiFilter in Dafny

A model of two parts of the SilverStripe framework, with proofs about them.

- **`GridField`** is the tabular form field. It is built from pluggable
  *components*. A component may provide any of these capabilities:
  - columns: it appends column names, handles some of them, and supplies cell
    content, cell attributes and column metadata;
  - data manipulation: it transforms the record list before rendering;
  - HTML fragments: it contributes markup for the `header`, `body`, `footer`,
    `before` and `after` regions;
  - actions: it declares action names and handles them.

  The model covers:
  - how the field resolves its model class;
  - how it reads a casting definition;
  - how it builds the column list and the column dispatch table;
  - how the per-column lookups resolve through that table and fail;
  - how `FieldHolder` renders the table;
  - how `handleAction` routes an action name;
  - how `GridField_Action` encodes names and builds the dotted path of its
    field.
- **`ExactMatchMultiFilter`** is the search filter that emits
  `Column IN ('v1','v2',...)`. The model covers how it normalises its value
  into a list, how it quotes each item, and the clause it emits. It also
  covers `isEmpty`.

Modules:

| file | module | contents |
|---|---|---|
| `outcomes.dfy` | `Outcomes` | `Option`, `Result` and the two PHP exception kinds, `InvalidArgumentException` and `LogicException` |
| `strings.dfy` | `Strings` | `implode`, `strpos`, `explode` and ASCII `strtolower`, with their round trips |
| `components.dfy` | `GridComponents` | components, data lists, the grid, and `getModelClass` |
| `columns.dfy` | `GridColumns` | `getColumns`, `buildColumnDispatch`, `getColumnContent/Attributes/Metadata/Count` |
| `render.dfy` | `GridRender` | `FieldHolder`: pipeline, fragments, cells, rows and table assembly |
| `actions.dfy` | `GridActions` | `handleAction` |
| `casting.dfy` | `GridCasting` | the definition parsing of `getCastedValue` |
| `gridfield_action.dfy` | `GridFieldAction` | `nameEncode`/`_nameEncode` and `getNameFromParent` |
| `exact_match_multi_filter.dfy` | `ExactMatchMultiFilter` | `apply` and `isEmpty` |

Modelling choices:

- A component is a record of optional capabilities. Each capability is a
  function already applied to the grid.
- PHP exceptions are `Err` values.
- The column dispatch table maps a column name to the *index* of its
  component. A duplicated claim is bound to the **last** component that
  declares the name, because the loop at `forms/gridfield/GridField.php:405-415`
  overwrites earlier entries.
- The lazily memoised dispatch table is modelled as a pure function of the
  component list.
- The PHP truthiness of a string is modelled: `""` and `"0"` are false.
- Collaborators outside the model are function parameters:
  - `createTag`, and a record's `FirstLast`/`EvenOdd` markers after
    `iteratorProperties`;
  - `is_numeric` and `Convert::raw2sql`.
- `nameEncode` works on bytes, as PHP strings are bytes. `\w` is the ASCII
  `[A-Za-z0-9_]` of the C locale.

## Model

| member | source | states |
|---|---|---|
| GridComponents.GetModelClass | forms/gridfield/GridField.php:119-124 | resolves exactly when the explicit model class or the list's data class is truthy; the explicit name has priority; the result is always truthy; otherwise a LogicException with the fixed message |
| GridCasting.ParseSpec | forms/gridfield/GridField.php:232-243 | a definition without `->` is the field type rendered with `XML`; with `->`, the field type and method are the arrow-free pieces before the first arrow and between the first and the second arrow (or the end of the definition), and they spell a prefix of the definition; the parameters pass through |
| GridCasting.SplitSecondEnds | forms/gridfield/GridField.php:237-239 | the second `explode` piece ends exactly at the next `->` or at the end of the text |
| GridCasting.ParseCasting | forms/gridfield/GridField.php:223-231 | a string definition has no parameters; an array's head is the definition and its tail, in order, the parameters; an empty array gives no definition |
| GridColumns.ColumnsFoldAppend | forms/gridfield/GridField.php:345-354 | the column list is built by each provider in turn working on its predecessors' output |
| GridColumns.GetColumnsIgnoresOthers | forms/gridfield/GridField.php:345-354 | components that are not column providers do not affect the column list |
| GridColumns.GetColumnsOfAppenders | forms/gridfield/GridField.php:345-354 | when every provider appends, the column list is the concatenation of their columns in registration order, duplicates kept |
| GridColumns.Bind | forms/gridfield/GridField.php:409-412 | binding a provider's names points each of them at that provider and leaves the other entries unchanged |
| GridColumns.DispatchPrefix | forms/gridfield/GridField.php:405-415 | after the first k components, the table holds exactly the names they claim, each bound to its last claimant among them |
| GridColumns.BuildColumnDispatch | forms/gridfield/GridField.php:405-415 | a name is in the table exactly when some column provider claims it, and it is bound to the last provider claiming it |
| GridColumns.LastClaimant | forms/gridfield/GridField.php:405-415 | a backward scan finds, for a claimed column, the last component handling it; this is the reference the dispatch map is checked against |
| GridColumns.DispatchFindsLastClaimant | forms/gridfield/GridField.php:405-415 | the forward, overwriting dispatch map binds every claimed column to exactly the component the backward scan finds |
| GridColumns.GetColumnCount | forms/gridfield/GridField.php:398-404 | the count is the number of distinct claimed column names |
| GridColumns.GetColumnContent | forms/gridfield/GridField.php:356-366 | an unclaimed column fails with `Bad column '<name>'`; a claimed one gives its last claimant's content, null included |
| GridColumns.GetColumnAttributes | forms/gridfield/GridField.php:368-381 | an unclaimed column fails with InvalidArgument; the last claimant's array comes back unchanged, a falsy scalar becomes the empty array, and a truthy scalar is a LogicException naming the class and accessor |
| GridColumns.GetColumnMetadata | forms/gridfield/GridField.php:383-396 | the same three outcomes for metadata, without a record |
| GridColumns.LaterProviderShadows | forms/gridfield/GridField.php:405-415 | registering another provider that handles a column makes it that column's content source |
| GridRender.PipelineAppend | forms/gridfield/GridField.php:291-296 | the data manipulators run as a left fold, each on its predecessors' output |
| GridRender.PipelineOrder | forms/gridfield/GridField.php:291-296 | two manipulators T1 then T2, registered among others, give T2(T1(list)) |
| GridRender.PipelineSkipsOthers | forms/gridfield/GridField.php:291-296 | components without a manipulator leave the list as it is |
| GridRender.FragmentsAppend | forms/gridfield/GridField.php:307-314 | a region's fragments are collected in registration order |
| GridRender.FragmentsEmpty | forms/gridfield/GridField.php:307-314 | a region's bucket is empty exactly when no component contributes to it |
| GridRender.RenderCells | forms/gridfield/GridField.php:319-325 | a row's cells render exactly when every column's lookups succeed; there is at most one cell per column |
| GridRender.AllCellsPresent | forms/gridfield/GridField.php:319-325 | when every column has content, there is one `td` per column, in column order |
| GridRender.AllCellsSkipped | forms/gridfield/GridField.php:320-322 | columns whose content is all null give a row without cells |
| GridRender.NullCellSkipped | forms/gridfield/GridField.php:320-322 | a column with null content is omitted: removing it from the list changes nothing |
| GridRender.RenderRows | forms/gridfield/GridField.php:316-328 | the rows render exactly when every cell of every record renders; there is one row per record |
| GridRender.RowsInOrder | forms/gridfield/GridField.php:316-328 | the row at position m is the `tr` of record m, marked with its position among all records and holding that record's cells |
| GridRender.CollectBuckets | forms/gridfield/GridField.php:299-328 | each bucket holds its region's fragments; the body bucket holds its fragments followed by one row per rendered record |
| GridRender.BodyRowsInOrder | forms/gridfield/GridField.php:316-328 | after the body fragments, the body holds the rows of the rendered records in record order |
| GridRender.Section | forms/gridfield/GridField.php:331-333 | an empty bucket gives no section at all |
| GridRender.FieldHolder | forms/gridfield/GridField.php:286-328 | renders exactly when every cell of every rendered record renders; the before and after fragments frame the table |
| GridRender.FieldHolderSections | forms/gridfield/GridField.php:331-342 | a rendered grid is the before-fragments, then the table holding the header section, a newline, the footer section, a newline and the body section (body fragments, then the rows), then the after-fragments |
| GridRender.EmptyBodyNoTbody | forms/gridfield/GridField.php:332-341 | with no record and no body fragment, the table holds no `tbody`: only the header and footer sections and their two newlines |
| GridRender.NoHeaderNoFooter | forms/gridfield/GridField.php:330-342 | with no header or footer fragments, the table holds only the separators and the body section |
| GridRender.UnclaimedColumnFails | forms/gridfield/GridField.php:316-320 | a listed column that no provider handles makes `FieldHolder` fail as soon as there is a record to render |
| GridActions.DispatchFrom | forms/gridfield/GridField.php:453-462 | the scan from component k finds the first claimant of the lower-cased name, or fails with `Can't handle action` |
| GridActions.HandleAction | forms/gridfield/GridField.php:451-463 | fails exactly when no provider claims the lower-cased name; otherwise the first claimant handles the lower-cased name |
| GridActions.HandleActionIgnoresCase | forms/gridfield/GridField.php:452-458 | an action is handled exactly when some provider declares it in some capitalisation |
| GridActions.ClaimsIffDeclares | forms/gridfield/GridField.php:457 | a provider claims the lower-cased name exactly when it declares the name in some capitalisation |
| GridActions.HandleActionIgnoresLater | forms/gridfield/GridField.php:457-459 | components after the first claimant are never consulted: replacing them leaves the outcome unchanged |
| GridActions.DeleteRecordScenario | forms/gridfield/GridField.php:451-463 | a provider declaring `DeleteRecord` handles `deleterecord`, whatever follows it |
| GridActions.FirstClaimantResult | forms/gridfield/GridField.php:457-459 | the first claimant's handler produces the dispatch result |
| GridFieldAction.HexRoundTrip | forms/gridfield/GridField.php:533-535 | `dechex` digits denote the number, have no leading zero, and take one digit below 16 and at most two for a byte |
| GridFieldAction.NameEncode | forms/gridfield/GridField.php:524-526 | the encoding never shrinks and holds only word bytes and `%` |
| GridFieldAction.NameEncodeConcat | forms/gridfield/GridField.php:524-526 | the encoding works byte by byte and distributes over concatenation |
| GridFieldAction.EscapeReadsBack | forms/gridfield/GridField.php:533-535 | an escaped byte is `%` followed by the one or two hex digits of its code |
| GridFieldAction.NameEncodeFixesWordNames | forms/gridfield/GridField.php:524-526 | a name is left unchanged exactly when it consists of word bytes only |
| GridFieldAction.NameEncodeNotInjective | forms/gridfield/GridField.php:533-535 | the unpadded hex makes the encoding ambiguous: byte 1 then `1`, and byte 17, both give `%11` |
| GridFieldAction.NameFromParent | forms/gridfield/GridField.php:580-588 | the path is the chain of names up to the first form, outermost first, joined by dots |
| GridFieldAction.PathSplitsBack | forms/gridfield/GridField.php:580-588 | with dot-free names, the path splits back into the chain, and its last element is the grid's own name |
| GridFieldAction.ChainNamesDotFree | forms/gridfield/GridField.php:582-586 | dot-free names collect into a dot-free chain |
| ExactMatchMultiFilter.NormaliseValue | search/filters/ExactMatchMultiFilter.php:20-28 | a string gives one item more than it has commas, and the items rejoin to the string; an array's values are kept in order; null gives nothing |
| ExactMatchMultiFilter.StripQuotes | search/filters/ExactMatchMultiFilter.php:35 | the result holds no single quote and is shorter by the number of quotes |
| ExactMatchMultiFilter.StripQuotesConcat | search/filters/ExactMatchMultiFilter.php:35 | stripping distributes over concatenation, so it works character by character and keeps the order of what remains |
| ExactMatchMultiFilter.StripQuotesChar | search/filters/ExactMatchMultiFilter.php:35 | a single quote is removed and every other character is kept |
| ExactMatchMultiFilter.StripQuotesFixesQuoteFree | search/filters/ExactMatchMultiFilter.php:35 | a quote-free string is left unchanged, so stripping is idempotent |
| ExactMatchMultiFilter.QuoteValues | search/filters/ExactMatchMultiFilter.php:32-38 | positions and count are preserved; numeric items are kept, the others are stripped of quotes and escaped |
| ExactMatchMultiFilter.Apply | search/filters/ExactMatchMultiFilter.php:15-42 | no clause exactly when the value is null or an empty array; otherwise the clause is the column IN every normalised value given its treatment, in order |
| ExactMatchMultiFilter.InClauseReadsBack | search/filters/ExactMatchMultiFilter.php:39-41 | with quote-free items, the text between `IN ('` and `')` splits at `','` back into exactly the items |
| ExactMatchMultiFilter.ClauseListsEveryValue | search/filters/ExactMatchMultiFilter.php:32-41 | when the collaborators introduce no quote, the clause `apply` builds splits back into one item per value, each the treatment of the value at that position |
| ExactMatchMultiFilter.IsEmpty | search/filters/ExactMatchMultiFilter.php:44-46 | empty exactly for null, the empty string, and the empty array (which equals null under `==`) |
| ExactMatchMultiFilter.IsEmptyAgainstApply | search/filters/ExactMatchMultiFilter.php:20-46 | a value that leaves `apply` nothing to list (no clause) is empty; an empty value other than "" leaves `apply` nothing to list |
| ExactMatchMultiFilter.EmptyStringStillFilters | search/filters/ExactMatchMultiFilter.php:21-22 | the empty string counts as empty, yet `apply` still emits a clause for it with one empty item |
| Strings.JoinSplit | search/filters/ExactMatchMultiFilter.php:22 | `implode` undoes `explode` |
| Strings.SplitJoin | forms/gridfield/GridField.php:587 | `explode` undoes `implode` when no part holds the separator's first character |
| Strings.SplitCount | search/filters/ExactMatchMultiFilter.php:22 | `explode` on one character gives one more piece than there are occurrences |
| Strings.Lower | forms/gridfield/GridField.php:452 | ASCII capitals become the matching lower-case letter and every other character is kept, with the length unchanged |
| Strings.LowerIdempotent | forms/gridfield/GridField.php:452 | lower-casing twice is lower-casing once, and leaves no upper-case ASCII letter |

## Left out

- `gridFieldAlterAction` and `GridField_Action::Field` depend on the session,
  `uniqid`, form lookup, AJAX detection and redirects. The model keeps the
  pure parts of `GridField_Action`: `nameEncode` and `getNameFromParent`.
- The constructor, `setComponents`, the default configuration, `GridState`
  and the display-field, casting and formatting setters are left out. The
  grid is built directly as a value.
- `getCastedValue` stops at the parsed plan. `DBField::create` and the call of
  the casting method belong to the ORM, and are not part of this model.
- `createTag` and the record position markers are uninterpreted parameters.
- `requireDefaultCSS` and `getDisplayFields` are left out.
- GridColumns.BuildColumnDispatch: the memoisation is not modelled, so a
  table built before components change and never rebuilt is not
  represented. The table is always computed from the current components.
- GridActions.HandleAction: `in_array` compares loosely in PHP, for example
  numeric strings by value. The model compares names as exact strings.
- Strings.Lower: `strtolower` is locale dependent. The model lower-cases
  ASCII letters only, as in the C locale.
- GridRender.RenderedData: a grid without a list hands null to its
  manipulators in PHP. The model starts the pipeline from the empty list.
- ExactMatchMultiFilter.Apply: `applyRelation`, `getDbName`, `is_numeric` and
  `Convert::raw2sql` are parameters. The clause is returned as text rather
  than added to an `SQLQuery`. Filter values other than null, strings and
  arrays of strings are not modelled.
- `core/control/RootURLController.php` and `api/VersionedRestfulServer.php`
  are not part of this model.
