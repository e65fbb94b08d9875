# Verification of the Gravitino provider

A Dafny model of the parts of the Terraform provider for Apache Gravitino that are algorithms, and proofs of
what they promise. `dafny verify dfyconfig.toml` checks the whole project with Dafny 4.11.

## What is modelled

* **Tables** (`TableColumns`, `TableColumnLaws`, `TableColumnRequests`, `Properties`). The column diff walks the columns of the state
  and emits type, comment, nullability and default requests, then one "move behind your predecessor" request
  per planned column. A small server executes the requests one by one and refuses what Gravitino refuses: a
  column that is missing, a column behind itself, clearing a default. Executing the list on the state is
  accepted request by request and gives the plan. Which requests the list holds is also said outright, on the fields
  of the columns. The property diff of tables, catalogs and metalakes walks
  Go maps, whose order is arbitrary; the model picks keys arbitrarily, and the results hold for every order.
* **Functions** (`Functions`, `FunctionUpdates`, `FunctionUpdateLaws`, `FunctionRequests`, `FunctionMeanings`,
  `FunctionApply`, `SignatureLaws`, `SignatureCollisions`, `TerraformFunctions`).
  Definitions are identified by a signature text, compared by shape, and their implementations by runtime.
  Executing the emitted requests on a server that refuses removals of absent and additions of present things
  gives exactly the plan. The server may identify definitions by any key of their parameters, such as the
  meaning of the types. A whole update is followed from the plan through the server back to the plan. The
  signature text determines the parameters it was made of, as far as it does.
* **Data types** (`DataTypes`, `DataTypeLaws`, `DataTypeDocuments`) in two layers: type to JSON tree, and
  JSON tree to text (`Json`, `JsonText`). The parser is the decoder, the validator and the primitive name pattern;
  results cover every nesting depth. `DataTypeNames` and `DataTypeAcceptance` say which texts and which documents it
  accepts, and `JsonGrammar` that a text is a document exactly if RFC 8259 says so.
* **Raw JSON** (`RawJson`, `JsonLocality`, `JsonNesting`, `JsonCompact`). Meaning of a document (objects are maps, numbers
  are numbers), the compaction the Go encoder applies, and the choice between two spellings of one meaning.
  `JsonEquality` and `JsonNumbers` say which documents and numbers mean the same, without naming a meaning, and
  `JsonBlanks` what compaction does not tell apart.
* **Reconciling** a server's function definitions with a plan or a state. `Reconcile` has the code: two modes,
  ordered merges keyed by signature and by runtime, previous spellings looked up by name. `ReconcileLaws` and
  `ReconcilePicks` say which definitions are converted, `ReconcileShown` which signatures the result shows,
  `ReconcileSpelling` that a refresh is faithful, `ReconcileImpls` and `ReconcileRuntimes` what becomes of implementations,
  `ReconcilePlain` which expressions are shown as written, `ReconcileApply` when an apply returns the plan, and
  `ReconcileKept` what an apply keeps of it for any other answer.
  `ReconcileRepeats`, `ReconcileFresh`, `ReconcileStable`, `ReconcileForgotten` and `ReconcileTwice` say when a
  second refresh changes nothing, `ReconcileLimits` has the inputs for which it does, built from `FunctionSamples`.
  Terraform values have their own types (`TerraformFunctions`), in which null and empty differ.
* **The in-use flag** of catalogs and metalakes (`InUse`). The server object fails requests
  nondeterministically, before or after they took effect, and logs what it sees; Update and Delete are the
  provider's methods.
* **The OAuth token cache** (`OAuth`): goroutines as step machines over a clock, `mu` and `refreshMu`, one step
  of an arbitrary goroutine at a time, and every answer the token endpoint may give. `OAuthRuns` follows a first
  call and a cached one from start to end.
* **The retry loop** (`Retry`) with its delays in 64-bit arithmetic, and the **version gates** (`Versions`,
  `Gates`): parser, order, cache and fail-closed checks.

Loops over lists and maps are Dafny loops, proved equal to recursive specification functions; the laws are
lemmas about those functions. The catalog server and the version client are classes with mutable fields.

## What came out

* A printed type parses back to itself exactly when it is complete, canonical, and, if it is printed as a bare
  name, a trimmed primitive name (`DataTypeLaws.PrintParseIdentity`).
* Signatures are decodable for every accepted type text, commas in structured types included; names need only
  be free of colons. With a colon two different parameter lists can collide (`SignatureLaws.ColonNamesCollide`). A
  single parameter shares its signature with another list exactly if its name holds a colon, a type text and a
  comma, one right behind the other (`SignatureCollisions.CollidesExactly`); two parameters or more always share it
  with a single one of a long name. `SignatureCollisions.SignatureDecodesExactly` puts both together.
* A server that identifies definitions by a key of its own accepts an update exactly when no two planned
  definitions have the same key (`FunctionUpdateLaws.AcceptedExactly`). If that key is the meaning of the
  parameter types, a plan that spells one type in two ways passes the provider's checks and is refused
  (`FunctionMeanings.TwoSpellingsRefused`).
* After an apply each entry shows the planned signature exactly when no parameter takes the spelling of another
  one of its name (`ReconcileShown.ApplyFollowsPlan`); a refresh has each server signature once and in order
  under the same condition (`ReconcileShown.RefreshOrder`). With a repeated name both can fail even if the
  server echoes the definition (`ReconcileLimits.RepeatedParamsDrift`).
* If the server answers in equivalent form, an apply returns the Terraform values of the plan exactly when they
  are written plainly (`ReconcileApply.ApplyReturnsPlan`, `ReconcileApply.PlainPlanReturned`): trimmed, no
  JSON string that is shown without its quotes, nothing optional that is present and empty, and repeated names
  that keep their texts. A type written as `"integer"` with its JSON quotes comes back as `integer`. A parameter
  with `comment = ""` is accepted and comes back without a comment, whatever the server answers
  (`ReconcileLimits.EmptyCommentLost`); so do empty implementation texts, maps, lists and resources objects in general
  (`ReconcileApply.EmptyNeverReturned`). internal/resources/function/comment_plan_modifier.go:11-15 plans an empty
  comment of the function as null; nothing does that inside of definitions.
* From the plan over the requests to the answer: the server accepts the update, an answer that reports what it then
  holds agrees with the plan, and the same condition decides whether the plan comes back
  (`FunctionApply.UpdateReturnsPlan`).
* With no planned implementations, apply mode passes the server's implementations through; the runtimes follow
  the plan exactly when the plan has implementations or the server has none
  (`ReconcileImpls.PlanRuntimesExactly`).
* A refresh of its own output against the same answer changes nothing if and only if the definitions read back
  in the order they stand in, and in each one the parameters and columns whose name is used again keep their
  text (`ReconcileTwice.SecondRefreshExactly`, `ReconcileTwice.RefreshIdempotentExactly`). It does for distinct
  names and plain types (`ReconcileTwice.RefreshIdempotent`). It changes the first of two columns, or of two
  parameters, that share a name and spell one type differently (`ReconcileLimits.RepeatedColumnsDrift`,
  `ReconcileLimits.RepeatedParamsDrift`), and the order of the definitions when a type name of the server has a
  blank behind it (`ReconcileLimits.TrailingBlankDrift`).
* A `Retry-After` header of 9223372037 seconds or more can overflow the multiplication to nanoseconds; the value
  9223372037 makes the client repeat the request at once (`Retry.OneSecondMore`). `Retry.SecondsHonoured` says
  exactly when the number is honoured, and every number up to 9223372036 is.
* The comments on table requests (internal/models/table.go:160 and 244-245) say that a missing default clears
  the column's default; internal/resources/table/plan.go:113-116 says that Gravitino cannot clear one. The
  model's server refuses it, and `TableColumnLaws.ColumnDiffReachesPlan` shows that it is never asked to when
  no replacement is required.
* A comment in internal/resources/function/updates.go:76-78 says that implementations are matched by runtime and
  language; the code matches them by runtime alone, and so does the model.
* If `in_use` were planned as null, which its schema rules out, an update of a disabled object would record a
  flag the server does not have, and a failed one would leave an enabled object disabled; the contracts of
  `InUse.Update` say so.

## Model

| member | source | states |
|---|---|---|
| TableColumns.TableColumnPositionUpdates | internal/resources/table/updates.go:170-195 | The loop emits nothing when the orders agree, else the first planned column to the front and every other one behind its planned predecessor |
| TableColumnLaws.MoveArranges | internal/resources/table/updates.go:164-195 | One request turns "first i planned columns, the others in old order" into the same with i+1 |
| TableColumnLaws.PositionsExecute | internal/resources/table/updates.go:164-195 | After i requests the first i columns are the plan's, the tail keeps its relative order, nothing was refused and no attribute changed |
| TableColumnLaws.PositionsReachPlan | internal/resources/table/updates.go:164-195 | For any two orders of the same distinct names the executed list yields exactly the planned order |
| TableColumns.ColumnChanges | internal/resources/table/updates.go:127-158 | Per column: type compared by canonical text, then comment, nullability, default; a type that does not parse fails |
| TableColumns.TableColumnUpdates | internal/resources/table/updates.go:112-162 | Requests of the columns in state order, then the moves; one unparsable type fails the whole diff |
| TableColumnLaws.ColumnExecutes | internal/resources/table/updates.go:127-158 | The requests of one column are accepted in order and change that column only |
| TableColumnLaws.ColumnDiffReachesPlan | internal/resources/table/updates.go:112-195 | Executing the whole diff on the state's table is never refused and yields the planned names, order, canonical types, comments, nullability and defaults; auto_increment keeps its value |
| TableColumnRequests.RequestsExactly | internal/resources/table/updates.go:112-195 | A request is in the list if and only if the fields of the columns ask for it: the planned type, comment, nullability or default where it differs, a default as a literal of the planned text and the planned type, a move behind the planned predecessor where the orders differ |
| TableColumnRequests.RequestsInOrder | internal/resources/table/updates.go:112-195 | Each request comes once: those for attributes first, by column in the order of the state and by type, comment, nullability and default within a column, then one move per planned column in order |
| TableColumnRequests.DefaultsReached | internal/models/table_convert.go:57-68 | A column whose default changed ends with a literal of the planned text and the planned type, or without default; any other keeps the literal it had |
| TableColumnLaws.EmptyExactlyWhenAgreed | internal/resources/table/updates.go:112-195 | The list is empty exactly when order, canonical types, comments, nullability and defaults agree |
| TableColumns.ColumnsReplaceRequired | internal/resources/table/plan.go:117-144 | True exactly when the number of names differs, a name is missing or a default disappears |
| TableColumnLaws.NoReplacement | internal/resources/table/plan.go:113-144 | For distinct names no replacement is needed if and only if the name sets are equal and every default is kept |
| Properties.PlannedThenDropped | internal/resources/catalog/resource.go:290-306 | In any iteration order the list holds each changed key once, set to its planned value or removed |
| Properties.CurrentThenNew | internal/resources/metalake/resource.go:529-552 | The same, for the loop order of metalakes |
| Properties.SortedDiffUnique | internal/resources/table/updates.go:87-97 | Any two orders of iteration sort to the same request list |
| Properties.TablePropertyUpdates | internal/resources/table/updates.go:59-99 | The result is the one canonical list, independent of map order |
| Properties.DiffSparesReserved | internal/resources/table/reserved.go:6-18 | A diff never names a reserved key |
| Properties.TableDiffNames | internal/resources/table/reserved.go:6-18 | A table diff names a key if and only if it is not in-use and its value is new, changed or dropped |
| Properties.MetalakeDiffNames | internal/resources/metalake/resource.go:46-60 | A metalake diff spares in-use and gravitino.identifier and names every other key that is new, changed or dropped |
| Properties.DiffReachesTarget | internal/resources/metalake/resource.go:529-552 | Executing a diff in any order is accepted request by request: planned keys set, dropped keys gone, server-only and reserved keys untouched |
| Properties.EmptyExactlyWhenEqual | internal/resources/catalog/resource.go:290-306 | Nothing is sent exactly when plan and state agree outside the reserved keys |
| Properties.MergeProperties | internal/resources/catalog/resource.go:496-545 | The loops compute the merge: server values for planned keys only, or what the server adds when nothing is planned |
| Properties.MergeReturnsPlan | internal/resources/metalake/resource.go:474-518 | Merging the updated server properties back into a known plan returns exactly the plan |
| FunctionUpdates.ImplementationUpdates | internal/resources/function/updates.go:79-104 | Removals and changes by sorted state runtime, then additions by sorted planned runtime |
| FunctionUpdates.DefinitionUpdates | internal/resources/function/updates.go:51-74 | Removals of definitions without a counterpart of the same shape in state order, then additions and implementation changes in plan order |
| FunctionRequests.RequestsExactly | internal/resources/function/updates.go:45-104 | For unique signatures and runtimes each of the five kinds of request is in the list if and only if the definitions and implementations ask for it, on their fields: a definition is removed or added exactly when the other side has none of its signature whose parameters, return type and return columns are sent alike |
| FunctionRequests.ShapeIsFrame | internal/models/function.go:220-230 | Two definitions have one shape if and only if everything but their implementations is sent alike, part by part |
| FunctionRequests.ImplementationsAlone | internal/resources/function/updates.go:51-74 | Definitions that differ in their implementations only are neither removed nor added |
| FunctionRequests.FirstOfSignature | internal/resources/function/updates.go:106-115 | The index has every signature of the list and, of a signature used twice, the first definition |
| FunctionRequests.FirstOfRuntime | internal/resources/function/updates.go:117-126 | The same for implementations by runtime |
| FunctionUpdateLaws.ImplementationsExecute | internal/resources/function/updates.go:76-104 | The requests of one kept definition are accepted and leave exactly the planned runtimes and implementations, whatever key the server uses |
| FunctionUpdateLaws.UpdatesReachPlan | internal/resources/function/updates.go:45-104 | For any key of the server that identifies kept definitions, the whole list removes and updates nothing absent, adds nothing present, and ends with exactly the plan's map from key to shape and implementations |
| FunctionUpdateLaws.AcceptedExactly | internal/resources/function/updates.go:45-104 | A server with keys of its own accepts the whole list if and only if no two planned definitions have the same key |
| FunctionMeanings.MeaningsAcceptedExactly | internal/resources/function/updates.go:45-104 | A server that identifies definitions by parameter names and the meanings of the types accepts the list if and only if no two planned definitions mean the same |
| FunctionMeanings.TwoSpellingsRefused | internal/resources/function/updates.go:45-74 | Two definitions whose types are one document in two spellings are read from Terraform values, have different signatures and are refused by such a server |
| FunctionUpdateLaws.EmptyExactlyWhenEqual | internal/resources/function/updates.go:45-104 | No request is sent if and only if the server holds the plan already |
| FunctionApply.ReportAgrees | internal/models/function_tfsdk.go:345-447 | An answer that reports the planned definitions, in any order and with empty resources objects where there are none, answers each of them with values of the same meaning and the same implementations |
| FunctionApply.UpdateReturnsPlan | internal/resources/function/updates.go:45-104 | The requests of an update are accepted; if the server then reports what it holds, the values shown are those the plan was written in if and only if each definition is written plainly and repeated names keep their texts |
| SignatureLaws.AcceptedTypeText | internal/models/function.go:249-312 | Every accepted type expression is shown as a primitive name or as the text of a JSON object |
| SignatureLaws.SignatureDecodes | internal/models/function.go:207-213 | For colon-free names and accepted types, equal signatures if and only if equal lists of names and shown types |
| SignatureLaws.ColonNamesCollide | internal/models/function.go:207-213 | For every type there are two parameter lists with a colon in a name that share a signature |
| SignatureCollisions.CollidesExactly | internal/models/function.go:207-213 | A parameter of any accepted type shares its signature with another list of accepted types if and only if its name has a colon, an accepted type text and a comma in a row |
| SignatureCollisions.SignatureDecodesExactly | internal/models/function.go:207-213 | Among all parameter lists of accepted types a signature determines names and types if and only if there is no parameter, or a single one whose name does not split in that way |
| JsonNesting.NoObjectBehindColon | internal/models/function.go:301-312 | No JSON object text ends with another object text behind one of its colons, strings and escapes included |
| JsonText.PrintRoundTrip | internal/models/datatype.go:85-116 | Every printable JSON tree parses back from its text |
| JsonText.PrintInjective | internal/models/datatype.go:85-116 | Two trees with the same text are equal |
| JsonGrammar.TextExactly | internal/models/function.go:264-284 | The decoder accepts a text as a document if and only if the grammar of RFC 8259, given as a relation, derives that document from it: white space, escapes, surrogate pairs, numbers without leading zeros |
| JsonLocality.ValueLocal | internal/models/function.go:301-312 | Reading a JSON value does not depend on the text after it |
| JsonCompact.CompactKeepsMeaning | internal/models/function.go:222-238 | The compaction of raw members during encoding, with its HTML escapes, does not change the document |
| JsonBlanks.BlankIgnored | internal/models/function.go:220-230 | Compaction drops white space outside of strings, wherever it stands |
| JsonBlanks.EscapeIgnored | internal/models/function.go:220-230 | Inside of strings it makes no difference whether an HTML character or a line separator is escaped |
| DataTypeLaws.DecodeEncode | internal/models/datatype.go:85-168 | Decoding the printed document gives the canonical form, at every depth |
| DataTypeLaws.EncodeInjective | internal/models/datatype.go:85-116 | Two types print the same document if and only if they have the same canonical form |
| DataTypeLaws.ParsePrinted | internal/models/datatype.go:172-356 | Parsing the text of a structured type gives its canonical form if it is valid and fails otherwise |
| DataTypeLaws.PrintParseIdentity | internal/models/datatype.go:172-356 | Print-then-parse is the identity exactly on complete canonical types whose bare name, if any, is a trimmed primitive name |
| DataTypeNames.PatternExactly | internal/models/datatype.go:36-39 | The pattern matches exactly the texts that are a name, alone or with one or two numbers in parentheses |
| DataTypeNames.ParseExactly | internal/models/datatype.go:319-356 | What is accepted of any text: a document that decodes to a valid type, or a bare or quoted primitive text that is no structured kind |
| DataTypeNames.SpelledAccepted | internal/models/datatype.go:36-39 | Every name that starts with a letter is accepted alone if it is trimmed and no structured kind, with one number, and with two |
| DataTypeAcceptance.DecodeExactly | internal/models/datatype.go:118-168 | A document decodes if and only if it and all it holds are null, a string, or an object with a type whose members have their kinds |
| DataTypeAcceptance.ValidExactly | internal/models/datatype.go:188-242 | Of a document that decodes the type is valid if and only if the document has, at every depth, all members its kind demands |
| DataTypeAcceptance.DocumentExactly | internal/models/datatype.go:319-334 | A document is accepted if and only if it is readable and full |
| DataTypeLaws.CanonicalTextIsFixed | internal/models/datatype.go:319-334 | The canonical text of whatever is accepted as a structured type parses and prints the same text again |
| DataTypeLaws.SameTextSameCanon | internal/models/datatype.go:172-180 | Two structured types print alike if and only if they have the same canonical form |
| DataTypeLaws.ParseAcceptsValid | internal/models/datatype.go:188-356 | Whatever the parser accepts passes the validator |
| DataTypeDocuments.ValidIsComplete | internal/models/datatype.go:188-242 | The validator accepts a type if and only if the printed document is complete at every depth |
| DataTypeDocuments.AcceptedIsComplete | internal/models/datatype.go:319-368 | No bare structured kind name and no incomplete object survives in what the parser accepts |
| DataTypeDocuments.UsesExternalIsPrinted | internal/models/datatype.go:249-277 | UsesExternalType is true if and only if the external variant occurs in the printed document |
| DataTypeDocuments.PrintsAscendingKeys | internal/models/datatype.go:85-116 | Every printed object has its keys in strictly ascending order |
| DataTypeDocuments.AdjacentAscending | internal/models/datatype.go:85-116 | Keys ascending from each to the next are ascending throughout, so no key occurs twice |
| RawJson.EncodeShows | internal/models/function.go:249-312 | An expression that was encoded is shown again as it was written, except a JSON string, which keeps its meaning |
| RawJson.ChosenMeaning | internal/models/function.go:317-339 | The chosen spelling is a document that means what the document the server returned means |
| JsonEquality.RawEqualExactly | internal/models/function.go:314-330 | Two raw values are equal if and only if both are empty, or both are documents that are equal tree by tree: booleans, strings and numbers equal, arrays item by item, objects with the same keys and equal last values |
| JsonNumbers.NumbersExactly | internal/models/function.go:314-330 | Two numbers have one value if and only if both are zero, or sign, significant digits and power of ten are the same |
| RawJson.ReadExactly | internal/models/function.go:242-299 | A Terraform text that starts like a document is read as it stands if it is one and refused otherwise, and any other as the JSON string of it; a type must pass the type parser as well |
| RawJson.PreferStable | internal/models/function.go:249-339 | Reading a shown value back and choosing again shows the same |
| Reconcile.ConvertImpls | internal/models/function_tfsdk.go:587-628 | The loops compute the merge of implementations in both modes |
| Reconcile.FunctionDefinitionToObject | internal/models/function_tfsdk.go:450-647 | The conversion of one definition with the previous spellings by name |
| Reconcile.MapFunctionDefinitions | internal/models/function_tfsdk.go:375-437 | The loops compute the two-mode merge of definitions |
| Reconcile.ReadImpls | internal/models/function_tfsdk.go:241-262 | Implementations are refused if and only if a runtime is used twice or one lacks its runtime, a known language, the text of SQL or the class of JAVA |
| ReconcileImpls.PlanRuntimesExactly | internal/models/function_tfsdk.go:587-628 | In plan mode the runtimes are the planned ones, in order, if and only if implementations are planned or the server has none |
| ReconcileApply.ApplyRuntimes | internal/models/function_tfsdk.go:375-437 | In the result of a whole apply the runtimes of each definition are the planned ones under that condition and no other |
| ReconcileImpls.RefreshKeepsImpls | internal/models/function_tfsdk.go:587-628 | A refresh shows exactly the server's implementations, each runtime once |
| ReconcileImpls.RefreshImplsStable | internal/models/function_tfsdk.go:587-628 | Refreshing the implementations once more changes nothing |
| ReconcileRuntimes.RefreshExactly | internal/models/function_tfsdk.go:587-628 | For any answer, also with a runtime used twice, a refresh shows each runtime once: the ones the state has in its order with the last implementation of the answer, then the others in the order of the answer with the first one |
| ReconcileRuntimes.ApplyExactly | internal/models/function_tfsdk.go:587-628 | For any answer an apply shows for each planned implementation the last one the answer has of its runtime, or the planned one |
| ReconcileShown.ApplyFollowsPlan | internal/models/function_tfsdk.go:375-504 | In plan mode the result has one entry per planned definition in order, and an entry shows the planned signature if, and for accepted types only if, no parameter takes the spelling of another one of its name |
| ReconcileShown.ApplyShowsPlan | internal/models/function_tfsdk.go:450-504 | For distinct colon-free names and accepted types each entry shows exactly the planned names and type texts, in order |
| ReconcileShown.RefreshOrder | internal/models/function_tfsdk.go:375-437 | The output of a refresh shows each server signature exactly once and no other, previous ones first in previous order, then new ones in server order, if, and for accepted types only if, no parameter takes the spelling of another one of its name |
| ReconcileShown.DistinctNamesKeep | internal/models/function_tfsdk.go:484-504 | Distinct colon-free parameter names and accepted types are enough for that |
| ReconcileSpelling.RefreshIsFaithful | internal/models/function_tfsdk.go:393-647 | Every value a refresh shows for a definition means what the server's value means, also on the path for definitions that are equal on the wire and with repeated names |
| ReconcilePlain.ShownAsWritten | internal/models/function.go:249-312 | An accepted expression is shown as it was written if and only if it is trimmed and not a JSON string that is shown bare |
| ReconcileApply.ApplyReturnsPlan | internal/models/function_tfsdk.go:345-437 | If the server answers the planned definitions it has in equivalent form, a whole apply returns exactly the Terraform values the plan was read from if and only if each is written plainly, nothing optional is present and empty, and repeated names keep their texts |
| ReconcileApply.PlainPlanReturned | internal/models/function_tfsdk.go:345-437 | For distinct names an apply returns the plan if and only if its types and values are trimmed and unquoted and no optional text, map, list or resources object is present and empty |
| ReconcileApply.EmptyNeverReturned | internal/models/function_tfsdk.go:450-723 | Whatever the server answers, no entry of an apply holds a comment, a text of an implementation, a map, a list or a resources object that is present and empty |
| TerraformFunctions.ImplAsWritten | internal/models/function_tfsdk.go:661-723 | An implementation read and shown again is the same if and only if no text, map, list or resources object in it is present and empty |
| ReconcileKept.ApplyKeepsSpelling | internal/models/function_tfsdk.go:450-585 | In the result of a whole apply, for any answer, each type and default and the return type that the server returned in a form that means the planned one is shown as planned, and any other as the server spells it |
| ReconcileKept.ApplyKeepsImpls | internal/models/function_tfsdk.go:587-628 | In the result of a whole apply each implementation is the server's of the planned runtime, or the planned one if the server has none |
| ReconcileKept.ShortcutExactly | internal/models/function_tfsdk.go:393-447 | Taking the previous definition because it is equal on the wire shows the same as converting the server's if and only if parameters and columns whose name is used again keep their text |
| ReconcileStable.ObjectStableExactly | internal/models/function_tfsdk.go:159-262 | Showing a definition, reading it back and showing the server's definition again gives the same if and only if the parameters and columns whose name is used again keep their text |
| ReconcileFresh.FreshStableExactly | internal/models/function_tfsdk.go:450-504 | For a definition new to the state whose values read back this holds if and only if each parameter and column spells its type and default like the last one of its name when both mean the same |
| ReconcileTwice.RefreshFaithful | internal/models/function_tfsdk.go:375-437 | For any state and any answer with unique runtimes the entries of a whole refresh say value by value what the server's definitions say, each definition once, previous ones first and in order, also when names repeat |
| ReconcileTwice.RecoveredExactly | internal/models/function_tfsdk.go:159-239 | The entries of a refresh read back to the signatures they show if and only if the parameter types of the server are plain |
| ReconcileTwice.RefreshIdempotentExactly | internal/models/function_tfsdk.go:345-437 | If they do, a second refresh changes nothing if and only if in each definition the parameters and columns whose name is used again keep their text |
| ReconcileTwice.SecondOrder | internal/models/function_tfsdk.go:389-437 | The second refresh shows the definitions in the same order if and only if they stand in the order in which the state reads back, with new ones behind |
| ReconcileTwice.SecondRefreshExactly | internal/models/function_tfsdk.go:345-437 | Also when definitions are not found again, a second refresh changes nothing if and only if the order stands, definitions found again keep repeated texts, forgotten ones were shown with the server's texts and order, and ones found by another entry are spelled the same after it |
| ReconcileForgotten.ForgottenExactly | internal/models/function_tfsdk.go:450-647 | Without its previous definition a definition shows the same if and only if that gave no value another text than the server's and its implementations are the server's first ones in order |
| ReconcileTwice.NoOtherEntry | internal/models/function_tfsdk.go:375-437 | For colon-free names and accepted types a definition that is not found by what its entry reads back to is not found at all |
| ReconcileTwice.RefreshIdempotent | internal/models/function_tfsdk.go:345-437 | For distinct names and plain types a second refresh changes nothing |
| ReconcileLimits.RepeatedColumnsDrift | internal/models/function_tfsdk.go:495-504 | With a repeated return column name a second refresh of the whole list changes the first column, though the answer is the same |
| ReconcileLimits.RepeatedParamsDrift | internal/models/function_tfsdk.go:484-493 | With a repeated parameter name an apply shows a type and a signature that were not planned although the server echoes the plan, and a second refresh differs from the first |
| ReconcileLimits.TrailingBlankDrift | internal/models/function_tfsdk.go:389-437 | With a blank behind a type name of the server a second refresh changes the order of the definitions |
| ReconcileLimits.EmptyCommentLost | internal/models/function_tfsdk.go:506-546 | A parameter with an empty comment is accepted and no answer makes an apply return it; without the comment the echoed plan is returned |
| InUse.Diff | internal/resources/catalog/resource.go:280-306 | Rename, comment and property requests, and none exactly when the plan alters nothing |
| InUse.MergedHold | internal/resources/metalake/resource.go:422-518 | The properties shown after an answer are those the server holds, and a known plan without reserved keys is returned as it is |
| InUse.SendChanges | internal/resources/catalog/resource.go:308-344 | The PUT on an enabled object, or the planned values when there is nothing to send; a refused PUT is followed by the attempt to disable exactly if the object was enabled temporarily |
| InUse.Alter | internal/resources/catalog/resource.go:280-349 | The metadata part of an update: a disabled object is enabled for the PUT exactly if something alters and the plan does not change the flag; the model to record agrees with the server, and when it does not know its comment or properties |
| InUse.Update | internal/resources/catalog/resource.go:241-358 | No PUT meets a disabled object; success sends exactly the requests the plan calls for, leaves the planned name, comment, properties and flag, records force_destroy from the plan, else from the state, else false, and, if the flag is planned, records exactly what the server holds if and only if no unknown comment, or unknown metalake property map, is kept because nothing was sent; a failed PUT with a successful restore, or with none needed, leaves the flag as it was unless the plan enables |
| InUse.RecordsServer | internal/resources/metalake/resource.go:227-340 | The recorded properties and comment are the planned ones and those of the server, and when they are unknown |
| InUse.ReachedAt | internal/resources/metalake/resource.go:529-552 | Key by key the server ends with the planned value, without the key if it was dropped, and otherwise as it was; a metalake leaves in-use and gravitino.identifier alone |
| InUse.RecordedAt | internal/resources/metalake/resource.go:486-518 | Without planned properties everything the server has is recorded but in-use and, for a metalake, gravitino.identifier; null if that is nothing |
| InUse.CommentRecorded | internal/resources/metalake/resource.go:459-470 | The server's comment is recorded; of a metalake an empty one as the planned comment if that is known, and else as null |
| InUse.Delete | internal/resources/catalog/resource.go:360-412 | A drop that is not forced meets only a disabled object; a missing object at any step is success and success means it is gone; a refused drop whose restore succeeds leaves the recorded flag |
| OAuth.RefreshBeforeExpiry | internal/client/auth/oauth_credentials.go:122-126 | For every number the endpoint sends, wrapped in 64 bits, the token is used for a positive time shorter than its lifetime |
| OAuthRuns.UseTime | internal/client/auth/oauth_credentials.go:122-126 | A token is used for nine tenths of its seconds, and of an hour if the number is not positive |
| OAuthRuns.ReplyExactly | internal/client/auth/oauth_credentials.go:81-121 | A reply is taken if and only if its status is below 400 and its token is not empty; any other leaves the cache as it was |
| OAuthRuns.FirstCall | internal/client/auth/oauth_credentials.go:51-134 | The first call requests once, answers the granted token and caches it for nine tenths of its time |
| OAuthRuns.CachedCall | internal/client/auth/oauth_credentials.go:51-78 | A call while the token is valid answers it without a request |
| OAuth.EveryRun | internal/client/auth/oauth_credentials.go:51-134 | The invariant of locks, cache, local variables and endpoint log holds in every interleaving |
| OAuth.OneRequestInFlight | internal/client/auth/oauth_credentials.go:72-134 | At most one request is under way, and it belongs to the holder of refreshMu |
| OAuth.NoNeedlessRequest | internal/client/auth/oauth_credentials.go:69-78 | No request is sent while a granted token is still valid |
| OAuth.OneGrantPerWindow | internal/client/auth/oauth_credentials.go:69-134 | Of two granted tokens the later was requested after the earlier had expired |
| OAuth.EveryAnswerIsBacked | internal/client/auth/oauth_credentials.go:51-61 | A successful Header returns a non-empty token of a grant, and at some moment between its call and its return that grant had been made and had not expired |
| OAuth.NoDeadlock | internal/client/auth/oauth_credentials.go:51-134 | While a call is under way some goroutine can take a step |
| Retry.Backoff | internal/client/client.go:293-312 | The doubling loop equals the smaller of base times two to the attempt and the cap, without overflow, and half of it is jitter; a Retry-After is only capped |
| Retry.JitterExactly | internal/client/client.go:293-312 | Without a header the wait can be any time from half of the capped exponential to all of it, and no other |
| Retry.DefaultDelays | internal/client/client.go:45-49 | Three retries, half to all of 100, 200 and 400 milliseconds; a header counts for at most two seconds |
| Retry.SecondsHonoured | internal/client/client.go:268-299 | A header of any spelling of a number of seconds is honoured up to the cap if and only if the product in 64 bits did not overflow or overflowed beyond the cap |
| Numbers.AtoiExactly | internal/client/client.go:273-278 | The texts read as numbers are an optional sign and digits, in 64 bits, and stand for the number they spell |
| Numbers.WrapExactly | internal/client/client.go:277 | A product in 64 bits is the only number in range that differs from the exact one by a multiple of 2 to the 64 |
| Retry.DigitsAreSeconds | internal/client/client.go:268-280 | The digits of every number in range are such a spelling |
| Retry.ReasonableSecondsHonoured | internal/client/client.go:268-299 | Headers of up to 9223372036 seconds are honoured |
| Retry.DateHonoured | internal/client/client.go:268-299 | A date is waited for up to the cap, and a past one not at all |
| Retry.HeaderIgnored | internal/client/client.go:268-299 | No header, a negative number and a text that is neither number nor date make no difference |
| Retry.OneSecondMore | internal/client/client.go:268-327 | A 503 answer with a header of 9223372037 seconds leads to a negative wait, no time slept and another attempt |
| Retry.DoRequest | internal/client/client.go:142-223 | Exactly connection resets and the answers 429, 500, 502, 503 and 504 are repeated while retries are left, the last attempt gives the result; how often it sent and how long it slept; a caller that gave up ends only a wait that is positive |
| Retry.Send | internal/client/client.go:395-423 | At most one send more than the retries, at most one for Post, total sleep at most retries times the cap; a transient answer is returned only when the retries are used up |
| Versions.ParseServerVersion | internal/models/version.go:75-96 | The loop over the parts fills the three components; further parts are ignored |
| Versions.ShowParses | internal/models/version.go:73-96 | Every version parses back from its usual spelling |
| Versions.ShortParses | internal/models/version.go:73-96 | A missing minor or patch counts as zero |
| Versions.BlindToSuffixes | internal/models/version.go:19-25 | A suffix after minus or plus makes no difference to any version text |
| Versions.BlindToLeadingV | internal/models/version.go:73-76 | A leading v makes no difference unless there is one already, which makes the text unparsable |
| Versions.OrderIsLexicographic | internal/models/version.go:26-38 | The comparison is the order of the numbers spelled by the components in any base they fit in |
| Versions.AtLeastExactly | internal/models/version.go:26-38 | A spelled version passes if and only if it is not before the wanted one, major before minor before patch |
| Versions.AtLeastIsMonotone | internal/models/version.go:26-38 | A newer server and a lower demand pass as well |
| Gates.Client.DetectServerVersion | internal/client/server_version.go:22-35 | The cache takes only a version that can be compared, and keeps the old one otherwise |
| Gates.Client.ResolveServerVersion | internal/client/server_version.go:72-87 | The known version, or the answer, which is remembered only if it can be compared |
| Gates.Client.CheckMetadataObjectTypeSupported | internal/client/version.go:26-41 | A restricted type passes if and only if the cached version then parses and is at least 1.3.1 |
| Gates.RestrictedObjectsExactly | internal/models/version.go:40-52 | Restricted are VIEW and FUNCTION in any case with any blank space around them, and no others |
| Gates.Client.CheckPolicyObjectTypesSupported | internal/client/version.go:49-75 | The same for a list of types |
| Gates.Client.CheckIndexesSupported | internal/client/version.go:85-123 | The same for index types and index properties |
| Gates.RestrictedIndexesExactly | internal/models/version.go:60-70 | Restricted are the three data skipping index types in any case with any blank space around them, and no others |
| Gates.PermissiveGate | internal/client/server_version.go:46-63 | The permissive gate agrees with the comparison on every known version and lets an unknown one pass |
| Gates.RunIsSound | internal/client/server_version.go:22-87 | In every run the cache is empty or can be compared, and not empty once a usable answer was asked for |
| Gates.KnownStaysKnown | internal/client/server_version.go:65-87 | A known version never becomes unknown, and only a probe changes it |

## Left out

- HTTP, TLS, URL escaping, logging and the texts of diagnostics: requests are values, and results say only what kind of failure occurred.
- Basic, simple, static and Kerberos authentication, data sources, schemas, and the resources for groups, owners, roles, jobs, filesets and models: field copying or patterns that occur above.
- Creation and Read of catalogs and metalakes, and the import of resources by identifier: they would only add easy members.
- Corner cases of the JSON library: keys that differ in case, repeated keys in types, the nesting limit, numbers rounded to or beyond the range of doubles, invalid UTF-8.
- The equality of encoded structs is modelled on values (`Functions.WireEqual`, `Functions.ShapeOf`), since the encoding determines them; a definition that cannot be encoded is compared as it is.
- An absent and an empty list or map of the wire model of functions are one value, since the encoder leaves out both; only the parameters of removal requests are sent as null or []. Conversions of the plugin framework succeed, and the values of an applied function, its list and map elements included, are known and not null.
- The sort library is insertion; the results determine the list.
- Other writers of the server: nothing changes an object between two requests of the provider.
- TableColumns.ColumnsReplaceRequired: column names are known; while a name is still unknown during planning the provider does not decide.
- Retry.Backoff: a cap above 2^62 nanoseconds or a base that is not positive is not covered; the policy is fixed at 100 ms and 2 s.
- Retry.DoRequest: a positive wait that the caller interrupts counts in full; the date form of Retry-After and the random source are arbitrary values.
- OAuth.RefreshBeforeExpiry: nine tenths are computed in integers instead of double precision.
- OAuth.EveryRun: a look at the cache under the read lock is one step, and a writer does not keep new readers waiting; both only drop or add orders that make no difference to what is read.
- ReconcileTwice.RefreshIdempotentExactly: covers refreshes whose entries read back to their signatures; `ReconcileTwice.RecoveredExactly` says when they do and `ReconcileTwice.SecondRefreshExactly` covers the rest, for definitions whose repeated parameter names keep their types.
- ReconcileApply.ApplyReturnsPlan: the server is taken to answer planned definitions in equivalent form; `ReconcileKept.ApplyKeepsSpelling` and `ReconcileKept.ApplyKeepsImpls` say value by value what is shown for any other answer.
- InUse.Update: the audit block and the identifier are not part of the model.
- Gates.Client.CheckPolicyObjectTypesSupported: letters beyond ASCII are left alone unless their other case is ASCII, which is all the comparison with the restricted names depends on.
