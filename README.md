# nodejs-data adapter: a verified model

This project models the core of the nodejs-data adapter in Dafny. The adapter sits between a CRUD request and a storage object. The model covers:

- **The hierarchical data engine** (`data_types/Tree.js`), module `Tree`, with the shared records and id index in `Records`.
  - A copy of a flat record array is indexed by id.
  - Each record is linked into its parent's `data` list.
  - The root object is assembled.
  - `getBranchElements` walks a branch in pre-order.
  - `getItemChildren` collapses the selected records in the stored array itself.
  - Records are heap objects (`Records.Node`), because the index, the record array and the `data` lists all share them.
- **The field-mapping engine** (`handlers/DataHandler.js`), module `DataHandler`:
  - the handler's scope;
  - the reverse anchor lookup;
  - the recursive key renaming of `mapData`, with a round-trip theorem for a data handler given `map()`'s vocabularies as its settings;
  - the field reader and deleter;
  - the result envelopes;
  - the forest builder of `getData`, which links the storage's records in place.
- **The filter parser** (`handlers/FilterHandler.js`), module `FilterHandler`:
  - `parseFilterData`, with its whitespace removal and comma split, proved against a join;
  - the rule objects;
  - the handler class, whose `eachField`, `eachFilter` and `eachSort` passes rewrite its stored lists.
- **The dispatch rules** (`handlers/ActionHandler.js`), module `ActionHandler`:
  - the action switch of `processRequest` and its error catch;
  - `getRequestStateData`;
  - the `_resolver` rule;
  - the branches of `processAction`.
  - The data handler is an abstract interface (`DataOps`), and storage outcomes are inputs.
- **The configuration state** (`index.js`, `providers/ControllerProvider.js`), module `Controller`:
  - controller construction, both fresh and copied from a controller;
  - `map`, which writes the vocabulary in reverse into the shared client object;
  - `tree` and `treeDynamic`;
  - the provider's getters and setters.
  - Vocabularies and the anchor table are shared heap objects (`Controller.Fields`).
- **The event registry** (`handlers/EventsHandler.js`), module `Events`: a class over a map from lower-cased names to handler lists.

Supporting modules:

- `JsValue`: JavaScript values, truthiness, `String(v)` and property reads.
- `OrderedMap`: own properties in `for-in` order, with `m[k] = v`, `delete` and the reverse writing of `map`.
- `Wrappers`: `Option`.

## Code modelled as written

The model follows the code where it differs from what the names suggest:

- `_dataToTree` in `data_types/Tree.js` pushes the whole cloned array (not the node) onto the root list for every root record. `get().data` therefore holds one copy of the record array per root, and the parent-id field of the root object is read from an array, so it is `undefined` for the usual field names (see the `Tree.BuildRootObj` line under "## Left out" for the others). See `Tree.BuildRootObj` and `Tree.DataToTree`.
- `getItemChildren` selects records by their own id, unless the id is `ROOT_TREE_ID`; in that case it selects by parent id. It collapses the records of the stored array, not of the deep copy it makes and never uses.
- `FilterHandler`'s constructor computes the limit into a local and then discards it, so `getLimit()` always returns nulls.
- The default branch of `processRequest` *resolves* an `Error`, because the executor's first parameter is the resolve function, whatever it is called.
- `detachEvent(name, handler)` calls `splice(handler)`. A function converts to start index 0, so every handler under the name is removed and the name goes.
- `tree()` and `treeDynamic()` read the role and type constants from the provider instance. They are defined on the provider's constructor, so at the instance they are `undefined`. Every anchor entry is therefore written under the key `"undefined"`, and the types are set to `undefined`. With `treeDynamic`'s three entries, the last write wins.
- The adapter never hands its settings to the data handler. index.js:23 passes the controller's provider to `new ActionHandler`, which passes it on to `new DataHandler(settings)` (handlers/ActionHandler.js:6). The provider has none of the settings properties (`model`, `data_type`, `use_only_mapped_fields`, `client_fields`, `server_fields`, `fields_anchors`), so the adapter's data handler always has the default scope of handlers/DataHandler.js:35-44. The vocabularies `map()` writes and the anchors the constructor merges never reach `mapData` or `getFieldByAnchor`, and `mapData` gives a flat record back unchanged (`DataHandler.AdapterScopeMapsNothing`). `DataHandler.MapRoundTrip` is about a data handler given those vocabularies and anchors directly, and `ActionHandler` sees the data handler through `DataOps`, whatever its scope.
- The id index (`_arrayToHash`) keeps, for each id, the last record carrying it. A function passed as the key field is only called, once per record, and the index stays empty. `getItemChildren` takes that path with its selection callback; the model covers the calls' effects, and the index it returns is discarded there. A function-valued field name given to the constructor would take it too (data_types/Tree.js:27, 46); field names are strings in the model (`Tree.FieldOptions`), so that case is not modelled.

## Model

| member | source | states |
|---|---|---|
| Records.ArrayToHash | data_types/Tree.js:3-22 | the index and its visiting order are exactly those of the record array: each id bound to its last record, each id visited once, in first-occurrence order |
| Records.IndexKeys | data_types/Tree.js:8-19 | the index is keyed by the records' own ids, holds exactly the ids occurring in the array, and binds each to a record of the array |
| Records.IndexLast | data_types/Tree.js:17-18 | the record stored under an id is the last record of the array carrying that id |
| Records.KeyOrderSpec | data_types/Tree.js:49 | the `for-in` order lists every index key, and only index keys, exactly once |
| Records.ChildrenOf | data_types/Tree.js:53-60 | every record the loop pushes under parent id `p` has parent id `p` and is the indexed record for its own id |
| Records.ChildrenOfComplete | data_types/Tree.js:53-60 | every indexed record whose parent id is `p` is among the records pushed under `p` |
| Records.ChildrenDistinct | data_types/Tree.js:49-61 | over keys visited once, no record is pushed twice into one `data` list |
| Records.RootKeysSpec | data_types/Tree.js:53-56 | the keys taking the root branch are exactly those whose record's parent id is not an index key |
| Records.AppendOne | data_types/Tree.js:59-60 | `parent.data = parent.data \|\| []; parent.data.push(node)` appends `node`, creating the list on the first child |
| Tree.OrDefault | data_types/Tree.js:27-29 | a given (truthy) field name is used; otherwise the default name is used |
| Tree.CloneRecords | data_types/Tree.js:44 | the tree works on fresh, pairwise distinct copies carrying the caller's ids and parent ids, so the caller's records are never touched |
| Tree.LinkRecords | data_types/Tree.js:49-61 | after the loop every record's `data` is exactly the list of its children in visiting order (absent when it has none); the root list has one entry per root key, each entry the whole array; no has-children flag changes |
| Tree.LinkKey | data_types/Tree.js:50-60 | one pass keeps the linking invariant for one more key and extends the root list exactly when the parent id is not indexed |
| Tree.LinkChild | data_types/Tree.js:58-60 | pushing a record onto its parent's `data` extends the linking invariant by that key |
| Tree.RootStep | data_types/Tree.js:53-56 | a key whose parent id is not indexed changes no `data` list |
| Tree.DataStep | data_types/Tree.js:53-60 | a record's linked `data` grows by the visited record exactly when it is that record's parent |
| Tree.DataToTree | data_types/Tree.js:43-72 | the copies are indexed by id, every copy's `data` is its full child list, and the root object is built from one whole-array entry per root key |
| Tree.BuildRootObj | data_types/Tree.js:63-69 | the root object is `{}` for an empty root list; otherwise it has the parent-id field and a `data` list with one entry per root-list entry |
| Tree.Collapse | data_types/Tree.js:123-126 | a record with `data` loses it and gets the children flag; a record without `data` is left alone |
| Tree.MatchingSpec | data_types/Tree.js:114-128 | the selection holds exactly the selected records, in array order, none twice when the array has no duplicates |
| Tree.Tree.constructor | data_types/Tree.js:24-39 | field names default to "id", "parent_id" and "children"; the tree holds fresh copies of the records, fully linked, and `get()` is the built root object |
| Tree.Tree.Get | data_types/Tree.js:36-38 | `get()` has no `data` list exactly when no record is a root; otherwise it has the parent field and one entry per root, each the whole record array |
| Tree.Tree.KidsSpec | data_types/Tree.js:88 | the records listed in an indexed record's `data` are its indexed children, ranked below it, with no duplicates |
| Tree.Tree.UnderLinear | data_types/Tree.js:87-98 | two records above a common record lie on one path: the parent relation is a forest |
| Tree.Tree.KidsAntichain | data_types/Tree.js:88-95 | no sibling lies below another sibling |
| Tree.Tree.WalkSound | data_types/Tree.js:87-98 | every record the walk pushes is indexed and lies below the walk's start |
| Tree.Tree.WalkUnderSome | data_types/Tree.js:87-98 | every record the walk pushes lies below one of the records it starts from |
| Tree.Tree.WalkDistinct | data_types/Tree.js:87-98 | on acyclic links, starting from siblings, the walk pushes no record twice |
| Tree.Tree.WalkContains | data_types/Tree.js:90-93 | every record of the list walked is pushed |
| Tree.Tree.WalkClosed | data_types/Tree.js:90-94 | the walk is closed under the `data` lists of the records it pushes |
| Tree.Tree.GetElementById | data_types/Tree.js:74-83 | the indexed record with the id, or null when no index key equals it |
| Tree.Tree.WalkSnoc | data_types/Tree.js:90-95 | pushing a record and then recursing into it extends the pre-order walk by that record and its branch |
| Tree.Tree.FindBranchElements | data_types/Tree.js:87-98 | `_findBranchElements` appends the pre-order walk of the record's `data` lists to the outer array |
| Tree.Tree.GetBranchElements | data_types/Tree.js:85-106 | for an indexed id: the record first, then its descendants in pre-order; for an id that is not indexed: the failure at line 103 (null has no `data`) |
| Tree.Tree.BranchComplete | data_types/Tree.js:85-106 | on the tree as built, every record below the root record is in its branch |
| Tree.Tree.BranchExact | data_types/Tree.js:85-106 | on the tree as built, the branch holds each record below the root, and only those, exactly once |
| Tree.Tree.GetItemChildren | data_types/Tree.js:108-135 | returns `{[parent field]: itemId, data: selected records in array order}`; each selected stored record is collapsed, every other one is untouched |
| Tree.Tree.Visit | data_types/Tree.js:114-128 | one callback call collapses and collects the record exactly when it is selected |
| JsValue.Prop | handlers/DataHandler.js:118 | reading a property fails exactly on null and undefined |
| JsValue.ArrayOfIndexing | handlers/FilterHandler.js:44 | an array literal has distinct index keys, length equal to its item count, and each item at its own index |
| JsValue.NatToStringRoundTrip | handlers/FilterHandler.js:23-24 | the decimal index key of `i` reads back as `i` |
| OrderedMap.Get | handlers/DataHandler.js:118 | a read succeeds exactly for own keys and returns an entry's value |
| OrderedMap.Put | providers/ControllerProvider.js:42 | `m[k] = v`: `k` now reads `v`, every other key reads as before, an existing key keeps its place, a new one is appended |
| OrderedMap.Remove | handlers/DataHandler.js:124 | `delete m[k]`: `k` is gone and every other key reads as before |
| OrderedMap.RemoveNoDup | handlers/DataHandler.js:124 | deleting keeps the keys distinct |
| OrderedMap.InvertGet | index.js:39-42 | writing an injective vocabulary in reverse maps every value back to its key |
| DataHandler.NewScope | handlers/DataHandler.js:34-44 | missing settings give empty vocabularies and anchors and null data type; the flag is set only by exactly `true` |
| DataHandler.AnchorIndex | handlers/DataHandler.js:107-115 | the position of the first anchor configured with the field, or none when no anchor is |
| DataHandler.FieldByAnchor | handlers/DataHandler.js:107-115 | null exactly when no anchor is configured with the field; otherwise a role whose anchor value is the field |
| DataHandler.FirstAnchor | handlers/DataHandler.js:109-111 | the first matching anchor is the role the lookup returns |
| DataHandler.GetFieldByAnchor | handlers/DataHandler.js:107-115 | the search loop returns the lookup's role |
| DataHandler.Target | handlers/DataHandler.js:86-89 | a key is dropped exactly when only mapped fields are wanted and it is mapped neither by the vocabulary nor by an anchor; an unmapped kept key stays as it is; a non-empty vocabulary value takes precedence |
| DataHandler.MapValue | handlers/DataHandler.js:80-105 | the result is always an object, and an array exactly when the input is one |
| DataHandler.MapData | handlers/DataHandler.js:80-105 | the method writes each object-typed entry's mapped form back into its input and returns the renamed result |
| DataHandler.MapFields | handlers/DataHandler.js:82-92 | `_map`'s loop collects the renamed entries in visiting order |
| DataHandler.RenamedSnoc | handlers/DataHandler.js:84-90 | one more visited entry is stored under its target key or dropped |
| DataHandler.UnmappedDropped | handlers/DataHandler.js:86-89 | with only mapped fields wanted, unmapped keys leave nothing |
| DataHandler.UnmappedArrayEmpty | handlers/DataHandler.js:83-89 | with only mapped fields wanted, an array whose indices are unmapped maps to `[]` |
| DataHandler.RenamedDistinct | handlers/DataHandler.js:84-90 | when no two kept entries land on one key, every entry survives, in order, under its target key |
| DataHandler.FlatChildren | handlers/DataHandler.js:97-101 | a record without object-typed entries is left as it is by the first loop |
| DataHandler.AnchoredTarget | handlers/DataHandler.js:85-89 | a key anchored to itself and missing from the vocabulary is stored under itself |
| DataHandler.ForwardTarget | handlers/DataHandler.js:85-89 | each key of a covered record is renamed to its vocabulary value, or kept when it is anchored to itself |
| DataHandler.ForwardDistinct | handlers/DataHandler.js:84-90 | no two keys of a covered record are renamed alike |
| DataHandler.VocabularyPass | handlers/DataHandler.js:80-105 | a flat record whose keys are vocabulary keys or self-anchored maps to the record with every key translated |
| DataHandler.InversePass | handlers/DataHandler.js:80-105 | mapping a translated record with the reversed vocabulary gives back the original keys |
| DataHandler.MapRoundTrip | handlers/DataHandler.js:80-105 | mapping server-ward with vocabulary `v`, then client-ward with the client vocabulary `map(v)` builds, gives back the record, for keys that are vocabulary keys or anchored to themselves (as `id` and `order` are by default) |
| DataHandler.AdapterScopeMapsNothing | handlers/DataHandler.js:34-44 | the provider the adapter passes as settings gives the default scope, under which `mapData` returns a flat record unchanged |
| DataHandler.MapRoundTripExample | handlers/DataHandler.js:80-105 | `{id: 5, title: "A"}` with vocabulary `{title: "t_title"}` and anchors `{id: "id"}` comes back as it was |
| DataHandler.GetFieldData | handlers/DataHandler.js:117-120 | `data[field]` when truthy, else the entry under the anchor role; failure exactly on null and undefined |
| DataHandler.DeleteFieldData | handlers/DataHandler.js:122-129 | an own field, or else the anchor-resolved key, is gone and every other key reads as before; a primitive comes back unchanged; failure on null and undefined |
| DataHandler.GetAfterDelete | handlers/DataHandler.js:117-129 | after deleting an own field, reading it falls back to its anchor role |
| DataHandler.ChangeEnvelope | handlers/DataHandler.js:46-68 | a fulfilled write reports its status and the request id as source; insert and update take a truthy reply id as target, move and delete the request id; a null reply is a non-operational TypeError; rejections keep their kind and pass through with throws |
| DataHandler.RootRecordsSpec | handlers/DataHandler.js:17-31 | the root list holds exactly the indexed records whose parent id is not an index key |
| DataHandler.ForestCovers | handlers/DataHandler.js:17-31 | every indexed record is either a root or among its parent's pushed children, and a root exactly when its parent id is not indexed |
| DataHandler.DataToForest | handlers/DataHandler.js:12-32 | returns the root records in visiting order; every record's `data` is extended in place by its children; no flag changes |
| DataHandler.AttachKey | handlers/DataHandler.js:18-28 | one pass extends the root list or a parent's `data` by the visited record |
| DataHandler.AttachChild | handlers/DataHandler.js:26-28 | pushing onto the parent's `data` extends the linking invariant by that key |
| DataHandler.AttachStep | handlers/DataHandler.js:26-28 | a record's `data` grows by the visited record exactly when it is that record's parent |
| DataHandler.RootsStep | handlers/DataHandler.js:21-23 | the root list grows by the visited record exactly when its parent id is not indexed |
| DataHandler.GetData | handlers/DataHandler.js:70-78 | `{status: "read", data}`; the records are linked into a forest in place only when the data type is "tree"; storage failures pass through |
| FilterHandler.RemoveSpaces | handlers/FilterHandler.js:44 | the result is no longer than the input, every character of it is a non-white-space character of the input, and every non-white-space character of the input is in it |
| FilterHandler.RemoveSpacesIdentity | handlers/FilterHandler.js:44 | a string without white space is unchanged |
| FilterHandler.RemoveSpacesAllSpace | handlers/FilterHandler.js:44 | a string of white space only becomes empty |
| FilterHandler.RemoveSpacesAppend | handlers/FilterHandler.js:44 | removal works piece by piece, so with the two rows above the result is exactly the non-white-space characters in order |
| FilterHandler.Split | handlers/FilterHandler.js:44 | a split has at least one piece |
| FilterHandler.SplitPieces | handlers/FilterHandler.js:44 | no piece contains the separator |
| FilterHandler.JoinSplit | handlers/FilterHandler.js:44 | joining the pieces with the separator gives back the string |
| FilterHandler.SplitJoin | handlers/FilterHandler.js:44 | splitting separator-free pieces joined by the separator gives back the pieces |
| FilterHandler.FieldNames | handlers/FilterHandler.js:42-45 | a `fields` string becomes an array of names free of white space and commas, which joined by commas give the string without white space |
| FilterHandler.Items | handlers/FilterHandler.js:23-24 | the loop visits `data[0]` to `data[length - 1]` |
| FilterHandler.MapItemsSpec | handlers/FilterHandler.js:23-33 | parsing fails exactly when an item is null or undefined; otherwise there is one result per item, in order |
| FilterHandler.ParseFilter | handlers/FilterHandler.js:21-36 | `_parseFilter`'s loop computes the rule list, or the failure |
| FilterHandler.ParseRule | handlers/FilterHandler.js:24-32 | the loop body builds the rule object of one item |
| FilterHandler.RuleForProps | handlers/FilterHandler.js:27-31 | a rule object carries the item's field and mode, and `is_mask` exactly when the mode is neither "ASC" nor "DESC" |
| FilterHandler.RulesStuck | handlers/FilterHandler.js:23-33 | once an item fails, the whole parse fails |
| FilterHandler.ParseRuleArray | handlers/FilterHandler.js:21-36 | an array of rules keeps its length and order, and each parsed rule carries its item's field, mode and mask flag |
| FilterHandler.IsMaskPrimitive | handlers/FilterHandler.js:31 | a non-object mode is a mask exactly when it is not the string "ASC" or "DESC" |
| FilterHandler.ParseEntriesSpec | handlers/FilterHandler.js:38-63 | the parse fails exactly when a `filter` or `sort` entry fails; otherwise only the four recognised keys are kept, each from its entry, and every other key is skipped |
| FilterHandler.ParseFilterDataSpec | handlers/FilterHandler.js:19-64 | `fields` is parsed, `filter` and `sort` become rule lists, `limit` passes through unchanged, and an absent key stays absent |
| FilterHandler.ParseFilterDataLoop | handlers/FilterHandler.js:19-64 | the `for-in` loop computes the parse `ParseFilterData` defines |
| FilterHandler.Rewritten | handlers/FilterHandler.js:74-103 | a pass keeps the list length and replaces an entry exactly when the callback's result is accepted |
| FilterHandler.RewrittenIdentity | handlers/FilterHandler.js:83-103 | a callback returning its argument changes nothing |
| FilterHandler.RewrittenAccepted | handlers/FilterHandler.js:74-103 | a pass replaces entries only by results it accepts |
| FilterHandler.Handler.constructor | handlers/FilterHandler.js:1-17 | a missing or falsy `fields` becomes `[]`; a missing `filter` or `sort` becomes an empty rule list; otherwise the parsed values are kept |
| FilterHandler.Handler.GetFields | handlers/FilterHandler.js:66-68 | the stored field list, which is never falsy |
| FilterHandler.Handler.GetLimit | handlers/FilterHandler.js:70-72 | always `{from: null, count: null}` |
| FilterHandler.Handler.EachField | handlers/FilterHandler.js:74-81 | each field entry is replaced unless the callback returns null or undefined; keys and the other lists are unchanged; the field list stays truthy |
| FilterHandler.Handler.EachFilter | handlers/FilterHandler.js:83-92 | each filter rule is replaced by a truthy result only; the other lists are unchanged |
| FilterHandler.Handler.EachSort | handlers/FilterHandler.js:94-103 | each sort rule is replaced by a truthy result only; the other lists are unchanged |
| FilterHandler.New | handlers/FilterHandler.js:1-17 | construction fails exactly when parsing fails; otherwise the handler holds the parsed lists |
| ActionHandler.Caught | handlers/ActionHandler.js:40-42 | an operational rejection becomes the fulfilled `{status: "error", error}`; any other rejection, and anything else, passes unchanged |
| ActionHandler.ProcessRequest | handlers/ActionHandler.js:10-43 | each of the five actions calls its operation; any other action resolves an Error naming it; null or undefined request state throws; the result is never an operational rejection |
| ActionHandler.ReplaceUnsupported | handlers/ActionHandler.js:33-37 | "replace" takes the default branch and resolves an Error |
| ActionHandler.MessageNamesAction | handlers/ActionHandler.js:35 | the message is "Action '", the action's string form, "' isn't support." |
| ActionHandler.IdString | handlers/ActionHandler.js:50 | a falsy id gives ""; a string id gives itself |
| ActionHandler.GetRequestStateData | handlers/ActionHandler.js:45-57 | the state gets the id as a string, its own truthy action or else the request's, and the payload's data without the id; every other state entry is kept |
| ActionHandler.Resolve | handlers/ActionHandler.js:74-92 | advances exactly on an error (returning false), an object (returning true) or `true` with non-null handling (returning true), recording what it was given |
| ActionHandler.ReadCallback | handlers/ActionHandler.js:140-148 | no callback for a null or undefined result; an error envelope passes unchanged; otherwise `{status: "read"}` with the result's data mapped client-ward |
| ActionHandler.WriteRequest | handlers/ActionHandler.js:154-157 | the request state's `data` becomes the resolved data if truthy, else its own, mapped server-ward; every other entry is kept |
| ActionHandler.ProcessAction | handlers/ActionHandler.js:113-162 | error: calls back the error envelope and returns false; read with data: calls back the client-mapped data; read without: dispatches and passes error envelopes through; "data" handler: returns false; write: rewrites the request state in the handler data and dispatches it; `mapData` called on the handler's own `data` leaves it with its children mapped; a non-operational rejection calls nothing back |
| ActionHandler.ReadErrorPassesThrough | handlers/ActionHandler.js:140-144 | a read whose storage call rejects with an operational error calls back the error envelope unchanged |
| ActionHandler.ReadFailureUnanswered | handlers/ActionHandler.js:40-42 | a read whose storage call rejects with a non-operational error never calls back, and still returns true |
| ActionHandler.ErrorEnvelopeStatus | handlers/ActionHandler.js:41 | an error envelope's status reads "error" |
| ActionHandler.ResolverErrorStops | handlers/ActionHandler.js:74-79 | a resolver called with an error returns false and calls back the error envelope without a storage call |
| ActionHandler.ResolverDataDispatched | handlers/ActionHandler.js:81-84 | a resolver called with an object for a write dispatches that object, mapped server-ward, as the request data |
| ActionHandler.ReadResolvedTwiceMapsChildrenTwice | handlers/ActionHandler.js:71-136 | a read resolved with an object and then with `true` answers the second time from the object the first `mapData` left behind |
| ActionHandler.ReadLeavesChildrenMapped | handlers/DataHandler.js:97-101 | with the data handler's own `mapData`, that object has each object-typed child replaced by its client-ward mapping |
| ActionHandler.WriteResolvedTwiceMapsTwice | handlers/ActionHandler.js:72-91 | the handler data is shared by every resolver call, so a write resolved twice with `true` dispatches its payload mapped server-ward twice over |
| Controller.MergedGet | providers/ControllerProvider.js:40-45 | after merging, each given role reads its last given value and every other role reads as before |
| OrderedMap.InvertOther | index.js:39-42 | writing a vocabulary in reverse leaves every name that is not one of its values unchanged |
| Controller.WriteInverse | index.js:39-42 | the loop writes each entry of the vocabulary in reverse, in order |
| Controller.MergeInto | providers/ControllerProvider.js:41-42 | the loop merges each given role into the anchor object, in order |
| Controller.Controller.constructor | index.js:4-26 | data type "", loading type "static", empty fresh vocabularies, flag false, anchors `{id: "id", order: "order"}` |
| Controller.Controller.Copy | index.js:4-21 | the model is the base's model, or the base controller itself when that is falsy; request and the two types come from the base where truthy, else undefined, "" and "static"; the very same vocabulary and anchor objects and the flag are taken over; the default anchors are merged into the shared table |
| Controller.Controller.MergeDefaultAnchors | index.js:21 | the provider merges `{id: "id", order: "order"}` into the anchor object |
| Controller.Controller.Map | index.js:34-43 | a fresh copy that takes the model, request and both types from this controller where truthy (else the constructor's defaults), whose server vocabulary is `fields` and whose flag is `!!f`; `fields` is written in reverse into the shared client object; the copy's construction merges the default anchors into the shared anchor object; the source's own server vocabulary and flag are unchanged |
| Controller.Controller.UseFields | index.js:35-42 | the copy takes the new server vocabulary and flag and writes it in reverse into its client vocabulary; its model, request, types and tables stay as they were |
| Controller.Controller.Tree | index.js:51-60 | one anchor entry "parent" is written under "undefined"; the data type becomes undefined; nothing else changes |
| Controller.Controller.TreeDynamic | index.js:62-74 | the anchor under "undefined" ends as "webix_kids"; data and loading types become undefined; nothing else changes |
| Controller.Provider.GetModelObj | providers/ControllerProvider.js:15-17 | the controller's own model object |
| Controller.Provider.GetRequestObj | providers/ControllerProvider.js:19-21 | the controller's own request object |
| Controller.Provider.GetDataType | providers/ControllerProvider.js:23-25 | the data type held on the controller, which `setDataType` writes |
| Controller.Provider.SetDataType | providers/ControllerProvider.js:27-30 | only the data type changes, the getter reads the new value, and the provider is returned |
| Controller.Provider.GetFields | providers/ControllerProvider.js:32-34 | "client" selects the client vocabulary; anything else the server vocabulary |
| Controller.Provider.GetFieldsAnchors | providers/ControllerProvider.js:36-38 | the controller's live anchor object, not a copy |
| Controller.Provider.SetFieldsAnchors | providers/ControllerProvider.js:40-45 | the roles are merged into the existing anchor object, which the getter still returns; the provider is returned |
| Controller.Provider.IsFieldMapped | providers/ControllerProvider.js:47-50 | a field is mapped exactly when the server vocabulary has an entry with it as key |
| Controller.Provider.GetUseOnlyMappedFields | providers/ControllerProvider.js:52-54 | the controller's use-only flag |
| Controller.Provider.SetDataLoadingType | providers/ControllerProvider.js:56-59 | only the loading type changes, the getter reads the new value, and the provider is returned |
| Controller.Provider.GetDataLoadingType | providers/ControllerProvider.js:61-63 | the loading type held on the controller, which `setDataLoadingType` writes |
| Controller.MapInverts | index.js:39-42 | after `map(v)` with distinct values, the client vocabulary maps each value of `v` back to its key and leaves other names alone |
| Controller.DefaultAnchorsMerged | index.js:21 | every construction makes "id" and "order" anchor themselves and leaves every other role |
| Events.LowerChar | handlers/EventsHandler.js:4-6 | capital letters become lower-case letters; other characters are unchanged |
| Events.Lower | handlers/EventsHandler.js:4-6 | each character is lower-cased in place |
| Events.LowerIdempotent | handlers/EventsHandler.js:4-6 | lower-casing twice is lower-casing once |
| Events.Calls | handlers/EventsHandler.js:55-56 | the loop calls at most every handler |
| Events.AllCalled | handlers/EventsHandler.js:55-56 | while the running result is truthy, every handler so far has been called |
| Events.ChainSpec | handlers/EventsHandler.js:54-58 | handlers are called in order until one returns a falsy value; the result is the last value returned, or true when none is called, and is truthy exactly when every result is |
| Events.EventsHandler.constructor | handlers/EventsHandler.js:1-2 | the store starts empty |
| Events.EventsHandler.AttachEvent | handlers/EventsHandler.js:8-19 | false and no change for a null or undefined name; otherwise true, with the handler appended under the lower-cased name (list created if needed) |
| Events.EventsHandler.DetachEvent | handlers/EventsHandler.js:21-37 | false and no change for a null, undefined or unknown name; otherwise the whole list goes and the name is deleted |
| Events.EventsHandler.DetachAllEvents | handlers/EventsHandler.js:39-42 | the store is emptied and the result is true |
| Events.EventsHandler.CallEvent | handlers/EventsHandler.js:44-59 | true and no handler called for a null, undefined or unknown name; otherwise the running `&&` of the handlers' results, calling exactly the first `Calls` handlers in order |
| Events.EventsHandler.CheckEvent | handlers/EventsHandler.js:61-63 | true exactly when the name is given and, in a valid store, some stored name is the same event up to letter case |
| Events.Splice | handlers/EventsHandler.js:31 | `splice(start)` keeps exactly the entries before `start` |
| Events.CaseInsensitive | handlers/EventsHandler.js:61-63 | `checkEvent` answers alike for names differing only in letter case |
| Events.AttachThenCheck | handlers/EventsHandler.js:8-19 | after attaching, `checkEvent` is true for the name in any letter case, and the handler is last in its list |

## Left out

- Promises and storage are not modelled as such. Each storage call's outcome is an input: a `Settled` value that is fulfilled, rejected or thrown, and a rejection says whether its error is operational. Bluebird's `.error` catches operational errors only (`ActionHandler.Caught`); any other rejection stays a rejection, and the `.then` after it never runs, so no callback is made. When a storage error is operational is up to the storage, so it is an input too. `removeData`, `changeOrderData`, `setDb` and `getDb` are never called by the model.
- `createActionHandler`'s transport and custom-handler invocation (handlers/ActionHandler.js:59-111) are left out. They are foreign callbacks; only the `_resolver` rule is modelled. `Controller.db` (index.js:49) is left out for the same reason: it only hands the storage to the model. So are the `this.db(db)` calls that end `tree()` and `treeDynamic()`, and the `crud` and `data` members (index.js:24-25).
- `_.clone(…, true)` is modelled as value semantics: fresh record objects in `Tree`, and values in `getRequestStateData`.
- DataHandler.js line 19 reads `FIELD_PARENT_ID`, which is never declared, so the source throws a ReferenceError there. The model takes the parent id as each record's `parent`, as if the field were configured.
- ActionHandler.js lines 50 and 52 call `getFieldDataByAnchor` and `deleteFieldDataByAnchor`, which the data handler does not define. Line 14 calls `getData` with one argument where the data handler takes two. The action handler therefore sees the data handler only through the abstract `ActionHandler.DataOps`.
- Loose equality is left out:
  - ids and parent ids are integers, and the index is keyed by them rather than by their string forms;
  - `LooseEqualsWord` compares against words that do not read as numbers;
  - an object's `length` property counts only when it holds a positive number.
- Numbers are integers; floating point is not modelled.
- `for-in` visits keys in insertion order. JavaScript's rule that integer-like keys come first, and inherited (prototype) keys, are not modelled.
- `toLowerCase` is modelled for A to Z only. Event names are strings; null and undefined are `None`, and other non-string names are not modelled.
- Callbacks are pure functions of the value they receive. `this` and argument spreading in `callEvent`, `eachField`, `eachFilter` and `eachSort` are not modelled. A handler's results for one `callEvent` are given as `results`.
- Vocabulary and anchor values are strings (`Dict<string>`).
- Controller.Controller.Map: requires that `fields` is not the controller's own client or anchor object. Writing the vocabulary in reverse into itself is not modelled.
- FilterHandler.Handler.EachField: models the loop over a snapshot of the entries. Since each pass writes only the entry it visits, the result is the same.
- DataHandler.MapRoundTrip: covers flat records whose keys are vocabulary keys, or anchored to themselves and no vocabulary value. Nested records are not covered. A key anchored to another role does not round-trip in the source: the server-ward pass stores it under its role, which the client-ward pass does not turn back.
- DataHandler.DeleteFieldData: is modelled on values; it returns the changed object rather than mutating the caller's.
- ActionHandler.ProcessAction: `mapData`'s write-back into its argument is given by `DataOps.mapInput` and stored into the handler's `data` where that argument is the handler's own `data` (handlers/ActionHandler.js:133, 154-157); other objects `mapData` is called on are not tracked. A read's callback value is the error envelope, or `{status: "read", data}` with the mapped data. Typing mismatches inside that `.then` are not modelled beyond a null or undefined result.
- FilterHandler.ParseFilterDataSpec: requires the filter block's keys to be distinct, which every JavaScript object's own keys are. FilterHandler.ParseEntriesSpec: requires the same.
- ActionHandler.GetRequestStateData: the request payload and the state are modelled as objects (dictionaries).
- Tree.Tree.GetItemChildren: the deep copy made at data_types/Tree.js:109 is never used, so it is not modelled.
- Controller.Controller.Copy: the provider is created before the default anchors are merged, as in the source. The merge runs through Controller.Controller.MergeDefaultAnchors.
- Tree.Tree.GetBranchElements: takes a `rank` witnessing that following parent ids never cycles, for every indexed record, not only those below the requested id. The source recurses without end only on a cycle below the requested id and completes on other branches; the model requires the whole parent relation to be acyclic.
- Tree.Tree.constructor: records are given as an id and a parent id. A caller's record that already carries a `data` list, which the deep clone would keep and line 59 would extend, is not modelled; every copy starts without one.
- Tree.CloneRecords: copies start without a `data` list, as the caller's records are given as an id and a parent id only; a `data` list the deep clone would copy is not modelled.
- Tree.BuildRootObj: keeps the parent-id field's name, not its value. The value is read from the record array (data_types/Tree.js:66), so it is `undefined` except for field names that are array properties: "length" reads the array's length and an index string such as "0" reads that record. Those values are not modelled.
- JsValue.Prop: reads own enumerable entries only, so `length` of a string or array reads as undefined, where JavaScript gives the length. A field named "length" in `getFieldData` and `deleteFieldData` is affected.
- The event store is a plain object, so inherited names such as `constructor` are visible in the source: `checkEvent("constructor")` is true on an empty store, and attaching under `constructor` or `__proto__` throws. The model's store is a map holding only attached names.
