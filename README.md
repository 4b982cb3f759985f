# Relationship fields, configuration ids and MySQL duplicate keys

A Dafny model of three pieces of the identity management server:

- **The collection relationship provider.** It serves a many-valued relationship field of a managed object.
  - A relationship is stored as an *edge* record: `firstId`/`firstPropertyName`, `secondId`/`secondPropertyName`, `properties`, `_id`, `_rev`.
  - The client sees the same relationship as `{_ref, _refProperties: {_id, _rev, ...}}`.
  - The model covers four things:
    - the pointer rewrite from the client shape to the edge shape (the field-transformer visitor);
    - the store filter and store query that a field query becomes;
    - the bulk replace of a field's value (`setRelationshipValueForResource`, with `clearNotIn`, `clear` and the read of the current value);
    - the choice of which new items go to the relationship validator.
- **The configuration object service.** It handles configuration ids: a pid, or `factoryPid/alias`.
  - The id parser has these quirks, all modelled:
    - a leading `/` removes every `/`;
    - the clause `switch` falls through;
    - Java's `split` drops trailing empty pieces.
  - Also modelled:
    - the lookup filter;
    - the list-mode `read` and the read of one configuration by id;
    - the decisions and store changes of `create`, `update` and `delete`;
    - patch and query, which are refused.
- **The MySQL SQL exception handler.** For duplicate keys it narrows the X/Open classification to MySQL's code 1062.

## Module layout

- **`Wrappers`** (`wrappers.dfy`): Option, Result and Outcome.
- **`ResourceErrors`** (`resource_errors.dfy`): the resource exception kinds the code raises.
- **`QueryFilters`** (`query_filter.dfy`): query filters.
  - `Filter` is the filter tree.
  - `Eval` says which records a filter selects. Equality is built in; every other operator is decided by a store-supplied relation.
  - `MapFields` is the field-transforming visitor. Its field map need only be defined on the fields the filter mentions (`Mentions`).
- **`RelationshipFilters`** (`relationship_filters.dfy`):
  - the edge record, with its stored view and its client view from either endpoint;
  - `Transform` and `AsRelationshipQueryFilter`;
  - `StoreFilter` and `QueryCollection`.
- **`EdgeStores`** (`edge_store.dfy`): the relationship repository as a class.
  - It holds a `map` from id to edge and offers create, update, delete and query.
  - It hands out ids never used before.
- **`CollectionRelationships`** (`collection_relationships.dfy`): the provider.
  - It is a class over a schema field and an edge store.
  - Its methods issue the store calls one after another.
  - The specification functions beside it describe the store after each step: `Pruned`, `ApplyUpdates` and `WithCreated`.
  - The store may refuse a write, a delete or a query. `Refused` and `Accepted` say which records and items it refuses; `ReadRefusal` is its verdict on the owner query.
  - A result item carries the revision the store returned: the edge's revision after the update (`Revised`), or 0 for a created edge (`Persisted`).
- **`JavaStrings`** (`java_strings.dfy`): `trim`, `replace(c, "")`, `split` on one character and `equalsIgnoreCase`.
  - `equalsIgnoreCase` folds ASCII letters and the four non-ASCII letters that fold to ASCII ones (`İ`, `ı`, `ſ` and the Kelvin sign).
- **`ParsedIds`** (`parsed_id.dfy`):
  - `Parse` is the specification;
  - `NewParsedId` is the constructor as written, proved equal to `Parse`;
  - `Format` gives the list-mode id.
- **`ConfigAdmins`** (`config_admin.dfy`): the configuration store the service relies on, as a class over a sequence of configurations.
  - It lists, gets, creates factory instances, updates and deletes.
  - A lookup names a pid, or a factory pid and an alias, whose values go into an LDAP filter unescaped. `CreateFilter` parses those values as OSGi filter values:
    - `\` escapes the next character;
    - an unescaped `*` is a wildcard;
    - an unescaped `(` or `)`, a trailing `\` or an empty value makes the filter invalid.
  - `Matches` says which configurations a parsed filter selects.
- **`ConfigObjectServices`** (`config_object_service.dfy`): the service itself.
- **`MySqlExceptionHandlers`** (`mysql_exception_handler.dfy`): `isErrorType`.

Collaborators that are not part of this model are parameters or class constants:

| Collaborator | In the model |
|---|---|
| relationship validator | `isValid` |
| equality hash | `identity` |
| in-request duplicate check | `hasDuplicates` |
| pid qualifier and unqualifier | `qualify`, `unqualify` |
| configuration encryption | `encrypt` |
| enhanced-configuration reader | `enhance` |
| X/Open error mapping | `xopen` |
| store's comparison of non-equality operators | `holds` |

## Model

| member | source | states |
|---|---|---|
| RelationshipFilters.TransformRules | openidm-core/src/main/java/org/forgerock/openidm/managed/CollectionRelationshipProvider.java:96-122 | `_refProperties/_id` becomes `_id`, and `_refProperties/_rev` becomes `_rev`. `_ref` becomes `firstId` when reverse and `secondId` otherwise. Any other `_refProperties/...` becomes `properties/...` with the same remaining tokens, and never `properties/_id` or `properties/_rev`. Every other non-empty pointer is unchanged. The transform is defined only on non-empty pointers, since it reads the first token at :112. |
| RelationshipFilters.TransformSound | openidm-core/src/main/java/org/forgerock/openidm/managed/CollectionRelationshipProvider.java:96-122 | Reading the rewritten pointer from the stored edge gives what the client object seen from that direction holds at the original pointer. |
| QueryFilters.MapFieldsKeepsShape | openidm-core/src/main/java/org/forgerock/openidm/managed/CollectionRelationshipProvider.java:479-481 | The visitor keeps the filter tree: the same node kinds, operators, values and arities; only the leaf fields change. |
| QueryFilters.EvalMapFields | openidm-core/src/main/java/org/forgerock/openidm/managed/CollectionRelationshipProvider.java:479-481 | A field-rewritten filter selects a record exactly when the original filter selects the view that reads each field it mentions through the rewrite. |
| RelationshipFilters.RewriteSound | openidm-core/src/main/java/org/forgerock/openidm/managed/CollectionRelationshipProvider.java:479-481 | The rewrite fails exactly when the client filter mentions the root pointer, where the transform's `get(0)` at :112 throws. Otherwise the filter rewritten for one direction selects exactly the edges whose client view from that direction satisfies it. |
| RelationshipFilters.EndpointFilterSelects | openidm-core/src/main/java/org/forgerock/openidm/managed/CollectionRelationshipProvider.java:409-414 | The first-endpoint filter selects exactly the edges starting at the owner through the field. The second-endpoint filter selects exactly the edges ending there. |
| RelationshipFilters.StoreFilterSelects | openidm-core/src/main/java/org/forgerock/openidm/managed/CollectionRelationshipProvider.java:403-433 | The store filter selects exactly the forward edges of the field whose forward client view passes the client filter. For a reverse field it also selects the reverse edges whose reverse view passes it. |
| RelationshipFilters.OwnerFilterSelectsOwned | openidm-core/src/main/java/org/forgerock/openidm/managed/CollectionRelationshipProvider.java:419-427 | Without a client filter, the store filter selects exactly the edges the field owns. |
| RelationshipFilters.RootPointerFilterFails | openidm-core/src/main/java/org/forgerock/openidm/managed/CollectionRelationshipProvider.java:396-475 | A filtered query whose client filter is `/ eq v`, or `!(/ pr)`, is an internal error for either kind of field. |
| RelationshipFilters.QueryCollection | openidm-core/src/main/java/org/forgerock/openidm/managed/CollectionRelationshipProvider.java:362-475 | A query expression, or a query id other than query-all-ids, query-all and the relationship query, is a bad request. A query that builds its store filter from a client filter mentioning the root pointer is an internal error, as the throw at :112 reaches the catch at :474-475. Nothing else fails. The relationship query goes to the store as that query id with the owner and field-name parameters and no filter. Every other query carries the store filter. Paging is forwarded. Only query-all-ids asks for ids alone. |
| CollectionRelationships.EdgeOfReadsBack | openidm-core/src/main/java/org/forgerock/openidm/managed/CollectionRelationshipProvider.java:246-257 | The edge written for an item, read back from its owner at revision `rev`, is the item under its persisted id with `_rev` equal to `rev`. |
| CollectionRelationships.Pruned | openidm-core/src/main/java/org/forgerock/openidm/managed/CollectionRelationshipProvider.java:286-297 | After clearing, an edge remains exactly when it is not on the owner's field or its id is kept. Remaining edges are unchanged. |
| CollectionRelationships.PrunedLeavesOnlyKept | openidm-core/src/main/java/org/forgerock/openidm/managed/CollectionRelationshipProvider.java:286-297 | After clearing, the field's edges are the old ones whose id is kept. Edges of other fields and owners survive. |
| CollectionRelationships.PrunedUnblocked | openidm-core/src/main/java/org/forgerock/openidm/managed/CollectionRelationshipProvider.java:218-224 | When no delete was refused, pruning with the refused records added to the keep set is pruning with the keep set alone. |
| CollectionRelationships.AcceptedMembers | openidm-core/src/main/java/org/forgerock/openidm/managed/CollectionRelationshipProvider.java:240-250 | An item is among the accepted ones exactly when it is an input item whose record the store accepts. |
| CollectionRelationships.AcceptedLength | openidm-core/src/main/java/org/forgerock/openidm/managed/CollectionRelationshipProvider.java:240-250 | There are never more accepted items than items, and as many exactly when the store accepts every item. |
| CollectionRelationships.AcceptedAll | openidm-core/src/main/java/org/forgerock/openidm/managed/CollectionRelationshipProvider.java:240-250 | When the store accepts every item, the accepted items are all the items, in order. |
| CollectionRelationships.AllAcceptedMembers | openidm-core/src/main/java/org/forgerock/openidm/managed/CollectionRelationshipProvider.java:240-250 | The store accepts every item exactly when it accepts the record of each item. |
| CollectionRelationships.Partition | openidm-core/src/main/java/org/forgerock/openidm/managed/CollectionRelationshipProvider.java:196-219 | The loop builds exactly the update list, the create list and the keep set of the input. |
| CollectionRelationships.PartitionIsPermutation | openidm-core/src/main/java/org/forgerock/openidm/managed/CollectionRelationshipProvider.java:208-219 | Every input item goes to exactly one list: the two lists together are the input, as a multiset. |
| CollectionRelationships.PartitionSides | openidm-core/src/main/java/org/forgerock/openidm/managed/CollectionRelationshipProvider.java:210-218 | Updates are exactly the items with an id, and their ids are the keep set. Creates have no id. Every kept id is the id of an update. |
| CollectionRelationships.PartitionMembers | openidm-core/src/main/java/org/forgerock/openidm/managed/CollectionRelationshipProvider.java:208-219 | An item is in the input exactly when it is in the update list or in the create list. |
| CollectionRelationships.AllAcceptedSplit | openidm-core/src/main/java/org/forgerock/openidm/managed/CollectionRelationshipProvider.java:240-252 | Every input item is accepted exactly when every update and every create is accepted. |
| CollectionRelationships.ApplyUpdates | openidm-core/src/main/java/org/forgerock/openidm/managed/CollectionRelationshipProvider.java:240-244 | Updates never add or remove a record. |
| CollectionRelationships.ApplyUpdatesOwns | openidm-core/src/main/java/org/forgerock/openidm/managed/CollectionRelationshipProvider.java:240-244 | After the updates, an existing edge is on the field exactly when it was before or an update named it. |
| CollectionRelationships.ApplyUpdatesContents | openidm-core/src/main/java/org/forgerock/openidm/managed/CollectionRelationshipProvider.java:240-244 | An edge no update names keeps its record. An edge some update names holds what the last update naming it wrote. Its revision rises by one for every update naming it, so it is higher exactly when some update names it. |
| CollectionRelationships.WithCreatedContents | openidm-core/src/main/java/org/forgerock/openidm/managed/CollectionRelationshipProvider.java:246-250 | After the creates, the store holds the old records plus one record per new id, each the item written, and every old record is unchanged. |
| CollectionRelationships.PersistedAt | openidm-core/src/main/java/org/forgerock/openidm/managed/CollectionRelationshipProvider.java:246-257 | The created result at position `j` is the `j`-th created item under the `j`-th new id, at revision 0. |
| CollectionRelationships.RevisedAt | openidm-core/src/main/java/org/forgerock/openidm/managed/CollectionRelationshipProvider.java:240-260 | When every update finds its edge, the update result at position `i` is the `i`-th item carrying the revision the store returned: the edge's old revision plus the number of updates among the first `i + 1` that name it. |
| CollectionRelationships.OwnedAfterReplace | openidm-core/src/main/java/org/forgerock/openidm/managed/CollectionRelationshipProvider.java:221-250 | After clearing, updating and creating, an id is on the field exactly when it is kept or was created. |
| CollectionRelationships.ReplaceHoldsExactlyRequested | openidm-core/src/main/java/org/forgerock/openidm/managed/CollectionRelationshipProvider.java:208-261 | A replace with `clearExisting` in which every update finds its edge leaves the field holding exactly the requested ids plus the created ones. |
| CollectionRelationships.OwnerQueryFindsOwned | openidm-core/src/main/java/org/forgerock/openidm/managed/CollectionRelationshipProvider.java:160-171 | The ids the owner query returns are exactly the ids of the edges the field owns. |
| CollectionRelationships.CollectionRelationshipProvider.OwnedEdgeIds | openidm-core/src/main/java/org/forgerock/openidm/managed/CollectionRelationshipProvider.java:160-171 | The query for the owner's relationships fails exactly when the store refuses it, with that refusal. Otherwise it returns each owned edge id exactly once. |
| CollectionRelationships.CollectionRelationshipProvider.GetRelationshipValue | openidm-core/src/main/java/org/forgerock/openidm/managed/CollectionRelationshipProvider.java:156-185 | A refused query fails the read with that refusal, as the catch at :180-181 does. Otherwise the field's value has one entry per owned edge, each in client form from the owner with the edge's id and revision, with no id twice. |
| CollectionRelationships.CollectionRelationshipProvider.ClearNotIn | openidm-core/src/main/java/org/forgerock/openidm/managed/CollectionRelationshipProvider.java:278-314 | A refused read of the field fails the call with that refusal and deletes nothing. Otherwise it deletes every field edge not in `keep`, except those the store refuses to delete; nothing else changes. The call then fails exactly when some field edge outside `keep` was refused, and its error is that refusal. |
| CollectionRelationships.CollectionRelationshipProvider.Clear | openidm-core/src/main/java/org/forgerock/openidm/managed/CollectionRelationshipProvider.java:318-352 | A refused read of the field fails the call with that refusal and deletes nothing. Otherwise it deletes every edge of the field except those the store refuses; nothing else changes. The call then fails exactly when some delete was refused, with that refusal as the error. |
| CollectionRelationships.CollectionRelationshipProvider.UpdateAll | openidm-core/src/main/java/org/forgerock/openidm/managed/CollectionRelationshipProvider.java:240-244 | One update per item, in order, each issued even after a failure. The store becomes `ApplyUpdates` of the items the store accepts. No error exactly when every named edge exists and every item is accepted; then the results are `Revised`: each item with the revision the store returned for its update (see `RevisedAt`). An error is not found or the refusal of one of the items. |
| CollectionRelationships.CollectionRelationshipProvider.CreateAll | openidm-core/src/main/java/org/forgerock/openidm/managed/CollectionRelationshipProvider.java:246-250 | One create per item, in order, each issued even after a failure. Each accepted item is written under a distinct id never issued before; the store becomes `WithCreated` of the accepted items. No error exactly when every item is accepted; an error is the refusal of one item. The results are the accepted items under their new ids, at revision 0, as the store returns a created record. |
| CollectionRelationships.CollectionRelationshipProvider.SetRelationshipValue | openidm-core/src/main/java/org/forgerock/openidm/managed/CollectionRelationshipProvider.java:188-268 | A null or empty input returns an empty array; with `clearExisting` the field is cleared except refused deletes. Otherwise, with `clearExisting`, the field is read and the edges not kept are deleted first. A refused read fails the call with that refusal and changes nothing. A refused delete fails the call before any update or create, leaving the store pruned. Then every update and every create is issued. The store becomes the accepted updates, then the accepted creates under fresh ids, applied to the pruned store. The call succeeds exactly when every update found its edge and every update and create was accepted. It then returns the updated items, each with the revision the store gave it, followed by the created items under their new ids at revision 0, one result per input item. A failure is not found or the refusal of one of the items. |
| CollectionRelationships.Identities | openidm-core/src/main/java/org/forgerock/openidm/managed/CollectionRelationshipProvider.java:515-520 | The old references are exactly the identity hashes of the old items. |
| CollectionRelationships.IdentitySet | openidm-core/src/main/java/org/forgerock/openidm/managed/CollectionRelationshipProvider.java:515-520 | The loop collects exactly `Identities` of the old value. |
| CollectionRelationships.NeedsValidation | openidm-core/src/main/java/org/forgerock/openidm/managed/CollectionRelationshipProvider.java:521-527 | An item is pending validation exactly when it is a new item whose hash is not an old one. |
| CollectionRelationships.ValidateEach | openidm-core/src/main/java/org/forgerock/openidm/managed/CollectionRelationshipProvider.java:521-527 | The validator sees a prefix of the pending items, in order, and stops at the first one it rejects. It has seen all of them exactly when none is rejected. |
| CollectionRelationships.ValidateRelationshipField | openidm-core/src/main/java/org/forgerock/openidm/managed/CollectionRelationshipProvider.java:497-528 | Duplicates in the request are a bad request before any validation. Otherwise the call passes exactly when every pending item is validated and accepted. A failure is a bad request whose last validated item was rejected. |
| CollectionRelationships.ExistingItemsNotRevalidated | openidm-core/src/main/java/org/forgerock/openidm/managed/CollectionRelationshipProvider.java:511-527 | No item identical (by hash) to an old item is handed to the validator. |
| EdgeStores.Refused | openidm-core/src/main/java/org/forgerock/openidm/managed/CollectionRelationshipProvider.java:286-296 | The refused records are exactly the stored records whose delete the store refuses. |
| EdgeStores.AfterUpdate | openidm-core/src/main/java/org/forgerock/openidm/managed/CollectionRelationshipProvider.java:240-244 | An update never adds or removes a record and never touches a record other than the one it names. |
| EdgeStores.EdgeStore.Create | openidm-core/src/main/java/org/forgerock/openidm/managed/CollectionRelationshipProvider.java:246-250 | A refused record fails with the refusal and changes nothing. Otherwise the record is stored under an id never issued before, which is returned. |
| EdgeStores.EdgeStore.Update | openidm-core/src/main/java/org/forgerock/openidm/managed/CollectionRelationshipProvider.java:240-244 | A missing id is not found and a refused record fails with the refusal; neither changes anything. Otherwise the record is replaced at the next revision and returned. |
| EdgeStores.EdgeStore.Delete | openidm-core/src/main/java/org/forgerock/openidm/managed/CollectionRelationshipProvider.java:286-296 | A missing id is not found and a refused delete fails with the refusal; neither changes anything. Otherwise exactly that record is removed and returned. |
| EdgeStores.EdgeStore.Query | openidm-core/src/main/java/org/forgerock/openidm/managed/CollectionRelationshipProvider.java:160-171 | A refused query fails with the refusal. Otherwise it returns each stored id whose record the filter selects, exactly once. |
| JavaStrings.Trim | openidm-config/src/main/java/org/forgerock/openidm/config/manage/ConfigObjectService.java:453-462 | `trim` is empty exactly when every character is at or below U+0020. Otherwise it starts and ends on a kept character. |
| JavaStrings.TrimIsSlice | openidm-config/src/main/java/org/forgerock/openidm/config/manage/ConfigObjectService.java:453-462 | `trim` is the slice between the first and after the last character above U+0020: given cut points with only such characters outside and kept characters at both ends, `trim` is exactly that slice. |
| JavaStrings.TrimOfTrimmed | openidm-config/src/main/java/org/forgerock/openidm/config/manage/ConfigObjectService.java:453-462 | Trimming a name that is already trimmed leaves it unchanged. |
| JavaStrings.RemoveAll | openidm-config/src/main/java/org/forgerock/openidm/config/manage/ConfigObjectService.java:443-445 | `replace("/", "")` leaves no `/` and keeps exactly the other characters. |
| JavaStrings.RemoveAllLength | openidm-config/src/main/java/org/forgerock/openidm/config/manage/ConfigObjectService.java:443-445 | The result is shorter than the input by the number of `/` it held. |
| JavaStrings.RemoveAllAppend | openidm-config/src/main/java/org/forgerock/openidm/config/manage/ConfigObjectService.java:443-445 | Removing from a concatenation is concatenating the removals, so the other characters stay in order. |
| JavaStrings.SplitAllCount | openidm-config/src/main/java/org/forgerock/openidm/config/manage/ConfigObjectService.java:446 | Splitting gives one more piece than there are separators. |
| JavaStrings.JoinSplitAll | openidm-config/src/main/java/org/forgerock/openidm/config/manage/ConfigObjectService.java:446 | Joining the pieces with the separator gives the string back. |
| JavaStrings.SplitAllJoin | openidm-config/src/main/java/org/forgerock/openidm/config/manage/ConfigObjectService.java:446 | Separator-free pieces are recovered by splitting their join. |
| JavaStrings.DropTrailingEmpty | openidm-config/src/main/java/org/forgerock/openidm/config/manage/ConfigObjectService.java:446 | The result is the longest prefix that does not end in an empty piece. |
| JavaStrings.JavaSplit | openidm-config/src/main/java/org/forgerock/openidm/config/manage/ConfigObjectService.java:446-447 | Without the separator the result is the whole string. Otherwise it is a prefix of all the pieces that does not end in an empty piece, and every piece it drops is empty; so it can be empty. |
| JavaStrings.JavaSplitPair | openidm-config/src/main/java/org/forgerock/openidm/config/manage/ConfigObjectService.java:446 | `p/a` with a non-empty `a` splits into exactly `[p, a]`. |
| JavaStrings.EqualsIgnoreCaseLower | openidm-config/src/main/java/org/forgerock/openidm/config/manage/ConfigObjectService.java:227 | Against a lower-case ASCII string, `equalsIgnoreCase` holds exactly when the lengths agree and each character is the same letter in either case or, for `i`, `s` and `k`, one of the non-ASCII letters that fold to it. |
| JavaStrings.EqualsIgnoreCaseIsEquivalence | openidm-config/src/main/java/org/forgerock/openidm/config/manage/ConfigObjectService.java:227 | Comparing ignoring case is reflexive, symmetric and transitive, and pairs a lower-case ASCII letter with its upper-case form. |
| ParsedIds.Clauses | openidm-config/src/main/java/org/forgerock/openidm/config/manage/ConfigObjectService.java:443-446 | The clauses are `/`-free. |
| ParsedIds.Parse | openidm-config/src/main/java/org/forgerock/openidm/config/manage/ConfigObjectService.java:442-468 | A parse fails with a bad request exactly when there are more than two clauses or the trimmed first clause is empty. Otherwise it yields a factory id exactly when there are two clauses and the trimmed alias is not blank, holding the trimmed factory pid and alias; else a pid, the trimmed first clause. Every name it holds is trimmed, non-empty and `/`-free. |
| ParsedIds.NewParsedId | openidm-config/src/main/java/org/forgerock/openidm/config/manage/ConfigObjectService.java:442-474 | The constructor, with its fall-through switch, computes exactly `Parse`. |
| ParsedIds.NameIsFirstClause | openidm-config/src/main/java/org/forgerock/openidm/config/manage/ConfigObjectService.java:497-503 | `getPidOrFactoryPid` is the qualified, trimmed first clause. |
| ParsedIds.ParseFormat | openidm-config/src/main/java/org/forgerock/openidm/config/manage/ConfigObjectService.java:442-468 | Parsing inverts the list-mode form `factoryPid/alias` or `pid` of every well-formed id. |
| ParsedIds.ParseCanonical | openidm-config/src/main/java/org/forgerock/openidm/config/manage/ConfigObjectService.java:442-468 | Whatever parses, parses to the same id from its list-mode form. |
| ParsedIds.LeadingSlashIsOnePid | openidm-config/src/main/java/org/forgerock/openidm/config/manage/ConfigObjectService.java:443-445 | An id starting with `/` loses every `/` and is a plain pid (or a bad request when blank), never a factory id. |
| ParsedIds.ThreeClausesRejected | openidm-config/src/main/java/org/forgerock/openidm/config/manage/ConfigObjectService.java:446-449 | `a/b/c` is a bad request. |
| ParsedIds.BlankAliasIsPid | openidm-config/src/main/java/org/forgerock/openidm/config/manage/ConfigObjectService.java:450-466 | `pid/<blank>` is the service configuration `pid`: the case falls through with no alias. |
| ParsedIds.ToStringDiffersForFactories | openidm-config/src/main/java/org/forgerock/openidm/config/manage/ConfigObjectService.java:505-511 | `toString` equals the list-mode id for a pid and differs from it for a factory id (`-` instead of `/`). |
| ConfigAdmins.Listed | openidm-config/src/main/java/org/forgerock/openidm/config/manage/ConfigObjectService.java:402 | Listing returns exactly the configurations that have properties and match the filter. |
| ConfigAdmins.FirstMatch | openidm-config/src/main/java/org/forgerock/openidm/config/manage/ConfigObjectService.java:402-408 | The first listed configuration, when there is one, is a listed match. Nothing is returned exactly when nothing matches. |
| ConfigAdmins.WithProperties | openidm-config/src/main/java/org/forgerock/openidm/config/manage/ConfigObjectService.java:245 | Updating replaces the properties of the configurations with that pid and changes nothing else. |
| ConfigAdmins.WithoutKeepsOthers | openidm-config/src/main/java/org/forgerock/openidm/config/manage/ConfigObjectService.java:356 | Deleting removes the configuration with that pid and keeps every other one. |
| ConfigAdmins.ConfigurationAdmin.ListConfigurations | openidm-config/src/main/java/org/forgerock/openidm/config/manage/ConfigObjectService.java:139 | Without a filter, lists every configuration with properties. An invalid filter gives no listing. Otherwise the loop returns exactly `Listed` for the parsed filter. |
| ConfigAdmins.ConfigurationAdmin.GetConfiguration | openidm-config/src/main/java/org/forgerock/openidm/config/manage/ConfigObjectService.java:233 | Returns the configuration with the pid, or appends a new one with no properties when there is none. |
| ConfigAdmins.ConfigurationAdmin.CreateFactoryConfiguration | openidm-config/src/main/java/org/forgerock/openidm/config/manage/ConfigObjectService.java:230 | Appends a new instance of the factory, with no properties, under a pid no configuration has. |
| ConfigAdmins.ConfigurationAdmin.Update | openidm-config/src/main/java/org/forgerock/openidm/config/manage/ConfigObjectService.java:308 | The store becomes `WithProperties`. |
| ConfigAdmins.ConfigurationAdmin.Delete | openidm-config/src/main/java/org/forgerock/openidm/config/manage/ConfigObjectService.java:356 | The store becomes `Without`, and pids stay distinct. |
| ConfigAdmins.PlainTokens | openidm-config/src/main/java/org/forgerock/openidm/config/manage/ConfigObjectService.java:393-400 | A value holding none of `\`, `*`, `(` and `)` parses to itself, character by character. |
| ConfigAdmins.GlobLiteral | openidm-config/src/main/java/org/forgerock/openidm/config/manage/ConfigObjectService.java:393-400 | A pattern without wildcards matches exactly the string it spells. |
| ConfigAdmins.ValueMatchesItself | openidm-config/src/main/java/org/forgerock/openidm/config/manage/ConfigObjectService.java:393-400 | A value holding none of `\`, `(` and `)` parses, and its pattern matches the value itself, wildcards included. |
| ConfigAdmins.PlainLookupIsExact | openidm-config/src/main/java/org/forgerock/openidm/config/manage/ConfigObjectService.java:393-400 | For names without `\`, `*`, `(` and `)`, the filter is valid and matches exactly the configurations carrying those names. |
| ConfigAdmins.LookupMatchesItsNames | openidm-config/src/main/java/org/forgerock/openidm/config/manage/ConfigObjectService.java:393-400 | For non-empty names without `\`, `(` and `)`, the filter is valid and matches every configuration carrying those names. |
| ConfigAdmins.WildcardPidMatchesOthers | openidm-config/src/main/java/org/forgerock/openidm/config/manage/ConfigObjectService.java:398-399 | The pid `x.a*` is a pattern: its lookup matches the configuration `x.a1`. |
| ConfigAdmins.SpecialCharactersInNames | openidm-config/src/main/java/org/forgerock/openidm/config/manage/ConfigObjectService.java:398-399 | The pids `a(b`, `a)b` and `a\` make the filter invalid. The pid `a\b` reads as `ab` and does not match the configuration `a\b`. |
| ConfigObjectServices.LookupFor | openidm-config/src/main/java/org/forgerock/openidm/config/manage/ConfigObjectService.java:393-400 | A factory id is looked up by qualified factory pid and alias. Any other id is looked up by qualified pid. |
| ConfigObjectServices.EntryOf | openidm-config/src/main/java/org/forgerock/openidm/config/manage/ConfigObjectService.java:145-162 | A list entry's `_id` is `factoryPid/alias` when both are present, otherwise the unqualified pid. It also carries the unqualified pid and factory pid. |
| ConfigObjectServices.ListedFactoryIdReadsBack | openidm-config/src/main/java/org/forgerock/openidm/config/manage/ConfigObjectService.java:150-158 | A listed factory instance whose names hold none of `\`, `(` and `)` has an id that parses to its factory pid and alias; the lookup for it is valid and matches the instance. |
| ConfigObjectServices.ListedPidReadsBack | openidm-config/src/main/java/org/forgerock/openidm/config/manage/ConfigObjectService.java:150-158 | A configuration listed by a pid holding none of `\`, `(` and `)` has an id that parses to that pid; the lookup for it is valid and matches the configuration. |
| ConfigObjectServices.LookupResult | openidm-config/src/main/java/org/forgerock/openidm/config/manage/ConfigObjectService.java:393-408 | The lookup fails with an internal error exactly when its filter is invalid. Otherwise it returns a listed configuration with properties that the filter selects, or nothing exactly when the filter selects none. |
| ConfigObjectServices.FindExisting | openidm-config/src/main/java/org/forgerock/openidm/config/manage/ConfigObjectService.java:390-408 | A malformed id is a bad request. Any other failure is an internal error. A configuration found has properties and is in the store. |
| ConfigObjectServices.PlainIdLookup | openidm-config/src/main/java/org/forgerock/openidm/config/manage/ConfigObjectService.java:390-408 | For ids whose qualified names hold none of `\`, `*`, `(` and `)`, the lookup succeeds. It finds a configuration carrying those names, and nothing exactly when no configuration with properties carries them. |
| ConfigObjectServices.RouterPidSpellings | openidm-config/src/main/java/org/forgerock/openidm/config/manage/ConfigObjectService.java:227-228 | A factory pid is refused as the router's exactly when it spells the router pid in any mix of cases, with `i`, `s` or `k` also written as a non-ASCII letter folding to it. |
| ConfigObjectServices.ExistingCheck | openidm-config/src/main/java/org/forgerock/openidm/config/manage/ConfigObjectService.java:303-306 | Passes exactly when a configuration was found and has properties. Otherwise the failure is not found. |
| ConfigObjectServices.DeleteCheckAsWritten | openidm-config/src/main/java/org/forgerock/openidm/config/manage/ConfigObjectService.java:350-362 | When nothing was found, delete fails as an internal error. |
| ConfigObjectServices.DeleteOfMissingIsInternalError | openidm-config/src/main/java/org/forgerock/openidm/config/manage/ConfigObjectService.java:350-362 | A missing configuration gives an internal error on delete but not found on update. On every found configuration the two checks agree. |
| ConfigObjectServices.CreatedIsFound | openidm-config/src/main/java/org/forgerock/openidm/config/manage/ConfigObjectService.java:240-245 | A configuration that has just received properties and carries the names of a lookup whose values hold none of `\`, `(` and `)` is found by that lookup. |
| ConfigObjectServices.ConfigObjectService.FindExistingConfiguration | openidm-config/src/main/java/org/forgerock/openidm/config/manage/ConfigObjectService.java:390-409 | The result is `FindExisting`: a malformed id is a bad request; an invalid filter is an internal error; otherwise the first listed configuration the filter selects, or none. |
| ConfigObjectServices.ConfigObjectService.Read | openidm-config/src/main/java/org/forgerock/openidm/config/manage/ConfigObjectService.java:131-186 | Without an id, lists one entry per listed configuration, in order. With an id: a malformed id is a bad request, an invalid filter an internal error, no match not found; otherwise the result is the enhanced properties of the first match. |
| ConfigObjectServices.ConfigObjectService.Create | openidm-config/src/main/java/org/forgerock/openidm/config/manage/ConfigObjectService.java:217-257 | A null or malformed id is a bad request. A factory id of the router, ignoring case, is a bad request. Any other factory id appends a fresh instance whose properties are the encrypted content plus the alias. A pid whose configuration has properties is a precondition failure. Otherwise that configuration, or a new one, gets the encrypted content. After a pass, when the id's names hold none of `\`, `(` and `)`, the id's lookup finds a configuration. |
| ConfigObjectServices.ConfigObjectService.CreateFactoryInstance | openidm-config/src/main/java/org/forgerock/openidm/config/manage/ConfigObjectService.java:225-245 | The factory branch of create. |
| ConfigObjectServices.ConfigObjectService.CreateServiceConfiguration | openidm-config/src/main/java/org/forgerock/openidm/config/manage/ConfigObjectService.java:231-245 | The pid branch of create. |
| ConfigObjectServices.ConfigObjectService.Update | openidm-config/src/main/java/org/forgerock/openidm/config/manage/ConfigObjectService.java:294-316 | A null or malformed id is a bad request. An invalid filter is an internal error. A missing configuration, or one without properties, is not found. None of these changes anything. Otherwise the found configuration's properties become the new content encrypted over the old properties. |
| ConfigObjectServices.ConfigObjectService.Delete | openidm-config/src/main/java/org/forgerock/openidm/config/manage/ConfigObjectService.java:344-364 | A null or malformed id is a bad request. An invalid filter is an internal error. A missing configuration, or one without properties, is not found. None of these changes anything. Otherwise exactly that configuration is removed. |
| ConfigObjectServices.ConfigObjectService.HandlePatch | openidm-config/src/main/java/org/forgerock/openidm/config/manage/ConfigObjectService.java:366-371 | Always not supported. |
| ConfigObjectServices.ConfigObjectService.HandleQuery | openidm-config/src/main/java/org/forgerock/openidm/config/manage/ConfigObjectService.java:373-378 | Always not supported. |
| MySqlExceptionHandlers.IsErrorType | openidm-repo-jdbc/src/main/java/org/forgerock/openidm/repo/jdbc/impl/vendor/MySQLExceptionHandler.java:39-49 | Any type other than duplicate key gets the X/Open answer. Duplicate key holds exactly when X/Open says so and the vendor code is 1062. |
| MySqlExceptionHandlers.OnlyNarrows | openidm-repo-jdbc/src/main/java/org/forgerock/openidm/repo/jdbc/impl/vendor/MySQLExceptionHandler.java:40-48 | The handler never reports a type that X/Open does not. |
| MySqlExceptionHandlers.OtherConstraintViolationsAreNotDuplicates | openidm-repo-jdbc/src/main/java/org/forgerock/openidm/repo/jdbc/impl/vendor/MySQLExceptionHandler.java:42-46 | A 23000 constraint violation with a vendor code other than 1062 is not a duplicate key. |

## Left out

- Promise composition (`when`, `thenAsync`, `getOrThrowUninterruptibly`) is modelled by calls issued one after another.
  - Every delete, update and create is still issued when an earlier one fails, and `when` fails the combined call when any of them failed.
  - Nothing is rolled back.
  - Deletes finish before any update, as the code's blocking `get` ensures. A failed delete is rethrown there and turned into the call's failure before any update or create.
  - `clear` in the empty-input branch is not awaited by the code. The model applies it before returning, and its failure is ignored.
- CollectionRelationships.CollectionRelationshipProvider.SetRelationshipValue: a failure's error is stated as not found or the refusal of one of the items, not as the one that failed first in time; the order in which concurrent promises fail is not modelled.
- CollectionRelationships.CollectionRelationshipProvider.UpdateAll: the same; its error is the first failure in issue order, but the contract only says it is not found or one item's refusal.
- The store's own failures (a write, a delete or a query it rejects, for any reason) are three functions: `refuseWrite` and `refuseDelete` of the record, `refuseQuery` of the filter. A store whose verdict depends on anything else, or changes between calls, is not modelled.
- CollectionRelationships.EdgeOf: the `_rev` an item carries is not sent with the write; whether `updateInstance` checks it against the stored revision is not part of this model, so an update never fails on a revision mismatch.
- CollectionRelationships.EdgeOf: the record written for an item has a fixed shape: forward from the owner, with no second property name and the item's properties. `createInstance` and `updateInstance`, which build the record, are not part of this model.
- Router and context plumbing are not modelled: the router, `getManagedObjectId`, `ManagedObjectContext`, the `Publisher` timing calls and activity logging.
- In `queryCollection`, the model records which store query is issued and the query-all-ids fast path, but not what the query returns.
  - Not modelled: field expansion, response formatting, the `ManagedObjectContext` early return, and the activity log.
  - Sort keys and paging are forwarded as one opaque value.
- The relationship repository is a class standing in for the store's create, update, delete and query calls.
  - Its ids are strings of increasing length.
  - The store's native relationship query is modelled as returning what the owner filter selects.
- `relationships.expect(List)`: the input is typed as a sequence of relationship items, so a non-list value cannot occur.
- `RelationshipValidator`, `RelationshipEqualityHash` and the in-request duplicate check are not part of this model. They are parameters; a rejection by the validator or the duplicate check is a bad request.
- Names the source takes from constants not shown here are spelled as in the model. These are the relationship query id and its parameter names, and the alias property key.
- Outside the relationship provider, these are not part of this model. They are parameters, or the small class standing in for the configuration store:
  - OSGi `ConfigurationAdmin`, `ConfigCrypto`, `JSONEnhancedConfig` and the pid qualifier and unqualifier;
  - `activate`/`deactivate`;
  - the `handle*` wrappers, apart from patch and query;
  - `handleAction`, whose body is empty.
- The store returns a listed configuration only when it has properties.
- A factory instance's fresh pid is modelled as the factory pid, a dot and a run of zeros as long as the longest pid in use, so the new pid is longer than every pid in use.
- The generic `catch (Exception)` branches that turn an unexpected failure of a collaborator into an internal server error are not modelled. Examples are encryption without meta-data and an I/O error. Three cases are modelled: an invalid lookup filter, which is an internal error; a relationship query whose client filter mentions the root pointer, also an internal error; and the delete of a missing configuration (see Findings).
- ConfigAdmins.CreateFilter: any unescaped parenthesis makes the filter invalid. In a factory lookup, a factory pid such as `a)(x=y` would instead close its term and add a term of its own, and the filter would parse; that case is modelled as invalid.
- ConfigAdmins.CreateFilter: an empty value is taken as invalid. Parsed names are never empty, so only a qualifier that returns an empty pid reaches this case.
- Matching follows the OSGi substring rule for `*` on strings. Matching of non-string property values, approximate matching and case-insensitive attribute names are not modelled.
- JavaStrings.EqualsIgnoreCase: a character folds to its ASCII lower-case letter, and `İ`, `ı`, `ſ` and the Kelvin sign fold to `i`, `i`, `s` and `k`. Against an ASCII string, such as the router pid, this is exact. Other non-ASCII pairs that Java's per-character case mapping also equates are not folded.
- `XOpenErrorMapping` is a parameter. Error types other than duplicate key are one opaque constructor.
- The user interface scripts, the build file, the workflow command wrapper and the mapped-config resolver interface are not part of this model.
- `_ref` follows the code, which maps it to `firstId` when the relationship is reversed and to `secondId` otherwise. It does not follow the comment above the visitor, which says `secondId` always.
- A factory create never hits the precondition check: the instance is always fresh, so a second create with the same alias makes a second instance.
- ConfigObjectServices.ConfigObjectService.Delete uses the corrected existence check. The check as written is `DeleteCheckAsWritten`.

## Findings

| source | as written | input that shows it | evidently intended | confidence | as-written member | corrected member |
|---|---|---|---|---|---|---|
| openidm-config/src/main/java/org/forgerock/openidm/config/manage/ConfigObjectService.java:350-355 | `delete` calls `getProperties()` on the result of `findExistingConfiguration` without a null check. When no configuration matches, this throws a NullPointerException, which the generic catch turns into an internal server error. | `delete("nosuch", null)` on a store with no configuration `nosuch` | Not found, as `update` reports at :303-305 and as the method's documentation promises | not executed | ConfigObjectServices.DeleteCheckAsWritten (with ConfigObjectServices.DeleteOfMissingIsInternalError) | ConfigObjectServices.ExistingCheck (used by ConfigObjectServices.ConfigObjectService.Delete) |
