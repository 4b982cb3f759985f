/**
 * Edge records of the relationship store, the two ways of looking at one
 * (as stored, and as the client sees it from one endpoint), the client-to-store
 * pointer rewrite and the store filter / store query built for a field query.
 */
module RelationshipFilters {
  import opened Wrappers
  import opened QueryFilters
  import opened ResourceErrors

  // Client-side pointers.
  const FieldReference: Pointer := ["_ref"]
  const RefProperties := "_refProperties"
  const FieldId: Pointer := [RefProperties, "_id"]
  const FieldRev: Pointer := [RefProperties, "_rev"]

  // Store-side (edge record) pointers.
  const FieldContentId: Pointer := ["_id"]
  const FieldContentRevision: Pointer := ["_rev"]
  const RepoFirstId := "firstId"
  const RepoFirstPropertyName := "firstPropertyName"
  const RepoSecondId := "secondId"
  const RepoSecondPropertyName := "secondPropertyName"
  const RepoProperties := "properties"

  // Query ids and the parameters of the store-native relationship query.
  const QueryAllIds := "query-all-ids"
  const QueryAll := "query-all"
  const RelationshipQueryId := "find-relationships-for-resource"
  const QueryFieldResourcePath := "fullResourceId"
  const QueryFieldFieldName := "resourceFieldName"

  /** The schema of a relationship field of a managed object. */
  datatype SchemaField = SchemaField(name: string, isReverseRelationship: bool)

  /** A stored edge; its id is the key under which the store holds it. */
  datatype Edge = Edge(
    rev: nat,
    firstId: string,
    firstPropertyName: string,
    secondId: string,
    secondPropertyName: Option<string>,
    properties: map<string, Value>)

  /** The value the stored record with id `id` holds at the store pointer `p`. */
  function StoreValue(id: string, e: Edge, p: Pointer): Option<Value>
  {
    if p == FieldContentId then Some(Str(id))
    else if p == FieldContentRevision then Some(Num(e.rev))
    else if p == [RepoFirstId] then Some(Str(e.firstId))
    else if p == [RepoFirstPropertyName] then Some(Str(e.firstPropertyName))
    else if p == [RepoSecondId] then Some(Str(e.secondId))
    else if p == [RepoSecondPropertyName] then
      (if e.secondPropertyName.Some? then Some(Str(e.secondPropertyName.value)) else None)
    else if |p| == 2 && p[0] == RepoProperties && p[1] in e.properties then Some(e.properties[p[1]])
    else None
  }

  /**
   * The value the client-shaped object `{_ref, _refProperties: {_id, _rev, ...}}`
   * holds at the client pointer `p`, seen from the forward endpoint
   * (`isReverse` false: `_ref` is the second endpoint) or from the reverse one
   * (`_ref` is the first endpoint). Pointers outside that shape read the stored
   * record directly.
   */
  function ClientValue(id: string, e: Edge, isReverse: bool, p: Pointer): Option<Value>
  {
    if p == FieldReference then Some(Str(if isReverse then e.firstId else e.secondId))
    else if p == FieldId then Some(Str(id))
    else if p == FieldRev then Some(Num(e.rev))
    else if |p| > 0 && p[0] == RefProperties then
      (if |p| == 2 && p[1] in e.properties then Some(e.properties[p[1]]) else None)
    else StoreValue(id, e, p)
  }

  function StoreLookup(id: string, e: Edge): Lookup
  {
    p => StoreValue(id, e, p)
  }

  function ClientLookup(id: string, e: Edge, isReverse: bool): Lookup
  {
    p => ClientValue(id, e, isReverse, p)
  }

  /**
   * The field transform of the rewriting visitor: client pointer to store
   * pointer. It reads the first token of any pointer other than the three
   * fixed ones, so it has no value on the empty (root) pointer.
   */
  function Transform(isReverse: bool, field: Pointer): Pointer
    requires |field| > 0
  {
    if field == FieldId then FieldContentId
    else if field == FieldRev then FieldContentRevision
    else if field == FieldReference then [if isReverse then RepoFirstId else RepoSecondId]
    else if field[0] == RefProperties then [RepoProperties] + field[1..]
    else field
  }

  function TransformFor(isReverse: bool): Pointer --> Pointer
  {
    p requires |p| > 0 => Transform(isReverse, p)
  }

  /**
   * The client filter rewritten into the edge schema. A filter on the root
   * pointer makes the transform fail, and the query handler turns that into
   * an internal error.
   */
  function AsRelationshipQueryFilter(isReverse: bool, f: Filter): (r: Result<Filter, ResourceError>)
    ensures r.Failure? <==> Mentions(f, [])
    ensures r.Failure? ==> r.error == InternalServerError
  {
    if Mentions(f, []) then Failure(InternalServerError) else Success(MapFields(f, TransformFor(isReverse)))
  }

  /** The rule of each pointer shape, in the order the transform checks them. */
  lemma TransformRules(isReverse: bool, field: Pointer)
    requires |field| > 0
    ensures field == FieldId ==> Transform(isReverse, field) == ["_id"]
    ensures field == FieldRev ==> Transform(isReverse, field) == ["_rev"]
    ensures field == FieldReference ==>
      Transform(isReverse, field) == (if isReverse then ["firstId"] else ["secondId"])
    ensures field[0] == "_refProperties" && field != FieldId && field != FieldRev ==>
      Transform(isReverse, field) == ["properties"] + field[1..]
    ensures field[0] == "_refProperties" ==>
      Transform(isReverse, field) != ["properties", "_id"] && Transform(isReverse, field) != ["properties", "_rev"]
    ensures field != FieldReference && field[0] != "_refProperties" ==>
      Transform(isReverse, field) == field
  {
    if field[0] == RefProperties && field != FieldId && field != FieldRev {
      var t := Transform(isReverse, field);
      assert t == [RepoProperties] + field[1..];
      assert field == [field[0]] + field[1..];
      assert field[1..] != ["_id"] && field[1..] != ["_rev"];
      assert t[1..] == field[1..];
    }
  }

  /** Reading a rewritten pointer from the stored record gives what the client object holds at the original one. */
  lemma {:induction false} TransformSound(id: string, e: Edge, isReverse: bool, p: Pointer)
    requires |p| > 0
    ensures StoreValue(id, e, Transform(isReverse, p)) == ClientValue(id, e, isReverse, p)
  {
    if p == FieldId || p == FieldRev || p == FieldReference {
    } else if p[0] == RefProperties {
      var q := [RepoProperties] + p[1..];
      assert Transform(isReverse, p) == q;
      assert q[0] == RepoProperties;
      assert q != FieldContentId && q != FieldContentRevision && q != [RepoFirstId] && q != [RepoFirstPropertyName];
      assert q != [RepoSecondId] && q != [RepoSecondPropertyName];
      if |p| == 2 {
        assert q[1] == p[1];
      }
    }
  }

  /**
   * The rewrite fails exactly on a client filter that mentions the root
   * pointer; otherwise the filter rewritten for one direction selects exactly
   * the edges whose client view from that direction satisfies it.
   */
  lemma {:induction false} RewriteSound(id: string, e: Edge, isReverse: bool, f: Filter, holds: Relation)
    ensures AsRelationshipQueryFilter(isReverse, f).Success? <==> !Mentions(f, [])
    ensures AsRelationshipQueryFilter(isReverse, f).Success? ==>
      Eval(AsRelationshipQueryFilter(isReverse, f).value, StoreLookup(id, e), holds)
        == Eval(f, ClientLookup(id, e, isReverse), holds)
  {
    if !Mentions(f, []) {
      var t := TransformFor(isReverse);
      forall p | Mentions(f, p) ensures t.requires(p) && ClientLookup(id, e, isReverse)(p) == StoreLookup(id, e)(t(p)) {
        TransformSound(id, e, isReverse, p);
      }
      EvalMapFields(f, t, StoreLookup(id, e), ClientLookup(id, e, isReverse), holds);
    }
  }

  /** `firstId == owner ∧ firstPropertyName == field`, or the same on the second endpoint. */
  function EndpointFilter(first: bool, owner: string, field: SchemaField): Filter
  {
    if first then
      And([Comparison(Equal, [RepoFirstId], Str(owner)), Comparison(Equal, [RepoFirstPropertyName], Str(field.name))])
    else
      And([Comparison(Equal, [RepoSecondId], Str(owner)), Comparison(Equal, [RepoSecondPropertyName], Str(field.name))])
  }

  /** The client filter, if any, can be rewritten: it mentions no root pointer. */
  predicate Rewritable(clientFilter: Option<Filter>)
  {
    clientFilter.None? || !Mentions(clientFilter.value, [])
  }

  /** The store filter of a filtered (or query-all) field query. */
  function StoreFilter(field: SchemaField, owner: string, clientFilter: Option<Filter>): Filter
    requires Rewritable(clientFilter)
  {
    if field.isReverseRelationship then
      if clientFilter.Some? then
        Or([And([EndpointFilter(true, owner, field), AsRelationshipQueryFilter(false, clientFilter.value).value]),
            And([EndpointFilter(false, owner, field), AsRelationshipQueryFilter(true, clientFilter.value).value])])
      else
        Or([EndpointFilter(true, owner, field), EndpointFilter(false, owner, field)])
    else
      if clientFilter.Some? then
        And([EndpointFilter(true, owner, field),
             AsRelationshipQueryFilter(field.isReverseRelationship, clientFilter.value).value])
      else
        EndpointFilter(true, owner, field)
  }

  /** The edge starts at `owner` through `field`. */
  predicate ForwardOwned(e: Edge, owner: string, field: SchemaField)
  {
    e.firstId == owner && e.firstPropertyName == field.name
  }

  /** The edge ends at `owner` through `field`. */
  predicate ReverseOwned(e: Edge, owner: string, field: SchemaField)
  {
    e.secondId == owner && e.secondPropertyName == Some(field.name)
  }

  /** The edge belongs to `field` of `owner`: forward always, reverse only for a reverse field. */
  predicate Owns(e: Edge, owner: string, field: SchemaField)
  {
    ForwardOwned(e, owner, field) || (field.isReverseRelationship && ReverseOwned(e, owner, field))
  }

  /** The client filter (if any) holds of the edge seen from the given direction. */
  predicate ClientMatches(clientFilter: Option<Filter>, id: string, e: Edge, isReverse: bool, holds: Relation)
  {
    clientFilter.None? || Eval(clientFilter.value, ClientLookup(id, e, isReverse), holds)
  }

  lemma EndpointFilterSelects(first: bool, owner: string, field: SchemaField, id: string, e: Edge, holds: Relation)
    ensures Eval(EndpointFilter(first, owner, field), StoreLookup(id, e), holds)
        == (if first then ForwardOwned(e, owner, field) else ReverseOwned(e, owner, field))
  {
    var subs := EndpointFilter(first, owner, field).subs;
    assert Eval(subs[0], StoreLookup(id, e), holds) && Eval(subs[1], StoreLookup(id, e), holds)
       <==> Eval(EndpointFilter(first, owner, field), StoreLookup(id, e), holds);
  }

  /**
   * The store filter selects exactly the edges of `owner`'s `field` whose client
   * view satisfies the client filter: forward edges seen forward, and, for a
   * reverse field, also reverse edges seen from the reverse side.
   */
  lemma {:induction false} StoreFilterSelects(field: SchemaField, owner: string, clientFilter: Option<Filter>,
                                              id: string, e: Edge, holds: Relation)
    requires Rewritable(clientFilter)
    ensures Eval(StoreFilter(field, owner, clientFilter), StoreLookup(id, e), holds) <==>
      ((ForwardOwned(e, owner, field) && ClientMatches(clientFilter, id, e, false, holds))
       || (field.isReverseRelationship && ReverseOwned(e, owner, field)
           && ClientMatches(clientFilter, id, e, true, holds)))
  {
    var lookup := StoreLookup(id, e);
    var fwd := EndpointFilter(true, owner, field);
    var rev := EndpointFilter(false, owner, field);
    EndpointFilterSelects(true, owner, field, id, e, holds);
    EndpointFilterSelects(false, owner, field, id, e, holds);
    if clientFilter.Some? {
      var cf := clientFilter.value;
      var a := AsRelationshipQueryFilter(false, cf).value;
      var b := AsRelationshipQueryFilter(true, cf).value;
      RewriteSound(id, e, false, cf, holds);
      RewriteSound(id, e, true, cf, holds);
      EvalAndPair(fwd, a, lookup, holds);
      EvalAndPair(rev, b, lookup, holds);
      EvalOrPair(And([fwd, a]), And([rev, b]), lookup, holds);
    } else {
      EvalOrPair(fwd, rev, lookup, holds);
    }
  }

  /** With no client filter, the store filter selects exactly the edges the field owns. */
  lemma OwnerFilterSelectsOwned(field: SchemaField, owner: string, id: string, e: Edge, holds: Relation)
    ensures Eval(StoreFilter(field, owner, None), StoreLookup(id, e), holds) <==> Owns(e, owner, field)
  {
    StoreFilterSelects(field, owner, None, id, e, holds);
  }

  /** Paging and sorting, forwarded to the store as given. */
  datatype Paging = Paging(pageSize: int, pagedResultsOffset: int, pagedResultsCookie: Option<string>,
                           totalPagedResultsPolicy: string, sortKeys: seq<string>)

  datatype QueryRequest = QueryRequest(
    queryExpression: Option<string>,
    queryId: Option<string>,
    queryFilter: Option<Filter>,
    paging: Paging,
    additionalParameters: map<string, string>)

  /** The request issued to the store; `idsOnly` marks the query-all-ids fast path (no expansion). */
  datatype StoreQuery = StoreQuery(
    queryId: Option<string>,
    filter: Option<Filter>,
    paging: Paging,
    parameters: map<string, string>,
    idsOnly: bool)

  /**
   * The store query that a query on `owner`'s relationship field turns into,
   * or the error it is rejected with: a query expression or an unknown query
   * id is a bad request; a client filter on the root pointer, when the store
   * filter is built from it, is an internal error.
   */
  function QueryCollection(field: SchemaField, owner: string, request: QueryRequest): (r: Result<StoreQuery, ResourceError>)
    ensures r.Failure? <==>
      request.queryExpression.Some?
      || (request.queryId.Some? && request.queryId.value !in {QueryAllIds, QueryAll, RelationshipQueryId})
      || (request.queryId != Some(RelationshipQueryId) && !Rewritable(request.queryFilter))
    ensures r.Failure? ==>
      r.error == (if request.queryExpression.Some?
                     || (request.queryId.Some? && request.queryId.value !in {QueryAllIds, QueryAll, RelationshipQueryId})
                  then BadRequest else InternalServerError)
    ensures r.Success? ==>
      && r.value.paging == request.paging
      && r.value.idsOnly == (request.queryId == Some(QueryAllIds))
      && (request.queryId == Some(RelationshipQueryId) ==>
            && r.value.queryId == Some(RelationshipQueryId)
            && r.value.filter.None?
            && r.value.parameters == map[QueryFieldResourcePath := owner, QueryFieldFieldName := field.name]
                                     + request.additionalParameters)
      && (request.queryId != Some(RelationshipQueryId) ==>
            && r.value.queryId.None?
            && r.value.filter == Some(StoreFilter(field, owner, request.queryFilter))
            && r.value.parameters == request.additionalParameters)
  {
    if request.queryExpression.Some? then Failure(BadRequest)
    else if request.queryId.Some? && request.queryId.value !in {QueryAllIds, QueryAll, RelationshipQueryId} then
      Failure(BadRequest)
    else if request.queryId != Some(RelationshipQueryId) && !Rewritable(request.queryFilter) then
      Failure(InternalServerError)
    else
      var native := request.queryId == Some(RelationshipQueryId);
      var base := if native then map[QueryFieldResourcePath := owner, QueryFieldFieldName := field.name] else map[];
      Success(StoreQuery(
        if native then Some(RelationshipQueryId) else None,
        if native then None else Some(StoreFilter(field, owner, request.queryFilter)),
        request.paging,
        base + request.additionalParameters,
        request.queryId == Some(QueryAllIds)))
  }

  /**
   * A client filter on the root pointer, such as `/ eq "x"`, fails a filtered
   * field query with an internal error, in either direction of the field.
   */
  lemma RootPointerFilterFails(field: SchemaField, owner: string, queryId: Option<string>, v: Value, paging: Paging,
                               parameters: map<string, string>)
    requires queryId in {None, Some(QueryAll), Some(QueryAllIds)}
    ensures QueryCollection(field, owner, QueryRequest(None, queryId, Some(Comparison(Equal, [], v)), paging, parameters))
         == Failure(InternalServerError)
    ensures QueryCollection(field, owner, QueryRequest(None, queryId, Some(Not(Present([]))), paging, parameters))
         == Failure(InternalServerError)
  {
    assert Mentions(Present([]), []);
  }
}
