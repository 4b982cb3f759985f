/**
 * The backing store of edge records, as the relationship provider uses it:
 * create, update, delete by id and query by filter. One call is one record.
 */
module EdgeStores {
  import opened Wrappers
  import opened QueryFilters
  import opened RelationshipFilters
  import opened ResourceErrors

  /** The id the store hands out `n`-th: `n` letters. */
  function Name(n: nat): (id: string)
    ensures |id| == n
  {
    seq(n, _ => 'e')
  }

  /** The first `n` ids the store hands out. */
  ghost function Names(n: nat): set<string>
  {
    if n == 0 then {} else Names(n - 1) + {Name(n - 1)}
  }

  lemma {:induction false} NamesAreShorter(n: nat)
    ensures forall k :: k in Names(n) ==> |k| < n
  {
    if n > 0 {
      NamesAreShorter(n - 1);
    }
  }

  /** The ids of the records whose deletion the store refuses. */
  function Refused(m: map<string, Edge>, refuseDelete: Edge -> Option<ResourceError>): (r: set<string>)
    ensures forall k :: k in r <==> k in m && refuseDelete(m[k]).Some?
  {
    set k | k in m && refuseDelete(m[k]).Some?
  }

  /** The records after updating `id` to `e`: rewritten at the next revision, unless it is missing or the write is refused. */
  function AfterUpdate(m: map<string, Edge>, id: string, e: Edge, refuseWrite: Edge -> Option<ResourceError>): (r: map<string, Edge>)
    ensures r.Keys == m.Keys
    ensures forall k :: k in m && k != id ==> r[k] == m[k]
  {
    if id in m && refuseWrite(e).None? then m[id := e.(rev := m[id].rev + 1)] else m
  }

  class EdgeStore {
    /** How this store compares values under operators other than equality. */
    const holds: Relation
    /** The store's own verdict on writing a record: None accepts it, Some(e) fails the write with `e`. */
    const refuseWrite: Edge -> Option<ResourceError>
    /** The same for deleting a record. */
    const refuseDelete: Edge -> Option<ResourceError>
    /** The same for running a query with a given filter. */
    const refuseQuery: Filter -> Option<ResourceError>
    var edges: map<string, Edge>
    /** Every id this store has ever handed out. */
    ghost var issued: set<string>
    var idLength: nat

    ghost predicate Valid()
      reads this
    {
      edges.Keys <= issued && issued <= Names(idLength)
    }

    constructor (holds: Relation, refuseWrite: Edge -> Option<ResourceError>, refuseDelete: Edge -> Option<ResourceError>,
                 refuseQuery: Filter -> Option<ResourceError>)
      ensures Valid() && this.holds == holds && edges == map[] && issued == {}
      ensures this.refuseWrite == refuseWrite && this.refuseDelete == refuseDelete && this.refuseQuery == refuseQuery
    {
      this.holds := holds;
      this.refuseWrite := refuseWrite;
      this.refuseDelete := refuseDelete;
      this.refuseQuery := refuseQuery;
      edges := map[];
      issued := {};
      idLength := 0;
    }

    /** Stores `e` under an id never used before, unless the store refuses it. */
    method Create(e: Edge) returns (r: Result<string, ResourceError>)
      requires Valid()
      modifies this
      ensures Valid()
      ensures refuseWrite(e).Some? ==> r == Failure(refuseWrite(e).value) && edges == old(edges) && issued == old(issued)
      ensures refuseWrite(e).None? ==>
        && r.Success? && r.value !in old(issued) && issued == old(issued) + {r.value}
        && edges == old(edges)[r.value := e]
    {
      if refuseWrite(e).Some? {
        return Failure(refuseWrite(e).value);
      }
      var id := Name(idLength);
      NamesAreShorter(idLength);
      edges := edges[id := e];
      issued := issued + {id};
      idLength := idLength + 1;
      r := Success(id);
    }

    /** Replaces the record `id` with `e` at the next revision; NotFound when there is none, else the store may refuse `e`. */
    method Update(id: string, e: Edge) returns (r: Result<Edge, ResourceError>)
      requires Valid()
      modifies this
      ensures Valid() && issued == old(issued)
      ensures edges == AfterUpdate(old(edges), id, e, refuseWrite)
      ensures id in old(edges) && refuseWrite(e).None? ==> r == Success(edges[id]) && edges[id] == e.(rev := old(edges)[id].rev + 1)
      ensures id in old(edges) && refuseWrite(e).Some? ==> r == Failure(refuseWrite(e).value)
      ensures id !in old(edges) ==> r == Failure(NotFound)
    {
      if id !in edges {
        return Failure(NotFound);
      }
      if refuseWrite(e).Some? {
        return Failure(refuseWrite(e).value);
      }
      var updated := e.(rev := edges[id].rev + 1);
      edges := edges[id := updated];
      r := Success(updated);
    }

    /** Removes the record `id` and returns it; NotFound when there is none, else the store may refuse. */
    method Delete(id: string) returns (r: Result<Edge, ResourceError>)
      requires Valid()
      modifies this
      ensures Valid() && issued == old(issued)
      ensures id in old(edges) && refuseDelete(old(edges)[id]).None? ==>
        r == Success(old(edges)[id]) && edges == old(edges) - {id}
      ensures id in old(edges) && refuseDelete(old(edges)[id]).Some? ==>
        r == Failure(refuseDelete(old(edges)[id]).value) && edges == old(edges)
      ensures id !in old(edges) ==> r == Failure(NotFound) && edges == old(edges)
    {
      if id !in edges {
        return Failure(NotFound);
      }
      if refuseDelete(edges[id]).Some? {
        return Failure(refuseDelete(edges[id]).value);
      }
      r := Success(edges[id]);
      edges := edges - {id};
    }

    /** The ids of the records the filter selects, each once, in no particular order, unless the store refuses the query. */
    method Query(f: Filter) returns (r: Result<seq<string>, ResourceError>)
      requires Valid()
      ensures refuseQuery(f).Some? ==> r == Failure(refuseQuery(f).value)
      ensures refuseQuery(f).None? ==> r.Success?
      ensures r.Success? ==> forall k :: k in r.value <==> k in edges && Eval(f, StoreLookup(k, edges[k]), holds)
      ensures r.Success? ==> forall i, j :: 0 <= i < j < |r.value| ==> r.value[i] != r.value[j]
    {
      if refuseQuery(f).Some? {
        return Failure(refuseQuery(f).value);
      }
      var ids := [];
      var remaining := edges.Keys;
      while remaining != {}
        invariant remaining <= edges.Keys
        invariant forall k :: k in ids <==> k in edges && k !in remaining && Eval(f, StoreLookup(k, edges[k]), holds)
        invariant forall i, j :: 0 <= i < j < |ids| ==> ids[i] != ids[j]
        decreases remaining
      {
        var k :| k in remaining;
        if Eval(f, StoreLookup(k, edges[k]), holds) {
          ids := ids + [k];
        }
        remaining := remaining - {k};
      }
      r := Success(ids);
    }
  }
}
