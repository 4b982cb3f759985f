/**
 * The collection relationship provider: reading, clearing and bulk-replacing
 * the edges behind a many-valued relationship field, and choosing which new
 * items of a field value are handed to the relationship validator.
 */
module CollectionRelationships {
  import opened Wrappers
  import opened QueryFilters
  import opened RelationshipFilters
  import opened ResourceErrors
  import opened EdgeStores

  /**
   * One element of the field's array: `_refProperties/_id`, `_refProperties/_rev`,
   * `_ref` and the other `_refProperties`.
   */
  datatype ClientRef = ClientRef(id: Option<string>, rev: Option<nat>, ref: string, properties: map<string, Value>)

  /** The edge written for `item` on `owner`'s `field`, before the store sets its revision. */
  function EdgeOf(owner: string, field: SchemaField, item: ClientRef): (e: Edge)
    ensures ForwardOwned(e, owner, field)
  {
    Edge(0, owner, field.name, item.ref, None, item.properties)
  }

  /** The client form of the edge `id` as seen from `owner`: `_ref` is the other endpoint. */
  function ClientRefOf(id: string, e: Edge, owner: string, field: SchemaField): ClientRef
  {
    ClientRef(Some(id), Some(e.rev), if ForwardOwned(e, owner, field) then e.secondId else e.firstId, e.properties)
  }

  /** Writing an item and reading it back from its owner gives the item under its persisted id and revision. */
  lemma EdgeOfReadsBack(id: string, owner: string, field: SchemaField, item: ClientRef, rev: nat)
    ensures ClientRefOf(id, EdgeOf(owner, field, item).(rev := rev), owner, field) == item.(id := Some(id), rev := Some(rev))
  {
  }

  /** The ids of the edges that belong to `owner`'s `field`. */
  function OwnedIds(m: map<string, Edge>, owner: string, field: SchemaField): (r: set<string>)
    ensures forall k :: k in r <==> k in m && Owns(m[k], owner, field)
  {
    set k | k in m && Owns(m[k], owner, field)
  }

  /** The store after deleting every edge of the field whose id is not kept. */
  function Pruned(m: map<string, Edge>, owner: string, field: SchemaField, keep: set<string>): (r: map<string, Edge>)
    ensures forall k :: k in r <==> k in m && (!Owns(m[k], owner, field) || k in keep)
    ensures forall k :: k in r ==> r[k] == m[k]
  {
    m - (OwnedIds(m, owner, field) - keep)
  }

  /** After pruning, the only edges left on the field are kept ones; edges of other fields and owners are untouched. */
  lemma PrunedLeavesOnlyKept(m: map<string, Edge>, owner: string, field: SchemaField, keep: set<string>)
    ensures OwnedIds(Pruned(m, owner, field, keep), owner, field) == OwnedIds(m, owner, field) * keep
    ensures forall k :: k in m && !Owns(m[k], owner, field) ==> k in Pruned(m, owner, field, keep)
  {
  }

  /** Whether deleting the field's edges outside `keep` meets an edge the store refuses to delete. */
  predicate ClearBlocked(m: map<string, Edge>, owner: string, field: SchemaField, keep: set<string>,
                         refuseDelete: Edge -> Option<ResourceError>)
  {
    (OwnedIds(m, owner, field) - keep) * Refused(m, refuseDelete) != {}
  }

  /** When no delete is refused, the refused edges need no keeping. */
  lemma PrunedUnblocked(m: map<string, Edge>, owner: string, field: SchemaField, keep: set<string>,
                        refuseDelete: Edge -> Option<ResourceError>)
    requires !ClearBlocked(m, owner, field, keep, refuseDelete)
    ensures Pruned(m, owner, field, keep + Refused(m, refuseDelete)) == Pruned(m, owner, field, keep)
  {
    forall k | k in OwnedIds(m, owner, field) - keep
      ensures k !in Refused(m, refuseDelete)
    {
      assert k !in (OwnedIds(m, owner, field) - keep) * Refused(m, refuseDelete);
    }
    assert OwnedIds(m, owner, field) - (keep + Refused(m, refuseDelete)) == OwnedIds(m, owner, field) - keep;
  }

  /** The items whose edge the store accepts for writing, in input order. */
  function Accepted(owner: string, field: SchemaField, refuseWrite: Edge -> Option<ResourceError>, items: seq<ClientRef>)
    : seq<ClientRef>
  {
    if items == [] then []
    else
      var init, last := items[..|items| - 1], items[|items| - 1];
      Accepted(owner, field, refuseWrite, init) + (if refuseWrite(EdgeOf(owner, field, last)).None? then [last] else [])
  }

  /** The accepted items are the items whose edge the store does not refuse. */
  lemma {:induction false} AcceptedMembers(owner: string, field: SchemaField, refuseWrite: Edge -> Option<ResourceError>, items: seq<ClientRef>)
    ensures forall x :: x in Accepted(owner, field, refuseWrite, items) <==> x in items && refuseWrite(EdgeOf(owner, field, x)).None?
  {
    if items != [] {
      var init, last := items[..|items| - 1], items[|items| - 1];
      assert items == init + [last];
      AcceptedMembers(owner, field, refuseWrite, init);
    }
  }

  /** No item is dropped exactly when the store accepts them all. */
  lemma {:induction false} AcceptedLength(owner: string, field: SchemaField, refuseWrite: Edge -> Option<ResourceError>, items: seq<ClientRef>)
    ensures |Accepted(owner, field, refuseWrite, items)| <= |items|
    ensures |Accepted(owner, field, refuseWrite, items)| == |items| <==> AllAccepted(owner, field, refuseWrite, items)
  {
    if items != [] {
      AcceptedLength(owner, field, refuseWrite, items[..|items| - 1]);
    }
  }

  /** When the store refuses none of the items, all of them are accepted. */
  lemma {:induction false} AcceptedAll(owner: string, field: SchemaField, refuseWrite: Edge -> Option<ResourceError>, items: seq<ClientRef>)
    requires AllAccepted(owner, field, refuseWrite, items)
    ensures Accepted(owner, field, refuseWrite, items) == items
  {
    if items != [] {
      var init, last := items[..|items| - 1], items[|items| - 1];
      assert items == init + [last];
      AcceptedAll(owner, field, refuseWrite, init);
    }
  }

  /** Whether the store accepts the edge of every item. */
  predicate AllAccepted(owner: string, field: SchemaField, refuseWrite: Edge -> Option<ResourceError>, items: seq<ClientRef>)
  {
    items == [] || (AllAccepted(owner, field, refuseWrite, items[..|items| - 1]) && refuseWrite(EdgeOf(owner, field, items[|items| - 1])).None?)
  }

  lemma {:induction false} AllAcceptedMembers(owner: string, field: SchemaField, refuseWrite: Edge -> Option<ResourceError>, items: seq<ClientRef>)
    ensures AllAccepted(owner, field, refuseWrite, items) <==> forall x :: x in items ==> refuseWrite(EdgeOf(owner, field, x)).None?
  {
    if items != [] {
      var init, last := items[..|items| - 1], items[|items| - 1];
      assert items == init + [last];
      AllAcceptedMembers(owner, field, refuseWrite, init);
    }
  }

  lemma AcceptedSnoc(owner: string, field: SchemaField, refuseWrite: Edge -> Option<ResourceError>, items: seq<ClientRef>, x: ClientRef)
    ensures Accepted(owner, field, refuseWrite, items + [x])
         == Accepted(owner, field, refuseWrite, items) + (if refuseWrite(EdgeOf(owner, field, x)).None? then [x] else [])
    ensures AllAccepted(owner, field, refuseWrite, items + [x])
        <==> AllAccepted(owner, field, refuseWrite, items) && refuseWrite(EdgeOf(owner, field, x)).None?
  {
    assert (items + [x])[..|items|] == items;
  }

  // The partition of a replace request, each list in input order.

  function Updates(items: seq<ClientRef>): seq<ClientRef>
  {
    if items == [] then []
    else Updates(items[..|items| - 1]) + (if items[|items| - 1].id.Some? then [items[|items| - 1]] else [])
  }

  function Creates(items: seq<ClientRef>): seq<ClientRef>
  {
    if items == [] then []
    else Creates(items[..|items| - 1]) + (if items[|items| - 1].id.None? then [items[|items| - 1]] else [])
  }

  function KeepIds(items: seq<ClientRef>): set<string>
  {
    if items == [] then {}
    else KeepIds(items[..|items| - 1]) + (if items[|items| - 1].id.Some? then {items[|items| - 1].id.value} else {})
  }

  lemma {:induction false} PartitionStep(items: seq<ClientRef>)
    requires items != []
    ensures var init, last := items[..|items| - 1], items[|items| - 1];
      && Updates(items) == Updates(init) + (if last.id.Some? then [last] else [])
      && Creates(items) == Creates(init) + (if last.id.None? then [last] else [])
      && KeepIds(items) == KeepIds(init) + (if last.id.Some? then {last.id.value} else {})
  {
  }

  /** Every item goes to exactly one side: the two lists together are the input, as a multiset. */
  lemma {:induction false} PartitionIsPermutation(items: seq<ClientRef>)
    ensures |Updates(items)| + |Creates(items)| == |items|
    ensures multiset(Updates(items)) + multiset(Creates(items)) == multiset(items)
  {
    if items != [] {
      var init, last := items[..|items| - 1], items[|items| - 1];
      var u, c := Updates(init), Creates(init);
      assert |u| + |c| == |init| && multiset(u) + multiset(c) == multiset(init) by {
        PartitionIsPermutation(init);
      }
      assert multiset(items) == multiset(init) + multiset{last} by {
        assert items == init + [last];
      }
      if last.id.Some? {
        assert Updates(items) == u + [last] && Creates(items) == c;
        assert multiset(u + [last]) == multiset(u) + multiset{last};
      } else {
        assert Updates(items) == u && Creates(items) == c + [last];
        assert multiset(c + [last]) == multiset(c) + multiset{last};
      }
    }
  }

  /** An item is on one side of the partition or the other. */
  lemma PartitionMembers(items: seq<ClientRef>)
    ensures forall x :: x in items <==> x in Updates(items) || x in Creates(items)
  {
    PartitionIsPermutation(items);
    forall x
      ensures x in items <==> x in Updates(items) || x in Creates(items)
    {
      assert x in multiset(items) <==> x in multiset(Updates(items)) + multiset(Creates(items));
    }
  }

  /** The store accepts every item of the request exactly when it accepts both sides of its partition. */
  lemma AllAcceptedSplit(owner: string, field: SchemaField, refuseWrite: Edge -> Option<ResourceError>, items: seq<ClientRef>)
    ensures AllAccepted(owner, field, refuseWrite, items)
        <==> AllAccepted(owner, field, refuseWrite, Updates(items)) && AllAccepted(owner, field, refuseWrite, Creates(items))
  {
    PartitionMembers(items);
    AllAcceptedMembers(owner, field, refuseWrite, items);
    AllAcceptedMembers(owner, field, refuseWrite, Updates(items));
    AllAcceptedMembers(owner, field, refuseWrite, Creates(items));
  }

  /** Items with an id are updated and their ids kept; items without one are created. */
  lemma {:induction false} PartitionSides(items: seq<ClientRef>)
    ensures forall u :: u in Updates(items) ==> u.id.Some? && u.id.value in KeepIds(items)
    ensures forall c :: c in Creates(items) ==> c.id.None?
    ensures forall k :: k in KeepIds(items) ==> Some(k) in IdsOf(Updates(items))
  {
    if items != [] {
      var init, last := items[..|items| - 1], items[|items| - 1];
      PartitionSides(init);
      PartitionStep(items);
      var ups := Updates(items);
      forall k | k in KeepIds(items) ensures Some(k) in IdsOf(ups) {
        if last.id == Some(k) {
          assert IdsOf(ups)[|ups| - 1] == Some(k);
        } else {
          var j :| 0 <= j < |Updates(init)| && IdsOf(Updates(init))[j] == Some(k);
          assert IdsOf(ups)[j] == Some(k);
        }
      }
    }
  }

  function IdsOf(refs: seq<ClientRef>): seq<Option<string>>
  {
    seq(|refs|, i requires 0 <= i < |refs| => refs[i].id)
  }

  /** Splits the items into those to update (with an id), those to create, and the ids to keep. */
  method Partition(items: seq<ClientRef>) returns (toUpdate: seq<ClientRef>, toCreate: seq<ClientRef>, keep: set<string>)
    ensures toUpdate == Updates(items) && toCreate == Creates(items) && keep == KeepIds(items)
  {
    toUpdate, toCreate, keep := [], [], {};
    for i := 0 to |items|
      invariant toUpdate == Updates(items[..i])
      invariant toCreate == Creates(items[..i])
      invariant keep == KeepIds(items[..i])
    {
      assert items[..i + 1][..i] == items[..i];
      var item := items[i];
      if item.id.Some? {
        toUpdate := toUpdate + [item];
        keep := keep + {item.id.value};
      } else {
        toCreate := toCreate + [item];
      }
    }
    assert items[..|items|] == items;
  }

  /** The store after one update request: the edge is rewritten at its next revision, or nothing changes when it is missing. */
  function ApplyUpdate(m: map<string, Edge>, owner: string, field: SchemaField, u: ClientRef): map<string, Edge>
  {
    if u.id.Some? && u.id.value in m then m[u.id.value := EdgeOf(owner, field, u).(rev := m[u.id.value].rev + 1)]
    else m
  }

  /** The store after the update requests, one after another. */
  function ApplyUpdates(m: map<string, Edge>, owner: string, field: SchemaField, ups: seq<ClientRef>): (r: map<string, Edge>)
    ensures r.Keys == m.Keys
  {
    if ups == [] then m
    else ApplyUpdate(ApplyUpdates(m, owner, field, ups[..|ups| - 1]), owner, field, ups[|ups| - 1])
  }

  /** The store after creating `creates[j]` under `ids[j]`, one after another. */
  function WithCreated(m: map<string, Edge>, ids: seq<string>, owner: string, field: SchemaField, creates: seq<ClientRef>): (r: map<string, Edge>)
    requires |ids| == |creates|
  {
    if ids == [] then m
    else WithCreated(m, ids[..|ids| - 1], owner, field, creates[..|ids| - 1])[ids[|ids| - 1] := EdgeOf(owner, field, creates[|ids| - 1])]
  }

  /** After the creates the store holds the old records plus one record per created id, each the written item. */
  lemma {:induction false} WithCreatedContents(m: map<string, Edge>, ids: seq<string>, owner: string, field: SchemaField,
                                               creates: seq<ClientRef>)
    requires |ids| == |creates| && Distinct(ids)
    ensures forall k :: k in WithCreated(m, ids, owner, field, creates) <==> k in m || k in ids
    ensures forall j :: 0 <= j < |ids| ==> WithCreated(m, ids, owner, field, creates)[ids[j]] == EdgeOf(owner, field, creates[j])
    ensures forall k :: k in m && k !in ids ==> WithCreated(m, ids, owner, field, creates)[k] == m[k]
  {
    if ids != [] {
      var n := |ids| - 1;
      var prev := WithCreated(m, ids[..n], owner, field, creates[..n]);
      assert Distinct(ids[..n]) by {
        assert forall j :: 0 <= j < n ==> ids[..n][j] == ids[j];
      }
      WithCreatedContents(m, ids[..n], owner, field, creates[..n]);
      assert WithCreated(m, ids, owner, field, creates) == prev[ids[n] := EdgeOf(owner, field, creates[n])];
      assert forall k :: k in ids <==> k in ids[..n] || k == ids[n] by {
        assert ids == ids[..n] + [ids[n]];
      }
      forall j | 0 <= j < n ensures ids[j] != ids[n] && ids[..n][j] == ids[j] && creates[..n][j] == creates[j] {
      }
    }
  }

  /** An edge ends up on the field when it was there before or an update rewrote it. */
  lemma {:induction false} ApplyUpdatesOwns(m: map<string, Edge>, owner: string, field: SchemaField, ups: seq<ClientRef>, k: string)
    requires k in m
    ensures k in ApplyUpdates(m, owner, field, ups)
    ensures Owns(ApplyUpdates(m, owner, field, ups)[k], owner, field) <==> Owns(m[k], owner, field) || Some(k) in IdsOf(ups)
  {
    if ups != [] {
      var n := |ups| - 1;
      ApplyUpdatesOwns(m, owner, field, ups[..n], k);
      assert IdsOf(ups) == IdsOf(ups[..n]) + [ups[n].id];
    }
  }

  /** How many of the update requests name the id `k`. */
  function Naming(ups: seq<ClientRef>, k: string): nat
  {
    if ups == [] then 0
    else Naming(ups[..|ups| - 1], k) + (if ups[|ups| - 1].id == Some(k) then 1 else 0)
  }

  /** `ups[i]` is the last update request that names `k`. */
  predicate LastNaming(ups: seq<ClientRef>, k: string, i: int)
  {
    0 <= i < |ups| && ups[i].id == Some(k) && forall j :: i < j < |ups| ==> ups[j].id != Some(k)
  }

  /**
   * What the updates leave in one existing edge: an edge no request names keeps
   * its record; an edge some request names holds what the last such request
   * wrote, with its revision raised once for every request naming it.
   */
  lemma {:induction false} ApplyUpdatesContents(m: map<string, Edge>, owner: string, field: SchemaField, ups: seq<ClientRef>, k: string)
    requires k in m
    ensures var r := ApplyUpdates(m, owner, field, ups);
      && k in r
      && r[k].rev == m[k].rev + Naming(ups, k)
      && (Naming(ups, k) > 0 <==> Some(k) in IdsOf(ups))
      && (Some(k) !in IdsOf(ups) ==> r[k] == m[k])
      && (forall i :: LastNaming(ups, k, i) ==> r[k] == EdgeOf(owner, field, ups[i]).(rev := r[k].rev))
  {
    if ups != [] {
      var n := |ups| - 1;
      var init, last := ups[..n], ups[n];
      var prev := ApplyUpdates(m, owner, field, init);
      var r := ApplyUpdates(m, owner, field, ups);
      ApplyUpdatesContents(m, owner, field, init, k);
      assert r == ApplyUpdate(prev, owner, field, last);
      assert IdsOf(ups) == IdsOf(init) + [last.id];
      if last.id == Some(k) {
        assert Naming(ups, k) == Naming(init, k) + 1;
        assert r[k] == EdgeOf(owner, field, last).(rev := prev[k].rev + 1);
        forall i | LastNaming(ups, k, i) ensures i == n {
        }
      } else {
        assert Naming(ups, k) == Naming(init, k);
        assert r[k] == prev[k];
        forall i | LastNaming(ups, k, i) ensures LastNaming(init, k, i) {
          assert i != n;
        }
      }
    }
  }

  /**
   * The results of the updates: each item as the store returned it, carrying
   * the revision its edge holds once that update and all before it are done.
   */
  function Revised(m: map<string, Edge>, owner: string, field: SchemaField, ups: seq<ClientRef>): (r: seq<ClientRef>)
    ensures |r| == |ups|
  {
    seq(|ups|, i requires 0 <= i < |ups| => LastRevised(m, owner, field, ups[..i + 1]))
  }

  /** The result of the last of the updates `ups`. */
  function LastRevised(m: map<string, Edge>, owner: string, field: SchemaField, ups: seq<ClientRef>): ClientRef
    requires ups != []
  {
    var last, after := ups[|ups| - 1], ApplyUpdates(m, owner, field, ups);
    if last.id.Some? && last.id.value in after then last.(rev := Some(after[last.id.value].rev)) else last
  }

  /**
   * When every update finds its edge, the i-th result is the i-th item at the
   * edge's old revision raised once for each of the first i + 1 updates that
   * name it.
   */
  lemma RevisedAt(m: map<string, Edge>, owner: string, field: SchemaField, ups: seq<ClientRef>, i: nat)
    requires AllFound(m, ups) && i < |ups|
    ensures ups[i].id.Some? && ups[i].id.value in m
    ensures Revised(m, owner, field, ups)[i] == ups[i].(rev := Some(m[ups[i].id.value].rev + Naming(ups[..i + 1], ups[i].id.value)))
  {
    assert ups[i] in ups;
    assert ups[..i + 1][i] == ups[i];
    ApplyUpdatesRev(m, owner, field, ups[..i + 1], ups[i].id.value);
  }

  /** The revision part of `ApplyUpdatesContents`. */
  lemma ApplyUpdatesRev(m: map<string, Edge>, owner: string, field: SchemaField, ups: seq<ClientRef>, k: string)
    requires k in m
    ensures k in ApplyUpdates(m, owner, field, ups)
    ensures ApplyUpdates(m, owner, field, ups)[k].rev == m[k].rev + Naming(ups, k)
  {
    ApplyUpdatesContents(m, owner, field, ups, k);
  }

  /** Ownership of one id after the updates and creates, from what the pruned store and the partition guarantee. */
  lemma OwnedAfterReplace(kept: map<string, Edge>, owner: string, field: SchemaField, ups: seq<ClientRef>,
                          keepIds: set<string>, creates: seq<ClientRef>, created: seq<string>, k: string)
    requires |created| == |creates| && Distinct(created)
    requires forall j :: 0 <= j < |created| ==> created[j] !in kept
    requires forall x :: x in kept && Owns(kept[x], owner, field) ==> x in keepIds
    requires forall u :: u in ups ==> u.id.Some? && u.id.value in keepIds && u.id.value in kept
    requires forall x :: x in keepIds ==> Some(x) in IdsOf(ups)
    ensures var after := WithCreated(ApplyUpdates(kept, owner, field, ups), created, owner, field, creates);
      k in OwnedIds(after, owner, field) <==> k in keepIds || k in created
  {
    var updated := ApplyUpdates(kept, owner, field, ups);
    var after := WithCreated(updated, created, owner, field, creates);
    WithCreatedContents(updated, created, owner, field, creates);
    if k in keepIds {
      var j :| 0 <= j < |ups| && IdsOf(ups)[j] == Some(k);
      assert ups[j] in ups;
    }
    if k in created {
      var j :| 0 <= j < |created| && created[j] == k;
      assert after[k] == EdgeOf(owner, field, creates[j]);
    } else if k in kept {
      ApplyUpdatesOwns(kept, owner, field, ups, k);
      assert after[k] == updated[k];
      if Some(k) in IdsOf(ups) {
        var j :| 0 <= j < |ups| && IdsOf(ups)[j] == Some(k);
        assert ups[j] in ups;
      }
    }
  }

  /**
   * A replace with `clearExisting` in which every update found its edge
   * leaves the field holding exactly the ids the request kept and the ids of
   * the records it created.
   */
  lemma ReplaceHoldsExactlyRequested(m: map<string, Edge>, owner: string, field: SchemaField,
                                     items: seq<ClientRef>, created: seq<string>)
    requires |created| == |Creates(items)| && Distinct(created)
    requires forall j :: 0 <= j < |created| ==> created[j] !in m
    requires AllFound(Pruned(m, owner, field, KeepIds(items)), Updates(items))
    ensures var kept := Pruned(m, owner, field, KeepIds(items));
      var after := WithCreated(ApplyUpdates(kept, owner, field, Updates(items)), created, owner, field, Creates(items));
      forall k :: k in OwnedIds(after, owner, field) <==> k in KeepIds(items) || k in created
  {
    var kept := Pruned(m, owner, field, KeepIds(items));
    PartitionSides(items);
    forall k {
      OwnedAfterReplace(kept, owner, field, Updates(items), KeepIds(items), Creates(items), created, k);
    }
  }

  /** The results of the creates: each item under the id the store gave it, at the first revision. */
  function Persisted(ids: seq<string>, creates: seq<ClientRef>): (r: seq<ClientRef>)
    requires |ids| == |creates|
    ensures |r| == |creates|
  {
    if ids == [] then []
    else Persisted(ids[..|ids| - 1], creates[..|ids| - 1]) + [creates[|ids| - 1].(id := Some(ids[|ids| - 1]), rev := Some(0))]
  }

  /** Each created item comes back under the id the store gave it, at revision 0. */
  lemma {:induction false} PersistedAt(ids: seq<string>, creates: seq<ClientRef>)
    requires |ids| == |creates|
    ensures forall j :: 0 <= j < |ids| ==> Persisted(ids, creates)[j] == creates[j].(id := Some(ids[j]), rev := Some(0))
  {
    if ids != [] {
      var n := |ids| - 1;
      PersistedAt(ids[..n], creates[..n]);
    }
  }

  /** Every update names an edge the store holds. */
  predicate AllFound(m: map<string, Edge>, ups: seq<ClientRef>)
  {
    forall u :: u in ups ==> u.id.Some? && u.id.value in m
  }

  predicate Distinct(ids: seq<string>)
  {
    forall i, j :: 0 <= i < j < |ids| ==> ids[i] != ids[j]
  }

  /** The owner query selects exactly the ids of the edges the field owns. */
  lemma OwnerQueryFindsOwned(m: map<string, Edge>, owner: string, field: SchemaField, holds: Relation, ids: seq<string>)
    requires forall k :: k in ids <==> k in m && Eval(StoreFilter(field, owner, None), StoreLookup(k, m[k]), holds)
    ensures forall k :: k in ids <==> k in OwnedIds(m, owner, field)
  {
    forall k | k in m
      ensures Eval(StoreFilter(field, owner, None), StoreLookup(k, m[k]), holds) <==> Owns(m[k], owner, field)
    {
      OwnerFilterSelectsOwned(field, owner, k, m[k], holds);
    }
  }

  lemma IdsOfConverted(refs: seq<ClientRef>, ids: seq<string>, m: map<string, Edge>, owner: string, field: SchemaField)
    requires |refs| == |ids| && forall k :: k in ids ==> k in m
    requires forall j :: 0 <= j < |refs| ==> refs[j] == ClientRefOf(ids[j], m[ids[j]], owner, field)
    ensures forall k :: Some(k) in IdsOf(refs) <==> k in ids
  {
    assert forall j :: 0 <= j < |refs| ==> IdsOf(refs)[j] == Some(ids[j]);
  }

  class CollectionRelationshipProvider {
    const field: SchemaField
    const store: EdgeStore

    constructor (field: SchemaField, store: EdgeStore)
      ensures this.field == field && this.store == store
    {
      this.field := field;
      this.store := store;
    }

    /** The store's verdict on the owner query of `owner`: None runs it, Some(e) fails it with `e`. */
    function ReadRefusal(owner: string): Option<ResourceError>
    {
      store.refuseQuery(StoreFilter(field, owner, None))
    }

    /** The ids of the edges of `owner`'s field, each once, found by the owner query on the store. */
    method OwnedEdgeIds(owner: string) returns (r: Result<seq<string>, ResourceError>)
      requires store.Valid()
      ensures r.Failure? <==> ReadRefusal(owner).Some?
      ensures r.Failure? ==> r.error == ReadRefusal(owner).value
      ensures r.Success? ==> forall k :: k in r.value <==> k in OwnedIds(store.edges, owner, field)
      ensures r.Success? ==> forall i :: 0 <= i < |r.value| ==> r.value[i] in store.edges
      ensures r.Success? ==> Distinct(r.value)
    {
      r := store.Query(StoreFilter(field, owner, None));
      if r.Success? {
        OwnerQueryFindsOwned(store.edges, owner, field, store.holds, r.value);
      }
    }

    /**
     * The field's value on `owner`: every edge the field owns, once each, in
     * client form; fails when the store refuses the owner query.
     */
    method GetRelationshipValue(owner: string) returns (r: Result<seq<ClientRef>, ResourceError>)
      requires store.Valid()
      ensures r.Failure? <==> ReadRefusal(owner).Some?
      ensures r.Failure? ==> r.error == ReadRefusal(owner).value
      ensures r.Success? ==> forall i :: 0 <= i < |r.value| ==>
        r.value[i].id.Some? && r.value[i].id.value in store.edges
        && r.value[i] == ClientRefOf(r.value[i].id.value, store.edges[r.value[i].id.value], owner, field)
      ensures r.Success? ==> forall k :: k in OwnedIds(store.edges, owner, field) <==> Some(k) in IdsOf(r.value)
      ensures r.Success? ==> forall i, j :: 0 <= i < j < |r.value| ==> r.value[i].id != r.value[j].id
    {
      var found := OwnedEdgeIds(owner);
      if found.Failure? {
        return Failure(found.error);
      }
      var ids := found.value;
      var refs := [];
      for i := 0 to |ids|
        invariant |refs| == i
        invariant forall j :: 0 <= j < i ==> refs[j] == ClientRefOf(ids[j], store.edges[ids[j]], owner, field)
      {
        refs := refs + [ClientRefOf(ids[i], store.edges[ids[i]], owner, field)];
      }
      IdsOfConverted(refs, ids, store.edges, owner, field);
      r := Success(refs);
    }

    /**
     * Deletes every edge of `owner`'s field; the edges the store refuses to
     * delete stay. When the store refuses to read the field, nothing is deleted.
     */
    method Clear(owner: string) returns (r: Outcome<ResourceError>, ghost culprit: string)
      requires store.Valid()
      modifies store
      ensures store.Valid() && store.issued == old(store.issued)
      ensures ReadRefusal(owner).Some? ==> r == Fail(ReadRefusal(owner).value) && store.edges == old(store.edges)
      ensures ReadRefusal(owner).None? ==>
        && store.edges == Pruned(old(store.edges), owner, field, Refused(old(store.edges), store.refuseDelete))
        && (r.Pass? <==> !ClearBlocked(old(store.edges), owner, field, {}, store.refuseDelete))
        && (r.Fail? ==> culprit in OwnedIds(old(store.edges), owner, field) && store.refuseDelete(old(store.edges)[culprit]) == Some(r.error))
    {
      r, culprit := ClearNotIn(owner, {});
      assert {} + Refused(old(store.edges), store.refuseDelete) == Refused(old(store.edges), store.refuseDelete);
    }

    /**
     * Reads the field of `owner`, then deletes every edge of it whose id is
     * not in `keep`. Every delete is issued; the call fails when the store
     * refused the read, before any delete, or refused any of the deletes.
     */
    method ClearNotIn(owner: string, keep: set<string>) returns (r: Outcome<ResourceError>, ghost culprit: string)
      requires store.Valid()
      modifies store
      ensures store.Valid() && store.issued == old(store.issued)
      ensures ReadRefusal(owner).Some? ==> r == Fail(ReadRefusal(owner).value) && store.edges == old(store.edges)
      ensures ReadRefusal(owner).None? ==>
        && store.edges == Pruned(old(store.edges), owner, field, keep + Refused(old(store.edges), store.refuseDelete))
        && (r.Pass? <==> !ClearBlocked(old(store.edges), owner, field, keep, store.refuseDelete))
        && (r.Fail? ==> culprit in OwnedIds(old(store.edges), owner, field) && culprit !in keep
                        && store.refuseDelete(old(store.edges)[culprit]) == Some(r.error))
    {
      culprit := "";
      var read := GetRelationshipValue(owner);
      if read.Failure? {
        return Fail(read.error), culprit;
      }
      var existing := read.value;
      ghost var before := store.edges;
      ghost var deleted: set<string> := {};
      r := Pass;
      for i := 0 to |existing|
        invariant store.Valid() && store.issued == old(store.issued)
        invariant ClearProgress(existing, before, keep, store.refuseDelete, i, deleted, store.edges, r.Pass?)
        invariant r.Fail? ==> culprit in OwnedIds(before, owner, field) && culprit !in keep && store.refuseDelete(before[culprit]) == Some(r.error)
      {
        var id := existing[i].id.value;
        assert id in OwnedIds(before, owner, field) by {
          assert IdsOf(existing)[i] == Some(id);
        }
        ClearStep(existing, before, keep, store.refuseDelete, i, deleted, store.edges, r.Pass?);
        if id !in keep {
          var d := store.Delete(id);
          if d.Success? {
            deleted := deleted + {id};
          } else if r.Pass? {
            r, culprit := Fail(d.error), id;
          }
        }
      }
      ClearOutcome(existing, before, owner, field, keep, store.refuseDelete, deleted, r.Pass?);
    }

    /**
     * Replaces the field's value on `owner` with `relationships`. With
     * `clearExisting`, first deletes the field's edges whose ids are not among
     * the items and waits for that; a refused read of the field or a refused
     * delete fails the call before anything else is written. Then updates each item that has an id and
     * creates each item that has none: every one of those calls is made, and
     * the call fails when any of them failed. With no items, the field is
     * cleared without waiting for the outcome.
     */
    method SetRelationshipValue(clearExisting: bool, owner: string, relationships: Option<seq<ClientRef>>)
      returns (r: Result<seq<ClientRef>, ResourceError>, ghost created: seq<string>)
      requires store.Valid()
      modifies store
      ensures store.Valid()
      ensures (relationships.None? || relationships.value == []) ==>
        && r == Success([]) && created == []
        && store.edges == (if clearExisting && ReadRefusal(owner).None?
                           then Pruned(old(store.edges), owner, field, Refused(old(store.edges), store.refuseDelete))
                           else old(store.edges))
      ensures relationships.Some? && relationships.value != [] && clearExisting && ReadRefusal(owner).Some? ==>
        r == Failure(ReadRefusal(owner).value) && created == [] && store.edges == old(store.edges)
      ensures relationships.Some? && relationships.value != [] && clearExisting && ReadRefusal(owner).None?
              && ClearBlocked(old(store.edges), owner, field, KeepIds(relationships.value), store.refuseDelete) ==>
        && r.Failure? && created == []
        && store.edges == Pruned(old(store.edges), owner, field,
                                 KeepIds(relationships.value) + Refused(old(store.edges), store.refuseDelete))
        && exists k :: k in OwnedIds(old(store.edges), owner, field) && k !in KeepIds(relationships.value)
                       && store.refuseDelete(old(store.edges)[k]) == Some(r.error)
      ensures relationships.Some? && relationships.value != []
              && !(clearExisting && (ReadRefusal(owner).Some?
                                     || ClearBlocked(old(store.edges), owner, field, KeepIds(relationships.value), store.refuseDelete))) ==>
        var items := relationships.value;
        var kept := if clearExisting then Pruned(old(store.edges), owner, field, KeepIds(items)) else old(store.edges);
        && |created| == |Accepted(owner, field, store.refuseWrite, Creates(items))| && Distinct(created)
        && (forall j :: 0 <= j < |created| ==> created[j] !in old(store.issued))
        && store.edges == WithCreated(ApplyUpdates(kept, owner, field, Accepted(owner, field, store.refuseWrite, Updates(items))),
                                      created, owner, field, Accepted(owner, field, store.refuseWrite, Creates(items)))
        && (r.Success? <==> AllFound(kept, Updates(items)) && AllAccepted(owner, field, store.refuseWrite, Updates(items))
                            && AllAccepted(owner, field, store.refuseWrite, Creates(items)))
        && (r.Success? ==>
              && Accepted(owner, field, store.refuseWrite, Creates(items)) == Creates(items)
              && r.value == Revised(kept, owner, field, Updates(items))
                            + Persisted(created, Accepted(owner, field, store.refuseWrite, Creates(items)))
              && |r.value| == |items|)
        && (r.Success? && clearExisting ==>
              forall k :: k in OwnedIds(store.edges, owner, field) <==> k in KeepIds(items) || k in created)
        && (r.Failure? ==> r.error == NotFound || exists x :: x in items && store.refuseWrite(EdgeOf(owner, field, x)) == Some(r.error))
    {
      created := [];
      if relationships.None? || relationships.value == [] {
        if clearExisting {
          // The outcome of this clear is not waited for.
          var ignored;
          ghost var clearCulprit;
          ignored, clearCulprit := Clear(owner);
        }
        return Success([]), created;
      }
      var items := relationships.value;
      var toUpdate, toCreate, keep := Partition(items);
      PartitionSides(items);
      PartitionMembers(items);
      if clearExisting {
        ghost var culprit;
        var cleared;
        cleared, culprit := ClearNotIn(owner, keep);
        if cleared.Fail? {
          return Failure(cleared.error), created;
        }
        PrunedUnblocked(old(store.edges), owner, field, keep, store.refuseDelete);
      }
      var updateError, updated;
      ghost var updateCulprit, createCulprit;
      updateError, updated, updateCulprit := UpdateAll(owner, toUpdate);
      assert updateError.Some? && updateError.value != NotFound ==> toUpdate[updateCulprit] in toUpdate;
      var createError, persisted;
      createError, persisted, created, createCulprit := CreateAll(owner, toCreate);
      assert createError.Some? ==> toCreate[createCulprit] in toCreate;
      if updateError.Some? {
        return Failure(updateError.value), created;
      }
      if createError.Some? {
        return Failure(createError.value), created;
      }
      PartitionIsPermutation(items);
      AcceptedAll(owner, field, store.refuseWrite, toCreate);
      AcceptedAll(owner, field, store.refuseWrite, toUpdate);
      if clearExisting {
        ReplaceHoldsExactlyRequested(old(store.edges), owner, field, items, created);
      }
      return Success(updated + persisted), created;
    }

    /**
     * Issues one update per item, in order; `error` is the first failure, when
     * an item named a missing edge or the store refused its edge.
     */
    method UpdateAll(owner: string, ups: seq<ClientRef>)
      returns (error: Option<ResourceError>, results: seq<ClientRef>, ghost culprit: nat)
      requires store.Valid()
      requires forall u :: u in ups ==> u.id.Some?
      modifies store
      ensures store.Valid() && store.issued == old(store.issued)
      ensures store.edges == ApplyUpdates(old(store.edges), owner, field, Accepted(owner, field, store.refuseWrite, ups))
      ensures error.None? <==> AllFound(old(store.edges), ups) && AllAccepted(owner, field, store.refuseWrite, ups)
      ensures error.None? ==> results == Revised(old(store.edges), owner, field, ups)
      ensures error.Some? ==> error.value == NotFound || (culprit < |ups| && store.refuseWrite(EdgeOf(owner, field, ups[culprit])) == error)
    {
      ghost var before := store.edges;
      culprit := 0;
      error, results := None, [];
      for i := 0 to |ups|
        invariant store.Valid() && store.issued == old(store.issued)
        invariant UpdateProgress(before, store.edges, owner, field, store.refuseWrite, ups[..i], error.None?)
        invariant error.None? ==> results == Revised(before, owner, field, ups[..i])
        invariant error.Some? ==> error.value == NotFound || (culprit < i && store.refuseWrite(EdgeOf(owner, field, ups[culprit])) == error)
      {
        var item := ups[i];
        assert ups[..i + 1] == ups[..i] + [item];
        assert item.id.Some? by {
          assert item in ups;
        }
        ghost var current := store.edges;
        var u := store.Update(item.id.value, EdgeOf(owner, field, item));
        UpdateStep(before, current, store.edges, owner, field, store.refuseWrite, ups[..i], item, error.None?);
        if u.Success? {
          EdgeOfReadsBack(item.id.value, owner, field, item, u.value.rev);
          if error.None? {
            RevisedStep(before, current, store.edges, owner, field, store.refuseWrite, ups[..i], item);
          }
          results := results + [ClientRefOf(item.id.value, u.value, owner, field)];
        } else if error.None? {
          error, culprit := Some(u.error), i;
        }
      }
      assert ups[..|ups|] == ups;
    }

    /**
     * Issues one create per item, in order; each accepted item comes back
     * under the fresh id the store gave it, and `error` is the first refusal.
     */
    method CreateAll(owner: string, creates: seq<ClientRef>)
      returns (error: Option<ResourceError>, results: seq<ClientRef>, ghost ids: seq<string>, ghost culprit: nat)
      requires store.Valid()
      modifies store
      ensures store.Valid()
      ensures |ids| == |Accepted(owner, field, store.refuseWrite, creates)| && Distinct(ids)
      ensures forall j :: 0 <= j < |ids| ==> ids[j] !in old(store.issued)
      ensures store.edges == WithCreated(old(store.edges), ids, owner, field, Accepted(owner, field, store.refuseWrite, creates))
      ensures error.None? <==> AllAccepted(owner, field, store.refuseWrite, creates)
      ensures results == Persisted(ids, Accepted(owner, field, store.refuseWrite, creates))
      ensures error.Some? ==> culprit < |creates| && store.refuseWrite(EdgeOf(owner, field, creates[culprit])) == error
    {
      ghost var before := store.edges;
      ghost var issuedBefore := store.issued;
      culprit := 0;
      ghost var accepted: seq<ClientRef> := [];
      error, results, ids := None, [], [];
      for j := 0 to |creates|
        invariant store.Valid()
        invariant CreateProgress(before, issuedBefore, store.issued, store.edges, ids, accepted, results,
                                 owner, field, store.refuseWrite, creates[..j])
        invariant |accepted| <= j && (error.None? <==> |accepted| == j)
        invariant error.Some? ==> culprit < j && store.refuseWrite(EdgeOf(owner, field, creates[culprit])) == error
      {
        var e := EdgeOf(owner, field, creates[j]);
        ghost var issuedNow, edgesNow := store.issued, store.edges;
        var c := store.Create(e);
        ghost var id := if c.Success? then c.value else "";
        CreateLoopStep(before, issuedBefore, issuedNow, store.issued, edgesNow, store.edges, ids, accepted, results,
                       owner, field, store.refuseWrite, creates, j, id);
        if c.Success? {
          EdgeOfReadsBack(id, owner, field, creates[j], 0);
          results := results + [ClientRefOf(c.value, e, owner, field)];
          ids := ids + [id];
          accepted := accepted + [creates[j]];
        } else if error.None? {
          error, culprit := Some(c.error), j;
        }
      }
      assert creates[..|creates|] == creates;
      AcceptedLength(owner, field, store.refuseWrite, creates);
    }
  }

  /**
   * Going once through the field's edges, deleting those neither kept nor
   * refused, deletes exactly the field's edges outside `keep` and the refused
   * ones; no refusal was met exactly when the clear is not blocked.
   */
  lemma ClearOutcome(existing: seq<ClientRef>, before: map<string, Edge>, owner: string, field: SchemaField, keep: set<string>,
                     refuseDelete: Edge -> Option<ResourceError>, deleted: set<string>, passed: bool)
    requires forall i :: 0 <= i < |existing| ==> existing[i].id.Some?
    requires forall k :: k in OwnedIds(before, owner, field) <==> Some(k) in IdsOf(existing)
    requires deleted == set j | 0 <= j < |existing| && existing[j].id.value !in keep
                                && existing[j].id.value !in Refused(before, refuseDelete) :: existing[j].id.value
    requires passed <==> forall j :: 0 <= j < |existing| && existing[j].id.value !in keep ==> existing[j].id.value !in Refused(before, refuseDelete)
    ensures deleted == OwnedIds(before, owner, field) - (keep + Refused(before, refuseDelete))
    ensures passed <==> !ClearBlocked(before, owner, field, keep, refuseDelete)
  {
    var refused := Refused(before, refuseDelete);
    forall k | k in OwnedIds(before, owner, field) - (keep + refused) ensures k in deleted {
      var j :| 0 <= j < |existing| && IdsOf(existing)[j] == Some(k);
      assert existing[j].id.value == k;
    }
    forall k | k in deleted ensures k in OwnedIds(before, owner, field) - (keep + refused) {
      var j :| 0 <= j < |existing| && existing[j].id.value !in keep && existing[j].id.value !in refused && existing[j].id.value == k;
      assert IdsOf(existing)[j] == Some(k);
    }
    if ClearBlocked(before, owner, field, keep, refuseDelete) {
      var k :| k in (OwnedIds(before, owner, field) - keep) * refused;
      var j :| 0 <= j < |existing| && IdsOf(existing)[j] == Some(k);
      assert existing[j].id.value == k;
    } else {
      forall j | 0 <= j < |existing| && existing[j].id.value !in keep ensures existing[j].id.value !in refused {
        assert IdsOf(existing)[j] == Some(existing[j].id.value);
        assert existing[j].id.value !in (OwnedIds(before, owner, field) - keep) * refused;
      }
    }
  }

  /**
   * What deleting, in order, the first `i` of the field's edges `existing` that
   * are not kept has achieved: exactly those the store did not refuse are gone,
   * and `passed` says whether none was refused.
   */
  ghost predicate ClearProgress(existing: seq<ClientRef>, before: map<string, Edge>, keep: set<string>,
                                refuseDelete: Edge -> Option<ResourceError>, i: nat, deleted: set<string>,
                                edges: map<string, Edge>, passed: bool)
    requires forall j :: 0 <= j < |existing| ==> existing[j].id.Some?
  {
    var refused := Refused(before, refuseDelete);
    && i <= |existing|
    && deleted == (set j | 0 <= j < i && existing[j].id.value !in keep && existing[j].id.value !in refused :: existing[j].id.value)
    && edges == before - deleted
    && (passed <==> forall j :: 0 <= j < i && existing[j].id.value !in keep ==> existing[j].id.value !in refused)
  }

  /** One step of a clear: a kept edge is skipped, another is deleted unless the store refuses it. */
  lemma ClearStep(existing: seq<ClientRef>, before: map<string, Edge>, keep: set<string>,
                  refuseDelete: Edge -> Option<ResourceError>, i: nat, deleted: set<string>,
                  edges: map<string, Edge>, passed: bool)
    requires forall j :: 0 <= j < |existing| ==> existing[j].id.Some?
    requires forall j, k :: 0 <= j < k < |existing| ==> existing[j].id != existing[k].id
    requires i < |existing| && existing[i].id.value in before
    requires ClearProgress(existing, before, keep, refuseDelete, i, deleted, edges, passed)
    ensures var id := existing[i].id.value;
      && (id in keep ==> ClearProgress(existing, before, keep, refuseDelete, i + 1, deleted, edges, passed))
      && (id !in keep ==> id in edges && edges[id] == before[id])
      && (id !in keep && refuseDelete(before[id]).None? ==>
            ClearProgress(existing, before, keep, refuseDelete, i + 1, deleted + {id}, edges - {id}, passed))
      && (id !in keep && refuseDelete(before[id]).Some? ==>
            ClearProgress(existing, before, keep, refuseDelete, i + 1, deleted, edges, false))
  {
    var id := existing[i].id.value;
    var refused := Refused(before, refuseDelete);
    assert id in refused <==> refuseDelete(before[id]).Some?;
    assert id !in deleted by {
      forall j | 0 <= j < i ensures existing[j].id.value != id {
        assert existing[j].id != existing[i].id;
      }
    }
    var next := set j | 0 <= j < i + 1 && existing[j].id.value !in keep && existing[j].id.value !in refused :: existing[j].id.value;
    if id in keep || id in refused {
      assert next == deleted;
    } else {
      assert next == deleted + {id};
      assert before - (deleted + {id}) == edges - {id};
    }
  }

  /**
   * What the creates issued for the items `done` have achieved: the accepted
   * items were written under distinct fresh ids, in order, and reported back.
   */
  ghost predicate CreateProgress(before: map<string, Edge>, issuedBefore: set<string>, issued: set<string>,
                                 edges: map<string, Edge>, ids: seq<string>, accepted: seq<ClientRef>,
                                 results: seq<ClientRef>, owner: string, field: SchemaField,
                                 refuseWrite: Edge -> Option<ResourceError>, done: seq<ClientRef>)
  {
    && accepted == Accepted(owner, field, refuseWrite, done)
    && |ids| == |accepted| && Distinct(ids) && issuedBefore <= issued
    && (forall x :: 0 <= x < |ids| ==> ids[x] !in issuedBefore && ids[x] in issued)
    && edges == WithCreated(before, ids, owner, field, accepted)
    && results == Persisted(ids, accepted)
  }

  /**
   * One turn of the create loop, stated without the store: the create call
   * keeps every invariant of the loop for the next item.
   */
  lemma CreateLoopStep(before: map<string, Edge>, issuedBefore: set<string>, issuedNow: set<string>, issuedAfter: set<string>,
                       edgesNow: map<string, Edge>, edgesAfter: map<string, Edge>, ids: seq<string>, accepted: seq<ClientRef>,
                       results: seq<ClientRef>, owner: string, field: SchemaField, refuseWrite: Edge -> Option<ResourceError>,
                       creates: seq<ClientRef>, j: nat, id: string)
    requires j < |creates|
    requires CreateProgress(before, issuedBefore, issuedNow, edgesNow, ids, accepted, results, owner, field, refuseWrite, creates[..j])
    requires refuseWrite(EdgeOf(owner, field, creates[j])).None? ==>
      id !in issuedNow && issuedAfter == issuedNow + {id} && edgesAfter == edgesNow[id := EdgeOf(owner, field, creates[j])]
    requires refuseWrite(EdgeOf(owner, field, creates[j])).Some? ==> issuedAfter == issuedNow && edgesAfter == edgesNow
    ensures refuseWrite(EdgeOf(owner, field, creates[j])).None? ==>
      CreateProgress(before, issuedBefore, issuedAfter, edgesAfter, ids + [id], accepted + [creates[j]],
                     results + [creates[j].(id := Some(id), rev := Some(0))], owner, field, refuseWrite, creates[..j + 1])
    ensures refuseWrite(EdgeOf(owner, field, creates[j])).Some? ==>
      CreateProgress(before, issuedBefore, issuedAfter, edgesAfter, ids, accepted, results, owner, field, refuseWrite, creates[..j + 1])
  {
    assert creates[..j + 1] == creates[..j] + [creates[j]];
    if refuseWrite(EdgeOf(owner, field, creates[j])).None? {
      FreshStep(ids, id, issuedBefore, issuedNow);
      CreateStep(before, ids, owner, field, refuseWrite, creates[..j], creates[j], id);
    } else {
      CreateStep(before, ids, owner, field, refuseWrite, creates[..j], creates[j], id);
    }
  }

  /** One create call: an accepted item is written under its new id and reported, a refused one changes nothing. */
  lemma CreateStep(before: map<string, Edge>, ids: seq<string>, owner: string, field: SchemaField,
                   refuseWrite: Edge -> Option<ResourceError>, done: seq<ClientRef>, item: ClientRef, id: string)
    requires |ids| == |Accepted(owner, field, refuseWrite, done)|
    ensures refuseWrite(EdgeOf(owner, field, item)).None? ==>
      var accepted := Accepted(owner, field, refuseWrite, done);
      && Accepted(owner, field, refuseWrite, done + [item]) == accepted + [item]
      && WithCreated(before, ids + [id], owner, field, accepted + [item])
         == WithCreated(before, ids, owner, field, accepted)[id := EdgeOf(owner, field, item)]
      && Persisted(ids + [id], accepted + [item]) == Persisted(ids, accepted) + [item.(id := Some(id), rev := Some(0))]
    ensures refuseWrite(EdgeOf(owner, field, item)).Some? ==>
      Accepted(owner, field, refuseWrite, done + [item]) == Accepted(owner, field, refuseWrite, done)
  {
    AcceptedSnoc(owner, field, refuseWrite, done, item);
    if refuseWrite(EdgeOf(owner, field, item)).None? {
      CreatedSnoc(before, ids, owner, field, Accepted(owner, field, refuseWrite, done), id, item);
    }
  }

  /**
   * What the updates issued for the items `done` have achieved: the accepted
   * items are applied in order, and `ok` says whether every item was found and
   * accepted.
   */
  ghost predicate UpdateProgress(before: map<string, Edge>, edges: map<string, Edge>, owner: string, field: SchemaField,
                                 refuseWrite: Edge -> Option<ResourceError>, done: seq<ClientRef>, ok: bool)
  {
    && edges == ApplyUpdates(before, owner, field, Accepted(owner, field, refuseWrite, done))
    && (ok <==> AllFound(before, done) && AllAccepted(owner, field, refuseWrite, done))
  }

  /** One update call, as the store answers it, is one more step of `ApplyUpdates` over the accepted items. */
  lemma UpdateStep(before: map<string, Edge>, current: map<string, Edge>, after: map<string, Edge>, owner: string,
                   field: SchemaField, refuseWrite: Edge -> Option<ResourceError>, done: seq<ClientRef>, item: ClientRef,
                   ok: bool)
    requires item.id.Some?
    requires UpdateProgress(before, current, owner, field, refuseWrite, done, ok)
    requires after == AfterUpdate(current, item.id.value, EdgeOf(owner, field, item), refuseWrite)
    ensures item.id.value in current <==> item.id.value in before
    ensures UpdateProgress(before, after, owner, field, refuseWrite, done + [item],
                           ok && item.id.value in current && refuseWrite(EdgeOf(owner, field, item)).None?)
  {
    var accepted := Accepted(owner, field, refuseWrite, done);
    AllFoundSnoc(before, done, item);
    AcceptedSnoc(owner, field, refuseWrite, done, item);
    if refuseWrite(EdgeOf(owner, field, item)).None? {
      assert Accepted(owner, field, refuseWrite, done + [item]) == accepted + [item];
      ApplyUpdatesSnoc(before, owner, field, accepted, item);
      assert after == ApplyUpdate(current, owner, field, item);
    } else {
      assert Accepted(owner, field, refuseWrite, done + [item]) == accepted;
    }
  }

  /** While every update so far went through, the next accepted one adds its item at the revision the store now holds. */
  lemma RevisedStep(before: map<string, Edge>, current: map<string, Edge>, after: map<string, Edge>, owner: string,
                    field: SchemaField, refuseWrite: Edge -> Option<ResourceError>, done: seq<ClientRef>, item: ClientRef)
    requires item.id.Some? && item.id.value in current && refuseWrite(EdgeOf(owner, field, item)).None?
    requires UpdateProgress(before, current, owner, field, refuseWrite, done, true)
    requires after == AfterUpdate(current, item.id.value, EdgeOf(owner, field, item), refuseWrite)
    ensures item.id.value in after
    ensures Revised(before, owner, field, done + [item]) == Revised(before, owner, field, done) + [item.(rev := Some(after[item.id.value].rev))]
  {
    var id := item.id.value;
    AcceptedAll(owner, field, refuseWrite, done);
    assert current == ApplyUpdates(before, owner, field, done);
    assert after == ApplyUpdate(current, owner, field, item);
    ApplyUpdatesSnoc(before, owner, field, done, item);
    RevisedSnoc(before, owner, field, done, item);
    assert LastRevised(before, owner, field, done + [item]) == item.(rev := Some(after[id].rev));
  }

  lemma RevisedSnoc(m: map<string, Edge>, owner: string, field: SchemaField, ups: seq<ClientRef>, x: ClientRef)
    ensures Revised(m, owner, field, ups + [x]) == Revised(m, owner, field, ups) + [LastRevised(m, owner, field, ups + [x])]
  {
    var all := ups + [x];
    assert all[..|ups| + 1] == all;
    forall i | 0 <= i < |ups| ensures Revised(m, owner, field, all)[i] == Revised(m, owner, field, ups)[i] {
      assert all[..i + 1] == ups[..i + 1];
    }
  }

  lemma FreshStep(ids: seq<string>, id: string, before: set<string>, now: set<string>)
    requires Distinct(ids) && before <= now && id !in now
    requires forall x :: 0 <= x < |ids| ==> ids[x] !in before && ids[x] in now
    ensures Distinct(ids + [id])
    ensures forall x :: 0 <= x < |ids + [id]| ==> (ids + [id])[x] !in before && (ids + [id])[x] in now + {id}
  {
  }

  lemma CreatedSnoc(m: map<string, Edge>, ids: seq<string>, owner: string, field: SchemaField,
                    creates: seq<ClientRef>, id: string, c: ClientRef)
    requires |ids| == |creates|
    ensures WithCreated(m, ids + [id], owner, field, creates + [c])
         == WithCreated(m, ids, owner, field, creates)[id := EdgeOf(owner, field, c)]
    ensures Persisted(ids + [id], creates + [c]) == Persisted(ids, creates) + [c.(id := Some(id), rev := Some(0))]
  {
    assert (ids + [id])[..|ids|] == ids;
    assert (creates + [c])[..|ids|] == creates;
  }

  lemma ApplyUpdatesSnoc(m: map<string, Edge>, owner: string, field: SchemaField, ups: seq<ClientRef>, x: ClientRef)
    ensures ApplyUpdates(m, owner, field, ups + [x]) == ApplyUpdate(ApplyUpdates(m, owner, field, ups), owner, field, x)
  {
    assert (ups + [x])[..|ups|] == ups;
  }

  lemma AllFoundSnoc(m: map<string, Edge>, ups: seq<ClientRef>, x: ClientRef)
    ensures AllFound(m, ups + [x]) <==> AllFound(m, ups) && x.id.Some? && x.id.value in m
  {
    assert x in ups + [x];
    assert forall u :: u in ups ==> u in ups + [x];
  }

  function OrEmpty(value: Option<seq<ClientRef>>): seq<ClientRef>
  {
    value.GetOr([])
  }

  /** The identity hashes of the items. */
  function Identities<H>(values: seq<ClientRef>, identity: ClientRef -> H): (r: set<H>)
    ensures forall x :: x in values ==> identity(x) in r
    ensures forall h :: h in r ==> exists x :: x in values && identity(x) == h
  {
    if values == [] then {}
    else
      var init, last := values[..|values| - 1], values[|values| - 1];
      assert values == init + [last];
      Identities(init, identity) + {identity(last)}
  }

  /** The new items, in order, whose identity is not among `known`. */
  function NeedsValidation<H>(known: set<H>, values: seq<ClientRef>, identity: ClientRef -> H): (r: seq<ClientRef>)
    ensures forall x :: x in r ==> x in values && identity(x) !in known
    ensures forall x :: x in values && identity(x) !in known ==> x in r
  {
    if values == [] then []
    else
      var init, last := values[..|values| - 1], values[|values| - 1];
      assert values == init + [last];
      NeedsValidation(known, init, identity) + (if identity(last) !in known then [last] else [])
  }

  lemma {:induction false} NeedsValidationOfPrefix<H>(known: set<H>, values: seq<ClientRef>, i: nat, identity: ClientRef -> H)
    requires i <= |values|
    ensures NeedsValidation(known, values[..i], identity) <= NeedsValidation(known, values, identity)
  {
    if i < |values| {
      var init := values[..|values| - 1];
      assert init[..i] == values[..i];
      NeedsValidationOfPrefix(known, init, i, identity);
    } else {
      assert values[..i] == values;
    }
  }

  /** The identity hashes of the items, collected one by one. */
  method IdentitySet<H(==)>(values: seq<ClientRef>, identity: ClientRef -> H) returns (r: set<H>)
    ensures r == Identities(values, identity)
  {
    r := {};
    for i := 0 to |values|
      invariant r == Identities(values[..i], identity)
    {
      assert values[..i + 1][..i] == values[..i];
      r := r + {identity(values[i])};
    }
    assert values[..|values|] == values;
  }

  /**
   * Validates a new field value against the old one: the in-request duplicate
   * check first, then the validator on each new item whose identity is not
   * among the old items' identities, stopping at the first it rejects.
   * `validated` lists the items handed to the validator, in order.
   */
  method ValidateRelationshipField<H(==)>(oldValue: Option<seq<ClientRef>>, newValue: Option<seq<ClientRef>>,
                                      referrerId: string, performDuplicateAssignmentCheck: bool,
                                      identity: ClientRef -> H,
                                      hasDuplicates: Option<seq<ClientRef>> -> bool,
                                      isValid: (ClientRef, string, bool) -> bool)
    returns (r: Outcome<ResourceError>, validated: seq<ClientRef>)
    ensures hasDuplicates(newValue) ==> r == Fail(BadRequest) && validated == []
    ensures !hasDuplicates(newValue) ==>
      var pending := NeedsValidation(Identities(OrEmpty(oldValue), identity), OrEmpty(newValue), identity);
      && validated <= pending
      && (forall i :: 0 <= i < |validated| - 1 ==> isValid(validated[i], referrerId, performDuplicateAssignmentCheck))
      && (r.Pass? <==>
            validated == pending && forall x :: x in pending ==> isValid(x, referrerId, performDuplicateAssignmentCheck))
      && (r.Fail? ==>
            r.error == BadRequest && validated != []
            && !isValid(validated[|validated| - 1], referrerId, performDuplicateAssignmentCheck))
  {
    if hasDuplicates(newValue) {
      return Fail(BadRequest), [];
    }
    var oldReferences := IdentitySet(OrEmpty(oldValue), identity);
    var ok;
    ok, validated := ValidateEach(oldReferences, OrEmpty(newValue), identity, referrerId, performDuplicateAssignmentCheck, isValid);
    r := if ok then Pass else Fail(BadRequest);
  }

  /**
   * Hands each item whose identity is not `known` to the validator, in order,
   * until one is rejected; `ok` when none is.
   */
  method ValidateEach<H(==)>(known: set<H>, items: seq<ClientRef>, identity: ClientRef -> H,
                             referrerId: string, performDuplicateAssignmentCheck: bool,
                             isValid: (ClientRef, string, bool) -> bool)
    returns (ok: bool, validated: seq<ClientRef>)
    ensures validated <= NeedsValidation(known, items, identity)
    ensures forall i :: 0 <= i < |validated| - 1 ==> isValid(validated[i], referrerId, performDuplicateAssignmentCheck)
    ensures ok ==> validated == NeedsValidation(known, items, identity)
                   && forall x :: x in validated ==> isValid(x, referrerId, performDuplicateAssignmentCheck)
    ensures !ok ==> validated != [] && !isValid(validated[|validated| - 1], referrerId, performDuplicateAssignmentCheck)
  {
    validated := [];
    for i := 0 to |items|
      invariant validated == NeedsValidation(known, items[..i], identity)
      invariant forall x :: x in validated ==> isValid(x, referrerId, performDuplicateAssignmentCheck)
    {
      var item := items[i];
      assert items[..i + 1][..i] == items[..i];
      assert NeedsValidation(known, items[..i + 1], identity)
          == validated + (if identity(item) !in known then [item] else []);
      if identity(item) !in known {
        validated := validated + [item];
        if !isValid(item, referrerId, performDuplicateAssignmentCheck) {
          NeedsValidationOfPrefix(known, items, i + 1, identity);
          return false, validated;
        }
      }
    }
    assert items[..|items|] == items;
    return true, validated;
  }

  /** Items identical (by identity hash) to an old item are never handed to the validator. */
  lemma ExistingItemsNotRevalidated<H>(oldValue: seq<ClientRef>, newValue: seq<ClientRef>, identity: ClientRef -> H, x: ClientRef)
    requires x in oldValue
    ensures forall y :: y in NeedsValidation(Identities(oldValue, identity), newValue, identity) ==> identity(y) != identity(x)
  {
  }
}
