/**
 * ResourceService (Sklad.Application/Services/ResourceService.cs). Create,
 * update and archive hand the resource to the generic catalog operations
 * (CatalogService.Create and CatalogService.Archive with ResourceKind); the
 * delete runs its own guards and then hands on.
 */
module ResourceService {
  import opened Domain
  import opened Ledger
  import opened Database

  /**
   * `DeleteResourceAsync`: NotFound for an unknown id, Conflict/InUse while a
   * receipt or shipment line refers to it, otherwise the row goes by way of
   * the generic catalog delete.
   */
  function Delete(s: Store, id: int): (Reply, Store) {
    if id !in s.resources then (Reply(Status.NotFound, MessageKey.NotFound), s)
    else if ResourceInUse(s, id) then (Reply(Status.Conflict, MessageKey.InUse), s)
    else (Delegated, s.(resources := s.resources - {id}, balances := DropResource(s.balances, id)))
  }

  /**
   * An unknown id is always NotFound, whatever refers to it; a known one is
   * Conflict exactly while referenced; only an existing, unreferenced
   * resource reaches the catalog delete, which removes that row and, by the
   * database's cascade, every balance row of the resource; the other balance
   * rows keep their counts. The guard paths change nothing.
   */
  lemma DeleteSpec(s: Store, id: int)
    ensures var (r, t) := Delete(s, id);
      && (r == Reply(Status.NotFound, MessageKey.NotFound) <==> id !in s.resources)
      && (r == Reply(Status.Conflict, MessageKey.InUse) <==> id in s.resources && ResourceInUse(s, id))
      && (r == Delegated <==> id in s.resources && !ResourceInUse(s, id))
      && (r != Delegated ==> t == s)
      && (r == Delegated ==> t == s.(resources := s.resources - {id}, balances := DropResource(s.balances, id)))
      && (r == Delegated ==> forall p :: p in t.balances <==> p in s.balances && p.resourceId != id)
      && (r == Delegated ==> forall p: Pair :: p.resourceId != id ==> Get(t.balances, p) == Get(s.balances, p))
  {
  }

  lemma DeletePreserves(s: Store, id: int)
    requires Inv(s)
    ensures Inv(Delete(s, id).1)
  {
  }

  /** A resource that some line refers to is never removed. */
  lemma DeleteKeepsReferences(s: Store, id: int)
    requires References(s)
    ensures References(Delete(s, id).1)
  {
    var t := Delete(s, id).1;
    forall j | ResourceInUse(t, j) ensures j in t.resources {
      assert ResourceInUse(s, j);
    }
    forall j | UnitInUse(t, j) ensures j in t.units {
      assert UnitInUse(s, j);
    }
    forall j | ClientInUse(t, j) ensures j in t.clients {
      assert ClientInUse(s, j);
    }
  }
}
