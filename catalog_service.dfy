/**
 * CatalogService (Sklad.Application/Services/CatalogService.cs), the older
 * catalog service: the generic create and archive over one catalog table,
 * the reply messages its per-kind wrappers attach, and its three deletes,
 * which check references before existence.
 */
module CatalogService {
  import opened Wrappers
  import opened Domain
  import opened Ledger
  import opened Database

  /** Some entity of the table has this name (`FirstOrDefaultAsync(e => e.Name == entity.Name) != null`). */
  predicate NameTaken(t: map<int, CatalogEntity>, name: string) {
    exists id :: id in t && t[id].name == name
  }

  /** The id of the entity with this name; with unique names there is at most one. */
  function FindByName(t: map<int, CatalogEntity>, name: string): (r: Option<int>)
    requires UniqueNames(t)
    ensures r.None? <==> !NameTaken(t, name)
    ensures r.Some? ==> r.value in t && t[r.value].name == name
  {
    if NameTaken(t, name) then
      var id :| id in t && t[id].name == name;
      Some(id)
    else None
  }

  /** The message Create* attaches (CatalogService.cs:37-43 and the same switch for units and clients). */
  function CreateMessage(status: Status): (m: MessageKey)
    ensures status == Status.Created ==> m == MessageKey.Created
    ensures status == Status.Conflict ==> m == MessageKey.AlreadyExists
    ensures status == Status.InternalServerError ==> m == MessageKey.CreationFailed
    ensures m == MessageKey.NoMessage <==> status !in {Status.Created, Status.Conflict, Status.InternalServerError}
  {
    match status
    case Created => MessageKey.Created
    case Conflict => MessageKey.AlreadyExists
    case InternalServerError => MessageKey.CreationFailed
    case _ => MessageKey.NoMessage
  }

  /** The message Archive* attaches (CatalogService.cs:123-129 and the same switch for units and clients). */
  function ArchiveMessage(status: Status): (m: MessageKey)
    ensures status == Status.OK ==> m == MessageKey.Archived
    ensures status == Status.NotFound ==> m == MessageKey.NotFound
    ensures status == Status.InternalServerError ==> m == MessageKey.ArchiveFailed
    ensures m == MessageKey.NoMessage <==> status !in {Status.OK, Status.NotFound, Status.InternalServerError}
  {
    match status
    case OK => MessageKey.Archived
    case NotFound => MessageKey.NotFound
    case InternalServerError => MessageKey.ArchiveFailed
    case _ => MessageKey.NoMessage
  }

  /** Each mapping tells its mapped codes apart, so the message determines the status. */
  lemma MessagesDetermineStatus(a: Status, b: Status)
    ensures CreateMessage(a) == CreateMessage(b) && CreateMessage(a) != MessageKey.NoMessage ==> a == b
    ensures ArchiveMessage(a) == ArchiveMessage(b) && ArchiveMessage(a) != MessageKey.NoMessage ==> a == b
  {
  }

  /**
   * `CreateCatalogEntityAsync` with the wrapper's message: Conflict when the
   * name is taken, otherwise the entity is stored Active under a fresh id.
   */
  function Create(s: Store, e: CatalogEntity): (Reply, Store) {
    var k := KindOf(e);
    var t := Table(s, k);
    if NameTaken(t, e.name) then (Reply(Status.Conflict, CreateMessage(Status.Conflict)), s)
    else
      var id := s.lastId + 1;
      (Reply(Status.Created, CreateMessage(Status.Created)),
       WithTable(s, k, t[id := e.(state := CatalogState.Active)]).(lastId := id))
  }

  /** `ArchiveCatalogEntityAsync` with the wrapper's message: the entity found by name becomes Archived. */
  function Archive(s: Store, k: Kind, name: string): (Reply, Store)
    requires UniqueNames(Table(s, k))
  {
    var t := Table(s, k);
    match FindByName(t, name)
    case None => (Reply(Status.NotFound, ArchiveMessage(Status.NotFound)), s)
    case Some(id) =>
      (Reply(Status.OK, ArchiveMessage(Status.OK)), WithTable(s, k, t[id := t[id].(state := CatalogState.Archived)]))
  }

  /** `DeleteResourceAsync` of this service: references first, then existence. */
  function DeleteResource(s: Store, id: int): (Reply, Store) {
    if ResourceInUse(s, id) then (Reply(Status.Conflict, MessageKey.InUse), s)
    else if id in s.resources then (Reply(Status.OK, MessageKey.Deleted), s.(resources := s.resources - {id}, balances := DropResource(s.balances, id)))
    else (Reply(Status.NotFound, MessageKey.NotFound), s)
  }

  /** `DeleteUnitOfMeasurementAsync`: references first, then existence. */
  function DeleteUnit(s: Store, id: int): (Reply, Store) {
    if UnitInUse(s, id) then (Reply(Status.Conflict, MessageKey.InUse), s)
    else if id in s.units then (Reply(Status.OK, MessageKey.Deleted), s.(units := s.units - {id}, balances := DropUnit(s.balances, id)))
    else (Reply(Status.NotFound, MessageKey.NotFound), s)
  }

  /** `DeleteClientAsync` of this service: shipments for the client first, then existence. */
  function DeleteClient(s: Store, id: int): (Reply, Store) {
    if ClientInUse(s, id) then (Reply(Status.Conflict, MessageKey.InUse), s)
    else if id in s.clients then (Reply(Status.OK, MessageKey.Deleted), s.(clients := s.clients - {id}))
    else (Reply(Status.NotFound, MessageKey.NotFound), s)
  }

  // ---------------------------------------------------------------------
  // Create and archive

  /**
   * Create answers Conflict, changing nothing, exactly when the name is
   * taken in the table of the entity's kind. Otherwise it stores the entity
   * Active in that table under a fresh id, and afterwards that id is the only
   * one with the name; no other table changes.
   */
  lemma CreateSpec(s: Store, e: CatalogEntity)
    requires Inv(s)
    ensures var k := KindOf(e); var (r, t) := Create(s, e);
      && (r.status == Status.Conflict <==> NameTaken(Table(s, k), e.name))
      && (r.status == Status.Conflict ==> r.message == MessageKey.AlreadyExists && t == s)
      && (r.status != Status.Conflict ==>
           && r == Reply(Status.Created, MessageKey.Created)
           && s.lastId + 1 !in Table(s, k)
           && Table(t, k) == Table(s, k)[s.lastId + 1 := e.(state := CatalogState.Active)]
           && (forall id :: id in Table(t, k) && Table(t, k)[id].name == e.name <==> id == s.lastId + 1)
           && (forall k' :: k' != k ==> Table(t, k') == Table(s, k'))
           && t.balances == s.balances && t.receipts == s.receipts && t.shipments == s.shipments
           && t.lastId == s.lastId + 1)
  {
  }

  lemma CreatePreserves(s: Store, e: CatalogEntity)
    requires Inv(s)
    ensures Inv(Create(s, e).1)
  {
    var k := KindOf(e);
    var t := Create(s, e).1;
    if !NameTaken(Table(s, k), e.name) {
      assert UniqueNames(Table(t, k));
      forall k' ensures UniqueNames(Table(t, k')) {
      }
    }
  }

  /**
   * Archive answers NotFound, changing nothing, exactly when no entity has
   * the name. Otherwise it answers OK and only that entity's state changes,
   * to Archived, whatever it was before.
   */
  lemma ArchiveSpec(s: Store, k: Kind, name: string)
    requires Inv(s)
    ensures var (r, t) := Archive(s, k, name);
      && (r.status == Status.NotFound <==> !NameTaken(Table(s, k), name))
      && (r.status == Status.NotFound ==> r.message == MessageKey.NotFound && t == s)
      && (r.status != Status.NotFound ==>
           && r == Reply(Status.OK, MessageKey.Archived)
           && Table(t, k).Keys == Table(s, k).Keys
           && (forall id :: id in Table(s, k) ==>
                 Table(t, k)[id] ==
                   if Table(s, k)[id].name == name then Table(s, k)[id].(state := CatalogState.Archived) else Table(s, k)[id])
           && (forall k' :: k' != k ==> Table(t, k') == Table(s, k'))
           && t.balances == s.balances && t.receipts == s.receipts && t.shipments == s.shipments && t.lastId == s.lastId)
  {
  }

  lemma ArchivePreserves(s: Store, k: Kind, name: string)
    requires Inv(s)
    ensures Inv(Archive(s, k, name).1)
  {
    var t := Archive(s, k, name).1;
    assert forall k' :: UniqueNames(Table(t, k'));
  }

  /** Archiving twice answers OK again and changes nothing more: there is no AlreadyArchived check. */
  lemma ArchiveTwice(s: Store, k: Kind, name: string)
    requires Inv(s) && NameTaken(Table(s, k), name)
    ensures UniqueNames(Table(Archive(s, k, name).1, k))
    ensures Archive(Archive(s, k, name).1, k, name) == (Reply(Status.OK, MessageKey.Archived), Archive(s, k, name).1)
  {
    var t0 := Table(s, k);
    var id := FindByName(t0, name).value;
    var t1 := t0[id := t0[id].(state := CatalogState.Archived)];
    var u := WithTable(s, k, t1);
    assert Archive(s, k, name).1 == u;
    assert UniqueNames(t1) by {
      forall i, j | i in t1 && j in t1 && i != j ensures t1[i].name != t1[j].name {
        assert t1[i].name == t0[i].name && t1[j].name == t0[j].name;
      }
    }
    assert NameTaken(t1, name) by { assert t1[id].name == name; }
    var again := FindByName(t1, name).value;
    assert t1[again].name == t0[again].name;
    assert again == id;
    assert t1[id := t1[id].(state := CatalogState.Archived)] == t1;
    WithTableTwice(s, k, t1);
  }

  /** Writing a table back into the store that already holds it changes nothing. */
  lemma WithTableTwice(s: Store, k: Kind, t: map<int, CatalogEntity>)
    ensures WithTable(WithTable(s, k, t), k, t) == WithTable(s, k, t)
  {
  }

  // ---------------------------------------------------------------------
  // Deletes

  /**
   * Each delete of this service answers Conflict whenever the entity is
   * referenced, even when the id does not exist; NotFound when the id is
   * unreferenced and absent; otherwise it removes that row and answers OK.
   * Deleting a resource or a unit also removes, by the database's cascade,
   * its balance rows, and the other rows keep their counts. Only the OK path
   * changes the store.
   */
  lemma DeleteResourceSpec(s: Store, id: int)
    ensures var (r, t) := DeleteResource(s, id);
      && (r.status == Status.Conflict <==> ResourceInUse(s, id))
      && (r.status == Status.NotFound <==> !ResourceInUse(s, id) && id !in s.resources)
      && (r.status == Status.OK <==> !ResourceInUse(s, id) && id in s.resources)
      && (r.status != Status.OK ==> t == s)
      && (r.status == Status.OK ==> t == s.(resources := s.resources - {id}, balances := DropResource(s.balances, id)))
      && (r.status == Status.OK ==> forall p :: p in t.balances <==> p in s.balances && p.resourceId != id)
      && (r.status == Status.OK ==> forall p: Pair :: p.resourceId != id ==> Get(t.balances, p) == Get(s.balances, p))
  {
  }

  lemma DeleteUnitSpec(s: Store, id: int)
    ensures var (r, t) := DeleteUnit(s, id);
      && (r.status == Status.Conflict <==> UnitInUse(s, id))
      && (r.status == Status.NotFound <==> !UnitInUse(s, id) && id !in s.units)
      && (r.status == Status.OK <==> !UnitInUse(s, id) && id in s.units)
      && (r.status != Status.OK ==> t == s)
      && (r.status == Status.OK ==> t == s.(units := s.units - {id}, balances := DropUnit(s.balances, id)))
      && (r.status == Status.OK ==> forall p :: p in t.balances <==> p in s.balances && p.unitId != id)
      && (r.status == Status.OK ==> forall p: Pair :: p.unitId != id ==> Get(t.balances, p) == Get(s.balances, p))
  {
  }

  lemma DeleteClientSpec(s: Store, id: int)
    ensures var (r, t) := DeleteClient(s, id);
      && (r.status == Status.Conflict <==> ClientInUse(s, id))
      && (r.status == Status.NotFound <==> !ClientInUse(s, id) && id !in s.clients)
      && (r.status == Status.OK <==> !ClientInUse(s, id) && id in s.clients)
      && (r.status != Status.OK ==> t == s)
      && (r.status == Status.OK ==> t == s.(clients := s.clients - {id}))
  {
  }

  /** Whether an id is in use depends on the documents alone. */
  lemma InUseFromDocuments(s: Store, t: Store)
    requires s.receipts == t.receipts && s.shipments == t.shipments
    ensures forall j :: ResourceInUse(s, j) == ResourceInUse(t, j)
    ensures forall j :: UnitInUse(s, j) == UnitInUse(t, j)
    ensures forall j :: ClientInUse(s, j) == ClientInUse(t, j)
  {
  }

  /** No delete of this service removes a resource that some line refers to. */
  lemma DeleteResourceKeepsReferences(s: Store, id: int)
    requires References(s)
    ensures References(DeleteResource(s, id).1)
  {
    var t := DeleteResource(s, id).1;
    InUseFromDocuments(s, t);
    forall j | ResourceInUse(t, j) ensures j in t.resources {
      assert ResourceInUse(s, j);
    }
  }

  lemma DeleteUnitKeepsReferences(s: Store, id: int)
    requires References(s)
    ensures References(DeleteUnit(s, id).1)
  {
    var t := DeleteUnit(s, id).1;
    InUseFromDocuments(s, t);
    forall j | UnitInUse(t, j) ensures j in t.units {
      assert UnitInUse(s, j);
    }
  }

  lemma DeleteClientKeepsReferences(s: Store, id: int)
    requires References(s)
    ensures References(DeleteClient(s, id).1)
  {
    var t := DeleteClient(s, id).1;
    InUseFromDocuments(s, t);
    forall j | ClientInUse(t, j) ensures j in t.clients {
      assert ClientInUse(s, j);
    }
  }
}
