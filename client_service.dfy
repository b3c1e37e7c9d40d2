/**
 * ClientService (Sklad.Application/Services/ClientService.cs): the Name and
 * Address checks in front of the generic create and update, the delete
 * guards, and archive, which is CatalogService.Archive with ClientKind.
 */
module ClientService {
  import opened Wrappers
  import opened Domain
  import opened Database
  import CatalogService

  /** `char.IsWhiteSpace`: the Unicode space separators, line and paragraph separators, and U+0009-U+000D, U+0085. */
  predicate IsWhiteSpace(c: char) {
    || ('\U{9}' <= c <= '\U{D}')
    || c == '\U{20}' || c == '\U{85}' || c == '\U{A0}' || c == '\U{1680}'
    || ('\U{2000}' <= c <= '\U{200A}')
    || c == '\U{2028}' || c == '\U{2029}' || c == '\U{202F}' || c == '\U{205F}' || c == '\U{3000}'
  }

  /** `string.IsNullOrWhiteSpace`; `None` is a null string. */
  predicate IsNullOrWhiteSpace(s: Option<string>) {
    s.None? || forall i :: 0 <= i < |s.value| ==> IsWhiteSpace(s.value[i])
  }

  /**
   * The checks Create and Update make before handing on: a blank Name is
   * refused first, then a blank Address; `None` means both are filled in.
   */
  function Validate(name: Option<string>, address: Option<string>): (r: Option<Reply>)
    ensures r.None? <==> !IsNullOrWhiteSpace(name) && !IsNullOrWhiteSpace(address)
    ensures r.None? ==> name.Some? && address.Some? && |name.value| > 0 && |address.value| > 0
    ensures IsNullOrWhiteSpace(name) ==> r == Some(Reply(Status.BadRequest, MessageKey.NameRequired))
    ensures !IsNullOrWhiteSpace(name) && IsNullOrWhiteSpace(address) ==> r == Some(Reply(Status.BadRequest, MessageKey.AddressRequired))
  {
    if IsNullOrWhiteSpace(name) then Some(Reply(Status.BadRequest, MessageKey.NameRequired))
    else if IsNullOrWhiteSpace(address) then Some(Reply(Status.BadRequest, MessageKey.AddressRequired))
    else None
  }

  /** A string that is not blank holds a character that is not white space. */
  lemma NotBlankHasText(s: Option<string>)
    requires !IsNullOrWhiteSpace(s)
    ensures s.Some? && exists i :: 0 <= i < |s.value| && !IsWhiteSpace(s.value[i])
  {
  }

  /** `CreateClientAsync`: the checks, then the generic create of an Active client. */
  function Create(s: Store, name: Option<string>, address: Option<string>): (Reply, Store) {
    match Validate(name, address)
    case Some(r) => (r, s)
    case None => CatalogService.Create(s, Client(name.value, address.value, CatalogState.Active))
  }

  /**
   * `UpdateClientAsync`: the same checks in the same order; a client that
   * passes is handed to the generic update, which is not part of this model.
   */
  function UpdateReply(name: Option<string>, address: Option<string>): (r: Reply)
    ensures r == Delegated <==> Validate(name, address).None?
    ensures r != Delegated ==> r == Validate(name, address).value
  {
    match Validate(name, address)
    case Some(r) => r
    case None => Delegated
  }

  /**
   * A create that fails the checks answers their reply. One that passes is
   * the generic create: Conflict/AlreadyExists exactly when another client
   * has the name, Created otherwise. Every refusal changes nothing, and every
   * client stored has a Name and an Address that are not blank.
   */
  lemma CreateSpec(s: Store, name: Option<string>, address: Option<string>)
    requires Inv(s)
    ensures var (r, t) := Create(s, name, address);
      && (Validate(name, address).Some? ==> r == Validate(name, address).value && t == s)
      && (r.status == Status.Conflict <==> Validate(name, address).None? && CatalogService.NameTaken(s.clients, name.value))
      && (r.status == Status.Conflict ==> r.message == MessageKey.AlreadyExists)
      && (r.status == Status.Created <==> Validate(name, address).None? && !CatalogService.NameTaken(s.clients, name.value))
      && (r.status != Status.Created ==> t == s)
      && (r.status == Status.Created ==>
           && r.message == MessageKey.Created
           && t.lastId == s.lastId + 1
           && t.balances == s.balances && t.receipts == s.receipts && t.shipments == s.shipments
           && t.resources == s.resources && t.units == s.units)
      && (r.status == Status.Created ==>
           && !IsNullOrWhiteSpace(name) && !IsNullOrWhiteSpace(address)
           && t.clients == s.clients[s.lastId + 1 := Client(name.value, address.value, CatalogState.Active)])
  {
    if Validate(name, address).None? {
      CatalogService.CreateSpec(s, Client(name.value, address.value, CatalogState.Active));
    }
  }

  lemma CreatePreserves(s: Store, name: Option<string>, address: Option<string>)
    requires Inv(s)
    ensures Inv(Create(s, name, address).1)
  {
    if Validate(name, address).None? {
      CatalogService.CreatePreserves(s, Client(name.value, address.value, CatalogState.Active));
    }
  }

  /**
   * `DeleteClientAsync`: NotFound for an unknown id, Conflict/InUse while
   * any shipment document, signed or not, is for the client, otherwise the
   * row goes by way of the generic catalog delete.
   */
  function Delete(s: Store, id: int): (Reply, Store) {
    if id !in s.clients then (Reply(Status.NotFound, MessageKey.NotFound), s)
    else if ClientInUse(s, id) then (Reply(Status.Conflict, MessageKey.InUse), s)
    else (Delegated, s.(clients := s.clients - {id}))
  }

  /**
   * An unknown id is NotFound; a known one is Conflict exactly while some
   * shipment is for it; only an existing client without shipments reaches
   * the catalog delete, which removes that row alone.
   */
  lemma DeleteSpec(s: Store, id: int)
    ensures var (r, t) := Delete(s, id);
      && (r == Reply(Status.NotFound, MessageKey.NotFound) <==> id !in s.clients)
      && (r == Reply(Status.Conflict, MessageKey.InUse) <==> id in s.clients && ClientInUse(s, id))
      && (r == Delegated <==> id in s.clients && !ClientInUse(s, id))
      && (r != Delegated ==> t == s)
      && (r == Delegated ==> t == s.(clients := s.clients - {id}))
  {
  }

  lemma DeletePreserves(s: Store, id: int)
    requires Inv(s)
    ensures Inv(Delete(s, id).1)
  {
  }

  /** A client that some shipment is for is never removed. */
  lemma DeleteKeepsReferences(s: Store, id: int)
    requires References(s)
    ensures References(Delete(s, id).1)
  {
    var t := Delete(s, id).1;
    forall j | ResourceInUse(t, j) ensures j in t.resources {
      assert ResourceInUse(s, j);
    }
    forall j | UnitInUse(t, j) ensures j in t.units {
      assert UnitInUse(s, j);
    }
    forall j | ClientInUse(t, j) ensures j in t.clients {
      assert ClientInUse(s, j);
    }
  }
}
