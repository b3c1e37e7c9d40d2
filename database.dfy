/**
 * The database the services share (Sklad.Persistence/SkladDbContext.cs): the
 * Balances table, the two document tables with their lines, and the three
 * catalog tables, each keyed by its generated id. `lastId` stands for the
 * identity columns: a new row gets an id that no row has had before.
 */
module Database {
  import opened Wrappers
  import opened Domain
  import opened Lines
  import opened Ledger

  datatype Store = Store(
    balances: Ledger,
    receipts: map<int, ReceiptDocument>,
    shipments: map<int, ShipmentDocument>,
    resources: map<int, CatalogEntity>,
    units: map<int, CatalogEntity>,
    clients: map<int, CatalogEntity>,
    lastId: int)

  /** The store of a freshly migrated database. */
  function Empty(): (s: Store)
    ensures Inv(s)
  {
    Store(map[], map[], map[], map[], map[], map[], 0)
  }

  /** The tables `DbSet<TEntity>` stands for in the generic catalog operations. */
  datatype Kind = ResourceKind | UnitKind | ClientKind

  /** The table an entity belongs in: the `TEntity` of the generic operations. */
  function KindOf(e: CatalogEntity): Kind {
    match e
    case Resource(_, _) => ResourceKind
    case Unit(_, _) => UnitKind
    case Client(_, _, _) => ClientKind
  }

  function Table(s: Store, k: Kind): map<int, CatalogEntity> {
    match k
    case ResourceKind => s.resources
    case UnitKind => s.units
    case ClientKind => s.clients
  }

  function WithTable(s: Store, k: Kind, t: map<int, CatalogEntity>): (r: Store)
    ensures Table(r, k) == t
    ensures forall k' :: k' != k ==> Table(r, k') == Table(s, k')
    ensures r.balances == s.balances && r.receipts == s.receipts && r.shipments == s.shipments
    ensures r.lastId == s.lastId
  {
    match k
    case ResourceKind => s.(resources := t)
    case UnitKind => s.(units := t)
    case ClientKind => s.(clients := t)
  }

  /** The lines a request may carry: distinct pairs and counts that are not negative. */
  predicate LinesOk(lines: seq<Line>) {
    DistinctPairs(lines) && NonNegativeCounts(lines)
  }

  /** The unique index on Name (SkladDbContext.cs:28-39). */
  predicate UniqueNames(t: map<int, CatalogEntity>) {
    forall i, j :: i in t && j in t && i != j ==> t[i].name != t[j].name
  }

  predicate IdsBelow<T>(t: map<int, T>, lastId: int) {
    forall id :: id in t ==> 0 < id <= lastId
  }

  /** The unique index on Number (SkladDbContext.cs:41-46), and numbers start at 1. */
  predicate ReceiptNumbersOk(docs: map<int, ReceiptDocument>) {
    && (forall id :: id in docs ==> docs[id].number >= 1)
    && (forall i, j :: i in docs && j in docs && i != j ==> docs[i].number != docs[j].number)
  }

  predicate ShipmentNumbersOk(docs: map<int, ShipmentDocument>) {
    && (forall id :: id in docs ==> docs[id].number >= 1)
    && (forall i, j :: i in docs && j in docs && i != j ==> docs[i].number != docs[j].number)
  }

  /**
   * What the services keep true of the store: no balance is negative, every
   * document's lines have distinct pairs and non-negative counts, document
   * numbers and catalog names are unique, and every id is below the identity
   * counter.
   */
  predicate Inv(s: Store) {
    && NonNegative(s.balances)
    && s.lastId >= 0
    && IdsBelow(s.receipts, s.lastId)
    && IdsBelow(s.shipments, s.lastId)
    && IdsBelow(s.resources, s.lastId)
    && IdsBelow(s.units, s.lastId)
    && IdsBelow(s.clients, s.lastId)
    && (forall id :: id in s.receipts ==> LinesOk(s.receipts[id].lines))
    && (forall id :: id in s.shipments ==> LinesOk(s.shipments[id].lines))
    && ReceiptNumbersOk(s.receipts)
    && ShipmentNumbersOk(s.shipments)
    && UniqueNames(s.resources)
    && UniqueNames(s.units)
    && UniqueNames(s.clients)
    && (forall id :: id in s.resources ==> s.resources[id].Resource?)
    && (forall id :: id in s.units ==> s.units[id].Unit?)
    && (forall id :: id in s.clients ==> s.clients[id].Client?)
  }

  /** Some line of `lines` is for resource `id`. */
  predicate UsesResource(lines: seq<Line>, id: int) {
    exists i :: 0 <= i < |lines| && lines[i].resourceId == id
  }

  /** Some line of `lines` is in unit `id`. */
  predicate UsesUnit(lines: seq<Line>, id: int) {
    exists i :: 0 <= i < |lines| && lines[i].unitId == id
  }

  /** Some receipt line or shipment line refers to resource `id`. */
  predicate ResourceInUse(s: Store, id: int) {
    || (exists d :: d in s.receipts && UsesResource(s.receipts[d].lines, id))
    || (exists d :: d in s.shipments && UsesResource(s.shipments[d].lines, id))
  }

  /** Some receipt line or shipment line refers to unit `id`. */
  predicate UnitInUse(s: Store, id: int) {
    || (exists d :: d in s.receipts && UsesUnit(s.receipts[d].lines, id))
    || (exists d :: d in s.shipments && UsesUnit(s.shipments[d].lines, id))
  }

  /** Some shipment document, in any state, is for client `id`. */
  predicate ClientInUse(s: Store, id: int) {
    exists d :: d in s.shipments && s.shipments[d].clientId == id
  }

  /**
   * Every line refers to a resource and a unit that exist and every shipment
   * to a client that exists: what the foreign keys of the database keep, and
   * what the delete guards never break.
   */
  ghost predicate References(s: Store) {
    && (forall id :: ResourceInUse(s, id) ==> id in s.resources)
    && (forall id :: UnitInUse(s, id) ==> id in s.units)
    && (forall id :: ClientInUse(s, id) ==> id in s.clients)
  }
}
