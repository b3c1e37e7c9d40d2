/**
 * The services as they run: one object holding the tables, whose methods
 * walk a document's lines and change the balances step by step, as the
 * service methods do with the tracked `Balance` rows. Each method is proved
 * to leave exactly the store, and answer exactly the reply, that the
 * corresponding function of the service modules describes, and to keep the
 * store invariant. Operations that can fail part-way stage their changes in
 * locals and write them to the fields only on success, which is what
 * returning before `SaveChangesAsync` amounts to.
 */
module Sklad {
  import opened Wrappers
  import opened Domain
  import opened Lines
  import opened Ledger
  import opened Documents
  import opened Database
  import ReceiptService
  import ShipmentService
  import CatalogService
  import ResourceService
  import UnitService
  import ClientService

  class Warehouse {
    var balances: Ledger
    var receipts: map<int, ReceiptDocument>
    var shipments: map<int, ShipmentDocument>
    var resources: map<int, CatalogEntity>
    var units: map<int, CatalogEntity>
    var clients: map<int, CatalogEntity>
    var lastId: int

    /** The tables as a value. */
    function State(): Store
      reads this
    {
      Store(balances, receipts, shipments, resources, units, clients, lastId)
    }

    predicate Valid()
      reads this
    {
      Inv(State())
    }

    /** An empty database. */
    constructor ()
      ensures State() == Database.Empty() && Valid()
    {
      balances := map[];
      receipts := map[];
      shipments := map[];
      resources := map[];
      units := map[];
      clients := map[];
      lastId := 0;
    }

    // -------------------------------------------------------------------
    // Receipts

    /** `CreateReceiptDocumentAsync`. */
    method CreateReceipt(date: int, lines: seq<Line>) returns (r: Reply)
      requires Valid() && LinesOk(lines)
      modifies this
      ensures (r, State()) == ReceiptService.Create(old(State()), date, lines)
      ensures Valid()
    {
      var i := 0;
      while i < |lines|
        invariant 0 <= i <= |lines|
        invariant State() == old(State()).(balances := Credit(old(balances), lines[..i]))
      {
        var l := lines[i];
        var count := if l.Key() in balances then balances[l.Key()] else 0;
        balances := balances[l.Key() := count + l.count];
        assert lines[..i + 1][..i] == lines[..i];
        i := i + 1;
      }
      assert lines[..i] == lines;
      var id := lastId + 1;
      receipts := receipts[id := ReceiptDocument(NextNumber(ReceiptService.Numbers(receipts)), date, lines)];
      lastId := id;
      r := Reply(Status.Created, MessageKey.Created);
      ReceiptService.CreatePreserves(old(State()), date, lines);
    }

    /**
     * `UpdateReceiptDocumentAsync`, with its second loop corrected so that a
     * new line's count is added to an existing row too (see
     * `ReceiptService.PlaceNewLines` for the loop as written).
     */
    method UpdateReceipt(id: int, request: seq<Line>) returns (r: Reply)
      requires Valid() && LinesOk(request)
      modifies this
      ensures (r, State()) == ReceiptService.UpdateIntended(old(State()), id, request)
      ensures Valid()
    {
      if id !in receipts {
        return Reply(Status.NotFound, MessageKey.NotFound);
      }
      if request == [] {
        return Reply(Status.OK, MessageKey.Updated);
      }
      var d := receipts[id];
      var reconciled, kept := ReconcileOld(d.lines, request);
      if reconciled.None? {
        return Reply(Status.BadRequest, MessageKey.NotEnoughResource);
      }
      var b, added := CreditNewLines(reconciled.value, d.lines, request);
      balances := b;
      receipts := receipts[id := d.(lines := kept + added)];
      r := Reply(Status.OK, MessageKey.Updated);
      ReceiptService.UpdatePreserves(old(State()), id, request);
    }

    /**
     * The first update loop: every old line is matched against the request,
     * its row moved by the difference or by its whole count, and the loop
     * stops at the first row that would go negative.
     */
    method ReconcileOld(lines: seq<Line>, request: seq<Line>) returns (b: Option<Ledger>, kept: seq<Line>)
      ensures b == ReceiptService.ReconcileOld(balances, lines, request)
      ensures b.Some? ==> kept == KeptLines(lines, request)
    {
      var staged := balances;
      kept := [];
      var i := 0;
      while i < |lines|
        invariant 0 <= i <= |lines|
        invariant ReceiptService.ReconcileOld(balances, lines[..i], request) == Some(staged)
        invariant kept == KeptLines(lines[..i], request)
      {
        var l := lines[i];
        assert lines[..i + 1][..i] == lines[..i];
        var current := if l.Key() in staged then staged[l.Key()] else 0;
        var updated := Find(request, l.Key());
        if updated.Some? {
          var delta := updated.value.count - l.count;
          if delta < 0 && current < -delta {
            ReceiptService.ReconcileOldFailsFrom(balances, lines, request, i + 1);
            return None, kept;
          }
          staged := staged[l.Key() := current + delta];
          kept := kept + [l.(count := updated.value.count)];
        } else {
          if current < l.count {
            ReceiptService.ReconcileOldFailsFrom(balances, lines, request, i + 1);
            return None, kept;
          }
          staged := staged[l.Key() := current - l.count];
        }
        i := i + 1;
      }
      assert lines[..i] == lines;
      b := Some(staged);
    }

    /**
     * The second update loop: request lines whose pair the document lacks
     * are collected, and each is credited to its pair's row, which is
     * created at 0 when there is none.
     */
    method CreditNewLines(reconciled: Ledger, lines: seq<Line>, request: seq<Line>) returns (b: Ledger, added: seq<Line>)
      ensures b == ReceiptService.PlaceNewLinesIntended(reconciled, lines, request)
      ensures added == NewLines(lines, request)
    {
      b := reconciled;
      added := [];
      var j := 0;
      while j < |request|
        invariant 0 <= j <= |request|
        invariant added == NewLines(lines, request[..j])
        invariant b == Credit(reconciled, added)
      {
        var n := request[j];
        assert request[..j + 1][..j] == request[..j];
        if !HasPair(lines, n.Key()) {
          var count := if n.Key() in b then b[n.Key()] else 0;
          b := b[n.Key() := count + n.count];
          assert (added + [n])[..|added|] == added;
          added := added + [n];
        }
        j := j + 1;
      }
      assert request[..j] == request;
    }

    /** `DeleteReceiptDocument`. */
    method DeleteReceipt(id: int) returns (r: Reply)
      requires Valid()
      modifies this
      ensures (r, State()) == ReceiptService.Delete(old(State()), id)
      ensures Valid()
    {
      if id !in receipts {
        return Reply(Status.NotFound, MessageKey.NotFound);
      }
      var lines := receipts[id].lines;
      var b := Debit(lines);
      if b.None? {
        return Reply(Status.BadRequest, MessageKey.NotEnoughResource);
      }
      balances := b.value;
      receipts := receipts - {id};
      r := Reply(Status.NoContent, MessageKey.Deleted);
      ReceiptService.DeletePreserves(old(State()), id);
    }

    /**
     * The guarded debit loop shared by receipt delete and shipment sign: it
     * stops at the first line whose pair has no row or too small a count.
     */
    method Debit(lines: seq<Line>) returns (b: Option<Ledger>)
      ensures b == TryDebit(balances, lines)
    {
      var staged := balances;
      var i := 0;
      while i < |lines|
        invariant 0 <= i <= |lines|
        invariant TryDebit(balances, lines[..i]) == Some(staged)
      {
        var l := lines[i];
        assert lines[..i + 1][..i] == lines[..i];
        if l.Key() !in staged || staged[l.Key()] < l.count {
          TryDebitFailsFrom(balances, lines, i + 1);
          return None;
        }
        staged := staged[l.Key() := staged[l.Key()] - l.count];
        i := i + 1;
      }
      assert lines[..i] == lines;
      return Some(staged);
    }

    // -------------------------------------------------------------------
    // Shipments

    /** `CreateShipmentDocumentAsync`. */
    method CreateShipment(clientId: int, date: int, lines: seq<Line>) returns (r: Reply)
      requires Valid() && LinesOk(lines)
      modifies this
      ensures (r, State()) == ShipmentService.Create(old(State()), clientId, date, lines)
      ensures Valid()
    {
      if lines == [] {
        return Reply(Status.BadRequest, MessageKey.NoResourcesProvided);
      }
      var id := lastId + 1;
      var number := NextNumber(ShipmentService.Numbers(shipments));
      shipments := shipments[id := ShipmentDocument(number, clientId, date, DocumentState.NotSigned, lines)];
      lastId := id;
      r := Reply(Status.Created, MessageKey.Created);
      ShipmentService.CreatePreserves(old(State()), clientId, date, lines);
    }

    /** `UpdateShipmentDocumentAsync`. */
    method UpdateShipment(id: int, request: seq<Line>) returns (r: Reply)
      requires Valid() && LinesOk(request)
      modifies this
      ensures (r, State()) == ShipmentService.Update(old(State()), id, request)
      ensures Valid()
    {
      if id !in shipments {
        return Reply(Status.NotFound, MessageKey.NotFound);
      }
      if request == [] {
        return Reply(Status.OK, MessageKey.Updated);
      }
      var d := shipments[id];
      var kept: seq<Line> := [];
      var i := 0;
      while i < |d.lines|
        invariant 0 <= i <= |d.lines|
        invariant kept == KeptLines(d.lines[..i], request)
      {
        var l := d.lines[i];
        assert d.lines[..i + 1][..i] == d.lines[..i];
        var updated := Find(request, l.Key());
        if updated.Some? {
          kept := kept + [l.(count := updated.value.count)];
        }
        i := i + 1;
      }
      assert d.lines[..i] == d.lines;
      var added: seq<Line> := [];
      var j := 0;
      while j < |request|
        invariant 0 <= j <= |request|
        invariant added == NewLines(d.lines, request[..j])
      {
        var n := request[j];
        assert request[..j + 1][..j] == request[..j];
        if !HasPair(d.lines, n.Key()) {
          added := added + [n];
        }
        j := j + 1;
      }
      assert request[..j] == request;
      shipments := shipments[id := d.(lines := kept + added)];
      r := Reply(Status.OK, MessageKey.Updated);
      ShipmentService.UpdatePreserves(old(State()), id, request);
    }

    /** `DeleteShipmentDocumentAsync`. */
    method DeleteShipment(id: int) returns (r: Reply)
      requires Valid()
      modifies this
      ensures (r, State()) == ShipmentService.Delete(old(State()), id)
      ensures Valid()
    {
      if id !in shipments {
        return Reply(Status.NotFound, MessageKey.NotFound);
      }
      shipments := shipments - {id};
      r := Reply(Status.NoContent, MessageKey.Deleted);
      ShipmentService.DeletePreserves(old(State()), id);
    }

    /** `SignShipmentDocumentAsync`. */
    method SignShipment(id: int) returns (r: Reply)
      requires Valid()
      modifies this
      ensures (r, State()) == ShipmentService.Sign(old(State()), id)
      ensures Valid()
    {
      if id !in shipments {
        return Reply(Status.NotFound, MessageKey.NotFound);
      }
      var d := shipments[id];
      if d.state == DocumentState.Signed {
        return Reply(Status.BadRequest, MessageKey.AlreadySigned);
      }
      var b := Debit(d.lines);
      if b.None? {
        return Reply(Status.BadRequest, MessageKey.NotEnoughResource);
      }
      balances := b.value;
      shipments := shipments[id := d.(state := DocumentState.Signed)];
      r := Reply(Status.OK, MessageKey.Signed);
      ShipmentService.SignPreserves(old(State()), id);
    }

    /** `WithdrawShipmentDocumentAsync`: the counts go back row by row, in place. */
    method WithdrawShipment(id: int) returns (r: Reply)
      requires Valid()
      modifies this
      ensures (r, State()) == ShipmentService.Withdraw(old(State()), id)
      ensures Valid()
    {
      if id !in shipments {
        return Reply(Status.NotFound, MessageKey.NotFound);
      }
      var d := shipments[id];
      if d.state == DocumentState.NotSigned {
        return Reply(Status.BadRequest, MessageKey.AlreadyWithdrawn);
      }
      var i := 0;
      while i < |d.lines|
        invariant 0 <= i <= |d.lines|
        invariant State() == old(State()).(balances := Restore(old(balances), d.lines[..i]))
      {
        var l := d.lines[i];
        assert d.lines[..i + 1][..i] == d.lines[..i];
        if l.Key() in balances {
          balances := balances[l.Key() := balances[l.Key()] + l.count];
        }
        i := i + 1;
      }
      assert d.lines[..i] == d.lines;
      shipments := shipments[id := d.(state := DocumentState.NotSigned)];
      r := Reply(Status.OK, MessageKey.Withdrawn);
      ShipmentService.WithdrawPreserves(old(State()), id);
    }

    // -------------------------------------------------------------------
    // Catalog

    /** Writes one catalog table back. */
    method SetTable(k: Kind, t: map<int, CatalogEntity>)
      modifies this
      ensures State() == WithTable(old(State()), k, t)
    {
      match k
      case ResourceKind => resources := t;
      case UnitKind => units := t;
      case ClientKind => clients := t;
    }

    /** `CreateCatalogEntityAsync`, the path of every catalog create. */
    method CreateCatalogEntity(e: CatalogEntity) returns (r: Reply)
      requires Valid()
      modifies this
      ensures (r, State()) == CatalogService.Create(old(State()), e)
      ensures Valid()
    {
      var k := KindOf(e);
      var t := Table(State(), k);
      if CatalogService.NameTaken(t, e.name) {
        return Reply(Status.Conflict, CatalogService.CreateMessage(Status.Conflict));
      }
      var id := lastId + 1;
      SetTable(k, t[id := e.(state := CatalogState.Active)]);
      lastId := id;
      r := Reply(Status.Created, CatalogService.CreateMessage(Status.Created));
      CatalogService.CreatePreserves(old(State()), e);
    }

    /** `ArchiveCatalogEntityAsync`, the path of every catalog archive. */
    method ArchiveCatalogEntity(k: Kind, name: string) returns (r: Reply)
      requires Valid()
      modifies this
      ensures (r, State()) == CatalogService.Archive(old(State()), k, name)
      ensures Valid()
    {
      var t := Table(State(), k);
      var found := CatalogService.FindByName(t, name);
      if found.None? {
        return Reply(Status.NotFound, CatalogService.ArchiveMessage(Status.NotFound));
      }
      var id := found.value;
      SetTable(k, t[id := t[id].(state := CatalogState.Archived)]);
      r := Reply(Status.OK, CatalogService.ArchiveMessage(Status.OK));
      CatalogService.ArchivePreserves(old(State()), k, name);
    }

    /** `CreateClientAsync`: the Name and Address checks, then the catalog create. */
    method CreateClient(name: Option<string>, address: Option<string>) returns (r: Reply)
      requires Valid()
      modifies this
      ensures (r, State()) == ClientService.Create(old(State()), name, address)
      ensures Valid()
    {
      var refused := ClientService.Validate(name, address);
      if refused.Some? {
        return refused.value;
      }
      r := CreateCatalogEntity(Client(name.value, address.value, CatalogState.Active));
    }

    /** `ResourceService.DeleteResourceAsync`. */
    method DeleteResource(id: int) returns (r: Reply)
      requires Valid()
      modifies this
      ensures (r, State()) == ResourceService.Delete(old(State()), id)
      ensures Valid()
    {
      if id !in resources {
        return Reply(Status.NotFound, MessageKey.NotFound);
      }
      if ResourceInUse(State(), id) {
        return Reply(Status.Conflict, MessageKey.InUse);
      }
      resources := resources - {id};
      balances := DropResource(balances, id);
      r := Delegated;
    }

    /** `UnitService.DeleteUnitAsync`. */
    method DeleteUnit(id: int) returns (r: Reply)
      requires Valid()
      modifies this
      ensures (r, State()) == UnitService.Delete(old(State()), id)
      ensures Valid()
    {
      if id !in units {
        return Reply(Status.NotFound, MessageKey.NotFound);
      }
      if UnitInUse(State(), id) {
        return Reply(Status.Conflict, MessageKey.InUse);
      }
      units := units - {id};
      balances := DropUnit(balances, id);
      r := Delegated;
    }

    /** `ClientService.DeleteClientAsync`. */
    method DeleteClient(id: int) returns (r: Reply)
      requires Valid()
      modifies this
      ensures (r, State()) == ClientService.Delete(old(State()), id)
      ensures Valid()
    {
      if id !in clients {
        return Reply(Status.NotFound, MessageKey.NotFound);
      }
      if ClientInUse(State(), id) {
        return Reply(Status.Conflict, MessageKey.InUse);
      }
      clients := clients - {id};
      r := Delegated;
    }

    /** `CatalogService.DeleteResourceAsync`: references are checked before existence. */
    method CatalogDeleteResource(id: int) returns (r: Reply)
      requires Valid()
      modifies this
      ensures (r, State()) == CatalogService.DeleteResource(old(State()), id)
      ensures Valid()
    {
      if ResourceInUse(State(), id) {
        return Reply(Status.Conflict, MessageKey.InUse);
      }
      if id !in resources {
        return Reply(Status.NotFound, MessageKey.NotFound);
      }
      resources := resources - {id};
      balances := DropResource(balances, id);
      r := Reply(Status.OK, MessageKey.Deleted);
    }

    /** `CatalogService.DeleteUnitOfMeasurementAsync`. */
    method CatalogDeleteUnit(id: int) returns (r: Reply)
      requires Valid()
      modifies this
      ensures (r, State()) == CatalogService.DeleteUnit(old(State()), id)
      ensures Valid()
    {
      if UnitInUse(State(), id) {
        return Reply(Status.Conflict, MessageKey.InUse);
      }
      if id !in units {
        return Reply(Status.NotFound, MessageKey.NotFound);
      }
      units := units - {id};
      balances := DropUnit(balances, id);
      r := Reply(Status.OK, MessageKey.Deleted);
    }

    /** `CatalogService.DeleteClientAsync`. */
    method CatalogDeleteClient(id: int) returns (r: Reply)
      requires Valid()
      modifies this
      ensures (r, State()) == CatalogService.DeleteClient(old(State()), id)
      ensures Valid()
    {
      if ClientInUse(State(), id) {
        return Reply(Status.Conflict, MessageKey.InUse);
      }
      if id !in clients {
        return Reply(Status.NotFound, MessageKey.NotFound);
      }
      clients := clients - {id};
      r := Reply(Status.OK, MessageKey.Deleted);
    }
  }
}
