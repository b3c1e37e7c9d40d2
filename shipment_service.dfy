/**
 * ShipmentService (Sklad.Application/Services/ShipmentService.cs) on the
 * store. A shipment is NotSigned or Signed; only signing and withdrawing
 * touch the ledger. Create, update and delete change the document alone.
 */
module ShipmentService {
  import opened Wrappers
  import opened Domain
  import opened Lines
  import opened Ledger
  import opened Documents
  import opened Database

  /** The numbers of the shipment documents. */
  function Numbers(docs: map<int, ShipmentDocument>): set<int> {
    set id | id in docs :: docs[id].number
  }

  function View(d: ShipmentDocument): DocumentView {
    DocumentView(d.number, d.date, d.lines)
  }

  /** `GetShipmentDocumentsAsync`, on the shipments keyed by id. */
  function GetShipmentDocuments(s: Store, filters: Option<DocumentFilter>): (r: map<int, ShipmentDocument>)
    ensures forall id :: id in r <==> id in s.shipments && Matches(filters, View(s.shipments[id]))
    ensures forall id :: id in r ==> r[id] == s.shipments[id]
    ensures NoFilter(filters) ==> r == s.shipments
  {
    QueryDocuments(s.shipments, View, filters)
  }

  /** `CreateShipmentDocumentAsync`: refused without lines; otherwise a NotSigned document with the next number. */
  function Create(s: Store, clientId: int, date: int, lines: seq<Line>): (Reply, Store) {
    if lines == [] then (Reply(Status.BadRequest, MessageKey.NoResourcesProvided), s)
    else
      var id := s.lastId + 1;
      var doc := ShipmentDocument(NextNumber(Numbers(s.shipments)), clientId, date, DocumentState.NotSigned, lines);
      (Reply(Status.Created, MessageKey.Created), s.(shipments := s.shipments[id := doc], lastId := id))
  }

  /** `UpdateShipmentDocumentAsync`: the lines are reconciled with the request by pair; nothing else changes. */
  function Update(s: Store, id: int, request: seq<Line>): (Reply, Store) {
    if id !in s.shipments then (Reply(Status.NotFound, MessageKey.NotFound), s)
    else if request == [] then (Reply(Status.OK, MessageKey.Updated), s)
    else
      var d := s.shipments[id];
      var lines := KeptLines(d.lines, request) + NewLines(d.lines, request);
      (Reply(Status.OK, MessageKey.Updated), s.(shipments := s.shipments[id := d.(lines := lines)]))
  }

  /** `DeleteShipmentDocumentAsync`: the document and its lines go; no balance moves. */
  function Delete(s: Store, id: int): (Reply, Store) {
    if id !in s.shipments then (Reply(Status.NotFound, MessageKey.NotFound), s)
    else (Reply(Status.NoContent, MessageKey.Deleted), s.(shipments := s.shipments - {id}))
  }

  /** `SignShipmentDocumentAsync`: the guarded debit of every line, then State = Signed. */
  function Sign(s: Store, id: int): (Reply, Store) {
    if id !in s.shipments then (Reply(Status.NotFound, MessageKey.NotFound), s)
    else
      var d := s.shipments[id];
      if d.state == DocumentState.Signed then (Reply(Status.BadRequest, MessageKey.AlreadySigned), s)
      else
        match TryDebit(s.balances, d.lines)
        case None => (Reply(Status.BadRequest, MessageKey.NotEnoughResource), s)
        case Some(b) =>
          (Reply(Status.OK, MessageKey.Signed), s.(balances := b, shipments := s.shipments[id := d.(state := DocumentState.Signed)]))
  }

  /** `WithdrawShipmentDocumentAsync`: every line's count goes back where a row exists, then State = NotSigned. */
  function Withdraw(s: Store, id: int): (Reply, Store) {
    if id !in s.shipments then (Reply(Status.NotFound, MessageKey.NotFound), s)
    else
      var d := s.shipments[id];
      if d.state == DocumentState.NotSigned then (Reply(Status.BadRequest, MessageKey.AlreadyWithdrawn), s)
      else
        (Reply(Status.OK, MessageKey.Withdrawn),
         s.(balances := Restore(s.balances, d.lines), shipments := s.shipments[id := d.(state := DocumentState.NotSigned)]))
  }

  // ---------------------------------------------------------------------
  // Create, update, delete

  /**
   * Create with no lines answers BadRequest/NoResourcesProvided and adds
   * nothing. Otherwise it files a NotSigned document for the client under a
   * fresh id, with a number above every other shipment's, and leaves the
   * ledger and every other table as they were.
   */
  lemma CreateSpec(s: Store, clientId: int, date: int, lines: seq<Line>)
    requires Inv(s)
    ensures lines == [] ==> Create(s, clientId, date, lines) == (Reply(Status.BadRequest, MessageKey.NoResourcesProvided), s)
    ensures lines != [] ==>
      var (r, t) := Create(s, clientId, date, lines);
      var id := s.lastId + 1;
      && r == Reply(Status.Created, MessageKey.Created)
      && id !in s.shipments
      && t.shipments.Keys == s.shipments.Keys + {id}
      && (forall j :: j in s.shipments ==> t.shipments[j] == s.shipments[j])
      && t.shipments[id].state == DocumentState.NotSigned && t.shipments[id].clientId == clientId
      && t.shipments[id].lines == lines && t.shipments[id].date == date
      && (forall j :: j in s.shipments ==> s.shipments[j].number < t.shipments[id].number)
      && t.balances == s.balances && t.receipts == s.receipts
      && t.resources == s.resources && t.units == s.units && t.clients == s.clients
      && t.lastId == id
  {
    if lines != [] {
      var t := Create(s, clientId, date, lines).1;
      forall j | j in s.shipments ensures s.shipments[j].number < t.shipments[s.lastId + 1].number {
        assert s.shipments[j].number in Numbers(s.shipments);
      }
    }
  }

  lemma CreatePreserves(s: Store, clientId: int, date: int, lines: seq<Line>)
    requires Inv(s) && LinesOk(lines)
    ensures Inv(Create(s, clientId, date, lines).1)
  {
    if lines != [] {
      var t := Create(s, clientId, date, lines).1;
      var n := t.shipments[s.lastId + 1].number;
      forall j | j in s.shipments ensures s.shipments[j].number < n {
        assert s.shipments[j].number in Numbers(s.shipments);
      }
      assert n >= 1 by {
        if exists z :: z in Numbers(s.shipments) {
          var z :| z in Numbers(s.shipments);
          var j :| j in s.shipments && s.shipments[j].number == z;
        }
      }
    }
  }

  /**
   * Update of a missing document answers NotFound; an empty request answers
   * OK and changes nothing. Otherwise the document's lines become exactly the
   * request's lines, each pair once, and its number, client, date and state,
   * the ledger and every other table stay as they were, whether or not the
   * document is signed.
   */
  lemma UpdateSpec(s: Store, id: int, request: seq<Line>)
    requires Inv(s) && DistinctPairs(request)
    ensures id !in s.shipments ==> Update(s, id, request) == (Reply(Status.NotFound, MessageKey.NotFound), s)
    ensures id in s.shipments && request == [] ==> Update(s, id, request) == (Reply(Status.OK, MessageKey.Updated), s)
    ensures id in s.shipments && request != [] ==>
      var d := s.shipments[id];
      var (r, t) := Update(s, id, request);
      && r == Reply(Status.OK, MessageKey.Updated)
      && t.shipments.Keys == s.shipments.Keys
      && (forall j :: j in s.shipments && j != id ==> t.shipments[j] == s.shipments[j])
      && t.shipments[id].number == d.number && t.shipments[id].clientId == d.clientId
      && t.shipments[id].date == d.date && t.shipments[id].state == d.state
      && (forall x :: x in t.shipments[id].lines <==> x in request)
      && DistinctPairs(t.shipments[id].lines)
      && t.balances == s.balances && t.receipts == s.receipts
      && t.resources == s.resources && t.units == s.units && t.clients == s.clients
      && t.lastId == s.lastId
  {
    if id in s.shipments && request != [] {
      assert LinesOk(s.shipments[id].lines);
      ReconciledLines(s.shipments[id].lines, request);
    }
  }

  lemma UpdatePreserves(s: Store, id: int, request: seq<Line>)
    requires Inv(s) && LinesOk(request)
    ensures Inv(Update(s, id, request).1)
  {
    if id in s.shipments && request != [] {
      var d := s.shipments[id];
      assert LinesOk(d.lines);
      ReconciledLines(d.lines, request);
      CountsFrom(KeptLines(d.lines, request) + NewLines(d.lines, request), request);
    }
  }

  /**
   * Delete of a missing document answers NotFound; otherwise the document
   * goes and the ledger stays as it was, even when the document was signed.
   */
  lemma DeleteSpec(s: Store, id: int)
    ensures id !in s.shipments ==> Delete(s, id) == (Reply(Status.NotFound, MessageKey.NotFound), s)
    ensures id in s.shipments ==>
      var (r, t) := Delete(s, id);
      && r == Reply(Status.NoContent, MessageKey.Deleted)
      && id !in t.shipments && t.shipments.Keys == s.shipments.Keys - {id}
      && (forall j :: j in t.shipments ==> t.shipments[j] == s.shipments[j])
      && t.balances == s.balances && t.receipts == s.receipts
      && t.resources == s.resources && t.units == s.units && t.clients == s.clients
      && t.lastId == s.lastId
  {
  }

  lemma DeletePreserves(s: Store, id: int)
    requires Inv(s)
    ensures Inv(Delete(s, id).1)
  {
  }

  // ---------------------------------------------------------------------
  // Sign and withdraw

  /**
   * Sign of a missing document answers NotFound, of a signed one
   * AlreadySigned. Otherwise it succeeds exactly when every line's pair has
   * a row holding at least the line's count; a failure changes nothing, and
   * a success takes each pair's total off its row, adds or drops no row,
   * and marks the document Signed.
   */
  lemma SignSpec(s: Store, id: int)
    requires Inv(s)
    ensures id !in s.shipments ==> Sign(s, id) == (Reply(Status.NotFound, MessageKey.NotFound), s)
    ensures id in s.shipments && s.shipments[id].state == DocumentState.Signed ==>
      Sign(s, id) == (Reply(Status.BadRequest, MessageKey.AlreadySigned), s)
    ensures id in s.shipments && s.shipments[id].state == DocumentState.NotSigned ==>
      var d := s.shipments[id];
      var (r, t) := Sign(s, id);
      && (r.status == Status.OK <==> Covers(s.balances, d.lines))
      && (r.status != Status.OK ==> r == Reply(Status.BadRequest, MessageKey.NotEnoughResource) && t == s)
      && (r.status == Status.OK ==>
           && r.message == MessageKey.Signed
           && t.shipments == s.shipments[id := d.(state := DocumentState.Signed)]
           && t.balances.Keys == s.balances.Keys
           && (forall p :: p in s.balances ==> t.balances[p] == s.balances[p] - Sum(d.lines, p))
           && t.receipts == s.receipts && t.lastId == s.lastId
           && t.resources == s.resources && t.units == s.units && t.clients == s.clients)
  {
    if id in s.shipments && s.shipments[id].state == DocumentState.NotSigned {
      var d := s.shipments[id];
      assert LinesOk(d.lines);
      TryDebitSucceeds(s.balances, d.lines);
      if TryDebit(s.balances, d.lines).Some? {
        forall p | p in s.balances ensures TryDebit(s.balances, d.lines).value[p] == s.balances[p] - Sum(d.lines, p) {
          TryDebitAt(s.balances, d.lines, p);
        }
      }
    }
  }

  lemma SignPreserves(s: Store, id: int)
    requires Inv(s)
    ensures Inv(Sign(s, id).1)
  {
  }

  /**
   * Withdraw of a missing document answers NotFound, of an unsigned one
   * AlreadyWithdrawn; both change nothing. Otherwise each pair that has a
   * row gets the document's total for it back, a pair without a row is
   * skipped, and the document is NotSigned again.
   */
  lemma WithdrawSpec(s: Store, id: int)
    ensures id !in s.shipments ==> Withdraw(s, id) == (Reply(Status.NotFound, MessageKey.NotFound), s)
    ensures id in s.shipments && s.shipments[id].state == DocumentState.NotSigned ==>
      Withdraw(s, id) == (Reply(Status.BadRequest, MessageKey.AlreadyWithdrawn), s)
    ensures id in s.shipments && s.shipments[id].state == DocumentState.Signed ==>
      var d := s.shipments[id];
      var (r, t) := Withdraw(s, id);
      && r == Reply(Status.OK, MessageKey.Withdrawn)
      && t.shipments == s.shipments[id := d.(state := DocumentState.NotSigned)]
      && t.balances.Keys == s.balances.Keys
      && (forall p :: p in s.balances ==> t.balances[p] == s.balances[p] + Sum(d.lines, p))
      && t.receipts == s.receipts && t.lastId == s.lastId
      && t.resources == s.resources && t.units == s.units && t.clients == s.clients
  {
    if id in s.shipments && s.shipments[id].state == DocumentState.Signed {
      var d := s.shipments[id];
      forall p | p in s.balances ensures Restore(s.balances, d.lines)[p] == s.balances[p] + Sum(d.lines, p) {
        RestoreAt(s.balances, d.lines, p);
      }
    }
  }

  lemma WithdrawPreserves(s: Store, id: int)
    requires Inv(s)
    ensures Inv(Withdraw(s, id).1)
  {
    if id in s.shipments && s.shipments[id].state == DocumentState.Signed {
      assert LinesOk(s.shipments[id].lines);
    }
  }

  /** A sign that succeeds, followed by a withdraw, gives back the store exactly, so the document can be signed again. */
  lemma SignThenWithdraw(s: Store, id: int)
    requires Sign(s, id).0.status == Status.OK
    ensures Withdraw(Sign(s, id).1, id) == (Reply(Status.OK, MessageKey.Withdrawn), s)
    ensures Sign(Withdraw(Sign(s, id).1, id).1, id) == Sign(s, id)
  {
    var d := s.shipments[id];
    DebitThenRestore(s.balances, d.lines);
    assert s.shipments[id := d.(state := DocumentState.Signed)][id := d.(state := DocumentState.Signed).(state := DocumentState.NotSigned)] == s.shipments;
  }

  /** Signing twice debits once: the second sign answers AlreadySigned and changes nothing. */
  lemma SignTwice(s: Store, id: int)
    requires Sign(s, id).0.status == Status.OK
    ensures Sign(Sign(s, id).1, id) == (Reply(Status.BadRequest, MessageKey.AlreadySigned), Sign(s, id).1)
  {
  }
}
