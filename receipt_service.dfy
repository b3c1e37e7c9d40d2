/**
 * ReceiptService (Sklad.Application/Services/ReceiptService.cs) on the store:
 * the list query, create, update and delete of receipt documents. Each
 * operation answers a reply and the store it leaves behind; every failure
 * returns before `SaveChangesAsync`, so it leaves the store as it was.
 */
module ReceiptService {
  import opened Wrappers
  import opened Domain
  import opened Lines
  import opened Ledger
  import opened Documents
  import opened Database

  /** The numbers of the receipt documents (what `GetDocumentNumber` takes the maximum of). */
  function Numbers(docs: map<int, ReceiptDocument>): set<int> {
    set id | id in docs :: docs[id].number
  }

  function View(d: ReceiptDocument): DocumentView {
    DocumentView(d.number, d.date, d.lines)
  }

  /** `GetReceiptDocumentsAsync`, on the receipts keyed by id. */
  function GetReceiptDocuments(s: Store, filters: Option<DocumentFilter>): (r: map<int, ReceiptDocument>)
    ensures forall id :: id in r <==> id in s.receipts && Matches(filters, View(s.receipts[id]))
    ensures forall id :: id in r ==> r[id] == s.receipts[id]
    ensures NoFilter(filters) ==> r == s.receipts
  {
    QueryDocuments(s.receipts, View, filters)
  }

  /** `CreateReceiptDocumentAsync`: a new document with the next number, its lines, and each line credited. */
  function Create(s: Store, date: int, lines: seq<Line>): (Reply, Store) {
    var id := s.lastId + 1;
    var doc := ReceiptDocument(NextNumber(Numbers(s.receipts)), date, lines);
    (Reply(Status.Created, MessageKey.Created),
     s.(balances := Credit(s.balances, lines), receipts := s.receipts[id := doc], lastId := id))
  }

  /** The count a request gives to the pair of line `l`, or 0 when the request drops it. */
  function Target(request: seq<Line>, l: Line): int {
    match Find(request, l.Key())
    case Some(u) => u.count
    case None => 0
  }

  /**
   * One step of the first update loop (ReceiptService.cs:152-203) for the old
   * line `l`: a line the request names again moves the balance by the change
   * in count, failing when a decrease is larger than the balance; a line the
   * request drops takes its whole count off, failing when the balance is
   * smaller. A missing row counts as a row with 0.
   */
  function ReconcileLine(b: Ledger, l: Line, request: seq<Line>): Option<Ledger> {
    var current := Get(b, l.Key());
    match Find(request, l.Key())
    case Some(u) =>
      var delta := u.count - l.count;
      if delta < 0 && current < -delta then None else Some(b[l.Key() := current + delta])
    case None =>
      if current < l.count then None else Some(b[l.Key() := current - l.count])
  }

  /** The first update loop over all old lines; `None` is the NotEnoughResource return. */
  function ReconcileOld(b: Ledger, lines: seq<Line>, request: seq<Line>): (r: Option<Ledger>)
    ensures NonNegative(b) && r.Some? ==> NonNegative(r.value)
    decreases |lines|
  {
    if lines == [] then Some(b)
    else
      match ReconcileOld(b, lines[..|lines| - 1], request)
      case None => None
      case Some(before) => ReconcileLine(before, lines[|lines| - 1], request)
  }

  /**
   * The second update loop as written (ReceiptService.cs:205-217): a request
   * line whose pair is new to the document creates a balance row holding its
   * count when the pair has no row, and leaves an existing row as it is.
   */
  function PlaceNewLines(b: Ledger, lines: seq<Line>, request: seq<Line>): (r: Ledger)
    ensures NonNegative(b) && NonNegativeCounts(request) ==> NonNegative(r)
    decreases |request|
  {
    if request == [] then b
    else
      var n := request[|request| - 1];
      var before := PlaceNewLines(b, lines, request[..|request| - 1]);
      if HasPair(lines, n.Key()) || n.Key() in before then before
      else before[n.Key() := n.count]
  }

  /** The second loop as evidently intended: every new line is credited like a line of a new receipt. */
  function PlaceNewLinesIntended(b: Ledger, lines: seq<Line>, request: seq<Line>): (r: Ledger)
    ensures NonNegative(b) && NonNegativeCounts(request) ==> NonNegative(r)
  {
    NewMoves(request, lines);
    Credit(b, NewLines(lines, request))
  }

  /**
   * `UpdateReceiptDocumentAsync`, with the second loop given as a parameter
   * so that the code as written and the corrected code share the rest.
   */
  function UpdateWith(s: Store, id: int, request: seq<Line>, place: (Ledger, seq<Line>, seq<Line>) -> Ledger): (Reply, Store) {
    if id !in s.receipts then (Reply(Status.NotFound, MessageKey.NotFound), s)
    else if request == [] then (Reply(Status.OK, MessageKey.Updated), s)
    else
      var d := s.receipts[id];
      match ReconcileOld(s.balances, d.lines, request)
      case None => (Reply(Status.BadRequest, MessageKey.NotEnoughResource), s)
      case Some(b) =>
        var lines := KeptLines(d.lines, request) + NewLines(d.lines, request);
        (Reply(Status.OK, MessageKey.Updated),
         s.(balances := place(b, d.lines, request), receipts := s.receipts[id := d.(lines := lines)]))
  }

  /** Update as written. */
  function Update(s: Store, id: int, request: seq<Line>): (Reply, Store) {
    UpdateWith(s, id, request, PlaceNewLines)
  }

  /** Update as evidently intended: new lines are credited. */
  function UpdateIntended(s: Store, id: int, request: seq<Line>): (Reply, Store) {
    UpdateWith(s, id, request, PlaceNewLinesIntended)
  }

  /** `DeleteReceiptDocument`: the guarded debit of every line, then the document goes. */
  function Delete(s: Store, id: int): (Reply, Store) {
    if id !in s.receipts then (Reply(Status.NotFound, MessageKey.NotFound), s)
    else
      match TryDebit(s.balances, s.receipts[id].lines)
      case None => (Reply(Status.BadRequest, MessageKey.NotEnoughResource), s)
      case Some(b) => (Reply(Status.NoContent, MessageKey.Deleted), s.(balances := b, receipts := s.receipts - {id}))
  }

  /** Helper: NewLines only takes lines from the request, so their counts are the request's. */
  lemma NewMoves(request: seq<Line>, lines: seq<Line>)
    ensures NonNegativeCounts(request) ==> NonNegativeCounts(NewLines(lines, request))
  {
    NewMembers(lines, request);
    if NonNegativeCounts(request) {
      CountsFrom(NewLines(lines, request), request);
    }
  }

  // ---------------------------------------------------------------------
  // Create

  /**
   * Create answers Created, files the lines under a fresh id with a number
   * above every other receipt's, credits each pair with its total, creates
   * the rows that were missing, and leaves every other table as it was.
   */
  lemma CreateSpec(s: Store, date: int, lines: seq<Line>)
    requires Inv(s)
    ensures var (r, t) := Create(s, date, lines);
      && r == Reply(Status.Created, MessageKey.Created)
      && s.lastId + 1 !in s.receipts
      && t.receipts.Keys == s.receipts.Keys + {s.lastId + 1}
      && (forall id :: id in s.receipts ==> t.receipts[id] == s.receipts[id])
      && t.receipts[s.lastId + 1].lines == lines && t.receipts[s.lastId + 1].date == date
      && (forall id :: id in s.receipts ==> s.receipts[id].number < t.receipts[s.lastId + 1].number)
      && (forall p :: Get(t.balances, p) == Get(s.balances, p) + Sum(lines, p))
      && (forall p :: p in t.balances <==> p in s.balances || HasPair(lines, p))
      && t.shipments == s.shipments && t.resources == s.resources && t.units == s.units && t.clients == s.clients
      && t.lastId == s.lastId + 1
  {
    var t := Create(s, date, lines).1;
    forall p ensures Get(t.balances, p) == Get(s.balances, p) + Sum(lines, p)
                  && (p in t.balances <==> p in s.balances || HasPair(lines, p)) {
      CreditAt(s.balances, lines, p);
    }
    forall id | id in s.receipts ensures s.receipts[id].number < t.receipts[s.lastId + 1].number {
      assert s.receipts[id].number in Numbers(s.receipts);
    }
  }

  lemma CreatePreserves(s: Store, date: int, lines: seq<Line>)
    requires Inv(s) && LinesOk(lines)
    ensures Inv(Create(s, date, lines).1)
  {
    var t := Create(s, date, lines).1;
    var n := t.receipts[s.lastId + 1].number;
    forall id | id in s.receipts ensures s.receipts[id].number < n {
      assert s.receipts[id].number in Numbers(s.receipts);
    }
    assert n >= 1 by {
      if exists z :: z in Numbers(s.receipts) {
        var z :| z in Numbers(s.receipts);
        var id :| id in s.receipts && s.receipts[id].number == z;
      }
    }
  }

  // ---------------------------------------------------------------------
  // Update

  /** The balance each pair ends with after the first loop: its kept count replaces its old count. */
  lemma {:induction false} ReconcileOldAt(b: Ledger, lines: seq<Line>, request: seq<Line>, p: Pair)
    requires ReconcileOld(b, lines, request).Some?
    ensures Get(ReconcileOld(b, lines, request).value, p) == Get(b, p) + Sum(KeptLines(lines, request), p) - Sum(lines, p)
    ensures p in ReconcileOld(b, lines, request).value <==> p in b || HasPair(lines, p)
    decreases |lines|
  {
    if lines != [] {
      ReconcileOldAt(b, lines[..|lines| - 1], request, p);
      HasPairLast(lines, p);
      var l := lines[|lines| - 1];
      match Find(request, l.Key())
      case Some(u) =>
        assert KeptLines(lines, request) == KeptLines(lines[..|lines| - 1], request) + [l.(count := u.count)];
        SumAppend(KeptLines(lines[..|lines| - 1], request), [l.(count := u.count)], p);
        assert Sum([l.(count := u.count)], p) == if l.Key() == p then u.count else 0 by {
          assert [l.(count := u.count)][..0] == [];
        }
      case None =>
        assert KeptLines(lines, request) == KeptLines(lines[..|lines| - 1], request) + [];
        assert KeptLines(lines[..|lines| - 1], request) + [] == KeptLines(lines[..|lines| - 1], request);
    }
  }

  /** Once the first loop fails on a prefix of the old lines it fails on all of them. */
  lemma {:induction false} ReconcileOldFailsFrom(b: Ledger, lines: seq<Line>, request: seq<Line>, i: int)
    requires 0 <= i <= |lines| && ReconcileOld(b, lines[..i], request).None?
    ensures ReconcileOld(b, lines, request).None?
    decreases |lines| - i
  {
    if i < |lines| {
      assert lines[..i + 1][..i] == lines[..i];
      ReconcileOldFailsFrom(b, lines, request, i + 1);
    } else {
      assert lines[..i] == lines;
    }
  }

  /** No old line's pair would end below zero once moved to its requested count. */
  predicate Fits(b: Ledger, lines: seq<Line>, request: seq<Line>) {
    forall i :: 0 <= i < |lines| ==> Get(b, lines[i].Key()) + Target(request, lines[i]) - lines[i].count >= 0
  }

  lemma FitsLast(b: Ledger, lines: seq<Line>, request: seq<Line>)
    requires lines != []
    ensures var l := lines[|lines| - 1];
      Fits(b, lines, request) <==> Fits(b, lines[..|lines| - 1], request) && Get(b, l.Key()) + Target(request, l) - l.count >= 0
  {
    var front := lines[..|lines| - 1];
    assert forall i :: 0 <= i < |front| ==> lines[i] == front[i];
  }

  /** A pair no old line has keeps its balance through the first loop. */
  lemma ReconcileOldUntouched(b: Ledger, lines: seq<Line>, request: seq<Line>, p: Pair)
    requires ReconcileOld(b, lines, request).Some? && DistinctPairs(lines) && !HasPair(lines, p)
    ensures Get(ReconcileOld(b, lines, request).value, p) == Get(b, p)
  {
    ReconcileOldAt(b, lines, request, p);
    SumAbsent(lines, p);
    KeptDistinct(lines, request);
    NoPairVia(KeptLines(lines, request), lines, p);
    SumAbsent(KeptLines(lines, request), p);
  }

  /**
   * On a non-negative ledger and old lines with distinct pairs, the first
   * loop succeeds exactly when no old line's pair would end below zero.
   */
  lemma {:induction false} ReconcileOldSucceeds(b: Ledger, lines: seq<Line>, request: seq<Line>)
    requires NonNegative(b) && DistinctPairs(lines)
    ensures ReconcileOld(b, lines, request).Some? <==> Fits(b, lines, request)
    decreases |lines|
  {
    if lines != [] {
      var front := lines[..|lines| - 1];
      var l := lines[|lines| - 1];
      assert DistinctPairs(front);
      ReconcileOldSucceeds(b, front, request);
      FitsLast(b, lines, request);
      if ReconcileOld(b, front, request).Some? {
        assert !HasPair(front, l.Key());
        ReconcileOldUntouched(b, front, request, l.Key());
      }
    }
  }

  /**
   * The new-pair loop as written: a pair new to the document gets a row with
   * the request's count only if it had no row; pairs with a row, and pairs
   * that are not new, keep their balance.
   */
  lemma {:induction false} PlaceNewLinesAt(b: Ledger, lines: seq<Line>, request: seq<Line>, p: Pair)
    requires DistinctPairs(request)
    ensures Get(PlaceNewLines(b, lines, request), p) ==
            if p in b || !HasPair(NewLines(lines, request), p) then Get(b, p) else Sum(NewLines(lines, request), p)
    ensures p in PlaceNewLines(b, lines, request) <==> p in b || HasPair(NewLines(lines, request), p)
    decreases |request|
  {
    if request != [] {
      var front := request[..|request| - 1];
      var n := request[|request| - 1];
      assert DistinctPairs(front);
      PlaceNewLinesAt(b, lines, front, p);
      var tail: seq<Line> := if HasPair(lines, n.Key()) then [] else [n];
      assert NewLines(lines, request) == NewLines(lines, front) + tail;
      SumAppend(NewLines(lines, front), tail, p);
      assert tail == [] || tail[..0] == [];
      if tail != [] {
        assert NewLines(lines, request)[..|NewLines(lines, request)| - 1] == NewLines(lines, front);
        HasPairLast(NewLines(lines, request), p);
        if n.Key() == p {
          NewMembers(lines, front);
          assert !HasPair(front, p);
          NoPairAmong(NewLines(lines, front), front, p);
          SumAbsent(NewLines(lines, front), p);
        }
      }
    }
  }

  /**
   * Update of a missing document answers NotFound, and an empty request
   * answers OK; neither changes anything. Both hold for either second loop.
   */
  lemma UpdateTrivial(s: Store, id: int, request: seq<Line>)
    ensures id !in s.receipts ==> Update(s, id, request) == (Reply(Status.NotFound, MessageKey.NotFound), s)
    ensures id in s.receipts && request == [] ==> Update(s, id, request) == (Reply(Status.OK, MessageKey.Updated), s)
  {
  }

  /**
   * Update of an existing document with a non-empty request fails with
   * NotEnoughResource, changing nothing, exactly when some old line's pair
   * would end below zero. Otherwise the document's lines become the
   * request's lines, each old line's pair moves by its change in count, and
   * no other table changes.
   */
  lemma UpdateSpec(s: Store, id: int, request: seq<Line>)
    requires Inv(s) && LinesOk(request) && id in s.receipts && request != []
    ensures var d := s.receipts[id];
      var (r, t) := Update(s, id, request);
      && (r.status == Status.OK <==>
           forall i :: 0 <= i < |d.lines| ==> Get(s.balances, d.lines[i].Key()) + Target(request, d.lines[i]) - d.lines[i].count >= 0)
      && (r.status != Status.OK ==> r == Reply(Status.BadRequest, MessageKey.NotEnoughResource) && t == s)
      && (r.status == Status.OK ==>
           && r == Reply(Status.OK, MessageKey.Updated)
           && t.receipts.Keys == s.receipts.Keys
           && (forall j :: j in s.receipts && j != id ==> t.receipts[j] == s.receipts[j])
           && t.receipts[id].number == d.number && t.receipts[id].date == d.date
           && (forall x :: x in t.receipts[id].lines <==> x in request)
           && DistinctPairs(t.receipts[id].lines)
           && (forall i :: 0 <= i < |d.lines| ==>
                Get(t.balances, d.lines[i].Key()) == Get(s.balances, d.lines[i].Key()) + Target(request, d.lines[i]) - d.lines[i].count)
           && (forall p :: !HasPair(d.lines, p) && !HasPair(request, p) ==> Get(t.balances, p) == Get(s.balances, p))
           && (forall p :: p in t.balances <==> p in s.balances || HasPair(d.lines, p) || HasPair(request, p))
           && t.shipments == s.shipments && t.resources == s.resources && t.units == s.units && t.clients == s.clients
           && t.lastId == s.lastId)
  {
    var d := s.receipts[id];
    assert LinesOk(d.lines);
    ReconcileOldSucceeds(s.balances, d.lines, request);
    ReconciledLines(d.lines, request);
    if ReconcileOld(s.balances, d.lines, request).Some? {
      var b := ReconcileOld(s.balances, d.lines, request).value;
      var t := Update(s, id, request).1;
      forall p
        ensures !HasPair(d.lines, p) && !HasPair(request, p) ==> Get(t.balances, p) == Get(s.balances, p)
        ensures p in t.balances <==> p in s.balances || HasPair(d.lines, p) || HasPair(request, p)
      {
        UpdateUntouchedPair(s, id, request, p);
      }
      forall i | 0 <= i < |d.lines|
        ensures Get(t.balances, d.lines[i].Key()) == Get(s.balances, d.lines[i].Key()) + Target(request, d.lines[i]) - d.lines[i].count
      {
        var p := d.lines[i].Key();
        ReconcileOldAt(s.balances, d.lines, request, p);
        PlaceNewLinesAt(b, d.lines, request, p);
        assert HasPair(d.lines, p);
        assert p in b;
        SumDistinct(d.lines, i);
        KeptOnePair(d.lines, request, i);
      }
    }
  }

  /**
   * After an OK update as written, a balance row exists for exactly the old
   * rows, the old lines' pairs and the request's pairs, and a pair named by
   * neither the old lines nor the request keeps its balance.
   */
  lemma UpdateUntouchedPair(s: Store, id: int, request: seq<Line>, p: Pair)
    requires Inv(s) && LinesOk(request) && id in s.receipts && request != []
    requires ReconcileOld(s.balances, s.receipts[id].lines, request).Some?
    ensures var d := s.receipts[id];
      var t := Update(s, id, request).1;
      && (!HasPair(d.lines, p) && !HasPair(request, p) ==> Get(t.balances, p) == Get(s.balances, p))
      && (p in t.balances <==> p in s.balances || HasPair(d.lines, p) || HasPair(request, p))
  {
    var d := s.receipts[id];
    assert LinesOk(d.lines);
    var b := ReconcileOld(s.balances, d.lines, request).value;
    var added := NewLines(d.lines, request);
    ReconcileOldAt(s.balances, d.lines, request, p);
    PlaceNewLinesAt(b, d.lines, request, p);
    NewMembers(d.lines, request);
    if HasPair(added, p) {
      var j :| 0 <= j < |added| && added[j].Key() == p;
      assert added[j] in added;
      var i :| 0 <= i < |request| && request[i] == added[j];
    }
    if HasPair(request, p) && !HasPair(d.lines, p) {
      var i :| 0 <= i < |request| && request[i].Key() == p;
      assert request[i] in request;
      var j :| 0 <= j < |added| && added[j] == request[i];
    }
    if !HasPair(d.lines, p) && !HasPair(request, p) {
      SumAbsent(d.lines, p);
      KeptDistinct(d.lines, request);
      NoPairVia(KeptLines(d.lines, request), d.lines, p);
      SumAbsent(KeptLines(d.lines, request), p);
    }
  }

  /** With distinct old pairs, the kept lines give line i's pair the count the request gives it. */
  lemma {:induction false} KeptOnePair(lines: seq<Line>, request: seq<Line>, i: int)
    requires DistinctPairs(lines) && 0 <= i < |lines|
    ensures Sum(KeptLines(lines, request), lines[i].Key()) == Target(request, lines[i])
    decreases |lines|
  {
    var front := lines[..|lines| - 1];
    var l := lines[|lines| - 1];
    var p := lines[i].Key();
    assert DistinctPairs(front);
    var tail: seq<Line> := match Find(request, l.Key()) case Some(u) => [l.(count := u.count)] case None => [];
    assert KeptLines(lines, request) == KeptLines(front, request) + tail;
    SumAppend(KeptLines(front, request), tail, p);
    assert tail == [] || tail[..0] == [];
    if i == |lines| - 1 {
      assert !HasPair(front, p);
      KeptDistinct(front, request);
      NoPairVia(KeptLines(front, request), front, p);
      SumAbsent(KeptLines(front, request), p);
    } else {
      assert front[i] == lines[i];
      KeptOnePair(front, request, i);
      assert l.Key() != p;
    }
  }

  /**
   * As written, a pair that is new to the document but already has a row is
   * not credited: the balance stays where the first loop left it.
   */
  lemma UpdateNewPairAsWritten(s: Store, id: int, request: seq<Line>, k: int)
    requires Inv(s) && LinesOk(request) && id in s.receipts && request != []
    requires Update(s, id, request).0.status == Status.OK
    requires 0 <= k < |request| && !HasPair(s.receipts[id].lines, request[k].Key())
    ensures var t := Update(s, id, request).1;
      Get(t.balances, request[k].Key()) ==
        if request[k].Key() in s.balances then s.balances[request[k].Key()] else request[k].count
  {
    var d := s.receipts[id];
    var p := request[k].Key();
    var b := ReconcileOld(s.balances, d.lines, request).value;
    ReconcileOldAt(s.balances, d.lines, request, p);
    PlaceNewLinesAt(b, d.lines, request, p);
    NewMembers(d.lines, request);
    NewDistinct(d.lines, request);
    assert request[k] in NewLines(d.lines, request);
    var j :| 0 <= j < |NewLines(d.lines, request)| && NewLines(d.lines, request)[j] == request[k];
    SumDistinct(NewLines(d.lines, request), j);
    SumAbsent(d.lines, p);
    KeptDistinct(d.lines, request);
    NoPairVia(KeptLines(d.lines, request), d.lines, p);
    SumAbsent(KeptLines(d.lines, request), p);
  }

  /** A concrete instance: a row holding 5, a receipt with no lines, updated to one line of 3 for that pair. */
  lemma NewPairNotCredited()
    ensures var b: Ledger := map[Pair(1, 1) := 5];
      && Get(PlaceNewLines(b, [], [Line(1, 1, 3)]), Pair(1, 1)) == 5
      && Get(PlaceNewLinesIntended(b, [], [Line(1, 1, 3)]), Pair(1, 1)) == 8
  {
    var b: Ledger := map[Pair(1, 1) := 5];
    var req := [Line(1, 1, 3)];
    assert req[..0] == [];
    assert !HasPair([], Pair(1, 1));
    assert NewLines([], req) == req;
    assert PlaceNewLines(b, [], req) == b;
  }

  /**
   * The corrected update keeps the ledger in step with the document: every
   * pair's balance moves by exactly the change in the document's total for
   * that pair.
   */
  lemma UpdateIntendedConserves(s: Store, id: int, request: seq<Line>, p: Pair)
    requires id in s.receipts
    requires UpdateIntended(s, id, request).0.status == Status.OK
    ensures var t := UpdateIntended(s, id, request).1;
      Get(t.balances, p) == Get(s.balances, p) + Sum(t.receipts[id].lines, p) - Sum(s.receipts[id].lines, p)
  {
    var d := s.receipts[id];
    if request != [] {
      var b := ReconcileOld(s.balances, d.lines, request).value;
      ReconcileOldAt(s.balances, d.lines, request, p);
      CreditAt(b, NewLines(d.lines, request), p);
      SumAppend(KeptLines(d.lines, request), NewLines(d.lines, request), p);
    }
  }

  /**
   * Updating a receipt that has no lines to a single line, as written: the
   * line is added, and a balance row is created for its pair only when there
   * is none.
   */
  lemma UpdateEmptyReceipt(s: Store, id: int, n: Line)
    requires id in s.receipts && s.receipts[id].lines == []
    ensures Update(s, id, [n]) ==
      (Reply(Status.OK, MessageKey.Updated),
       s.(balances := if n.Key() in s.balances then s.balances else s.balances[n.Key() := n.count],
          receipts := s.receipts[id := s.receipts[id].(lines := [n])]))
  {
    var req := [n];
    assert req[..0] == [];
    assert !HasPair([], n.Key());
    assert NewLines([], req) == req;
    assert KeptLines([], req) + NewLines([], req) == req;
  }

  /** The code as written can break it: the receipt gains 3 of a pair whose balance does not move. */
  lemma UpdateAsWrittenBreaksConservation()
    ensures var s := Store(map[Pair(1, 1) := 5], map[1 := ReceiptDocument(1, 0, [])], map[], map[], map[], map[], 1);
      var t := Update(s, 1, [Line(1, 1, 3)]).1;
      && Update(s, 1, [Line(1, 1, 3)]).0 == Reply(Status.OK, MessageKey.Updated)
      && Sum(t.receipts[1].lines, Pair(1, 1)) - Sum(s.receipts[1].lines, Pair(1, 1)) == 3
      && Get(t.balances, Pair(1, 1)) - Get(s.balances, Pair(1, 1)) == 0
  {
    var s := Store(map[Pair(1, 1) := 5], map[1 := ReceiptDocument(1, 0, [])], map[], map[], map[], map[], 1);
    var n := Line(1, 1, 3);
    UpdateEmptyReceipt(s, 1, n);
    assert [n][..0] == [];
  }

  /** Helper: replacing one receipt's lines and the balances by valid ones keeps the invariant. */
  lemma RelinePreserves(s: Store, id: int, b: Ledger, lines: seq<Line>)
    requires Inv(s) && id in s.receipts && NonNegative(b) && LinesOk(lines)
    ensures Inv(s.(balances := b, receipts := s.receipts[id := s.receipts[id].(lines := lines)]))
  {
  }

  lemma UpdatePreserves(s: Store, id: int, request: seq<Line>)
    requires Inv(s) && LinesOk(request)
    ensures Inv(Update(s, id, request).1)
    ensures Inv(UpdateIntended(s, id, request).1)
  {
    if id in s.receipts && request != [] {
      var d := s.receipts[id];
      assert LinesOk(d.lines);
      ReconciledLines(d.lines, request);
      var lines := KeptLines(d.lines, request) + NewLines(d.lines, request);
      CountsFrom(lines, request);
      NewMoves(request, d.lines);
      match ReconcileOld(s.balances, d.lines, request)
      case None =>
      case Some(b) =>
        RelinePreserves(s, id, PlaceNewLines(b, d.lines, request), lines);
        RelinePreserves(s, id, PlaceNewLinesIntended(b, d.lines, request), lines);
    }
  }

  // ---------------------------------------------------------------------
  // Delete

  /**
   * Delete of a missing document answers NotFound. Otherwise it fails with
   * NotEnoughResource, changing nothing, unless every line's pair has a row
   * holding at least the line's count; then each pair loses the document's
   * total for it and the document goes.
   */
  lemma DeleteSpec(s: Store, id: int)
    requires Inv(s)
    ensures id !in s.receipts ==> Delete(s, id) == (Reply(Status.NotFound, MessageKey.NotFound), s)
    ensures id in s.receipts ==>
      var (r, t) := Delete(s, id);
      var lines := s.receipts[id].lines;
      && (r.status == Status.NoContent <==> Covers(s.balances, lines))
      && (r.status != Status.NoContent ==> r == Reply(Status.BadRequest, MessageKey.NotEnoughResource) && t == s)
      && (r.status == Status.NoContent ==>
           && r.message == MessageKey.Deleted
           && t.receipts == s.receipts - {id}
           && t.balances.Keys == s.balances.Keys
           && (forall p :: p in s.balances ==> t.balances[p] == s.balances[p] - Sum(lines, p))
           && t.shipments == s.shipments && t.resources == s.resources && t.units == s.units && t.clients == s.clients
           && t.lastId == s.lastId)
  {
    if id in s.receipts {
      var lines := s.receipts[id].lines;
      assert LinesOk(lines);
      TryDebitSucceeds(s.balances, lines);
      if TryDebit(s.balances, lines).Some? {
        forall p | p in s.balances ensures TryDebit(s.balances, lines).value[p] == s.balances[p] - Sum(lines, p) {
          TryDebitAt(s.balances, lines, p);
        }
      }
    }
  }

  lemma DeletePreserves(s: Store, id: int)
    requires Inv(s)
    ensures Inv(Delete(s, id).1)
  {
  }

  /**
   * Creating a receipt and deleting it again succeeds and gives every pair
   * its former balance; a row the receipt created stays, holding 0. The
   * documents are as before.
   */
  lemma CreateThenDelete(s: Store, date: int, lines: seq<Line>)
    requires Inv(s) && LinesOk(lines)
    ensures var t := Create(s, date, lines).1;
      var (r, u) := Delete(t, t.lastId);
      && r == Reply(Status.NoContent, MessageKey.Deleted)
      && u.receipts == s.receipts
      && (forall p :: (p in u.balances <==> p in s.balances || HasPair(lines, p)) && Get(u.balances, p) == Get(s.balances, p))
  {
    var t := Create(s, date, lines).1;
    CreditThenDebit(s.balances, lines);
    assert s.lastId + 1 !in s.receipts;
    assert t.receipts - {t.lastId} == s.receipts;
  }
}
