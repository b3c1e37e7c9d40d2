/**
 * The Balances table as a finite map from (ResourceId, UnitId) to Count, and
 * the three loops the document services run over a document's lines:
 * crediting each line (receipt create), the guarded debit that fails as soon
 * as a line's row is missing or too small (shipment sign, receipt delete), and
 * the restore that adds each line back where a row exists (shipment withdraw).
 * Each loop is a fold from the right, so that its value on `lines[..i + 1]`
 * is one step from its value on `lines[..i]`, as in the loops themselves.
 */
module Ledger {
  import opened Wrappers
  import opened Domain
  import opened Lines

  type Ledger = map<Pair, int>

  /** The count of the row for `p`, or 0 when there is no row (the row a service would create). */
  function Get(b: Ledger, p: Pair): int {
    if p in b then b[p] else 0
  }

  /** The invariant the services keep: no balance is negative. */
  predicate NonNegative(b: Ledger) {
    forall p :: p in b ==> b[p] >= 0
  }

  /**
   * Receipt create (ReceiptService.cs:91-108): for each line, find the row
   * for its pair, adding one with Count = 0 when there is none, and add the
   * line's count to it.
   */
  function Credit(b: Ledger, lines: seq<Line>): (r: Ledger)
    ensures NonNegative(b) && NonNegativeCounts(lines) ==> NonNegative(r)
    decreases |lines|
  {
    if lines == [] then b
    else
      var l := lines[|lines| - 1];
      var before := Credit(b, lines[..|lines| - 1]);
      before[l.Key() := Get(before, l.Key()) + l.count]
  }

  /**
   * The guarded debit of shipment sign and receipt delete
   * (ShipmentService.cs:243-256, ReceiptService.cs:261-278): for each line in
   * turn, fail when its pair has no row or the row's count is below the
   * line's count, otherwise subtract the line's count. `None` is the failure.
   */
  function TryDebit(b: Ledger, lines: seq<Line>): (r: Option<Ledger>)
    ensures NonNegative(b) && r.Some? ==> NonNegative(r.value)
    ensures r.Some? ==> r.value.Keys == b.Keys
    decreases |lines|
  {
    if lines == [] then Some(b)
    else
      match TryDebit(b, lines[..|lines| - 1])
      case None => None
      case Some(before) =>
        var l := lines[|lines| - 1];
        if l.Key() !in before || before[l.Key()] < l.count then None
        else Some(before[l.Key() := before[l.Key()] - l.count])
  }

  /**
   * Shipment withdraw (ShipmentService.cs:303-311): add each line's count
   * back to its pair's row, skipping a pair that has no row.
   */
  function Restore(b: Ledger, lines: seq<Line>): (r: Ledger)
    ensures r.Keys == b.Keys
    ensures NonNegative(b) && NonNegativeCounts(lines) ==> NonNegative(r)
    decreases |lines|
  {
    if lines == [] then b
    else
      var l := lines[|lines| - 1];
      var before := Restore(b, lines[..|lines| - 1]);
      if l.Key() in before then before[l.Key() := before[l.Key()] + l.count] else before
  }

  /** Every line's pair has a row holding at least the line's count. */
  predicate Covers(b: Ledger, lines: seq<Line>) {
    forall i :: 0 <= i < |lines| ==> lines[i].Key() in b && lines[i].count <= b[lines[i].Key()]
  }

  /** Crediting adds each pair's total to its count and creates the rows that were missing. */
  lemma {:induction false} CreditAt(b: Ledger, lines: seq<Line>, p: Pair)
    ensures p in Credit(b, lines) <==> p in b || HasPair(lines, p)
    ensures Get(Credit(b, lines), p) == Get(b, p) + Sum(lines, p)
    decreases |lines|
  {
    if lines != [] {
      CreditAt(b, lines[..|lines| - 1], p);
      HasPairLast(lines, p);
    }
  }

  /** A successful debit subtracts each pair's total from its row and adds or drops no row. */
  lemma {:induction false} TryDebitAt(b: Ledger, lines: seq<Line>, p: Pair)
    requires TryDebit(b, lines).Some?
    ensures p in TryDebit(b, lines).value <==> p in b
    ensures p in b ==> TryDebit(b, lines).value[p] == b[p] - Sum(lines, p)
    decreases |lines|
  {
    if lines != [] {
      TryDebitAt(b, lines[..|lines| - 1], p);
    }
  }

  /** Once a prefix of the lines fails, the whole debit fails. */
  lemma {:induction false} TryDebitFailsFrom(b: Ledger, lines: seq<Line>, i: int)
    requires 0 <= i <= |lines| && TryDebit(b, lines[..i]).None?
    ensures TryDebit(b, lines).None?
    decreases |lines| - i
  {
    if i < |lines| {
      assert lines[..i + 1][..i] == lines[..i];
      TryDebitFailsFrom(b, lines, i + 1);
    } else {
      assert lines[..i] == lines;
    }
  }

  /**
   * For lines with distinct pairs, the debit succeeds exactly when the ledger
   * covers every line.
   */
  lemma {:induction false} TryDebitSucceeds(b: Ledger, lines: seq<Line>)
    requires DistinctPairs(lines)
    ensures TryDebit(b, lines).Some? <==> Covers(b, lines)
    decreases |lines|
  {
    if lines != [] {
      var front := lines[..|lines| - 1];
      var l := lines[|lines| - 1];
      assert DistinctPairs(front);
      TryDebitSucceeds(b, front);
      assert Covers(b, lines) <==> Covers(b, front) && l.Key() in b && l.count <= b[l.Key()] by {
        if Covers(b, front) && l.Key() in b && l.count <= b[l.Key()] {
          forall i | 0 <= i < |lines| ensures lines[i].Key() in b && lines[i].count <= b[lines[i].Key()] {
            if i < |front| { assert lines[i] == front[i]; }
          }
        }
        if Covers(b, lines) {
          forall i | 0 <= i < |front| ensures front[i].Key() in b && front[i].count <= b[front[i].Key()] {
            assert lines[i] == front[i];
          }
        }
      }
      if TryDebit(b, front).Some? {
        assert !HasPair(front, l.Key());
        SumAbsent(front, l.Key());
        TryDebitAt(b, front, l.Key());
      }
    }
  }

  /** Signing and then withdrawing the same lines gives back the ledger exactly. */
  lemma DebitThenRestore(b: Ledger, lines: seq<Line>)
    requires TryDebit(b, lines).Some?
    ensures Restore(TryDebit(b, lines).value, lines) == b
  {
    var d := TryDebit(b, lines).value;
    forall p | p in b ensures Restore(d, lines)[p] == b[p] {
      TryDebitAt(b, lines, p);
      RestoreAt(d, lines, p);
    }
  }

  /** Restoring adds each pair's total to the rows that exist and to no others. */
  lemma {:induction false} RestoreAt(b: Ledger, lines: seq<Line>, p: Pair)
    ensures p in b ==> Restore(b, lines)[p] == b[p] + Sum(lines, p)
    decreases |lines|
  {
    if lines != [] {
      RestoreAt(b, lines[..|lines| - 1], p);
    }
  }

  /**
   * Crediting lines with distinct pairs onto a non-negative ledger and then
   * debiting them succeeds, and gives every pair its former count; a row the
   * credit created remains, with count 0.
   */
  lemma CreditThenDebit(b: Ledger, lines: seq<Line>)
    requires NonNegative(b) && DistinctPairs(lines)
    ensures TryDebit(Credit(b, lines), lines).Some?
    ensures var r := TryDebit(Credit(b, lines), lines).value;
            forall p :: (p in r <==> p in b || HasPair(lines, p)) && Get(r, p) == Get(b, p)
  {
    var c := Credit(b, lines);
    forall i | 0 <= i < |lines| ensures lines[i].Key() in c && lines[i].count <= c[lines[i].Key()] {
      CreditAt(b, lines, lines[i].Key());
      SumDistinct(lines, i);
    }
    TryDebitSucceeds(c, lines);
    var r := TryDebit(c, lines).value;
    forall p ensures (p in r <==> p in b || HasPair(lines, p)) && Get(r, p) == Get(b, p) {
      CreditAt(b, lines, p);
      TryDebitAt(c, lines, p);
    }
  }

  // ---------------------------------------------------------------------
  // Cascading deletes

  /**
   * The rows left once resource `id` is deleted: Balances.ResourceId is a
   * required foreign key, which the database deletes on cascade
   * (Migrations/20250804172906_Init.cs:106-111).
   */
  function DropResource(b: Ledger, id: int): (r: Ledger)
    ensures forall p :: p in r <==> p in b && p.resourceId != id
    ensures forall p :: p in r ==> r[p] == b[p]
    ensures NonNegative(b) ==> NonNegative(r)
  {
    map p | p in b && p.resourceId != id :: b[p]
  }

  /** The rows left once unit `id` is deleted (Migrations/20250804172906_Init.cs:112-117). */
  function DropUnit(b: Ledger, id: int): (r: Ledger)
    ensures forall p :: p in r <==> p in b && p.unitId != id
    ensures forall p :: p in r ==> r[p] == b[p]
    ensures NonNegative(b) ==> NonNegative(r)
  {
    map p | p in b && p.unitId != id :: b[p]
  }
}
