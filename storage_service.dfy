/**
 * StorageService (Sklad.Application/Services/StorageService.cs): the balance
 * query, one `Where` over the Balances table with an optional resource id and
 * an optional unit id.
 */
module StorageService {
  import opened Wrappers
  import opened Domain
  import opened Ledger

  /** The Balances table as rows. */
  function Rows(b: Ledger): (r: set<Balance>)
    ensures forall x :: x in r <==> Pair(x.resourceId, x.unitId) in b && b[Pair(x.resourceId, x.unitId)] == x.count
  {
    set p | p in b :: Balance(p.resourceId, p.unitId, b[p])
  }

  /** `GetStorageBalanceAsync(resourceId, unitId)`. */
  function GetStorageBalance(b: Ledger, resourceId: Option<int>, unitId: Option<int>): (r: set<Balance>)
    ensures r <= Rows(b)
    ensures forall x :: x in r <==>
      && x in Rows(b)
      && (resourceId.None? || x.resourceId == resourceId.value)
      && (unitId.None? || x.unitId == unitId.value)
  {
    set p | p in b && (resourceId.None? || p.resourceId == resourceId.value) && (unitId.None? || p.unitId == unitId.value)
      :: Balance(p.resourceId, p.unitId, b[p])
  }

  /** With neither key every row comes back; with both, the rows that each key alone would return. */
  lemma StorageFilters(b: Ledger, resourceId: int, unitId: int)
    ensures GetStorageBalance(b, None, None) == Rows(b)
    ensures GetStorageBalance(b, Some(resourceId), Some(unitId)) ==
            GetStorageBalance(b, Some(resourceId), None) * GetStorageBalance(b, None, Some(unitId))
    ensures forall x :: x in GetStorageBalance(b, Some(resourceId), None) <==> x in Rows(b) && x.resourceId == resourceId
    ensures forall x :: x in GetStorageBalance(b, None, Some(unitId)) <==> x in Rows(b) && x.unitId == unitId
  {
  }

  /** With both keys, the query finds the one row of that pair when there is one, and nothing otherwise. */
  lemma StorageByPair(b: Ledger, resourceId: int, unitId: int)
    ensures var p := Pair(resourceId, unitId);
      GetStorageBalance(b, Some(resourceId), Some(unitId)) == if p in b then {Balance(resourceId, unitId, b[p])} else {}
  {
    var p := Pair(resourceId, unitId);
    var r := GetStorageBalance(b, Some(resourceId), Some(unitId));
    if p in b {
      assert Balance(resourceId, unitId, b[p]) in r;
    }
  }
}
