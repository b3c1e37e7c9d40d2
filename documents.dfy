/**
 * What receipt and shipment documents share: the sequential document number
 * (`GetDocumentNumber` in both services) and the list query with optional
 * filters (`GetReceiptDocumentsAsync`, `GetShipmentDocumentsAsync`).
 */
module Documents {
  import opened Wrappers
  import opened Domain

  /** A finite non-empty set of integers has a largest element. */
  lemma {:induction false} MaxExists(s: set<int>)
    requires exists z :: z in s
    ensures exists m :: m in s && forall x :: x in s ==> x <= m
    decreases |s|
  {
    var y :| y in s;
    var rest := s - {y};
    if exists z :: z in rest {
      MaxExists(rest);
      var m :| m in rest && forall x :: x in rest ==> x <= m;
      var top := if m < y then y else m;
      forall x | x in s ensures x <= top {
        if x != y { assert x in rest; }
      }
    } else {
      assert forall x :: x in s ==> x <= y;
    }
  }

  /**
   * The number a new document gets: the largest existing number plus one,
   * or 1 when there is no document (`MaxAsync(d => (int?)d.Number) ?? 0) + 1`).
   */
  function NextNumber(numbers: set<int>): (n: int)
    ensures forall x :: x in numbers ==> x < n
    ensures numbers == {} ==> n == 1
    ensures numbers != {} ==> n - 1 in numbers
  {
    if exists z :: z in numbers then
      MaxExists(numbers);
      var m :| m in numbers && forall x :: x in numbers ==> x <= m;
      m + 1
    else
      assert numbers == {};
      1
  }

  /**
   * DocumentFilterDto as the services read it. An empty list stands both for
   * an empty and for a null list: `filters.X?.Any() == true` treats them alike.
   */
  datatype DocumentFilter = DocumentFilter(
    documentNumbers: seq<int>,
    resourceIds: seq<int>,
    unitIds: seq<int>,
    fromDate: Option<int>,
    toDate: Option<int>)

  /** The parts of a document the filters look at. */
  datatype DocumentView = DocumentView(number: int, date: int, lines: seq<Line>)

  /**
   * The reference meaning of the filters: a document passes when it passes
   * every filter that is present; an absent or empty filter passes everything.
   */
  predicate Matches(filters: Option<DocumentFilter>, d: DocumentView) {
    match filters
    case None => true
    case Some(f) =>
      && (f.documentNumbers == [] || d.number in f.documentNumbers)
      && (f.resourceIds == [] || exists i :: 0 <= i < |d.lines| && d.lines[i].resourceId in f.resourceIds)
      && (f.unitIds == [] || exists i :: 0 <= i < |d.lines| && d.lines[i].unitId in f.unitIds)
      && (f.fromDate.None? || f.fromDate.value <= d.date)
      && (f.toDate.None? || d.date <= f.toDate.value)
  }

  /** No filter is present. */
  predicate NoFilter(filters: Option<DocumentFilter>) {
    filters.None? || filters == Some(DocumentFilter([], [], [], None, None))
  }

  /** `documents.Where(keep)` on the table of documents keyed by id. */
  function Where<T>(docs: map<int, T>, keep: T -> bool): map<int, T> {
    map id | id in docs && keep(docs[id]) :: docs[id]
  }

  /**
   * The query as the services build it: start from all documents and narrow
   * by each filter that is present, in the order of the source.
   */
  function QueryDocuments<T>(docs: map<int, T>, view: T -> DocumentView, filters: Option<DocumentFilter>): (r: map<int, T>)
    ensures forall id :: id in r <==> id in docs && Matches(filters, view(docs[id]))
    ensures forall id :: id in r ==> r[id] == docs[id]
    ensures NoFilter(filters) ==> r == docs
  {
    match filters
    case None => docs
    case Some(f) =>
      var byNumber :=
        if |f.documentNumbers| > 0 then Where(docs, (d: T) => view(d).number in f.documentNumbers) else docs;
      var byResource :=
        if |f.resourceIds| > 0
        then Where(byNumber, (d: T) => exists i :: 0 <= i < |view(d).lines| && view(d).lines[i].resourceId in f.resourceIds)
        else byNumber;
      var byUnit :=
        if |f.unitIds| > 0
        then Where(byResource, (d: T) => exists i :: 0 <= i < |view(d).lines| && view(d).lines[i].unitId in f.unitIds)
        else byResource;
      var byFrom :=
        if f.fromDate.Some? then Where(byUnit, (d: T) => view(d).date >= f.fromDate.value) else byUnit;
      if f.toDate.Some? then Where(byFrom, (d: T) => view(d).date <= f.toDate.value) else byFrom
  }
}
