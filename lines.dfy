/**
 * Operations on the line lists of documents: the lookups the services make with
 * `FirstOrDefault`/`Any` over (ResourceId, UnitId), the per-pair total of a
 * list, and the reconciliation of a document's lines against an update request
 * (ReceiptService.cs:152-225 and ShipmentService.cs:133-154 both keep, drop and
 * add lines by the same rule).
 */
module Lines {
  import opened Wrappers
  import opened Domain

  /** Some line of `lines` is for pair `p` (`Any(r => r.ResourceId == .. && r.UnitId == ..)`). */
  predicate HasPair(lines: seq<Line>, p: Pair) {
    exists i :: 0 <= i < |lines| && lines[i].Key() == p
  }

  /** No two lines are for the same pair. */
  predicate DistinctPairs(lines: seq<Line>) {
    forall i, j :: 0 <= i < j < |lines| ==> lines[i].Key() != lines[j].Key()
  }

  predicate NonNegativeCounts(lines: seq<Line>) {
    forall i :: 0 <= i < |lines| ==> lines[i].count >= 0
  }

  /** The first line for pair `p`, as `FirstOrDefault` finds it. */
  function Find(lines: seq<Line>, p: Pair): (r: Option<Line>)
    ensures r.None? <==> !HasPair(lines, p)
    ensures r.Some? ==> r.value in lines && r.value.Key() == p
    ensures r.Some? ==> exists i :: 0 <= i < |lines| && lines[i] == r.value &&
                                    forall j :: 0 <= j < i ==> lines[j].Key() != p
  {
    if lines == [] then None
    else if lines[0].Key() == p then
      Some(lines[0])
    else
      var r := Find(lines[1..], p);
      assert HasPair(lines, p) ==> HasPair(lines[1..], p) by {
        if HasPair(lines, p) {
          var i :| 0 <= i < |lines| && lines[i].Key() == p;
          assert lines[1..][i - 1] == lines[i];
        }
      }
      assert r.Some? ==> exists i :: 0 <= i < |lines| && lines[i] == r.value &&
                                     forall j :: 0 <= j < i ==> lines[j].Key() != p by {
        if r.Some? {
          var i :| 0 <= i < |lines[1..]| && lines[1..][i] == r.value &&
                   forall j :: 0 <= j < i ==> lines[1..][j].Key() != p;
          assert lines[i + 1] == r.value;
          forall j | 0 <= j < i + 1 ensures lines[j].Key() != p {
            if j > 0 { assert lines[j] == lines[1..][j - 1]; }
          }
        }
      }
      r
  }

  /** In a list with distinct pairs, the line found for a pair is the one line for it. */
  lemma FindDistinct(lines: seq<Line>, i: int)
    requires DistinctPairs(lines) && 0 <= i < |lines|
    ensures Find(lines, lines[i].Key()) == Some(lines[i])
  {
  }

  /** The total count that `lines` gives pair `p`. */
  function Sum(lines: seq<Line>, p: Pair): int
    decreases |lines|
  {
    if lines == [] then 0
    else
      var last := lines[|lines| - 1];
      Sum(lines[..|lines| - 1], p) + (if last.Key() == p then last.count else 0)
  }

  lemma {:induction false} SumAbsent(lines: seq<Line>, p: Pair)
    requires !HasPair(lines, p)
    ensures Sum(lines, p) == 0
    decreases |lines|
  {
    if lines != [] {
      var front := lines[..|lines| - 1];
      assert !HasPair(front, p);
      SumAbsent(front, p);
      assert lines[|lines| - 1].Key() != p;
    }
  }

  /** With distinct pairs, the total for a line's pair is that line's count. */
  lemma {:induction false} SumDistinct(lines: seq<Line>, i: int)
    requires DistinctPairs(lines) && 0 <= i < |lines|
    ensures Sum(lines, lines[i].Key()) == lines[i].count
    decreases |lines|
  {
    var front := lines[..|lines| - 1];
    var p := lines[i].Key();
    assert DistinctPairs(front);
    if i == |lines| - 1 {
      assert !HasPair(front, p);
      SumAbsent(front, p);
    } else {
      assert front[i] == lines[i];
      SumDistinct(front, i);
    }
  }

  lemma {:induction false} SumAppend(a: seq<Line>, b: seq<Line>, p: Pair)
    ensures Sum(a + b, p) == Sum(a, p) + Sum(b, p)
    decreases |b|
  {
    if b == [] {
      assert a + b == a;
    } else {
      var front := b[..|b| - 1];
      assert (a + b)[..|a + b| - 1] == a + front;
      SumAppend(a, front, p);
    }
  }

  /**
   * The lines a document keeps when it is updated with `request`: every old
   * line whose pair the request names again, with the request's count
   * (`resource.Count = updatedResource.Count`). Old lines whose pair the
   * request does not name are dropped.
   */
  function KeptLines(lines: seq<Line>, request: seq<Line>): seq<Line>
    decreases |lines|
  {
    if lines == [] then []
    else
      var l := lines[|lines| - 1];
      KeptLines(lines[..|lines| - 1], request) +
        match Find(request, l.Key())
        case Some(u) => [l.(count := u.count)]
        case None => []
  }

  /** The request lines whose pair is not among the document's old lines. */
  function NewLines(lines: seq<Line>, request: seq<Line>): seq<Line>
    decreases |request|
  {
    if request == [] then []
    else
      var n := request[|request| - 1];
      NewLines(lines, request[..|request| - 1]) + (if HasPair(lines, n.Key()) then [] else [n])
  }

  lemma HasPairLast(lines: seq<Line>, p: Pair)
    requires lines != []
    ensures HasPair(lines, p) <==> HasPair(lines[..|lines| - 1], p) || lines[|lines| - 1].Key() == p
  {
    var front := lines[..|lines| - 1];
    if HasPair(front, p) {
      var i :| 0 <= i < |front| && front[i].Key() == p;
      assert lines[i] == front[i];
    }
  }

  lemma {:induction false} KeptMembers(lines: seq<Line>, request: seq<Line>)
    requires DistinctPairs(request)
    ensures forall x :: x in KeptLines(lines, request) <==> x in request && HasPair(lines, x.Key())
    decreases |lines|
  {
    if lines != [] {
      var front := lines[..|lines| - 1];
      var l := lines[|lines| - 1];
      KeptMembers(front, request);
      var tail: seq<Line> := match Find(request, l.Key()) case Some(u) => [l.(count := u.count)] case None => [];
      assert KeptLines(lines, request) == KeptLines(front, request) + tail;
      forall x ensures x in tail <==> x in request && x.Key() == l.Key() {
        if x in request && x.Key() == l.Key() {
          var j :| 0 <= j < |request| && request[j] == x;
          FindDistinct(request, j);
        }
      }
      forall x ensures x in KeptLines(lines, request) <==> x in request && HasPair(lines, x.Key()) {
        HasPairLast(lines, x.Key());
      }
    }
  }

  lemma {:induction false} NewMembers(lines: seq<Line>, request: seq<Line>)
    ensures forall x :: x in NewLines(lines, request) <==> x in request && !HasPair(lines, x.Key())
    decreases |request|
  {
    if request != [] {
      var front := request[..|request| - 1];
      NewMembers(lines, front);
      assert request == front + [request[|request| - 1]];
    }
  }

  /** A list whose every pair occurs in `b` has no line for a pair that `b` lacks. */
  lemma NoPairVia(a: seq<Line>, b: seq<Line>, p: Pair)
    requires forall x :: x in a ==> HasPair(b, x.Key())
    requires !HasPair(b, p)
    ensures !HasPair(a, p)
  {
    forall i | 0 <= i < |a| ensures a[i].Key() != p {
      assert a[i] in a;
    }
  }

  /** A list drawn from `src` has no line for a pair that `src` lacks. */
  lemma NoPairAmong(a: seq<Line>, src: seq<Line>, p: Pair)
    requires forall x :: x in a ==> x in src
    requires !HasPair(src, p)
    ensures !HasPair(a, p)
  {
    forall i | 0 <= i < |a| ensures a[i].Key() != p {
      assert a[i] in a;
      var j :| 0 <= j < |src| && src[j] == a[i];
    }
  }

  lemma DistinctAppend(a: seq<Line>, b: seq<Line>)
    requires DistinctPairs(a) && DistinctPairs(b)
    requires forall x :: x in b ==> !HasPair(a, x.Key())
    ensures DistinctPairs(a + b)
  {
    forall i, j | 0 <= i < j < |a + b| ensures (a + b)[i].Key() != (a + b)[j].Key() {
      if i < |a| && j >= |a| {
        assert (a + b)[j] == b[j - |a|];
        assert (a + b)[i] == a[i];
      } else if i >= |a| {
        assert (a + b)[i] == b[i - |a|] && (a + b)[j] == b[j - |a|];
      }
    }
  }

  lemma {:induction false} KeptDistinct(lines: seq<Line>, request: seq<Line>)
    requires DistinctPairs(lines)
    ensures DistinctPairs(KeptLines(lines, request))
    ensures forall x :: x in KeptLines(lines, request) ==> HasPair(lines, x.Key())
    decreases |lines|
  {
    if lines != [] {
      var front := lines[..|lines| - 1];
      var l := lines[|lines| - 1];
      assert DistinctPairs(front);
      KeptDistinct(front, request);
      var tail: seq<Line> := match Find(request, l.Key()) case Some(u) => [l.(count := u.count)] case None => [];
      assert KeptLines(lines, request) == KeptLines(front, request) + tail;
      forall x | x in tail ensures !HasPair(KeptLines(front, request), x.Key()) {
      }
      DistinctAppend(KeptLines(front, request), tail);
      forall x | x in KeptLines(lines, request) ensures HasPair(lines, x.Key()) {
        if x in KeptLines(front, request) {
          var j :| 0 <= j < |front| && front[j].Key() == x.Key();
          assert lines[j] == front[j];
        } else {
          assert lines[|lines| - 1].Key() == x.Key();
        }
      }
    }
  }

  lemma {:induction false} NewDistinct(lines: seq<Line>, request: seq<Line>)
    requires DistinctPairs(request)
    ensures DistinctPairs(NewLines(lines, request))
    decreases |request|
  {
    if request != [] {
      var front := request[..|request| - 1];
      var n := request[|request| - 1];
      assert DistinctPairs(front);
      NewDistinct(lines, front);
      NewMembers(lines, front);
      var tail: seq<Line> := if HasPair(lines, n.Key()) then [] else [n];
      forall x | x in tail ensures !HasPair(NewLines(lines, front), x.Key()) {
      }
      DistinctAppend(NewLines(lines, front), tail);
    }
  }

  /**
   * After an update with a non-empty request, a document's lines are exactly
   * the request's lines, each once: kept lines carry the request's count and
   * every other request line is added.
   */
  lemma ReconciledLines(lines: seq<Line>, request: seq<Line>)
    requires DistinctPairs(lines) && DistinctPairs(request)
    ensures DistinctPairs(KeptLines(lines, request) + NewLines(lines, request))
    ensures forall x :: x in KeptLines(lines, request) + NewLines(lines, request) <==> x in request
  {
    KeptMembers(lines, request);
    KeptDistinct(lines, request);
    NewMembers(lines, request);
    NewDistinct(lines, request);
    DistinctAppend(KeptLines(lines, request), NewLines(lines, request));
  }

  /** Every line of a list whose lines all come from `source` has a non-negative count if `source`'s do. */
  lemma CountsFrom(lines: seq<Line>, source: seq<Line>)
    requires NonNegativeCounts(source)
    requires forall x :: x in lines ==> x in source
    ensures NonNegativeCounts(lines)
  {
    forall i | 0 <= i < |lines| ensures lines[i].count >= 0 {
      assert lines[i] in lines;
    }
  }
}
