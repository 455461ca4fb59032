/** What a subject's policies amount to: the rows of all attachments, merged into one list per policy, and the
    entity tag that names the result. */
module EffectivePolicies {
  import opened Wrappers
  import opened Ordering
  import opened Sequences
  import opened Json
  import PolicyDocument

  datatype Row = Row(document: Value, documentHash: string, policyId: string, policyName: string, version: int)

  datatype PolicyView = PolicyView(documentHash: string, id: string, name: string, version: int, statements: seq<Value>)

  datatype Merged = Merged(policies: seq<PolicyView>, statements: seq<Value>)

  /** `document.statements` */
  function Statements(document: Value): seq<Value> {
    if document.Obj? then
      match PolicyDocument.Get(document, "statements")
      case Some(Arr(items)) => items
      case _ => []
    else []
  }

  // ----- a Map keeps the place of the first insertion and the value of the last -----

  function Put(entries: seq<Row>, row: Row): seq<Row> {
    if entries == [] then [row]
    else if entries[0].policyId == row.policyId then [row] + entries[1..]
    else [entries[0]] + Put(entries[1..], row)
  }

  function PutAll(rows: seq<Row>): seq<Row> {
    if rows == [] then [] else Put(PutAll(rows[..|rows| - 1]), rows[|rows| - 1])
  }

  /** `left.policyName.localeCompare(right.policyName) || left.policyId.localeCompare(right.policyId)` */
  function ByNameThenId(le: (string, string) -> bool): (Row, Row) -> bool {
    (a: Row, b: Row) =>
      if a.policyName == b.policyName then le(a.policyId, b.policyId) else le(a.policyName, b.policyName)
  }

  function View(row: Row): PolicyView {
    PolicyView(row.documentHash, row.policyId, row.policyName, row.version, Statements(row.document))
  }

  function Views(rows: seq<Row>): (views: seq<PolicyView>)
    ensures |views| == |rows|
  {
    seq(|rows|, i requires 0 <= i < |rows| => View(rows[i]))
  }

  /** `flatMap(({ document }) => document.statements)` */
  function AllStatements(views: seq<PolicyView>): seq<Value> {
    if views == [] then [] else views[0].statements + AllStatements(views[1..])
  }

  function Merge(rows: seq<Row>, le: (string, string) -> bool): Merged {
    var views := Views(Sort(PutAll(rows), ByNameThenId(le)));
    Merged(views, AllStatements(views))
  }

  /** `mergeEffectivePolicies` */
  method MergeEffectivePolicies(rows: seq<Row>, le: (string, string) -> bool) returns (merged: Merged)
    ensures merged == Merge(rows, le)
  {
    var byPolicy: seq<Row> := [];
    for i := 0 to |rows|
      invariant byPolicy == PutAll(rows[..i])
    {
      byPolicy := Put(byPolicy, rows[i]);
      assert rows[..i + 1][..i] == rows[..i];
    }
    assert rows[..|rows|] == rows;
    var policies := Views(Sort(byPolicy, ByNameThenId(le)));
    merged := Merged(policies, AllStatements(policies));
  }

  // ----- what the merge keeps -----

  predicate DistinctIds(rows: seq<Row>) {
    forall i, j | 0 <= i < j < |rows| :: rows[i].policyId != rows[j].policyId
  }

  /** The last of the rows with its policy id. */
  predicate LastOfPolicy(rows: seq<Row>, i: int)
    requires 0 <= i < |rows|
  {
    forall j | i < j < |rows| :: rows[j].policyId != rows[i].policyId
  }

  ghost predicate IsLast(rows: seq<Row>, row: Row) {
    exists i | 0 <= i < |rows| :: rows[i] == row && LastOfPolicy(rows, i)
  }

  lemma {:induction false} PutContents(entries: seq<Row>, row: Row)
    requires DistinctIds(entries)
    ensures DistinctIds(Put(entries, row))
    ensures forall r :: r in Put(entries, row) <==> r == row || (r in entries && r.policyId != row.policyId)
  {
    if entries != [] {
      var head, tail := entries[0], entries[1..];
      assert entries == [head] + tail;
      if head.policyId != row.policyId {
        assert DistinctIds(tail);
        PutContents(tail, row);
        var rest := Put(tail, row);
        assert forall r | r in rest :: r.policyId != head.policyId by {
          assert forall r | r in tail :: r.policyId != head.policyId;
        }
      }
    }
  }

  lemma IsLastSnoc(rows: seq<Row>, last: Row, row: Row)
    ensures IsLast(rows + [last], row) <==> row == last || (IsLast(rows, row) && row.policyId != last.policyId)
  {
    var all := rows + [last];
    if row == last {
      assert all[|rows|] == row && LastOfPolicy(all, |rows|);
    }
    if IsLast(rows, row) && row.policyId != last.policyId {
      var i :| 0 <= i < |rows| && rows[i] == row && LastOfPolicy(rows, i);
      assert all[i] == row && LastOfPolicy(all, i);
    }
    if IsLast(all, row) && row != last {
      var i :| 0 <= i < |all| && all[i] == row && LastOfPolicy(all, i);
      assert all[|rows|] == last;
      assert i < |rows| && rows[i] == row;
      forall j | i < j < |rows|
        ensures rows[j].policyId != row.policyId
      {
        assert all[j] == rows[j];
      }
      assert LastOfPolicy(rows, i);
    }
  }

  /** The map holds exactly the last row of every policy. */
  lemma {:induction false} PutAllContents(rows: seq<Row>)
    ensures DistinctIds(PutAll(rows))
    ensures forall r :: r in PutAll(rows) <==> IsLast(rows, r)
  {
    if rows != [] {
      var front, last := rows[..|rows| - 1], rows[|rows| - 1];
      PutAllContents(front);
      PutContents(PutAll(front), last);
      assert rows == front + [last];
      hide IsLast, Put, DistinctIds;
      forall r
        ensures r in PutAll(rows) <==> IsLast(rows, r)
      {
        IsLastSnoc(front, last, r);
      }
    }
  }

  lemma SameDistinctRows(xs: seq<Row>, ys: seq<Row>)
    requires DistinctIds(xs) && DistinctIds(ys)
    requires forall r :: r in xs <==> r in ys
    ensures multiset(xs) == multiset(ys)
  {
    forall r
      ensures multiset(xs)[r] == multiset(ys)[r]
    {
      AtMostOnce(xs, r);
      AtMostOnce(ys, r);
    }
  }

  lemma ByNameThenIdTransitive(le: (string, string) -> bool, x: Row, y: Row, z: Row)
    requires TotalOrder(le) && ByNameThenId(le)(x, y) && ByNameThenId(le)(y, z)
    ensures ByNameThenId(le)(x, z)
  {
    assert Transitive(le);
    var a, b, c := x.policyName, y.policyName, z.policyName;
    assert le(a, a) || le(b, b);
    assert le(a, b) && le(b, c);
    assert le(a, c);
    if a == c {
      assert a == b;
      assert le(x.policyId, y.policyId) && le(y.policyId, z.policyId);
    }
  }

  lemma ByNameThenIdOrders(le: (string, string) -> bool, rows: seq<Row>)
    requires TotalOrder(le) && DistinctIds(rows)
    ensures Transitive(ByNameThenId(le)) && Strong(ByNameThenId(le)) && AntisymmetricOn(rows, ByNameThenId(le))
  {
    var f := ByNameThenId(le);
    forall x: Row, y: Row, z: Row | f(x, y) && f(y, z)
      ensures f(x, z)
    {
      ByNameThenIdTransitive(le, x, y, z);
    }
    forall x: Row, y: Row
      ensures f(x, y) || f(y, x)
    {
      assert le(x.policyName, y.policyName) || le(y.policyName, x.policyName);
      assert le(x.policyId, y.policyId) || le(y.policyId, x.policyId);
    }
  }

  /** Any order and repetition of the same rows merges to the same result, when rows of the same policy
      are equal, as they are in one snapshot. */
  lemma MergeIgnoresArrangement(xs: seq<Row>, ys: seq<Row>, le: (string, string) -> bool)
    requires TotalOrder(le)
    requires forall r :: r in xs <==> r in ys
    requires forall r, q | r in xs && q in xs && r.policyId == q.policyId :: r == q
    ensures Merge(xs, le) == Merge(ys, le)
  {
    hide Sort, Put, PutAll, Views, AllStatements;
    forall r
      ensures r in PutAll(xs) <==> r in PutAll(ys)
    {
      PutAllContents(xs);
      PutAllContents(ys);
      MemberIsLast(xs, r);
      MemberIsLast(ys, r);
    }
    PutAllContents(xs);
    PutAllContents(ys);
    SameDistinctRows(PutAll(xs), PutAll(ys));
    ByNameThenIdOrders(le, PutAll(xs));
    SortIgnoresArrangement(PutAll(xs), PutAll(ys), ByNameThenId(le));
  }

  lemma MemberIsLast(rows: seq<Row>, row: Row)
    requires forall r, q | r in rows && q in rows && r.policyId == q.policyId :: r == q
    ensures IsLast(rows, row) <==> row in rows
  {
    if row in rows {
      LastOccurrence(rows, row);
    }
  }

  lemma {:induction false} LastOccurrence(rows: seq<Row>, row: Row)
    requires row in rows
    requires forall r, q | r in rows && q in rows && r.policyId == q.policyId :: r == q
    ensures IsLast(rows, row)
  {
    var n := |rows| - 1;
    var front, last := rows[..n], rows[n];
    assert rows == front + [last];
    IsLastSnoc(front, last, row);
    if row != last {
      assert last in rows && row in front;
      LastOccurrence(front, row);
    }
  }

  /** In general: the merged policies are the last rows of their policies, each once, ordered by name and id. */
  lemma MergeContents(rows: seq<Row>, le: (string, string) -> bool)
    requires TotalOrder(le)
    ensures var sorted := Sort(PutAll(rows), ByNameThenId(le));
      && SortedBy(sorted, ByNameThenId(le)) && DistinctIds(sorted)
      && (forall r :: r in sorted <==> IsLast(rows, r))
      && Merge(rows, le).policies == Views(sorted)
  {
    hide Put, PutAll, IsLast;
    PutAllContents(rows);
    var put := PutAll(rows);
    ByNameThenIdOrders(le, put);
    SortSorts(put, ByNameThenId(le));
    var sorted := Sort(put, ByNameThenId(le));
    SameMembers(sorted, put);
    ArrangementKeepsIds(put, sorted);
  }

  lemma ArrangementKeepsIds(xs: seq<Row>, ys: seq<Row>)
    requires DistinctIds(xs) && multiset(xs) == multiset(ys)
    ensures DistinctIds(ys)
  {
    SameMembers(xs, ys);
    ArrangedNoRepeats(xs, ys);
    forall i, j | 0 <= i < j < |ys|
      ensures ys[i].policyId != ys[j].policyId
    {
      assert ys[i] in xs && ys[j] in xs;
    }
  }
}
