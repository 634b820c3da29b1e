/** The keyset-cursor batch scan of controller/channel_upstream_update.go: pages of enabled channels
    fetched by "id greater than the last one seen". */
module BatchScan {
  import opened OrderedSets

  datatype Row = Row(id: int, enabled: bool)

  /** The table in id order; ids are auto-incremented, hence distinct and positive. */
  ghost predicate ValidTable(table: seq<Row>) {
    && (forall i :: 0 <= i < |table| ==> table[i].id > 0)
    && (forall i, j :: 0 <= i < j < |table| ==> table[i].id < table[j].id)
  }

  function Take<T>(s: seq<T>, n: nat): seq<T> {
    if |s| <= n then s else s[..n]
  }

  /** `findEnabledChannelsAfterID`: the cursor condition applies only once a row has been seen. */
  function FindEnabledAfter(table: seq<Row>, lastId: int, batchSize: nat): seq<Row> {
    Take(Filter(table, (r: Row) => r.enabled && (lastId > 0 ==> r.id > lastId)), batchSize)
  }

  /** What a plain loop over the sorted table visits. */
  function EnabledRows(table: seq<Row>): seq<Row> {
    Filter(table, (r: Row) => r.enabled)
  }

  /** The rows beyond the cursor are exactly the enabled rows not yet visited. */
  lemma {:induction false} FilterBeyond(table: seq<Row>, lastId: int, k: nat)
    requires ValidTable(table) && k <= |EnabledRows(table)|
    requires k == 0 ==> lastId <= 0
    requires k > 0 ==> lastId == EnabledRows(table)[k - 1].id
    ensures Filter(table, (r: Row) => r.enabled && (lastId > 0 ==> r.id > lastId)) == EnabledRows(table)[k..]
  {
    var beyond := (r: Row) => r.enabled && (lastId > 0 ==> r.id > lastId);
    if table != [] {
      var n := |table| - 1;
      var front, last := table[..n], table[n];
      var e := EnabledRows(front);
      FilterMembers(front, (r: Row) => r.enabled);
      assert EnabledRows(table) == if last.enabled then e + [last] else e;
      if k <= |e| {
        FilterBeyond(front, lastId, k);
        if k > 0 {
          assert e[k - 1] in front;
        }
      } else {
        // the cursor is on the last row: nothing lies beyond it
        forall r | r in table
          ensures !beyond(r)
        {
          var i :| 0 <= i < |table| && table[i] == r;
        }
        FilterNone(table, beyond);
      }
    }
  }

  /** A page fetched at the cursor is the next stretch of enabled rows. */
  lemma PageIsNext(table: seq<Row>, lastId: int, batchSize: nat, k: nat)
    requires ValidTable(table) && k <= |EnabledRows(table)|
    requires k == 0 ==> lastId <= 0
    requires k > 0 ==> lastId == EnabledRows(table)[k - 1].id
    ensures var page, rows := FindEnabledAfter(table, lastId, batchSize), EnabledRows(table);
            && |page| == (if |rows| - k <= batchSize then |rows| - k else batchSize)
            && forall i :: 0 <= i < |page| ==> page[i] == rows[k + i]
  {
    FilterBeyond(table, lastId, k);
  }

  function AtMost(a: nat, b: nat): nat {
    if a < b then a else b
  }

  /** The scan loop over a fixed table. The context is cancelled once `stopAfter` channels have been visited,
      and only the first `goodQueries` queries succeed. It ends, and visits the enabled channels exactly as a
      loop over the sorted table would, up to the cancellation or the failing query. */
  method Scan(table: seq<Row>, batchSize: nat, stopAfter: nat, goodQueries: nat) returns (visited: seq<Row>)
    requires ValidTable(table) && batchSize >= 1
    ensures visited == Take(EnabledRows(table), AtMost(stopAfter, goodQueries * batchSize))
  {
    hide EnabledRows, FindEnabledAfter;
    visited := [];
    var lastId, queries := 0, 0;
    ghost var rows := EnabledRows(table);
    while true
      invariant |visited| <= |rows| && |visited| <= stopAfter && visited == rows[..|visited|]
      invariant queries <= goodQueries && |visited| == queries * batchSize
      invariant visited == [] ==> lastId == 0
      invariant visited != [] ==> lastId == rows[|visited| - 1].id
      decreases |rows| - |visited|
    {
      RoomLeft(queries, goodQueries, batchSize);
      if |visited| == stopAfter {
        return;
      }
      if queries == goodQueries {
        return;
      }
      queries := queries + 1;
      var channels := FindEnabledAfter(table, lastId, batchSize);
      ghost var k := |visited|;
      PageIsNext(table, lastId, batchSize, k);
      if |channels| == 0 {
        return;
      }
      lastId := channels[|channels| - 1].id;
      for i := 0 to |channels|
        invariant |visited| == k + i && |visited| <= stopAfter && visited == rows[..k + i]
      {
        if |visited| == stopAfter {
          return;
        }
        visited := visited + [channels[i]];
      }
      if |channels| < batchSize {
        return;
      }
    }
  }

  /** Every query that still succeeds leaves room for a whole batch. */
  lemma {:induction false} RoomLeft(queries: nat, goodQueries: nat, batchSize: nat)
    requires queries <= goodQueries
    ensures (queries + 1) * batchSize == queries * batchSize + batchSize
    ensures queries * batchSize <= goodQueries * batchSize
    ensures queries < goodQueries ==> queries * batchSize + batchSize <= goodQueries * batchSize
    decreases goodQueries - queries
  {
    if queries < goodQueries {
      RoomLeft(queries + 1, goodQueries, batchSize);
    }
  }

  /** Each enabled channel is visited exactly once, in increasing id order. */
  lemma ScanOrder(table: seq<Row>)
    requires ValidTable(table)
    ensures forall r :: r in EnabledRows(table) <==> r in table && r.enabled
    ensures forall i, j :: 0 <= i < j < |EnabledRows(table)| ==> EnabledRows(table)[i].id < EnabledRows(table)[j].id
  {
    FilterMembers(table, (r: Row) => r.enabled);
    EnabledAscend(table);
  }

  lemma {:induction false} EnabledAscend(table: seq<Row>)
    requires ValidTable(table)
    ensures forall i, j :: 0 <= i < j < |EnabledRows(table)| ==> EnabledRows(table)[i].id < EnabledRows(table)[j].id
  {
    if table != [] {
      var n := |table| - 1;
      EnabledAscend(table[..n]);
      FilterMembers(table[..n], (r: Row) => r.enabled);
      var e := EnabledRows(table[..n]);
      forall i | 0 <= i < |e|
        ensures e[i].id < table[n].id
      {
        assert e[i] in table[..n];
      }
    }
  }
}
