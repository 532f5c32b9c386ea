/**
 The counter tables and their upsert: INSERT … ON CONFLICT DO UPDATE keeps the least first_seen,
 the greatest last_seen, and adds the request and error counts.
 */
module Upsert {
  import opened Prelude

  /** A row of services, named by the service, or of service_dependencies, named by the pair. */
  datatype Key = Service(name: string) | Dependency(source: string, target: string)

  datatype Counters = Counters(first: nat, last: nat, requests: nat, errors: nat)

  type Table = map<Key, Counters>

  function Min(a: nat, b: nat): nat { if a <= b then a else b }
  function Max(a: nat, b: nat): nat { if a <= b then b else a }

  /** DO UPDATE SET: the stored row and the excluded one. */
  function Merge(row: Counters, excluded: Counters): Counters
  {
    Counters(Min(row.first, excluded.first), Max(row.last, excluded.last),
             row.requests + excluded.requests, row.errors + excluded.errors)
  }

  /** A row that may be missing: the identity of the upsert. */
  function MergeOption(a: Option<Counters>, b: Option<Counters>): Option<Counters>
  {
    if a.None? then b else if b.None? then a else Some(Merge(a.value, b.value))
  }

  function Lookup<K>(t: map<K, Counters>, k: K): Option<Counters>
  {
    if k in t then Some(t[k]) else None
  }

  /** One upsert statement for one row. */
  function UpsertRow(t: Table, k: Key, excluded: Counters): Counters
  {
    if k in t then Merge(t[k], excluded) else excluded
  }

  /** Upserting every row of a batch. */
  function MergeTable(t: Table, batch: Table): (r: Table)
    ensures r.Keys == t.Keys + batch.Keys
    ensures forall k :: Lookup(r, k) == MergeOption(Lookup(t, k), Lookup(batch, k))
  {
    map k | k in t.Keys + batch.Keys :: if k in batch then UpsertRow(t, k, batch[k]) else t[k]
  }

  /** Tables that answer every lookup alike are the same table. */
  lemma SameTable(t: Table, u: Table)
    requires forall k :: Lookup(t, k) == Lookup(u, k)
    ensures t == u
  {
    forall k ensures k in t <==> k in u {
      assert Lookup(t, k) == Lookup(u, k);
    }
    forall k | k in t ensures t[k] == u[k] {
      assert Lookup(t, k) == Lookup(u, k);
    }
  }

  lemma MergeAssociative(a: Table, b: Table, c: Table)
    ensures MergeTable(MergeTable(a, b), c) == MergeTable(a, MergeTable(b, c))
  {
    SameTable(MergeTable(MergeTable(a, b), c), MergeTable(a, MergeTable(b, c)));
  }

  lemma MergeCommutative(a: Table, b: Table)
    ensures MergeTable(a, b) == MergeTable(b, a)
  {
    SameTable(MergeTable(a, b), MergeTable(b, a));
  }

  /** Batches merged one after another. */
  function MergeAll(t: Table, batches: seq<Table>): Table
  {
    if batches == [] then t else MergeTable(MergeAll(t, batches[..|batches|-1]), batches[|batches|-1])
  }

  lemma MergeNothing(t: Table)
    ensures MergeTable(t, map[]) == t
  {
    SameTable(MergeTable(t, map[]), t);
  }

  /** Upserting batches into stored rows is upserting what they leave in an empty table. */
  lemma {:induction false} MergeAllFrom(t: Table, batches: seq<Table>)
    ensures MergeAll(t, batches) == MergeTable(t, MergeAll(map[], batches))
  {
    if batches == [] {
      MergeNothing(t);
    } else {
      var init := batches[..|batches|-1];
      MergeAllFrom(t, init);
      MergeAssociative(t, MergeAll(map[], init), batches[|batches|-1]);
    }
  }

  /** Two batches upserted one after the other can change places. */
  lemma Exchange(t: Table, x: Table, y: Table)
    ensures MergeTable(MergeTable(t, x), y) == MergeTable(MergeTable(t, y), x)
  {
    MergeAssociative(t, x, y);
    MergeCommutative(x, y);
    MergeAssociative(t, y, x);
  }

  /** The last batch is merged last. */
  lemma MergeLast(t: Table, a: seq<Table>, b: seq<Table>)
    requires b != []
    ensures MergeAll(t, a + b) == MergeTable(MergeAll(t, a + b[..|b|-1]), b[|b|-1])
  {
    assert (a + b)[..|a + b|-1] == a + b[..|b|-1];
  }

  /** A batch can move to the end of the queue. */
  lemma {:induction false} MergeAllMove(t: Table, a: seq<Table>, x: Table, b: seq<Table>)
    ensures MergeAll(t, a + [x] + b) == MergeTable(MergeAll(t, a + b), x)
  {
    if b == [] {
      assert a + [x] + b == a + [x] && a + b == a;
      MergeLast(t, a, [x]);
      assert a + [] == a;
    } else {
      var init, y := b[..|b|-1], b[|b|-1];
      MergeAllMove(t, a, x, init);
      MergeLast(t, a + [x], b);
      MergeLast(t, a, b);
      Exchange(MergeAll(t, a + init), x, y);
    }
  }
}
