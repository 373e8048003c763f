/** Facts about the thread table as a value: who owns which block and frame, and the order of the table. */
module ThreadLists {
  import opened Common
  import opened ThreadMemory
  import opened Scheduling
  import opened SchedulerRuns

  // ---------------------------------------------------------------- who owns what

  ghost function Union(sets: map<nat, set<nat>>): set<nat> {
    set p, b | p in sets && b in sets[p] :: b
  }

  ghost predicate AllApart(sets: map<nat, set<nat>>) {
    forall p, q :: p in sets && q in sets && p != q ==> sets[p] !! sets[q]
  }

  function TableBlock(at: nat): set<nat> { if at == 0 then {} else {at} }

  /** Every thread's blocks and the table's are live, and no block has two owners. */
  ghost predicate BlocksOk(blocks: map<nat, set<nat>>, table: set<nat>, live: set<nat>) {
    && AllApart(blocks) && Union(blocks) <= live && table <= live && table !! Union(blocks)
  }

  /** Thread p now owns `after` instead of what it owned; nothing else in the heap has changed. */
  lemma OwnAgain(blocks: map<nat, set<nat>>, blocks': map<nat, set<nat>>, table: set<nat>, live: set<nat>,
                 live': set<nat>, p: nat, before: set<nat>, after: set<nat>)
    requires BlocksOk(blocks, table, live)
    requires before == (if p in blocks then blocks[p] else {})
    requires blocks' == blocks[p := after] || (after == {} && blocks' == blocks - {p})
    requires after <= live' && live' - after == live - before
    ensures BlocksOk(blocks', table, live')
    ensures live' - (Union(blocks') + table) == live - (Union(blocks) + table)
  {
    hide Union;
    assert AllApart(blocks') by {
      forall q | q in blocks && q != p ensures blocks[q] !! after && blocks'[q] == blocks[q] {
        forall x | x in blocks[q] ensures x !in after {
          UnionHas(blocks, q, x);
          assert x in live - before;
        }
      }
    }
    forall x ensures x in Union(blocks') <==> x in after || (x in Union(blocks) && x !in before) {
      Replaced(blocks, blocks', p, after, x);
    }
    forall x ensures x in live' && x !in after <==> x in live && x !in before {
      assert x in live' - after <==> x in live - before;
    }
    assert forall x :: x in before ==> x in Union(blocks) by {
      forall x | x in before ensures x in Union(blocks) { UnionHas(blocks, p, x); }
    }
  }

  /** The table moved to another block. */
  lemma TableMoved(blocks: map<nat, set<nat>>, table: set<nat>, live: set<nat>, table': set<nat>, live': set<nat>)
    requires BlocksOk(blocks, table, live) && table' !! live && live' == live - table + table'
    ensures BlocksOk(blocks, table', live')
    ensures live' - (Union(blocks) + table') == live - (Union(blocks) + table)
  {
    hide Union, AllApart;
  }

  lemma UnionHas(sets: map<nat, set<nat>>, p: nat, x: nat)
    requires p in sets && x in sets[p]
    ensures x in Union(sets)
  {
  }

  lemma Replaced(sets: map<nat, set<nat>>, sets': map<nat, set<nat>>, p: nat, after: set<nat>, x: nat)
    requires AllApart(sets) && (sets' == sets[p := after] || (after == {} && sets' == sets - {p}))
    ensures x in Union(sets') <==> x in after || (x in Union(sets) && !(p in sets && x in sets[p]))
  {
    if x in after {
      UnionHas(sets', p, x);
    }
    if x in Union(sets) && !(p in sets && x in sets[p]) {
      var q :| q in sets && x in sets[q];
      UnionHas(sets', q, x);
    }
    if x in Union(sets') && x !in after {
      var q :| q in sets' && x in sets'[q];
      UnionHas(sets, q, x);
    }
  }

  /** The same for stacks: frames leave or rejoin the ones that are free or the heap's. */
  ghost predicate StacksOk(stacks: map<nat, set<nat>>, claimed: set<nat>) {
    AllApart(stacks) && Union(stacks) !! claimed
  }

  lemma StackAdded(stacks: map<nat, set<nat>>, claimed: set<nat>, p: nat, s: set<nat>)
    requires StacksOk(stacks, claimed) && p !in stacks && s <= claimed
    ensures StacksOk(stacks[p := s], claimed - s)
    ensures Union(stacks[p := s]) + (claimed - s) == Union(stacks) + claimed
  {
    hide Union;
    forall q, x | q in stacks && x in stacks[q] ensures x !in s {
      UnionHas(stacks, q, x);
    }
    forall x ensures x in Union(stacks[p := s]) <==> x in s || x in Union(stacks) {
      Replaced(stacks, stacks[p := s], p, s, x);
    }
  }

  lemma StackRemoved(stacks: map<nat, set<nat>>, claimed: set<nat>, p: nat)
    requires StacksOk(stacks, claimed) && p in stacks
    ensures StacksOk(stacks - {p}, claimed + stacks[p])
    ensures Union(stacks - {p}) + (claimed + stacks[p]) == Union(stacks) + claimed
  {
    hide Union;
    forall x | x in stacks[p] ensures x in Union(stacks) {
      UnionHas(stacks, p, x);
    }
    forall x ensures x in Union(stacks - {p}) <==> x in Union(stacks) && x !in stacks[p] {
      Replaced(stacks, stacks - {p}, p, {}, x);
    }
  }

  // ---------------------------------------------------------------- the table

  function TidAt(store: map<nat, Thread>, p: nat): nat {
    if p in store then store[p].tid else 0
  }

  /** The table lists each thread once, in the order of their identifiers, which are all below the next one. */
  ghost predicate Listing(table: seq<nat>, store: map<nat, Thread>, next: nat) {
    && (forall k :: 0 <= k < |table| ==> table[k] in store)
    && (forall p :: p in store ==> p in table && p != 0 && 0 < store[p].tid < next)
    && (forall i, j :: 0 <= i < j < |table| ==> TidAt(store, table[i]) < TidAt(store, table[j]))
  }

  lemma ListingDistinct(table: seq<nat>, store: map<nat, Thread>, next: nat)
    requires Listing(table, store, next)
    ensures Distinct(table) && 0 !in table
  {
    forall i, j | 0 <= i < j < |table| ensures table[i] != table[j] {
      assert TidAt(store, table[i]) < TidAt(store, table[j]);
    }
  }

  lemma ListingAppend(table: seq<nat>, store: map<nat, Thread>, next: nat, p: nat, t: Thread)
    requires Listing(table, store, next) && p !in store && p != 0 && t.tid == next > 0
    ensures Listing(table + [p], store[p := t], next + 1)
  {
    var table', store' := table + [p], store[p := t];
    assert forall k :: 0 <= k < |table| ==> table'[k] == table[k] && table[k] != p;
    assert table'[|table|] == p;
    forall i, j | 0 <= i < j < |table'| ensures TidAt(store', table'[i]) < TidAt(store', table'[j]) {
      if j < |table| {
        assert TidAt(store, table[i]) < TidAt(store, table[j]);
      }
    }
  }

  lemma ListingRemove(table: seq<nat>, store: map<nat, Thread>, next: nat, p: nat)
    requires Listing(table, store, next) && p in store
    ensures p in table && Listing(Without(table, p), store - {p}, next)
  {
    hide IndexOf, Without;
    ListingDistinct(table, store, next);
    var table', store' := Without(table, p), store - {p};
    forall x ensures x in table' <==> x in table && x != p {
      WithoutIs(table, p);
    }
    forall k | 0 <= k < |table'| ensures table'[k] in store' {
      assert table'[k] in table' && table'[k] in table;
    }
    forall a, b | 0 <= a < b < |table'| ensures TidAt(store', table'[a]) < TidAt(store', table'[b]) {
      assert table'[a] in table' && table'[b] in table';
      var a' := Kept(table, p, a);
      var b' := Kept(table, p, b);
      assert TidAt(store, table[a']) < TidAt(store, table[b']);
    }
  }

  /** Where the entry at k of the shortened table was before. */
  lemma Kept(table: seq<nat>, p: nat, k: nat) returns (k': nat)
    requires p in table && k < |Without(table, p)|
    ensures k' < |table| && table[k'] == Without(table, p)[k]
    ensures k' == if k < IndexOf(table, p) then k else k + 1
  {
    hide IndexOf;
    k' := if k < IndexOf(table, p) then k else k + 1;
  }

  lemma TidUnique(table: seq<nat>, store: map<nat, Thread>, next: nat, p: nat, q: nat)
    requires Listing(table, store, next) && p in store && q in store && store[p].tid == store[q].tid
    ensures p == q
  {
    var i :| 0 <= i < |table| && table[i] == p;
    var j :| 0 <= j < |table| && table[j] == q;
  }

  ghost function ReadySet(store: map<nat, Thread>): set<nat> {
    set p | p in store && store[p].state == Ready
  }

  predicate TableSize(n: nat) {
    n == 0 || n == 8 || n == 16 || n == 32 || n == 64 || n == 128 || n == 256
  }

  lemma PlaceAhead(n: nat, c: nat, k: nat)
    requires c < n && 1 <= k <= n
    ensures Ahead(n, c, Around(n, c, k)) == k
  {
    hide Around;
    AroundIs(n, c, k);
  }

  lemma AheadPlace(n: nat, c: nat, j: nat)
    requires c < n && j < n
    ensures Around(n, c, Ahead(n, c, j)) == j
  {
    hide Around;
    AroundIs(n, c, Ahead(n, c, j));
  }
}
