/** Round-robin selection (src/scheduler/scheduler.c) on positions of the thread table. */
module Scheduling {
  import opened Common

  /** How far position j lies after position c in a table of n entries: 1 for the next one, n for c itself. */
  function Ahead(n: nat, c: nat, j: nat): (d: nat)
    requires c < n && j < n
    ensures 1 <= d <= n && (d == n <==> c == j)
  {
    if c < j then j - c else j + n - c
  }

  /** j is the position scheduler_next settles on from c: the nearest one ahead that is ready. */
  ghost predicate Nearest(n: nat, ready: set<nat>, c: nat, j: nat) {
    && c < n && j < n && j in ready
    && forall q :: q in ready && q < n ==> Ahead(n, c, j) <= Ahead(n, c, q)
  }

  // ---------------------------------------------------------------- round robin on a steady table

  /** The position the search for pick m starts from. */
  function Origin(c: nat, picks: seq<nat>, m: nat): nat
    requires m < |picks|
  {
    if m == 0 then c else picks[m - 1]
  }

  ghost predicate Picks(n: nat, ready: set<nat>, c: nat, picks: seq<nat>) {
    forall m :: 0 <= m < |picks| ==> Nearest(n, ready, Origin(c, picks, m), picks[m])
  }

  /** The ready positions at most as far ahead of c as j is. */
  ghost function Upto(n: nat, ready: set<nat>, c: nat, j: nat): set<nat>
    requires c < n && j < n
  {
    set q | q in ready && q < n && Ahead(n, c, q) <= Ahead(n, c, j)
  }

  /** From one pick to the next, exactly one more ready position has been passed. */
  lemma PickAdvances(n: nat, ready: set<nat>, c: nat, j: nat, k: nat)
    requires c < n && j < n && j in ready && Nearest(n, ready, j, k)
    requires exists q :: q in ready && q < n && Ahead(n, c, j) < Ahead(n, c, q)
    ensures Upto(n, ready, c, k) == Upto(n, ready, c, j) + {k} && k !in Upto(n, ready, c, j)
  {
    var q :| q in ready && q < n && Ahead(n, c, j) < Ahead(n, c, q);
    assert Ahead(n, j, k) <= Ahead(n, j, q);
    assert Ahead(n, c, j) < Ahead(n, c, k);
    forall x | x in Upto(n, ready, c, k) && x != k ensures x in Upto(n, ready, c, j) {
      assert Ahead(n, j, k) <= Ahead(n, j, x);
    }
  }

  lemma FirstPick(n: nat, ready: set<nat>, c: nat, k: nat)
    requires Nearest(n, ready, c, k)
    ensures Upto(n, ready, c, k) == {k}
  {
    forall x | x in Upto(n, ready, c, k) ensures x == k {
      assert Ahead(n, c, k) <= Ahead(n, c, x);
    }
  }

  ghost function Elements(s: seq<nat>): set<nat> {
    set x | x in s
  }

  lemma {:induction false} PicksPass(n: nat, ready: set<nat>, c: nat, picks: seq<nat>)
    requires c < n && Picks(n, ready, c, picks) && 0 < |picks| <= |ready|
    requires forall q :: q in ready ==> q < n
    ensures picks[|picks| - 1] < n && Upto(n, ready, c, picks[|picks| - 1]) == Elements(picks)
    ensures |Elements(picks)| == |picks|
    decreases |picks|
  {
    hide Ahead, Upto, Elements, Picks;
    var m := |picks| - 1;
    var k := picks[m];
    PickIs(n, ready, c, picks, m);
    if m == 0 {
      FirstPick(n, ready, c, k);
      assert picks == [] + [k];
      ElementsAdd([], k);
    } else {
      var front, j := picks[..m], picks[m - 1];
      PickIs(n, ready, c, picks, m - 1);
      PicksFront(n, ready, c, picks);
      PicksPass(n, ready, c, front);
      NotAllYet(n, ready, c, j);
      PickAdvances(n, ready, c, j, k);
      assert picks == front + [k];
      ElementsAdd(front, k);
    }
  }

  lemma PickIs(n: nat, ready: set<nat>, c: nat, picks: seq<nat>, m: nat)
    requires Picks(n, ready, c, picks) && m < |picks|
    ensures Nearest(n, ready, Origin(c, picks, m), picks[m])
  {
    hide Origin, Nearest;
  }

  lemma PicksFront(n: nat, ready: set<nat>, c: nat, picks: seq<nat>)
    requires Picks(n, ready, c, picks) && |picks| > 0
    ensures Picks(n, ready, c, picks[..|picks| - 1])
  {
    hide Nearest;
    var front := picks[..|picks| - 1];
    forall i | 0 <= i < |front| ensures Nearest(n, ready, Origin(c, front, i), front[i]) {
      assert Nearest(n, ready, Origin(c, picks, i), picks[i]);
    }
  }

  lemma NotAllYet(n: nat, ready: set<nat>, c: nat, j: nat)
    requires c < n && j < n && |Upto(n, ready, c, j)| < |ready| && forall q :: q in ready ==> q < n
    ensures exists q :: q in ready && q < n && Ahead(n, c, j) < Ahead(n, c, q)
  {
    hide Ahead;
    assert Upto(n, ready, c, j) != ready && Upto(n, ready, c, j) <= ready;
    var q :| q in ready && q !in Upto(n, ready, c, j);
  }

  lemma ElementsAdd(s: seq<nat>, k: nat)
    ensures Elements(s + [k]) == Elements(s) + {k}
    ensures |Elements(s + [k])| == |Elements(s)| + if k in Elements(s) then 0 else 1
    ensures s == [] ==> Elements(s) == {}
  {
    assert forall x :: x in s + [k] <==> x in s || x == k;
  }

  lemma FullSet(a: set<nat>, b: set<nat>)
    requires a <= b && |a| == |b|
    ensures a == b
  {
    if x :| x in b && x !in a {
      assert a <= b - {x};
      SubsetSize(a, b - {x});
    }
  }

  /** Round robin: with k ready threads, k consecutive picks choose every ready thread exactly once. */
  lemma RoundRobin(n: nat, ready: set<nat>, c: nat, picks: seq<nat>)
    requires c < n && Picks(n, ready, c, picks) && |picks| == |ready|
    requires forall q :: q in ready ==> q < n
    ensures Elements(picks) == ready
    ensures forall i, j :: 0 <= i < j < |picks| ==> picks[i] != picks[j]
  {
    if |picks| == 0 {
      return;
    }
    PicksPass(n, ready, c, picks);
    FullSet(Elements(picks), ready);
    NoRepeat(picks);
  }

  lemma {:induction false} NoRepeat(s: seq<nat>)
    requires |Elements(s)| == |s|
    ensures forall i, j :: 0 <= i < j < |s| ==> s[i] != s[j]
    decreases |s|
  {
    if |s| > 0 {
      var front, k := s[..|s| - 1], s[|s| - 1];
      assert s == front + [k];
      assert Elements(s) == Elements(front) + {k};
      ElementsSize(front);
      NoRepeat(front);
      assert k !in Elements(front);
      assert forall i :: 0 <= i < |front| ==> s[i] == front[i];
    }
  }

  lemma {:induction false} ElementsSize(s: seq<nat>)
    ensures |Elements(s)| <= |s|
    decreases |s|
  {
    if |s| > 0 {
      var front, k := s[..|s| - 1], s[|s| - 1];
      assert s == front + [k];
      assert Elements(s) == Elements(front) + {k};
      ElementsSize(front);
    }
  }
}

/** The thread table, the ready threads and the current thread as a state machine: what spawning,
    timer ticks, yields, exits, frees and faults do to them. */
module SchedulerRuns {
  import opened Scheduling

  /** Threads are named by their pointers; `current` is 0 before the first thread is chosen. */
  datatype Sched = Sched(table: seq<nat>, ready: set<nat>, current: nat)

  ghost predicate Distinct(table: seq<nat>) {
    forall i, j :: 0 <= i < j < |table| ==> table[i] != table[j]
  }

  ghost predicate Listed(s: Sched) {
    && Distinct(s.table) && 0 !in s.table
    && forall p :: p in s.ready ==> p in s.table
  }

  /** The current thread is in the table and ready. */
  ghost predicate Ok(s: Sched) {
    Listed(s) && (s.current != 0 ==> s.current in s.ready)
  }

  /** The position of p; 0 when it is not in the table. */
  function IndexOf(table: seq<nat>, p: nat): (i: nat)
    ensures p in table ==> i < |table| && table[i] == p && p !in table[..i]
    ensures p !in table ==> i == 0
  {
    if p !in table then 0
    else if table[0] == p then 0
    else
      assert table == [table[0]] + table[1..];
      1 + IndexOf(table[1..], p)
  }

  lemma IndexIs(table: seq<nat>, i: nat)
    requires Distinct(table) && i < |table|
    ensures IndexOf(table, table[i]) == i
  {
    hide IndexOf;
    var k := IndexOf(table, table[i]);
    assert k < |table| && table[k] == table[i];
  }

  function Distance(table: seq<nat>, c: nat, p: nat): nat {
    if table == [] then 0 else Ahead(|table|, IndexOf(table, c), IndexOf(table, p))
  }

  /** What scheduler_next returns: the nearest ready thread after `current`, or after the first entry when
      `current` is not in the table; `current` itself when none is ready; null when the table is empty. */
  ghost predicate Selects(s: Sched, r: nat) {
    if s.table == [] then r == 0
    else if s.ready == {} then r == s.current
    else r in s.ready && forall q :: q in s.ready ==> Distance(s.table, s.current, r) <= Distance(s.table, s.current, q)
  }

  lemma SelectsUnique(s: Sched, r: nat, r': nat)
    requires Listed(s) && Selects(s, r) && Selects(s, r')
    ensures r == r'
  {
    if s.table != [] && s.ready != {} {
      assert Distance(s.table, s.current, r) == Distance(s.table, s.current, r');
    }
  }

  function Without(table: seq<nat>, p: nat): seq<nat>
    requires p in table
  {
    var i := IndexOf(table, p);
    table[..i] + table[i + 1..]
  }

  lemma WithoutIs(table: seq<nat>, p: nat)
    requires Distinct(table) && p in table
    ensures Distinct(Without(table, p))
    ensures forall x :: x in Without(table, p) <==> x in table && x != p
    ensures forall x :: x in table && x != p ==>
              IndexOf(Without(table, p), x)
              == IndexOf(table, x) - if IndexOf(table, p) < IndexOf(table, x) then 1 else 0
  {
    hide IndexOf;
    var t, i := Without(table, p), IndexOf(table, p);
    assert forall k :: 0 <= k < |t| ==> t[k] == table[if k < i then k else k + 1];
    forall x | x in table && x != p
      ensures x in t && IndexOf(t, x) == IndexOf(table, x) - if i < IndexOf(table, x) then 1 else 0
    {
      var k := IndexOf(table, x);
      var k' := if k < i then k else k - 1;
      assert t[k'] == x;
      IndexIs(t, k');
    }
    forall x | x in t ensures x in table && x != p {
      var k :| 0 <= k < |t| && t[k] == x;
    }
  }

  datatype Event = Spawn(p: nat) | Switch | Exit | Free(p: nat) | Fault | Other

  ghost predicate Step(s: Sched, e: Event, s': Sched) {
    match e
    case Spawn(p) => p != 0 && p !in s.table && s' == Sched(s.table + [p], s.ready + {p}, s.current)
    case Switch => s'.table == s.table && s'.ready == s.ready && Selects(s, s'.current)
    case Exit => s.current != 0 && s.ready != {s.current} && s'.table == s.table && s'.ready == s.ready - {s.current}
                 && Selects(s.(ready := s.ready - {s.current}), s'.current)
    case Free(p) => p != s.current && p in s.table && s' == Sched(Without(s.table, p), s.ready - {p}, s.current)
    case Fault => s.current != 0 && s.current in s.table
                  && s'.table == Without(s.table, s.current) && s'.ready == s.ready - {s.current}
                  && Selects(Sched(s'.table, s'.ready, s.current), s'.current)
    case Other => s' == s
  }

  /** Every step keeps the current thread listed and ready, a fault exactly when another thread is ready:
      otherwise the scheduler falls back on the freed thread or on a null pointer. */
  lemma StepOk(s: Sched, e: Event, s': Sched)
    requires Ok(s) && Step(s, e, s')
    ensures Listed(s')
    ensures e.Fault? && s.ready == {s.current} ==> s'.current !in s'.table
    ensures !(e.Fault? && s.ready == {s.current}) ==> Ok(s') && (s.current != 0 ==> s'.current != 0)
  {
    hide IndexOf, Distance;
    match e {
      case Free(p) => WithoutIs(s.table, p);
      case Fault =>
        WithoutIs(s.table, s.current);
        if s.ready != {s.current} {
          var q :| q in s.ready && q != s.current;
          assert q in s'.ready;
        }
      case Exit =>
        var q :| q in s.ready && q != s.current;
        assert q in s'.ready;
      case _ =>
    }
  }

  // ---------------------------------------------------------------- round robin

  ghost function Positions(table: seq<nat>, ready: set<nat>): set<nat> {
    set p | p in ready :: IndexOf(table, p)
  }

  lemma {:induction false} PositionsSize(table: seq<nat>, ready: set<nat>)
    requires Distinct(table) && forall p :: p in ready ==> p in table
    ensures |Positions(table, ready)| == |ready|
    decreases ready
  {
    hide IndexOf;
    if ready == {} {
      assert Positions(table, ready) == {};
    } else {
      var p :| p in ready;
      PositionsSize(table, ready - {p});
      assert Positions(table, ready) == Positions(table, ready - {p}) + {IndexOf(table, p)};
      assert IndexOf(table, p) !in Positions(table, ready - {p});
    }
  }

  lemma SelectsNearest(s: Sched, r: nat)
    requires Listed(s) && s.ready != {} && Selects(s, r)
    ensures Nearest(|s.table|, Positions(s.table, s.ready), IndexOf(s.table, s.current), IndexOf(s.table, r))
  {
    hide IndexOf, Ahead;
    var p :| p in s.ready;
    assert p in s.table;
  }

  /** The thread the search for pick m starts from. */
  function Last(s: Sched, picks: seq<nat>, m: nat): nat
    requires m < |picks|
  {
    if m == 0 then s.current else picks[m - 1]
  }

  /** `picks` are the threads chosen by consecutive switches from s on. */
  ghost predicate Turns(s: Sched, picks: seq<nat>) {
    forall m :: 0 <= m < |picks| ==> Selects(s.(current := Last(s, picks, m)), picks[m])
  }

  function Places(s: Sched, picks: seq<nat>): (r: seq<nat>)
    ensures |r| == |picks| && forall m :: 0 <= m < |picks| ==> r[m] == IndexOf(s.table, picks[m])
  {
    seq(|picks|, m requires 0 <= m < |picks| => IndexOf(s.table, picks[m]))
  }

  lemma TurnIs(s: Sched, picks: seq<nat>, m: nat)
    requires Listed(s) && s.ready != {} && Turns(s, picks) && m < |picks|
    ensures picks[m] in s.ready
    ensures Nearest(|s.table|, Positions(s.table, s.ready), Origin(IndexOf(s.table, s.current), Places(s, picks), m),
                    Places(s, picks)[m])
  {
    hide IndexOf, Selects, Nearest, Turns, Places;
    var s' := s.(current := Last(s, picks, m));
    assert Selects(s', picks[m]) by { TurnOf(s, picks, m); }
    SelectsNearest(s', picks[m]);
    SelectsReady(s', picks[m]);
  }

  lemma TurnOf(s: Sched, picks: seq<nat>, m: nat)
    requires Turns(s, picks) && m < |picks|
    ensures Selects(s.(current := Last(s, picks, m)), picks[m])
  {
    hide Last, Selects;
  }

  /** With k ready threads, k consecutive context switches give every one of them the processor once. */
  lemma EveryThreadRuns(s: Sched, picks: seq<nat>)
    requires Listed(s) && Turns(s, picks) && |picks| == |s.ready|
    ensures forall i, j :: 0 <= i < j < |picks| ==> picks[i] != picks[j]
    ensures forall p :: p in s.ready <==> p in picks
  {
    hide IndexOf, Turns, Nearest, Places, Origin;
    if s.ready == {} {
      return;
    }
    var ready, places := Positions(s.table, s.ready), Places(s, picks);
    forall m | 0 <= m < |picks|
      ensures Nearest(|s.table|, ready, Origin(IndexOf(s.table, s.current), places, m), places[m])
      ensures picks[m] in s.ready
    {
      TurnIs(s, picks, m);
    }
    PositionsSize(s.table, s.ready);
    var p :| p in s.ready;
    assert p in s.table;
    RoundRobin(|s.table|, ready, IndexOf(s.table, s.current), places);
    forall p | p in s.ready ensures p in picks {
      assert IndexOf(s.table, p) in Elements(places);
      var m :| 0 <= m < |places| && places[m] == IndexOf(s.table, p);
      assert picks[m] in s.table && p in s.table;
    }
  }

  lemma SelectsReady(s: Sched, r: nat)
    requires Listed(s) && s.ready != {} && Selects(s, r)
    ensures r in s.ready
  {
    var p :| p in s.ready;
    assert p in s.table;
  }

  // ---------------------------------------------------------------- bounded waiting

  predicate Switches(e: Event) { e.Switch? || e.Exit? }

  /** t is ready and waiting in s. */
  ghost predicate Waits(s: Sched, t: nat) {
    Ok(s) && s.current != 0 && t in s.ready && t != s.current
  }

  lemma WaitBound(s: Sched, t: nat)
    requires Waits(s, t)
    ensures 1 <= Distance(s.table, s.current, t) < |s.table|
  {
    hide IndexOf;
  }

  lemma AheadPasses(n: nat, c: nat, j: nat, t: nat)
    requires c < n && j < n && t < n && t != j && Ahead(n, c, j) <= Ahead(n, c, t)
    ensures Ahead(n, j, t) < Ahead(n, c, t)
  {
  }

  lemma AheadRemoved(n: nat, c: nat, t: nat, r: nat)
    requires c < n && t < n && r < n && c != r && t != r && c != t
    ensures Ahead(n - 1, c - (if r < c then 1 else 0), t - (if r < t then 1 else 0)) <= Ahead(n, c, t)
  {
  }

  /** A switch that does not choose t brings t closer by at least one; a spawn puts it back by at most
      one; a free never does. */
  lemma StepWaits(s: Sched, e: Event, s': Sched, t: nat)
    requires Waits(s, t) && Waits(s', t) && Step(s, e, s') && !e.Fault?
    ensures Distance(s'.table, s'.current, t) + (if Switches(e) then 1 else 0)
            <= Distance(s.table, s.current, t) + if e.Spawn? then 1 else 0
  {
    hide IndexOf, Selects, Without, Waits, Distance;
    WaitsReady(s, t);
    match e {
      case Spawn(p) => SpawnWaits(s, p, t);
      case Free(p) => FreeWaits(s, p, t);
      case Switch => SwitchWaits(s, s', t, s.ready);
      case Exit => SwitchWaits(s, s', t, s.ready - {s.current});
      case Other =>
    }
  }

  lemma SwitchWaits(s: Sched, s': Sched, t: nat, ready: set<nat>)
    requires Waits(s, t) && Waits(s', t) && t in ready && s'.table == s.table
    requires Selects(Sched(s.table, ready, s.current), s'.current)
    ensures Distance(s'.table, s'.current, t) < Distance(s.table, s.current, t)
  {
    hide IndexOf, Ahead;
    AheadPasses(|s.table|, IndexOf(s.table, s.current), IndexOf(s.table, s'.current), IndexOf(s.table, t));
  }

  lemma FreeWaits(s: Sched, p: nat, t: nat)
    requires Waits(s, t) && p in s.table && p != s.current
    requires Waits(Sched(Without(s.table, p), s.ready - {p}, s.current), t)
    ensures Distance(Without(s.table, p), s.current, t) <= Distance(s.table, s.current, t)
  {
    hide IndexOf, Ahead;
    WithoutIs(s.table, p);
    AheadRemoved(|s.table|, IndexOf(s.table, s.current), IndexOf(s.table, t), IndexOf(s.table, p));
  }

  lemma SpawnWaits(s: Sched, p: nat, t: nat)
    requires Waits(s, t) && p !in s.table
    ensures Distance(s.table + [p], s.current, t) <= Distance(s.table, s.current, t) + 1
  {
    hide IndexOf;
    var table := s.table + [p];
    assert Distinct(table);
    IndexIs(table, IndexOf(s.table, s.current));
    IndexIs(table, IndexOf(s.table, t));
  }

  ghost predicate Run(states: seq<Sched>, events: seq<Event>) {
    |states| == |events| + 1 && forall i :: 0 <= i < |events| ==> Step(states[i], events[i], states[i + 1])
  }

  function SwitchCount(events: seq<Event>): nat {
    if events == [] then 0 else SwitchCount(events[..|events| - 1]) + if Switches(events[|events| - 1]) then 1 else 0
  }

  function SpawnCount(events: seq<Event>): nat {
    if events == [] then 0 else SpawnCount(events[..|events| - 1]) + if events[|events| - 1].Spawn? then 1 else 0
  }

  /** The invariant over every run: the current thread stays listed and ready as long as no fault hits the
      only ready thread. */
  lemma {:induction false} RunOk(states: seq<Sched>, events: seq<Event>)
    requires Run(states, events) && Ok(states[0])
    requires forall i :: 0 <= i < |events| && events[i].Fault? ==> states[i].ready != {states[i].current}
    ensures forall i :: 0 <= i < |states| ==> Ok(states[i])
    decreases |events|
  {
    hide Step, Ok;
    if |events| > 0 {
      var k := |events| - 1;
      RunFront(states, events);
      RunOk(states[..k + 1], events[..k]);
      assert Ok(states[..k + 1][k]);
      StepOk(states[k], events[k], states[k + 1]);
      forall i | 0 <= i < |states| ensures Ok(states[i]) {
        if i <= k {
          assert states[..k + 1][i] == states[i];
        }
      }
    }
  }

  lemma RunFront(states: seq<Sched>, events: seq<Event>)
    requires Run(states, events) && |events| > 0
    ensures Run(states[..|events|], events[..|events| - 1])
    ensures Step(states[|events| - 1], events[|events| - 1], states[|events|])
  {
    hide Step;
    var k := |events| - 1;
    assert Step(states[k], events[k], states[k + 1]);
    forall i | 0 <= i < k ensures Step(states[..k + 1][i], events[..k][i], states[..k + 1][i + 1]) {
      assert Step(states[i], events[i], states[i + 1]);
    }
  }

  /** No starvation without faults: while t stays ready and is not chosen, the number of context switches
      is smaller than the number of threads listed at the start and spawned since. */
  lemma {:induction false} BoundedWait(states: seq<Sched>, events: seq<Event>, t: nat)
    requires Run(states, events) && forall i :: 0 <= i < |events| ==> !events[i].Fault?
    requires forall i :: 0 <= i < |states| ==> Waits(states[i], t)
    ensures SwitchCount(events) < |states[0].table| + SpawnCount(events)
  {
    WaitShrinks(states, events, t);
    WaitBound(states[0], t);
  }

  lemma {:induction false} WaitShrinks(states: seq<Sched>, events: seq<Event>, t: nat)
    requires Run(states, events) && forall i :: 0 <= i < |events| ==> !events[i].Fault?
    requires forall i :: 0 <= i < |states| ==> Waits(states[i], t)
    ensures var last := states[|events|];
            Distance(last.table, last.current, t) + SwitchCount(events)
            <= Distance(states[0].table, states[0].current, t) + SpawnCount(events)
    decreases |events|
  {
    hide Step, Waits, Distance, Ok;
    if |events| > 0 {
      var k := |events| - 1;
      RunFront(states, events);
      WaitShrinks(states[..k + 1], events[..k], t);
      assert Waits(states[k], t) && Waits(states[k + 1], t);
      StepWaits(states[k], events[k], states[k + 1], t);
    }
  }

  // ---------------------------------------------------------------- waiting with faults

  /** How much can still happen before position p is chosen from position c of n entries.  Entries before p
      only ever get fewer, and the search cannot pass p. */
  function Potential(n: nat, c: nat, p: nat): nat
    requires c < n && p < n && c != p
  {
    if c < p then p * p + (p - c) else p * p + p + (n - c)
  }

  lemma PotentialBound(n: nat, c: nat, p: nat)
    requires c < n && p < n && c != p
    ensures Potential(n, c, p) <= n * n
  {
    if c < p {
      Square(p + 1, n);
      assert (p + 1) * (p + 1) == p * p + 2 * p + 1;
    } else {
      Square(p, n - 1);
      assert (n - 1) * (n - 1) == n * n - 2 * n + 1;
    }
  }

  lemma Square(a: nat, b: nat)
    requires a <= b
    ensures a * a <= b * b
  {
    assert a * a <= a * b <= b * b;
  }

  lemma PotentialSwitch(n: nat, c: nat, j: nat, p: nat)
    requires c < n && j < n && p < n && c != p && j != p && Ahead(n, c, j) <= Ahead(n, c, p)
    ensures Potential(n, j, p) < Potential(n, c, p)
  {
  }

  /** A fault of c; the search restarts behind entry 0, and p is not entry 0. */
  lemma PotentialFault(n: nat, c: nat, p: nat, p': nat, j: nat)
    requires c < n && p < n && c != p && p' == p - (if c < p then 1 else 0) && 1 <= p' < n - 1
    requires j < n - 1 && j != p' && Ahead(n - 1, 0, j) <= Ahead(n - 1, 0, p')
    ensures Potential(n - 1, j, p') < Potential(n, c, p)
  {
    assert 1 <= j < p';
    assert (p - 1) * (p - 1) == p * p - 2 * p + 1;
  }

  lemma PotentialFree(n: nat, c: nat, p: nat, r: nat)
    requires c < n && p < n && r < n && c != p && c != r && p != r
    ensures Potential(n - 1, c - (if r < c then 1 else 0), p - (if r < p then 1 else 0)) <= Potential(n, c, p)
  {
    assert (p - 1) * (p - 1) == p * p - 2 * p + 1;
  }

  ghost function Left(s: Sched, t: nat): nat
    requires Waits(s, t)
  {
    Potential(|s.table|, IndexOf(s.table, s.current), IndexOf(s.table, t))
  }

  /** t is not the first entry of the table a fault leaves behind. */
  ghost predicate NotFirst(e: Event, s': Sched, t: nat) {
    e.Fault? ==> s'.table != [] && s'.table[0] != t
  }

  lemma StepLeft(s: Sched, e: Event, s': Sched, t: nat)
    requires Waits(s, t) && Waits(s', t) && Step(s, e, s') && NotFirst(e, s', t)
    ensures Left(s', t) + (if Switches(e) || e.Fault? then 1 else 0) <= Left(s, t) + if e.Spawn? then 1 else 0
  {
    hide IndexOf, Left, Selects, Without, Waits, Distance;
    WaitsReady(s, t);
    match e {
      case Spawn(q) => SpawnLeft(s, q, t);
      case Free(q) => FreeLeft(s, q, t);
      case Switch => SwitchLeft(s, s', t, s.ready);
      case Exit => SwitchLeft(s, s', t, s.ready - {s.current});
      case Fault => FaultLeft(s, s', t);
      case Other =>
    }
  }

  lemma WaitsReady(s: Sched, t: nat)
    requires Waits(s, t)
    ensures t in s.ready - {s.current}
  {
  }

  lemma SwitchLeft(s: Sched, s': Sched, t: nat, ready: set<nat>)
    requires Waits(s, t) && Waits(s', t) && t in ready && s'.table == s.table
    requires Selects(Sched(s.table, ready, s.current), s'.current)
    ensures Left(s', t) < Left(s, t)
  {
    hide IndexOf, Ahead, Potential;
    PotentialSwitch(|s.table|, IndexOf(s.table, s.current), IndexOf(s.table, s'.current), IndexOf(s.table, t));
  }

  lemma FreeLeft(s: Sched, q: nat, t: nat)
    requires Waits(s, t) && q in s.table && q != s.current
    requires Waits(Sched(Without(s.table, q), s.ready - {q}, s.current), t)
    ensures Left(Sched(Without(s.table, q), s.ready - {q}, s.current), t) <= Left(s, t)
  {
    hide IndexOf, Ahead, Potential;
    WithoutIs(s.table, q);
    PotentialFree(|s.table|, IndexOf(s.table, s.current), IndexOf(s.table, t), IndexOf(s.table, q));
  }

  lemma SpawnLeft(s: Sched, q: nat, t: nat)
    requires Waits(s, t) && q !in s.table && Waits(Sched(s.table + [q], s.ready + {q}, s.current), t)
    ensures Left(Sched(s.table + [q], s.ready + {q}, s.current), t) <= Left(s, t) + 1
  {
    hide IndexOf;
    var table := s.table + [q];
    assert Distinct(table);
    IndexIs(table, IndexOf(s.table, s.current));
    IndexIs(table, IndexOf(s.table, t));
  }

  lemma FaultLeft(s: Sched, s': Sched, t: nat)
    requires Waits(s, t) && Waits(s', t) && Step(s, Fault, s') && NotFirst(Fault, s', t)
    ensures Left(s', t) < Left(s, t)
  {
    hide IndexOf, Ahead, Potential;
    var n, c, p := |s.table|, IndexOf(s.table, s.current), IndexOf(s.table, t);
    WithoutIs(s.table, s.current);
    assert s.current in s.table && |s'.table| == n - 1;
    assert IndexOf(s'.table, s.current) == 0;
    var mid := Sched(s'.table, s'.ready, s.current);
    assert t in s'.ready && Distance(s'.table, s.current, s'.current) <= Distance(s'.table, s.current, t);
    PotentialFault(n, c, p, IndexOf(s'.table, t), IndexOf(s'.table, s'.current));
  }

  function FaultCount(events: seq<Event>): nat {
    if events == [] then 0 else FaultCount(events[..|events| - 1]) + if events[|events| - 1].Fault? then 1 else 0
  }

  lemma {:induction false} LeftShrinks(states: seq<Sched>, events: seq<Event>, t: nat)
    requires Run(states, events) && forall i :: 0 <= i < |states| ==> Waits(states[i], t)
    requires forall i :: 0 <= i < |events| ==> NotFirst(events[i], states[i + 1], t)
    ensures Left(states[|events|], t) + SwitchCount(events) + FaultCount(events)
            <= Left(states[0], t) + SpawnCount(events)
    decreases |events|
  {
    hide Step, Waits, Left, NotFirst;
    if |events| > 0 {
      var k := |events| - 1;
      RunFront(states, events);
      assert Waits(states[k], t) && Waits(states[k + 1], t) && NotFirst(events[k], states[k + 1], t);
      forall i | 0 <= i < k ensures NotFirst(events[..k][i], states[..k + 1][i + 1], t) {
        assert NotFirst(events[i], states[i + 1], t);
      }
      LeftShrinks(states[..k + 1], events[..k], t);
      StepLeft(states[k], events[k], states[k + 1], t);
    }
  }

  /** Faults alone starve no one: while t stays ready and is not chosen, and no fault leaves t first in the
      table, switches and faults together are at most the square of the number of threads listed at the
      start plus the number spawned since. */
  lemma FaultWait(states: seq<Sched>, events: seq<Event>, t: nat)
    requires Run(states, events) && forall i :: 0 <= i < |states| ==> Waits(states[i], t)
    requires forall i :: 0 <= i < |events| ==> NotFirst(events[i], states[i + 1], t)
    ensures SwitchCount(events) + FaultCount(events) <= |states[0].table| * |states[0].table| + SpawnCount(events)
  {
    hide IndexOf, Potential;
    LeftShrinks(states, events, t);
    assert Waits(states[0], t);
    var s := states[0];
    PotentialBound(|s.table|, IndexOf(s.table, s.current), IndexOf(s.table, t));
  }

  // ---------------------------------------------------------------- the first entry can starve

  /** Thread 1 waits at the head of the table; 2, 3 and a fourth thread run in turn, then the fourth faults. */
  function Cycle(i: nat, c: nat): Sched { Sched([1, 2, 3, 4 + i], {1, 2, 3, 4 + i}, c) }
  function Short(): Sched { Sched([1, 2, 3], {1, 2, 3}, 2) }

  /** After a fault the faulting thread is no longer listed, so the search starts behind the first entry. */
  lemma FaultStarves(i: nat)
    ensures Waits(Cycle(i, 2), 1) && Waits(Cycle(i, 3), 1) && Waits(Cycle(i, 4 + i), 1) && Waits(Short(), 1)
    ensures Step(Cycle(i, 2), Switch, Cycle(i, 3)) && Step(Cycle(i, 3), Switch, Cycle(i, 4 + i))
    ensures Step(Cycle(i, 4 + i), Fault, Short()) && Step(Short(), Spawn(5 + i), Cycle(i + 1, 2))
  {
    hide Selects, IndexOf;
    CyclePlaces(i);
    CycleSelects(i);
    ShortSelects(i);
    assert Without(Cycle(i, 4 + i).table, 4 + i) == Short().table;
  }

  lemma CycleSelects(i: nat)
    ensures Selects(Cycle(i, 2), 3) && Selects(Cycle(i, 3), 4 + i)
  {
    hide IndexOf;
    CyclePlaces(i);
  }

  lemma ShortSelects(i: nat)
    ensures Selects(Sched(Short().table, Short().ready, 4 + i), 2)
  {
    hide IndexOf;
    CyclePlaces(i);
  }

  lemma CyclePlaces(i: nat)
    ensures var table := Cycle(i, 2).table;
            IndexOf(table, 1) == 0 && IndexOf(table, 2) == 1 && IndexOf(table, 3) == 2 && IndexOf(table, 4 + i) == 3
    ensures var table := Short().table;
            IndexOf(table, 1) == 0 && IndexOf(table, 2) == 1 && IndexOf(table, 3) == 2 && IndexOf(table, 4 + i) == 0
  {
    hide IndexOf;
    var a, b := Cycle(i, 2).table, Short().table;
    IndexIs(a, 0);
    IndexIs(a, 1);
    IndexIs(a, 2);
    IndexIs(a, 3);
    IndexIs(b, 0);
    IndexIs(b, 1);
    IndexIs(b, 2);
  }

  /** So no bound of that kind holds for a thread that faults leave at the head: for every k there is a run
      with k faults and k spawns in which it waits through three times k switches and faults. */
  lemma {:induction false} HeadStarves(k: nat) returns (states: seq<Sched>, events: seq<Event>)
    ensures Run(states, events) && states[0] == Cycle(0, 2) && states[|events|] == Cycle(k, 2)
    ensures forall i :: 0 <= i < |states| ==> Waits(states[i], 1)
    ensures SwitchCount(events) == 2 * k && FaultCount(events) == k && SpawnCount(events) == k
  {
    hide Step, Waits, SwitchCount, FaultCount, SpawnCount;
    if k == 0 {
      FaultStarves(0);
      states, events := [Cycle(0, 2)], [];
      CountNone();
    } else {
      states, events := HeadStarves(k - 1);
      var i := k - 1;
      FaultStarves(i);
      FaultStarves(k);
      states, events := Extend(states, events, Switch, Cycle(i, 3));
      states, events := Extend(states, events, Switch, Cycle(i, 4 + i));
      states, events := Extend(states, events, Fault, Short());
      states, events := Extend(states, events, Spawn(5 + i), Cycle(k, 2));
    }
  }

  lemma CountNone()
    ensures SwitchCount([]) == 0 && FaultCount([]) == 0 && SpawnCount([]) == 0
  {
  }

  lemma Extend(states: seq<Sched>, events: seq<Event>, e: Event, s: Sched)
    returns (states': seq<Sched>, events': seq<Event>)
    requires Run(states, events) && Step(states[|events|], e, s) && Waits(s, 1)
    requires forall i :: 0 <= i < |states| ==> Waits(states[i], 1)
    ensures Run(states', events') && states'[0] == states[0] && states'[|events'|] == s
    ensures forall i :: 0 <= i < |states'| ==> Waits(states'[i], 1)
    ensures SwitchCount(events') == SwitchCount(events) + if Switches(e) then 1 else 0
    ensures FaultCount(events') == FaultCount(events) + if e.Fault? then 1 else 0
    ensures SpawnCount(events') == SpawnCount(events) + if e.Spawn? then 1 else 0
  {
    hide Step, Waits;
    states', events' := states + [s], events + [e];
    assert events'[..|events|] == events;
    forall i | 0 <= i < |events'| ensures Step(states'[i], events'[i], states'[i + 1]) {
      if i < |events| {
        assert Step(states[i], events[i], states[i + 1]);
      }
    }
  }
}
