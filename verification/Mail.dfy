/** What threads have sent one another, by thread identifier, over whole runs of the kernel
    (src/ipc/ipc.c, src/thread/thread.c). */
module Mail {
  import opened Ipc
  import opened ThreadMemory

  /** What a thread has taken from its queue, and what is still there. */
  datatype Mailbox = Mailbox(polled: seq<Msg>, waiting: seq<Msg>)

  /** The mailboxes of the listed threads, by identifier, and the next identifier. */
  datatype Post = Post(boxes: map<nat, Mailbox>, next: nat)

  datatype MailEvent = Sent(tid: nat, m: Msg) | Polled(tid: nat) | Born(tid: nat) | Gone(tid: nat) | Still

  ghost predicate PostOk(a: Post) {
    forall t :: t in a.boxes ==> t < a.next
  }

  ghost predicate PostStep(a: Post, e: MailEvent, b: Post) {
    match e
    case Sent(t, m) => t in a.boxes && m.target == t && b == a.(boxes := a.boxes[t := Put(a.boxes[t], m)])
    case Polled(t) => t in a.boxes && a.boxes[t].waiting != [] && b == a.(boxes := a.boxes[t := Take(a.boxes[t])])
    case Born(t) => t == a.next && b == Post(a.boxes[t := Mailbox([], [])], t + 1)
    case Gone(t) => t in a.boxes && b == a.(boxes := a.boxes - {t})
    case Still => b.boxes == a.boxes && a.next <= b.next
  }

  function Put(box: Mailbox, m: Msg): Mailbox { Mailbox(box.polled, box.waiting + [m]) }

  function Take(box: Mailbox): Mailbox
    requires box.waiting != []
  {
    Mailbox(box.polled + [box.waiting[0]], box.waiting[1..])
  }

  ghost predicate PostRun(posts: seq<Post>, events: seq<MailEvent>) {
    |posts| == |events| + 1 && forall i :: 0 <= i < |events| ==> PostStep(posts[i], events[i], posts[i + 1])
  }

  /** The messages sent to thread t, in order. */
  function SentTo(events: seq<MailEvent>, t: nat): seq<Msg> {
    if events == [] then []
    else
      var e := events[|events| - 1];
      SentTo(events[..|events| - 1], t) + if e.Sent? && e.tid == t then [e.m] else []
  }

  function All(box: Mailbox): seq<Msg> { box.polled + box.waiting }

  /** What thread t started with: its mailbox at the start of the run, or nothing if it was spawned later. */
  function Initial(a: Post, t: nat): Mailbox {
    if t in a.boxes then a.boxes[t] else Mailbox([], [])
  }

  lemma StepOk(a: Post, e: MailEvent, b: Post)
    requires PostOk(a) && PostStep(a, e, b)
    ensures PostOk(b) && a.next <= b.next
  {
  }

  lemma {:induction false} RunPostOk(posts: seq<Post>, events: seq<MailEvent>, k: nat)
    requires PostRun(posts, events) && PostOk(posts[0]) && k < |posts|
    ensures PostOk(posts[k]) && posts[0].next <= posts[k].next
  {
    hide PostStep, PostOk;
    if k > 0 {
      var i := k - 1;
      RunPostOk(posts, events, i);
      assert PostStep(posts[i], events[i], posts[i + 1]);
      StepOk(posts[i], events[i], posts[k]);
    }
  }

  lemma PostFront(posts: seq<Post>, events: seq<MailEvent>)
    requires PostRun(posts, events) && |events| > 0
    ensures PostRun(posts[..|events|], events[..|events| - 1])
    ensures PostStep(posts[|events| - 1], events[|events| - 1], posts[|events|])
  {
    hide PostStep;
    var k := |events| - 1;
    assert PostStep(posts[k], events[k], posts[k + 1]);
    forall i | 0 <= i < k ensures PostStep(posts[..k + 1][i], events[..k][i], posts[..k + 1][i + 1]) {
      assert PostStep(posts[i], events[i], posts[i + 1]);
    }
  }

  /** An identifier not yet given out has received nothing. */
  lemma {:induction false} NothingSent(posts: seq<Post>, events: seq<MailEvent>, t: nat)
    requires PostRun(posts, events) && PostOk(posts[0]) && posts[|events|].next <= t
    ensures SentTo(events, t) == []
    decreases |events|
  {
    if |events| > 0 {
      var k := |events| - 1;
      RunPostOk(posts, events, k);
      PostFront(posts, events);
      StepOk(posts[k], events[k], posts[k + 1]);
      NothingSent(posts[..k + 1], events[..k], t);
    }
  }

  /** One step of the mailbox of a thread that is listed before and after. */
  lemma BoxStep(a: Post, e: MailEvent, b: Post, t: nat)
    requires PostOk(a) && PostStep(a, e, b) && t in a.boxes && t in b.boxes
    ensures All(b.boxes[t]) == All(a.boxes[t]) + (if e.Sent? && e.tid == t then [e.m] else [])
    ensures a.boxes[t].polled <= b.boxes[t].polled
  {
  }

  /** A thread listed now was listed before, or has just been spawned. */
  lemma Before(a: Post, e: MailEvent, b: Post, t: nat)
    requires PostOk(a) && PostStep(a, e, b) && t in b.boxes
    ensures t in a.boxes || (e == Born(t) && t == a.next && b.boxes[t] == Mailbox([], []))
  {
  }

  /** First in, first out over every run of the kernel: what a listed thread has taken, followed by what waits
      for it, is what it started with followed by everything sent to it since, in order.  Nothing is lost,
      duplicated, reordered or delivered to another thread, and no identifier is used twice. */
  lemma {:induction false} Fifo(posts: seq<Post>, events: seq<MailEvent>, t: nat)
    requires PostRun(posts, events) && PostOk(posts[0]) && t in posts[|events|].boxes
    ensures All(posts[|events|].boxes[t]) == All(Initial(posts[0], t)) + SentTo(events, t)
    ensures Initial(posts[0], t).polled <= posts[|events|].boxes[t].polled
    decreases |events|
  {
    if |events| > 0 {
      var k := |events| - 1;
      var a, e, b, front := posts[k], events[k], posts[k + 1], events[..k];
      RunPostOk(posts, events, k);
      PostFront(posts, events);
      Before(a, e, b, t);
      hide PostStep;
      if t in a.boxes {
        Fifo(posts[..k + 1], front, t);
        BoxStep(a, e, b, t);
        var added := if e.Sent? && e.tid == t then [e.m] else [];
        assert All(Initial(posts[0], t)) + SentTo(front, t) + added
               == All(Initial(posts[0], t)) + (SentTo(front, t) + added);
      } else {
        NothingSent(posts[..k + 1], front, t);
        assert t !in posts[0].boxes;
        assert SentTo(events, t) == [];
      }
    }
  }

  // ---------------------------------------------------------------- from pointers to identifiers

  ghost predicate TidsDiffer(store: map<nat, Thread>) {
    forall p, q :: p in store && q in store && p != q ==> store[p].tid != store[q].tid
  }

  ghost function Tids(store: map<nat, Thread>): set<nat> {
    set p | p in store :: store[p].tid
  }

  ghost function Holder(store: map<nat, Thread>, t: nat): (p: nat)
    requires t in Tids(store)
    ensures p in store && store[p].tid == t
  {
    var p :| p in store && store[p].tid == t;
    p
  }

  /** Mailboxes by identifier, from mailboxes by pointer. */
  ghost function ByTid(store: map<nat, Thread>, mail: map<nat, Mailbox>): map<nat, Mailbox>
    requires mail.Keys == store.Keys
  {
    map t | t in Tids(store) :: mail[Holder(store, t)]
  }

  lemma ByTidAt(store: map<nat, Thread>, mail: map<nat, Mailbox>, p: nat)
    requires mail.Keys == store.Keys && TidsDiffer(store) && p in store
    ensures store[p].tid in ByTid(store, mail) && ByTid(store, mail)[store[p].tid] == mail[p]
  {
    assert store[p].tid in Tids(store);
    var q := Holder(store, store[p].tid);
    assert q == p;
  }

  lemma ByTidUpdate(store: map<nat, Thread>, mail: map<nat, Mailbox>, mail': map<nat, Mailbox>, p: nat, box: Mailbox)
    requires mail.Keys == store.Keys && TidsDiffer(store) && p in store && mail' == mail[p := box]
    ensures mail'.Keys == store.Keys && ByTid(store, mail') == ByTid(store, mail)[store[p].tid := box]
  {
    assert mail'.Keys == store.Keys;
    ByTidAt(store, mail, p);
    ByTidAt(store, mail', p);
    forall t | t in Tids(store) && t != store[p].tid ensures ByTid(store, mail')[t] == ByTid(store, mail)[t] {
    }
  }

  lemma ByTidAdd(store: map<nat, Thread>, mail: map<nat, Mailbox>, p: nat, t: Thread, box: Mailbox)
    requires mail.Keys == store.Keys && TidsDiffer(store) && p !in store && t.tid !in Tids(store)
    ensures mail[p := box].Keys == store[p := t].Keys
    ensures ByTid(store[p := t], mail[p := box]) == ByTid(store, mail)[t.tid := box]
  {
    var store', mail' := store[p := t], mail[p := box];
    forall q | q in store ensures store[q].tid != t.tid {
      assert store[q].tid in Tids(store);
    }
    assert TidsDiffer(store') && mail'.Keys == store'.Keys;
    forall x ensures x in Tids(store') <==> x == t.tid || x in Tids(store) {
      if x in Tids(store) {
        assert store'[Holder(store, x)].tid == x;
      }
      assert store'[p].tid == t.tid;
    }
    forall x | x in Tids(store') ensures ByTid(store', mail')[x] == ByTid(store, mail)[t.tid := box][x] {
      if x == t.tid {
        ByTidAt(store', mail', p);
      } else {
        ByTidAt(store', mail', Holder(store, x));
      }
    }
  }

  lemma ByTidRemove(store: map<nat, Thread>, mail: map<nat, Mailbox>, p: nat)
    requires mail.Keys == store.Keys && TidsDiffer(store) && p in store
    ensures (mail - {p}).Keys == (store - {p}).Keys
    ensures ByTid(store - {p}, mail - {p}) == ByTid(store, mail) - {store[p].tid}
    ensures store[p].tid in Tids(store)
  {
    var store', mail' := store - {p}, mail - {p};
    assert mail'.Keys == store'.Keys && store[p].tid in Tids(store);
    forall x ensures x in Tids(store') <==> x in Tids(store) && x != store[p].tid {
      if x in Tids(store) && x != store[p].tid {
        assert store'[Holder(store, x)].tid == x;
      }
      if x in Tids(store') {
        assert store[Holder(store', x)].tid == x;
      }
    }
    forall x | x in Tids(store') ensures ByTid(store', mail')[x] == ByTid(store, mail)[x] {
      ByTidAt(store', mail', Holder(store, x));
    }
  }

  lemma ByTidSame(store: map<nat, Thread>, store': map<nat, Thread>, mail: map<nat, Mailbox>)
    requires mail.Keys == store.Keys == store'.Keys && TidsDiffer(store) && forall p :: p in store ==>
               store'[p].tid == store[p].tid
    ensures ByTid(store', mail) == ByTid(store, mail)
  {
    assert TidsDiffer(store');
    forall x ensures x in Tids(store') <==> x in Tids(store) {
      if x in Tids(store) {
        assert store'[Holder(store, x)].tid == x;
      }
      if x in Tids(store') {
        assert store[Holder(store', x)].tid == x;
      }
    }
    forall x | x in Tids(store) ensures ByTid(store', mail)[x] == ByTid(store, mail)[x] {
      ByTidAt(store', mail, Holder(store, x));
    }
  }

  /** A thread that leaves the table takes its mailbox along. */
  lemma GonePost(store: map<nat, Thread>, mail: map<nat, Mailbox>, mail': map<nat, Mailbox>, p: nat, next: nat)
    requires mail.Keys == store.Keys && mail' == mail - {p} && TidsDiffer(store) && p in store
    ensures mail'.Keys == (store - {p}).Keys
    ensures PostStep(Post(ByTid(store, mail), next), Gone(store[p].tid), Post(ByTid(store - {p}, mail'), next))
  {
    hide ByTid;
    ByTidRemove(store, mail, p);
    ByTidAt(store, mail, p);
  }

  /** A new thread starts with an empty one. */
  lemma BornPost(store: map<nat, Thread>, mail: map<nat, Mailbox>, mail': map<nat, Mailbox>, p: nat, t: Thread)
    requires mail.Keys == store.Keys && mail' == mail[p := Mailbox([], [])] && TidsDiffer(store) && p !in store
    requires t.tid !in Tids(store)
    ensures mail'.Keys == store[p := t].Keys
    ensures PostStep(Post(ByTid(store, mail), t.tid), Born(t.tid), Post(ByTid(store[p := t], mail'), t.tid + 1))
  {
    hide ByTid;
    ByTidAdd(store, mail, p, t, Mailbox([], []));
  }

  lemma StillPost(a: Post, b: Post)
    requires b.boxes == a.boxes && a.next <= b.next
    ensures PostStep(a, Still, b)
  {
  }
}
