/** The notification ring and its parked waiters (internal/notif/ring.go). */
module Rings {
  import opened Text

  datatype Note = Note(id: string, profile: string)

  /** A parked Wait: its query and its one-slot channel. */
  datatype Waiter = Waiter(chan: nat, query: string)

  datatype Result = Delivered(note: Note) | Wiped

  /** A send that is due, or was made, on a channel. */
  datatype Delivery = Delivery(chan: nat, result: Result)

  predicate Match(query: string, n: Note) { query == "" || query == n.profile }

  // ------------------------------------------------------------------ specification

  function LastOf<T>(s: seq<T>, n: nat): seq<T> { if |s| <= n then s else s[|s| - n..] }

  function Matching(ws: seq<Waiter>, n: Note): seq<Waiter> {
    if ws == [] then []
    else
      var k := |ws| - 1;
      Matching(ws[..k], n) + if Match(ws[k].query, n) then [ws[k]] else []
  }

  function Others(ws: seq<Waiter>, n: Note): seq<Waiter> {
    if ws == [] then []
    else
      var k := |ws| - 1;
      Others(ws[..k], n) + if Match(ws[k].query, n) then [] else [ws[k]]
  }

  function WithoutChan(ws: seq<Waiter>, chan: nat): seq<Waiter> {
    if ws == [] then []
    else
      var k := |ws| - 1;
      WithoutChan(ws[..k], chan) + if ws[k].chan == chan then [] else [ws[k]]
  }

  /** The newest stored record a query matches. */
  function Newest(items: seq<Note>, query: string): (r: Option<Note>)
    ensures r.Some? ==> exists i | 0 <= i < |items| ::
      && items[i] == r.value && Match(query, items[i])
      && forall later | i < later < |items| :: !Match(query, items[later])
    ensures r.None? ==> forall n | n in items :: !Match(query, n)
  {
    if items == [] then None
    else if Match(query, items[|items| - 1]) then Some(items[|items| - 1])
    else Newest(items[..|items| - 1], query)
  }

  function Deliveries(ws: seq<Waiter>, r: Result): seq<Delivery> {
    if ws == [] then []
    else
      var k := |ws| - 1;
      Deliveries(ws[..k], r) + [Delivery(ws[k].chan, r)]
  }

  // ---------------------------------------------------------------------- the ring

  lemma {:induction false} FilterNext(ws: seq<Waiter>, i: nat, n: Note)
    requires i < |ws|
    ensures Matching(ws[..i + 1], n) == Matching(ws[..i], n) + if Match(ws[i].query, n) then [ws[i]] else []
    ensures Others(ws[..i + 1], n) == Others(ws[..i], n) + if Match(ws[i].query, n) then [] else [ws[i]]
  {
    assert ws[..i + 1][..i] == ws[..i];
  }

  lemma {:induction false} RemovalNext(ws: seq<Waiter>, i: nat, chan: nat)
    requires i < |ws|
    ensures WithoutChan(ws[..i + 1], chan) == WithoutChan(ws[..i], chan) + if ws[i].chan == chan then [] else [ws[i]]
  {
    assert ws[..i + 1][..i] == ws[..i];
  }

  lemma {:induction false} NothingFiltered(n: Note)
    ensures Matching([], n) == [] && Others([], n) == []
  {
  }

  lemma {:induction false} NothingRemoved(chan: nat)
    ensures WithoutChan([], chan) == []
  {
  }

  /** The ring keeps its records and its waiters in backing arrays that it shifts and filters in place.
      What lies behind the counts is not part of it. */
  class Ring {
    const cap: nat
    const items: array<Note>
    var count: nat
    var waiters: array<Waiter>
    var parked: nat

    ghost predicate Valid()
      reads this
    {
      0 < cap <= 4096 && items.Length == cap && count <= cap && parked <= waiters.Length
    }

    ghost function Items(): seq<Note>
      requires Valid()
      reads this, items
    {
      items[..count]
    }

    ghost function Waiting(): seq<Waiter>
      requires Valid()
      reads this, waiters
    {
      waiters[..parked]
    }

    constructor (n: int)
      ensures Valid() && Items() == [] && Waiting() == [] && fresh(items) && fresh(waiters)
      ensures cap == if n <= 0 then 256 else if n > 4096 then 4096 else n
    {
      cap := if n <= 0 then 256 else if n > 4096 then 4096 else n;
      items := new Note[if n <= 0 then 256 else if n > 4096 then 4096 else n](_ => Note("", ""));
      waiters := new Waiter[0];
      count, parked := 0, 0;
    }

    /** A full ring moves its records down by one. */
    method Shift()
      requires Valid() && count == cap
      modifies this`count, items
      ensures Valid() && Items() == old(Items())[1..]
    {
      forall i | 0 <= i < cap - 1 { items[i] := items[i + 1]; }
      count := cap - 1;
    }

    /** The insertion of OnCommit. */
    method Append(n: Note)
      requires Valid()
      modifies this`count, items
      ensures Valid() && Items() == LastOf(old(Items()) + [n], cap)
    {
      if count >= cap { Shift(); }
      items[count] := n;
      count := count + 1;
    }

    /** takeWaitersLocked: one pass with a reading and a writing index over the same array. */
    method TakeWaiters(n: Note) returns (taken: seq<Waiter>)
      requires Valid()
      modifies this`parked, waiters
      ensures Valid() && taken == Matching(old(Waiting()), n) && Waiting() == Others(old(Waiting()), n)
    {
      hide Matching, Others;
      ghost var before := waiters[..parked];
      NothingFiltered(n);
      taken := [];
      var i, kept := 0, 0;
      while i < parked
        invariant 0 <= kept <= i <= parked == old(parked) <= waiters.Length
        invariant taken == Matching(before[..i], n) && waiters[..kept] == Others(before[..i], n)
        invariant waiters[i..parked] == before[i..]
      {
        assert before[..i + 1][..i] == before[..i] && waiters[i..parked][0] == before[i..][0];
        var w := waiters[i];
        FilterNext(before, i, n);
        if Match(w.query, n) { taken := taken + [w]; } else { kept := Keep(kept, w, i); }
        i := i + 1;
      }
      assert before[..parked] == before;
      Release(kept);
    }

    /** A kept waiter moves down to the writing index, which never overtakes the reading index. */
    method Keep(kept: nat, w: Waiter, i: nat) returns (kept': nat)
      requires Valid() && kept <= i < parked
      modifies waiters
      ensures kept' == kept + 1 && waiters[..kept'] == old(waiters[..kept]) + [w]
      ensures waiters[i + 1..parked] == old(waiters[i + 1..parked])
    {
      waiters[kept] := w;
      kept' := kept + 1;
    }

    /** The freed places are cleared and the list ends before them. */
    method Release(kept: nat)
      requires Valid() && kept <= parked
      modifies this`parked, waiters
      ensures Valid() && parked == kept && Waiting() == old(waiters[..kept])
    {
      var i := kept;
      while i < parked
        invariant Valid() && kept <= i <= parked && waiters[..kept] == old(waiters[..kept])
      {
        waiters[i] := Waiter(0, "");
        i := i + 1;
      }
      parked := kept;
    }

    /** OnCommit under the mutex: the waiters it returns are sent the record afterwards. */
    method Commit(n: Note) returns (taken: seq<Waiter>)
      requires Valid()
      modifies this`count, this`parked, items, waiters
      ensures Valid() && Items() == LastOf(old(Items()) + [n], cap)
      ensures taken == Matching(old(Waiting()), n) && Waiting() == Others(old(Waiting()), n)
    {
      Append(n);
      taken := TakeWaiters(n);
    }

    /** Wait under the mutex: the newest match, or a parked waiter. */
    method Wait(query: string, chan: nat) returns (r: Option<Note>)
      requires Valid()
      modifies this`waiters, this`parked, waiters
      ensures Valid() && Items() == old(Items()) && r == Newest(Items(), query)
      ensures Waiting() == if r.Some? then old(Waiting()) else old(Waiting()) + [Waiter(chan, query)]
      ensures waiters == old(waiters) || fresh(waiters)
    {
      var i := count;
      assert items[..count][..count] == items[..count];
      while i > 0
        invariant 0 <= i <= count && Newest(items[..count], query) == Newest(items[..i], query)
      {
        assert items[..i][..i - 1] == items[..i - 1];
        if Match(query, items[i - 1]) { return Some(items[i - 1]); }
        i := i - 1;
      }
      Park(Waiter(chan, query));
      return None;
    }

    /** append, which moves to a larger array when the old one is full. */
    method Park(w: Waiter)
      requires Valid()
      modifies this`waiters, this`parked, waiters
      ensures Valid() && Items() == old(Items()) && Waiting() == old(Waiting()) + [w]
      ensures waiters == old(waiters) || fresh(waiters)
    {
      if parked == waiters.Length {
        var larger := new Waiter[2 * parked + 1](_ => Waiter(0, ""));
        forall i | 0 <= i < parked { larger[i] := waiters[i]; }
        assert larger[..parked] == waiters[..parked];
        waiters := larger;
      }
      waiters[parked] := w;
      parked := parked + 1;
    }

    /** removeWaiter. */
    method RemoveWaiter(chan: nat)
      requires Valid()
      modifies this`parked, waiters
      ensures Valid() && Items() == old(Items()) && Waiting() == WithoutChan(old(Waiting()), chan)
    {
      hide WithoutChan;
      ghost var before := waiters[..parked];
      NothingRemoved(chan);
      var i, kept := 0, 0;
      while i < parked
        invariant 0 <= kept <= i <= parked == old(parked) <= waiters.Length
        invariant waiters[..kept] == WithoutChan(before[..i], chan)
        invariant waiters[i..parked] == before[i..]
      {
        assert before[..i + 1][..i] == before[..i] && waiters[i..parked][0] == before[i..][0];
        var w := waiters[i];
        RemovalNext(before, i, chan);
        if w.chan != chan { kept := Keep(kept, w, i); }
        i := i + 1;
      }
      assert before[..parked] == before;
      Release(kept);
    }

    /** broadcastWiped under the mutex: the old array of waiters is handed over, to be told. */
    method Wipe() returns (told: seq<Waiter>)
      requires Valid()
      modifies this`count, this`waiters, this`parked
      ensures Valid() && Items() == [] && Waiting() == [] && told == old(Waiting()) && fresh(waiters)
    {
      count := 0;
      told := waiters[..parked];
      waiters, parked := new Waiter[0], 0;
    }
  }

  // -------------------------------------------------------------------- interleavings

  /** The ring, the sends still due, the channels' slots, and three histories: the commits since the
      last wipe, every send made, and the query each channel was parked with. */
  datatype State = State(
    cap: nat,
    items: seq<Note>,
    waiters: seq<Waiter>,
    due: seq<Delivery>,
    slots: map<nat, Result>,
    nextChan: nat,
    log: seq<Note>,
    sent: seq<Delivery>,
    queries: map<nat, string>)

  datatype Action = Commit(n: Note) | Wait(query: string) | Send(i: nat) | Receive(chan: nat) | Timeout(chan: nat) | Wipe

  function Init(cap: nat): State { State(cap, [], [], [], map[], 0, [], [], map[]) }

  /** A send finds its channel's slot taken: it would block. */
  predicate Blocked(s: State, i: nat)
    requires i < |s.due|
  {
    s.due[i].chan in s.slots
  }

  function Step(s: State, a: Action): State {
    match a
    case Commit(n) =>
      s.(items := LastOf(s.items + [n], s.cap), waiters := Others(s.waiters, n),
         due := s.due + Deliveries(Matching(s.waiters, n), Delivered(n)), log := s.log + [n])
    case Wait(query) =>
      if Newest(s.items, query).Some? then s
      else s.(waiters := s.waiters + [Waiter(s.nextChan, query)], nextChan := s.nextChan + 1,
              queries := s.queries[s.nextChan := query])
    case Send(i) =>
      if i >= |s.due| || Blocked(s, i) then s
      else s.(due := s.due[..i] + s.due[i + 1..], sent := s.sent + [s.due[i]],
              slots := s.slots[s.due[i].chan := s.due[i].result])
    case Receive(chan) => s.(slots := s.slots - {chan})
    case Timeout(chan) => s.(waiters := WithoutChan(s.waiters, chan))
    case Wipe =>
      s.(items := [], waiters := [], due := s.due + Deliveries(s.waiters, Wiped), log := [])
  }

  function Run(s: State, actions: seq<Action>): State
    decreases |actions|
  {
    if actions == [] then s else Run(Step(s, actions[0]), actions[1..])
  }

  // ---------------------------------------------------------- each channel's one token

  function Parked(ws: seq<Waiter>): multiset<nat> {
    if ws == [] then multiset{} else Parked(ws[..|ws| - 1]) + multiset{ws[|ws| - 1].chan}
  }

  function Chans(ds: seq<Delivery>): multiset<nat> {
    if ds == [] then multiset{} else Chans(ds[..|ds| - 1]) + multiset{ds[|ds| - 1].chan}
  }

  function Tokens(s: State): multiset<nat> { Parked(s.waiters) + Chans(s.due) + Chans(s.sent) }

  lemma {:induction false} FilterConserves(ws: seq<Waiter>, n: Note)
    ensures Parked(Matching(ws, n)) + Parked(Others(ws, n)) == Parked(ws)
  {
    hide Parked;
    NoneParked();
    if ws != [] {
      var k := |ws| - 1;
      FilterConserves(ws[..k], n);
      SplitOne(Matching(ws[..k], n), Others(ws[..k], n), ws[..k], ws[k]);
      assert ws == ws[..k] + [ws[k]];
      assert Matching(ws[..k], n) + [] == Matching(ws[..k], n);
      assert Others(ws[..k], n) + [] == Others(ws[..k], n);
    }
  }

  /** A waiter goes to one side or the other. */
  lemma {:induction false} SplitOne(yes: seq<Waiter>, no: seq<Waiter>, ws: seq<Waiter>, w: Waiter)
    requires Parked(yes) + Parked(no) == Parked(ws)
    ensures Parked(yes + [w]) + Parked(no) == Parked(ws + [w])
    ensures Parked(yes) + Parked(no + [w]) == Parked(ws + [w])
  {
    hide Parked;
    ParkedSnoc(yes, w);
    ParkedSnoc(no, w);
    ParkedSnoc(ws, w);
  }

  lemma {:induction false} ParkedSnoc(ws: seq<Waiter>, w: Waiter)
    ensures Parked(ws + [w]) == Parked(ws) + multiset{w.chan}
  {
    assert (ws + [w])[..|ws|] == ws;
  }

  lemma {:induction false} ChansSnoc(ds: seq<Delivery>, d: Delivery)
    ensures Chans(ds + [d]) == Chans(ds) + multiset{d.chan}
  {
    assert (ds + [d])[..|ds|] == ds;
  }

  lemma {:induction false} ChansConcat(a: seq<Delivery>, b: seq<Delivery>)
    ensures Chans(a + b) == Chans(a) + Chans(b)
    decreases |b|
  {
    hide Chans;
    NoneDue();
    if b == [] {
      assert a + b == a;
    } else {
      var k := |b| - 1;
      ChansConcat(a, b[..k]);
      ConcatOne(a, b[..k], b[k]);
      assert b[..k] + [b[k]] == b;
    }
  }

  lemma {:induction false} NoneDue()
    ensures Chans([]) == multiset{}
  {
  }

  lemma {:induction false} ConcatOne(a: seq<Delivery>, b: seq<Delivery>, d: Delivery)
    requires Chans(a + b) == Chans(a) + Chans(b)
    ensures Chans(a + (b + [d])) == Chans(a) + Chans(b + [d])
  {
    hide Chans;
    assert a + (b + [d]) == a + b + [d];
    ChansSnoc(a + b, d);
    ChansSnoc(b, d);
  }

  lemma {:induction false} DeliveriesConserve(ws: seq<Waiter>, r: Result)
    ensures Chans(Deliveries(ws, r)) == Parked(ws)
  {
    if ws != [] {
      hide Chans;
      var k := |ws| - 1;
      DeliveriesConserve(ws[..k], r);
      ChansSnoc(Deliveries(ws[..k], r), Delivery(ws[k].chan, r));
    }
  }

  /** A removal takes away its channel's tokens and no other's. */
  lemma {:induction false} RemovalIsExact(ws: seq<Waiter>, chan: nat)
    ensures forall c :: Parked(WithoutChan(ws, chan))[c] == if c == chan then 0 else Parked(ws)[c]
  {
    if ws != [] {
      var k := |ws| - 1;
      RemovalIsExact(ws[..k], chan);
      ParkedSnoc(WithoutChan(ws[..k], chan), ws[k]);
      assert WithoutChan(ws[..k], chan) + [] == WithoutChan(ws[..k], chan);
    }
  }

  lemma {:induction false} ChansOfDrop(ds: seq<Delivery>, i: nat)
    requires i < |ds|
    ensures Chans(ds) == Chans(ds[..i] + ds[i + 1..]) + multiset{ds[i].chan}
  {
    hide Chans;
    assert ds == ds[..i] + [ds[i]] + ds[i + 1..];
    ChansConcat(ds[..i] + [ds[i]], ds[i + 1..]);
    ChansSnoc(ds[..i], ds[i]);
    ChansConcat(ds[..i], ds[i + 1..]);
  }

  /** A token is made only by a Wait that parks, for its new channel, and lost only by a Timeout, which
      takes its own channel's out of the waiters; every other step conserves all of them. */
  lemma {:induction false} TokensConserved(s: State, a: Action)
    ensures var t := Step(s, a);
      if t.nextChan != s.nextChan then a.Wait? && Tokens(t) == Tokens(s) + multiset{s.nextChan}
      else if a.Timeout? then
        forall c :: Tokens(t)[c] == Tokens(s)[c] - if c == a.chan then Parked(s.waiters)[c] else 0
      else Tokens(t) == Tokens(s)
  {
    hide Parked, Chans, Matching, Others, Deliveries, WithoutChan, Newest, LastOf;
    match a
    case Commit(n) => CommitConserves(s, n);
    case Wait(query) => ParkedSnoc(s.waiters, Waiter(s.nextChan, query));
    case Send(i) => SendConserves(s, i);
    case Receive(chan) =>
    case Timeout(chan) => RemovalIsExact(s.waiters, chan);
    case Wipe => WipeConserves(s);
  }

  lemma {:induction false} CommitConserves(s: State, n: Note)
    ensures Tokens(Step(s, Commit(n))) == Tokens(s)
  {
    hide Parked, Chans, Matching, Others, Deliveries, LastOf;
    FilterConserves(s.waiters, n);
    TellingConserves(s.due, Matching(s.waiters, n), Delivered(n));
  }

  lemma {:induction false} WipeConserves(s: State)
    ensures Tokens(Step(s, Wipe)) == Tokens(s)
  {
    hide Parked, Chans, Deliveries;
    TellingConserves(s.due, s.waiters, Wiped);
    NoneParked();
  }

  lemma {:induction false} TellingConserves(due: seq<Delivery>, ws: seq<Waiter>, r: Result)
    ensures Chans(due + Deliveries(ws, r)) == Chans(due) + Parked(ws)
  {
    hide Chans, Parked, Deliveries;
    DeliveriesConserve(ws, r);
    ChansConcat(due, Deliveries(ws, r));
  }

  lemma {:induction false} SendConserves(s: State, i: nat)
    ensures Tokens(Step(s, Send(i))) == Tokens(s)
  {
    hide Chans, Parked;
    if i < |s.due| {
      ChansOfDrop(s.due, i);
      ChansSnoc(s.sent, s.due[i]);
    }
  }

  lemma {:induction false} NoneParked()
    ensures Parked([]) == multiset{}
  {
  }

  // ------------------------------------------------------------------------ invariant

  /** The record a delivery carries is one the channel asked for. */
  predicate Wanted(s: State, d: Delivery) {
    d.chan in s.queries && (d.result.Delivered? ==> Match(s.queries[d.chan], d.result.note))
  }

  ghost predicate Invariant(s: State) {
    && s.cap > 0 && s.items == LastOf(s.log, s.cap)
    && (forall w, n | w in s.waiters && n in s.items :: !Match(w.query, n))
    && (forall w | w in s.waiters :: w.chan in s.queries && s.queries[w.chan] == w.query)
    && (forall c | c in s.queries :: c < s.nextChan)
    && (forall c :: Tokens(s)[c] <= 1 && (c >= s.nextChan ==> Tokens(s)[c] == 0))
    && (forall c | c in s.slots :: Delivery(c, s.slots[c]) in s.sent)
    && (forall d | d in s.due :: Wanted(s, d))
    && (forall d | d in s.sent :: Wanted(s, d))
  }

  lemma {:induction false} FilterMembers(ws: seq<Waiter>, n: Note)
    ensures forall w :: w in Others(ws, n) <==> w in ws && !Match(w.query, n)
    ensures forall w :: w in Matching(ws, n) <==> w in ws && Match(w.query, n)
  {
    if ws != [] {
      var k := |ws| - 1;
      FilterMembers(ws[..k], n);
      assert ws == ws[..k] + [ws[k]];
    }
  }

  lemma {:induction false} RemovalMembers(ws: seq<Waiter>, chan: nat)
    ensures forall w | w in WithoutChan(ws, chan) :: w in ws && w.chan != chan
  {
    if ws != [] { RemovalMembers(ws[..|ws| - 1], chan); }
  }

  lemma {:induction false} DeliveryMembers(ws: seq<Waiter>, r: Result)
    ensures forall d | d in Deliveries(ws, r) :: d.result == r && exists w | w in ws :: w.chan == d.chan
  {
    if ws != [] {
      var k := |ws| - 1;
      DeliveryMembers(ws[..k], r);
      assert ws[k] in ws;
    }
  }

  lemma {:induction false} ChanIsCounted(ds: seq<Delivery>, i: nat)
    requires i < |ds|
    ensures ds[i].chan in Chans(ds)
  {
    if i < |ds| - 1 { ChanIsCounted(ds[..|ds| - 1], i); }
  }

  /** A due send never finds its channel's slot taken. */
  lemma {:induction false} SendNeverBlocks(s: State, i: nat)
    requires Invariant(s) && i < |s.due|
    ensures !Blocked(s, i)
  {
    var c := s.due[i].chan;
    ChanIsCounted(s.due, i);
    if Blocked(s, i) {
      var k :| 0 <= k < |s.sent| && s.sent[k] == Delivery(c, s.slots[c]);
      ChanIsCounted(s.sent, k);
    }
    assert Tokens(s)[c] == Parked(s.waiters)[c] + Chans(s.due)[c] + Chans(s.sent)[c];
  }

  lemma {:induction false} NewDeliveriesAreWanted(s: State, ws: seq<Waiter>, r: Result)
    requires forall w | w in ws :: w in s.waiters && (r.Delivered? ==> Match(w.query, r.note))
    requires forall w | w in s.waiters :: w.chan in s.queries && s.queries[w.chan] == w.query
    ensures forall d | d in Deliveries(ws, r) :: Wanted(s, d)
  {
    DeliveryMembers(ws, r);
  }

  lemma {:induction false} LastOfPush(log: seq<Note>, cap: nat, n: Note)
    requires cap > 0
    ensures LastOf(LastOf(log, cap) + [n], cap) == LastOf(log + [n], cap)
    ensures forall x | x in LastOf(log + [n], cap) :: x in LastOf(log, cap) || x == n
  {
  }

  lemma {:induction false} StepKeepsInvariant(s: State, a: Action)
    requires Invariant(s)
    ensures Invariant(Step(s, a))
  {
    hide Invariant, Step;
    match a
    case Commit(n) => CommitKeepsInvariant(s, n);
    case Wait(query) => WaitKeepsInvariant(s, query);
    case Send(i) => SendKeepsInvariant(s, i);
    case Receive(chan) => ReceiveKeepsInvariant(s, chan);
    case Timeout(chan) => TimeoutKeepsInvariant(s, chan);
    case Wipe => WipeKeepsInvariant(s);
  }

  lemma {:induction false} WaitKeepsInvariant(s: State, query: string)
    requires Invariant(s)
    ensures Invariant(Step(s, Wait(query)))
  {
    hide Tokens, Wanted, LastOf;
    StepKeepsTokens(s, Wait(query));
    WantedMonotone(s, Step(s, Wait(query)));
  }

  lemma {:induction false} ReceiveKeepsInvariant(s: State, chan: nat)
    requires Invariant(s)
    ensures Invariant(Step(s, Receive(chan)))
  {
    hide Tokens, Wanted, LastOf;
    StepKeepsTokens(s, Receive(chan));
    WantedMonotone(s, Step(s, Receive(chan)));
  }

  lemma {:induction false} TimeoutKeepsInvariant(s: State, chan: nat)
    requires Invariant(s)
    ensures Invariant(Step(s, Timeout(chan)))
  {
    hide Tokens, Wanted, LastOf, WithoutChan;
    StepKeepsTokens(s, Timeout(chan));
    RemovalMembers(s.waiters, chan);
    WantedMonotone(s, Step(s, Timeout(chan)));
  }

  lemma {:induction false} StepKeepsTokens(s: State, a: Action)
    requires forall c :: Tokens(s)[c] <= 1 && (c >= s.nextChan ==> Tokens(s)[c] == 0)
    ensures var t := Step(s, a); forall c :: Tokens(t)[c] <= 1 && (c >= t.nextChan ==> Tokens(t)[c] == 0)
  {
    hide Tokens, LastOf, Matching, Others, Deliveries, WithoutChan, Newest;
    TokensConserved(s, a);
    TokensBounded(s, Step(s, a));
  }

  lemma {:induction false} CommitKeepsInvariant(s: State, n: Note)
    requires Invariant(s)
    ensures Invariant(Step(s, Commit(n)))
  {
    hide Tokens, Wanted, LastOf, Matching, Others, Deliveries;
    StepKeepsTokens(s, Commit(n));
    LastOfPush(s.log, s.cap, n);
    FilterMembers(s.waiters, n);
    NewDeliveriesAreWanted(s, Matching(s.waiters, n), Delivered(n));
    WantedMonotone(s, Step(s, Commit(n)));
  }

  lemma {:induction false} SendKeepsInvariant(s: State, i: nat)
    requires Invariant(s)
    ensures Invariant(Step(s, Send(i)))
  {
    hide Tokens, Wanted, LastOf;
    StepKeepsTokens(s, Send(i));
    WantedMonotone(s, Step(s, Send(i)));
  }

  lemma {:induction false} WipeKeepsInvariant(s: State)
    requires Invariant(s)
    ensures Invariant(Step(s, Wipe))
  {
    hide Tokens, Wanted, LastOf, Deliveries;
    StepKeepsTokens(s, Wipe);
    EmptyLast(s.cap);
    NewDeliveriesAreWanted(s, s.waiters, Wiped);
    WantedMonotone(s, Step(s, Wipe));
  }

  lemma {:induction false} EmptyLast(cap: nat)
    ensures LastOf<Note>([], cap) == []
  {
  }

  lemma {:induction false} TokensBounded(s: State, t: State)
    requires forall c :: Tokens(s)[c] <= 1 && (c >= s.nextChan ==> Tokens(s)[c] == 0)
    requires t.nextChan >= s.nextChan
    requires
      if t.nextChan == s.nextChan then forall c :: Tokens(t)[c] <= Tokens(s)[c]
      else t.nextChan == s.nextChan + 1 && Tokens(t) == Tokens(s) + multiset{s.nextChan}
    ensures forall c :: Tokens(t)[c] <= 1 && (c >= t.nextChan ==> Tokens(t)[c] == 0)
  {
    hide Tokens;
  }

  lemma {:induction false} WantedMonotone(s: State, t: State)
    requires forall c | c in s.queries :: c in t.queries && t.queries[c] == s.queries[c]
    ensures forall d | Wanted(s, d) :: Wanted(t, d)
  {
  }

  /** In every interleaving of commits, waits, sends, receipts, timeouts and wipes: no parked waiter's
      query matches a stored record, the records are the last cap commits since the last wipe, each
      channel is sent at most one result, one its query matches, and no send would block. */
  lemma {:induction false} RunKeepsInvariant(s: State, actions: seq<Action>)
    requires Invariant(s)
    ensures var t := Run(s, actions);
      Invariant(t) && forall i | 0 <= i < |t.due| :: !Blocked(t, i)
    decreases |actions|
  {
    hide Invariant, Step;
    if actions == [] {
      forall i | 0 <= i < |s.due| ensures !Blocked(s, i) { SendNeverBlocks(s, i); }
    } else {
      StepKeepsInvariant(s, actions[0]);
      RunKeepsInvariant(Step(s, actions[0]), actions[1..]);
    }
  }

  // ------------------------------------------------------------------ who gets what

  /** The step leaves a parked waiter parked: no timeout of its own, no wipe, no record it asks for. */
  predicate Passes(w: Waiter, a: Action) {
    match a
    case Commit(n) => !Match(w.query, n)
    case Timeout(chan) => chan != w.chan
    case Wipe => false
    case _ => true
  }

  lemma {:induction false} RemovalKeeps(ws: seq<Waiter>, chan: nat, w: Waiter)
    requires w in ws && w.chan != chan
    ensures w in WithoutChan(ws, chan)
  {
    var k := |ws| - 1;
    assert ws == ws[..k] + [ws[k]];
    if w in ws[..k] { RemovalKeeps(ws[..k], chan, w); }
  }

  lemma {:induction false} StaysParked(s: State, w: Waiter, actions: seq<Action>)
    requires w in s.waiters && forall i | 0 <= i < |actions| :: Passes(w, actions[i])
    ensures w in Run(s, actions).waiters
    decreases |actions|
  {
    if actions != [] {
      match actions[0] {
        case Commit(n) => FilterMembers(s.waiters, n);
        case Timeout(chan) => RemovalKeeps(s.waiters, chan, w);
        case _ =>
      }
      hide Step, Passes;
      StaysParked(Step(s, actions[0]), w, actions[1..]);
    }
  }

  lemma {:induction false} EachIsDue(ws: seq<Waiter>, r: Result, w: Waiter)
    requires w in ws
    ensures Delivery(w.chan, r) in Deliveries(ws, r)
  {
    var k := |ws| - 1;
    assert ws == ws[..k] + [ws[k]];
    if w in ws[..k] { EachIsDue(ws[..k], r, w); }
  }

  /** What is due is sent, or still due, after any further steps. */
  lemma {:induction false} DueIsNotLost(s: State, d: Delivery, actions: seq<Action>)
    requires d in s.due || d in s.sent
    ensures var t := Run(s, actions); d in t.due || d in t.sent
    decreases |actions|
  {
    if actions != [] {
      var t := Step(s, actions[0]);
      if actions[0].Send? && actions[0].i < |s.due| {
        var i := actions[0].i;
        assert s.due == s.due[..i] + [s.due[i]] + s.due[i + 1..];
      }
      assert d in t.due || d in t.sent;
      hide Step;
      DueIsNotLost(t, d, actions[1..]);
    }
  }

  lemma {:induction false} RunSplits(s: State, a: seq<Action>, b: seq<Action>)
    ensures Run(s, a + b) == Run(Run(s, a), b)
    decreases |a|
  {
    hide Step;
    if a == [] {
      assert a + b == b;
    } else {
      assert (a + b)[0] == a[0] && (a + b)[1..] == a[1..] + b;
      RunSplits(Step(s, a[0]), a[1..], b);
    }
  }

  /** What the step tells a parked waiter: a record it asks for, or that the ring was wiped. */
  function Tells(w: Waiter, a: Action): Option<Result> {
    match a
    case Commit(n) => if Match(w.query, n) then Some(Delivered(n)) else None
    case Wipe => Some(Wiped)
    case _ => None
  }

  lemma {:induction false} TellsMakesDue(s: State, w: Waiter, a: Action)
    requires w in s.waiters && Tells(w, a).Some?
    ensures Delivery(w.chan, Tells(w, a).value) in Step(s, a).due
  {
    match a
    case Commit(n) =>
      FilterMembers(s.waiters, n);
      EachIsDue(Matching(s.waiters, n), Delivered(n), w);
    case Wipe => EachIsDue(s.waiters, Wiped, w);
  }

  /** A channel is owed or sent no second result. */
  lemma {:induction false} OneResult(s: State, c: nat, r: Result, r': Result)
    requires Invariant(s)
    requires Delivery(c, r) in s.due || Delivery(c, r) in s.sent
    requires Delivery(c, r') in s.due || Delivery(c, r') in s.sent
    ensures r == r'
  {
    hide Chans;
    var all := s.due + s.sent;
    ChansConcat(s.due, s.sent);
    assert Delivery(c, r) in all && Delivery(c, r') in all;
    var i :| 0 <= i < |all| && all[i] == Delivery(c, r);
    var j :| 0 <= j < |all| && all[j] == Delivery(c, r');
    assert Tokens(s)[c] == Parked(s.waiters)[c] + Chans(all)[c] <= 1;
    if i != j { TwoAreCounted(all, i, j); }
  }

  lemma {:induction false} TwoAreCounted(ds: seq<Delivery>, i: nat, j: nat)
    requires i < |ds| && j < |ds| && i != j && ds[i].chan == ds[j].chan
    ensures Chans(ds)[ds[i].chan] >= 2
  {
    hide Chans;
    ChansOfDrop(ds, i);
    var rest := ds[..i] + ds[i + 1..];
    var k := if j < i then j else j - 1;
    assert rest[k] == ds[j];
    ChanIsCounted(rest, k);
  }

  /** The first record after its parking that a waiter asks for, or the first wipe, is what its channel
      is sent or still owed ever after, and it is sent and owed nothing else. */
  lemma {:induction false} WaiterGetsTheFirst(s: State, w: Waiter, before: seq<Action>, a: Action, after: seq<Action>)
    requires Invariant(s) && w in s.waiters
    requires (forall i | 0 <= i < |before| :: Passes(w, before[i])) && Tells(w, a).Some?
    ensures var t, d := Run(s, before + [a] + after), Delivery(w.chan, Tells(w, a).value);
      && (d in t.due || d in t.sent)
      && (forall other | (other in t.due || other in t.sent) && other.chan == w.chan :: other == d)
      && (w.chan in t.slots ==> t.slots[w.chan] == d.result)
  {
    hide Invariant, Step, Passes, Tells;
    var mid := Run(s, before);
    StaysParked(s, w, before);
    TellsMakesDue(mid, w, a);
    RunSplits(s, before, [a] + after);
    assert before + ([a] + after) == before + [a] + after && ([a] + after)[1..] == after;
    var t, d := Run(s, before + [a] + after), Delivery(w.chan, Tells(w, a).value);
    DueIsNotLost(Step(mid, a), d, after);
    RunKeepsInvariant(s, before + [a] + after);
    forall other: Delivery | (other in t.due || other in t.sent) && other.chan == w.chan ensures other == d {
      OneResult(t, w.chan, d.result, other.result);
    }
    SlotsAreSent(t);
  }

  lemma {:induction false} SlotsAreSent(s: State)
    requires Invariant(s)
    ensures forall c | c in s.slots :: Delivery(c, s.slots[c]) in s.sent
  {
  }

  lemma {:induction false} InitIsInvariant(cap: nat)
    requires cap > 0
    ensures Invariant(Init(cap))
  {
  }
}
