/** The traffic shaper: packets are sent in slots, and time that was lost is made up for or written off. */
module Talker {

  type Uint32 = x: nat | x < 0x1_0000_0000
  type Uint16 = x: nat | x < 0x1_0000

  function Quotient(n: nat, d: nat): nat
    requires 0 < d
  {
    n / d
  }

  /** `packets` in a window of `slots` slots that are `width` milliseconds long. */
  datatype Plan = Plan(packets: Uint32, slots: Uint16, width: Uint16)
  {
    predicate Valid() { 0 < slots && 0 < width }

    /** The packets due after k slots at the planned rate. */
    function Due(k: nat): nat
      requires Valid()
    {
      Quotient(packets * k, slots)
    }

    /** The packets due in the window up to the end of slot s. */
    function Expected(s: nat): nat
      requires Valid()
    {
      if s < slots then Due(s + 1) else packets
    }
  }

  /** r groups were tried, slot s is at hand; `window` packets count for the window, `total` were sent and
      `applied` were taken off the window as credits. */
  datatype State = State(r: nat, s: nat, window: nat, total: nat, applied: nat)

  /** What the system does with one group: how many packets it can send and the time in milliseconds since
      the start when it is done. */
  datatype Event = Event(sent: nat, elapsed: nat)

  const START := State(0, 0, 0, 0, 0)

  function Min(x: nat, y: nat): nat { if x <= y then x else y }
  function Max(x: nat, y: nat): nat { if x <= y then y else x }

  // ----- rounded-down shares

  lemma MulMono(p: nat, j: nat, k: nat)
    requires j <= k
    ensures p * j <= p * k
  {
  }

  lemma DivSplit(a: nat, d: nat)
    requires 0 < d
    ensures d * (a / d) <= a < d * (a / d) + d
  {
    assert a == d * (a / d) + a % d;
  }

  lemma DivAtLeast(n: nat, d: nat, q: nat)
    requires 0 < d && d * q <= n
    ensures q <= n / d
  {
    DivSplit(n, d);
    if n / d < q { MulMono(d, n / d + 1, q); }
  }

  lemma DivAtMost(n: nat, d: nat, q: nat)
    requires 0 < d && n < d * q + d
    ensures n / d <= q
  {
    DivSplit(n, d);
    if q < n / d { MulMono(d, q + 1, n / d); }
  }

  lemma DivMono(a: nat, b: nat, d: nat)
    requires 0 < d && a <= b
    ensures a / d <= b / d
  {
    DivSplit(a, d);
    DivAtLeast(b, d, a / d);
  }

  /** What is due is `packets * k / slots`, rounded down. */
  lemma DueRoundsDown(plan: Plan, k: nat)
    requires plan.Valid()
    ensures plan.slots * plan.Due(k) <= plan.packets * k < plan.slots * plan.Due(k) + plan.slots
  {
    DivSplit(plan.packets * k, plan.slots);
  }

  lemma DueMono(plan: Plan, j: nat, k: nat)
    requires plan.Valid() && j <= k
    ensures plan.Due(j) <= plan.Due(k)
  {
    MulMono(plan.packets, j, k);
    DivMono(plan.packets * j, plan.packets * k, plan.slots);
  }

  lemma DueWindow(plan: Plan)
    requires plan.Valid()
    ensures plan.Due(plan.slots) == plan.packets && plan.Due(0) == 0
  {
    DivExact(plan.packets, plan.slots);
    DivExact(0, plan.slots);
  }

  lemma DivExact(q: nat, d: nat)
    requires 0 < d
    ensures q * d / d == q
  {
    DivAtLeast(q * d, d, q);
    DivAtMost(q * d, d, q);
  }

  lemma DivSum(a: nat, b: nat, d: nat)
    requires 0 < d
    ensures a / d + b / d <= (a + b) / d <= a / d + b / d + 1
  {
    DivSplit(a, d);
    DivSplit(b, d);
    Distribute(d, a / d, b / d);
    DivAtLeast(a + b, d, a / d + b / d);
    Distribute(d, a / d + b / d, 1);
    DivAtMost(a + b, d, a / d + b / d + 1);
  }

  lemma Distribute(d: nat, x: nat, y: nat)
    ensures d * (x + y) == d * x + d * y
  {
  }

  lemma DivBetween(a: nat, p: nat, d: nat)
    requires 0 < d
    ensures (a + p) / d <= a / d + p
  {
    if p > 0 {
      MulMono(p, 1, d);
      DivSplit(a, d);
      Distribute(d, a / d, p);
      DivAtMost(a + p, d, a / d + p);
    }
  }

  /** One slot never has more than the whole window. */
  lemma DueStep(plan: Plan, k: nat)
    requires plan.Valid()
    ensures plan.Due(k) <= plan.Due(k + 1) <= plan.Due(k) + plan.packets
  {
    DueMono(plan, k, k + 1);
    assert plan.packets * (k + 1) == plan.packets * k + plan.packets;
    DivBetween(plan.packets * k, plan.packets, plan.slots);
  }

  lemma ExpectedMono(plan: Plan, s: nat, t: nat)
    requires plan.Valid() && s <= t
    ensures plan.Expected(s) <= plan.Expected(t) <= plan.packets
  {
    DueWindow(plan);
    if s < plan.slots { DueMono(plan, s + 1, plan.slots); }
    if t < plan.slots { DueMono(plan, t + 1, plan.slots); DueMono(plan, s + 1, t + 1); }
  }

  // ----- one group

  /** The largest group: the planned rate decides, by its rounding. */
  function Group(plan: Plan, r: nat): nat
    requires plan.Valid()
  {
    DueStep(plan, r);
    plan.Due(r + 1) - plan.Due(r)
  }

  /** The packets asked for. */
  function Ask(plan: Plan, st: State): nat
    requires plan.Valid() && st.window <= plan.Expected(st.s)
  {
    Min(plan.Expected(st.s) - st.window, Group(plan, st.r))
  }

  /** The packets sent: at most those asked for, as 16 bits give them. */
  function Got(plan: Plan, st: State, sent: nat): nat
    requires plan.Valid() && st.window <= plan.Expected(st.s)
  {
    Min(sent, Ask(plan, st) % 0x1_0000)
  }

  /** Credits for the slots up to s, after a whole window was sent. */
  function Credits(plan: Plan, r: nat, from: nat, s: nat): nat
    requires plan.Valid()
  {
    var missed := if s > Max(from, plan.slots - 1) then s - Max(from, plan.slots - 1) else 0;
    DueMono(plan, r, r + missed);
    plan.Due(r + missed) - plan.Due(r)
  }

  /** The state after one group. */
  function Next(plan: Plan, st: State, e: Event): State
    requires plan.Valid() && st.window <= plan.Expected(st.s)
  {
    var got := Got(plan, st, e.sent);
    var slot := e.elapsed / plan.width;
    var a := st.(r := st.r + 1, window := st.window + got, total := st.total + got);
    if slot <= st.s && plan.Expected(st.s) > a.window then a
    else
      var s := if slot <= st.s then st.s + 1 else slot;
      var cut :=
        if s >= plan.slots && a.window >= plan.packets then Min(Credits(plan, a.r, st.s, s), a.window) else 0;
      a.(s := s, window := a.window - cut, applied := a.applied + cut)
  }

  /** The window never holds more than is expected, so line 186 never goes below zero. */
  predicate Inv(plan: Plan, st: State)
    requires plan.Valid()
  {
    st.window <= plan.Expected(st.s) && st.total == st.window + st.applied
  }

  lemma NextKeepsInv(plan: Plan, st: State, e: Event)
    requires plan.Valid() && Inv(plan, st)
    ensures Inv(plan, Next(plan, st, e))
  {
    ExpectedMono(plan, st.s, Next(plan, st, e).s);
  }

  /** Whatever the clock and the sending do. */
  function After(plan: Plan, events: seq<Event>): (st: State)
    requires plan.Valid()
    ensures Inv(plan, st)
    ensures st.r == |events|
  {
    if events == [] then START else
      var before := After(plan, events[..|events| - 1]);
      NextKeepsInv(plan, before, events[|events| - 1]);
      Next(plan, before, events[|events| - 1])
  }

  // ----- a run that keeps its time

  /** Group n is all sent, and before its slot is over. */
  predicate OnTime(plan: Plan, events: seq<Event>, n: nat)
    requires plan.Valid() && n < |events|
  {
    var st := After(plan, events[..n]);
    events[n].elapsed / plan.width <= st.s && Got(plan, st, events[n].sent) == Ask(plan, st)
  }

  /** The state when all went to plan. */
  function Planned(plan: Plan, n: nat): State
    requires plan.Valid()
  {
    DueStep(plan, n);
    DueWindow(plan);
    DueMono(plan, if n < plan.slots then n else plan.slots, n);
    var w := if n < plan.slots then plan.Due(n) else plan.packets - (plan.Due(n + 1) - plan.Due(n));
    State(n, n, w, plan.Due(n), plan.Due(n) - w)
  }

  lemma PlannedStep(plan: Plan, n: nat, e: Event)
    requires plan.Valid() && Inv(plan, Planned(plan, n))
    requires e.elapsed / plan.width <= n && Got(plan, Planned(plan, n), e.sent) == Ask(plan, Planned(plan, n))
    ensures Next(plan, Planned(plan, n), e) == Planned(plan, n + 1)
  {
    DueStep(plan, n);
    DueStep(plan, n + 1);
    DueWindow(plan);
    DueMono(plan, if n < plan.slots then n + 1 else plan.slots, if n < plan.slots then plan.slots else n + 1);
  }

  /** If every group is on time and all sent, the packets sent after n slots are exactly those due. */
  lemma {:induction false} OnTimeSendsWhatIsDue(plan: Plan, events: seq<Event>)
    requires plan.Valid() && forall n: nat :: n < |events| ==> OnTime(plan, events, n)
    ensures After(plan, events) == Planned(plan, |events|)
    ensures After(plan, events).total == plan.Due(|events|)
  {
    if events == [] {
      DueWindow(plan);
    } else {
      var init, n := events[..|events| - 1], |events| - 1;
      forall k: nat | k < |init| ensures OnTime(plan, init, k) {
        assert OnTime(plan, events, k);
        assert init[..k] == events[..k];
      }
      OnTimeSendsWhatIsDue(plan, init);
      assert OnTime(plan, events, n);
      PlannedStep(plan, n, events[n]);
    }
  }

  // ----- any run

  /** Whatever happened before, a group and the clock after it take the run from st to t. */
  ghost predicate Follows(plan: Plan, init: seq<Event>, st: State, e: Event, t: State)
    requires plan.Valid()
  {
    st == After(plan, init) && t == After(plan, init + [e])
  }

  lemma AfterLast(plan: Plan, init: seq<Event>, st: State, e: Event, t: State)
    requires plan.Valid() && Follows(plan, init, st, e, t)
    ensures Inv(plan, st) && t == Next(plan, st, e)
  {
    assert (init + [e])[..|init|] == init;
  }

  function Least(x: int, y: int): int { if x <= y then x else y }

  /** A group is at most the rest of what is expected by now, at most its share by the number of the group,
      and a number of 16 bits. */
  lemma GroupIsSent(plan: Plan, init: seq<Event>, st: State, e: Event, t: State)
    requires plan.Valid() && Follows(plan, init, st, e, t)
    ensures st.r == |init| && t.r == st.r + 1
    ensures var asked := Least(plan.Expected(st.s) - st.window, plan.Due(t.r) - plan.Due(st.r));
            t.total == st.total + Least(e.sent, asked % 0x1_0000)
  {
    AfterLast(plan, init, st, e, t);
    NextTotal(plan, st, e, t);
    GotIs(plan, st, e.sent, plan.Expected(st.s), plan.Due(st.r), plan.Due(t.r));
  }

  lemma NextTotal(plan: Plan, st: State, e: Event, t: State)
    requires plan.Valid() && Inv(plan, st) && t == Next(plan, st, e)
    ensures t.r == st.r + 1 && t.total == st.total + Got(plan, st, e.sent)
  {
  }

  lemma GotIs(plan: Plan, st: State, sent: nat, expected: nat, from: nat, to: nat)
    requires plan.Valid() && Inv(plan, st) && expected == plan.Expected(st.s)
    requires from == plan.Due(st.r) && to == plan.Due(st.r + 1)
    ensures Got(plan, st, sent) == Least(sent, Least(expected - st.window, to - from) % 0x1_0000)
  {
  }

  /** No slot is forgotten: the slot is never behind the clock, and after a group that took longer than its
      slot it is the clock's.  A slot is left alone exactly when there is time left and less was sent than
      expected, and else the next one is at hand. */
  lemma SlotKeepsUp(plan: Plan, init: seq<Event>, st: State, e: Event, t: State)
    requires plan.Valid() && Follows(plan, init, st, e, t)
    ensures var clock := Quotient(e.elapsed, plan.width);
            && clock <= t.s
            && (st.s < clock ==> t.s == clock)
            && (t.s == st.s <==> clock <= st.s && st.window + (t.total - st.total) < plan.Expected(st.s))
            && (clock <= st.s && t.s != st.s ==> t.s == st.s + 1)
  {
    AfterLast(plan, init, st, e, t);
  }

  /** What is due for the slots that follow `from` up to s, counted from group r on. */
  function DueFrom(plan: Plan, r: nat, from: nat, s: nat): int
    requires plan.Valid() && from <= s
  {
    plan.Due(r + (s - from)) - plan.Due(r)
  }

  /** When the slot changes after a window was sent, what is due for the slots after the window's last, or
      after the one at hand, is taken off the window, but no more than there is; else nothing is. */
  lemma CreditsAreDue(plan: Plan, init: seq<Event>, st: State, e: Event, t: State)
    requires plan.Valid() && Follows(plan, init, st, e, t)
    ensures st.s < t.s && plan.slots <= t.s && plan.packets <= st.window + t.total - st.total ==>
      t.applied == st.applied
                 + Least(DueFrom(plan, t.r, Largest(st.s, plan.slots - 1), t.s), st.window + t.total - st.total)
    ensures !(st.s < t.s && plan.slots <= t.s && plan.packets <= st.window + t.total - st.total) ==>
      t.applied == st.applied
  {
    AfterLast(plan, init, st, e, t);
    if st.s < t.s && plan.slots <= t.s {
      CreditsAre(plan, t.r, st.s, t.s);
    }
  }

  lemma CreditsAre(plan: Plan, r: nat, from: nat, s: nat)
    requires plan.Valid() && from < s && plan.slots <= s
    ensures Credits(plan, r, from, s) == DueFrom(plan, r, Largest(from, plan.slots - 1), s)
  {
  }

  function Largest(x: nat, y: nat): nat { if x <= y then y else x }

  lemma ShareIsMost(plan: Plan, init: seq<Event>, st: State, e: Event, t: State)
    requires plan.Valid() && Follows(plan, init, st, e, t)
    ensures st.r == |init| && t.r == st.r + 1 && t.total - st.total <= plan.Due(t.r) - plan.Due(st.r)
  {
    GroupIsSent(plan, init, st, e, t);
    DueMono(plan, st.r, t.r);
    ModAtMost(Least(plan.Expected(st.s) - st.window, plan.Due(t.r) - plan.Due(st.r)));
  }

  lemma ModAtMost(n: nat)
    ensures n % 0x1_0000 <= n
  {
  }

  /** Whatever the clock and the sending, no more is sent than is due for the groups tried. */
  lemma {:induction false} TotalIsAtMostDue(plan: Plan, events: seq<Event>)
    requires plan.Valid()
    ensures After(plan, events).total <= plan.Due(|events|)
  {
    if events == [] {
      DueWindow(plan);
    } else {
      var init, e := events[..|events| - 1], events[|events| - 1];
      assert events == init + [e];
      TotalIsAtMostDue(plan, init);
      ShareIsMost(plan, init, After(plan, init), e, After(plan, events));
    }
  }

  // ----- the loops

  /** No product of `run` leaves 32 bits: not more groups and slots than `limit` allows. */
  ghost predicate NoOverflow(plan: Plan, events: seq<Event>, limit: nat)
    requires plan.Valid()
  {
    && (forall k: nat :: k < |events| ==> events[k].elapsed / plan.width + 2 * |events| + 2 <= limit)
    && 2 * |events| + 2 <= limit && limit < 0x1_0000_0000
    && plan.packets * limit < 0x1_0000_0000
  }

  /** What keeps the numbers of a run of n groups small. */
  ghost predicate Small(plan: Plan, st: State, n: nat, limit: nat)
  {
    && st.r <= n && st.s + 2 * n + 2 <= limit + st.r && 2 * n + 2 <= limit
    && st.total <= plan.packets * st.r && st.window <= st.total
  }

  lemma GotAtMost(plan: Plan, st: State, sent: nat)
    requires plan.Valid() && Inv(plan, st)
    ensures Got(plan, st, sent) <= plan.packets
  {
    DueStep(plan, st.r);
  }

  /** What one group can make of the numbers. */
  lemma NextFields(plan: Plan, st: State, e: Event, t: State, slot: nat)
    requires plan.Valid() && Inv(plan, st) && t == Next(plan, st, e) && slot == e.elapsed / plan.width
    ensures t.r == st.r + 1 && (t.s <= st.s + 1 || t.s == slot)
    ensures t.total <= st.total + plan.packets && t.window - st.window <= t.total - st.total
  {
    GotAtMost(plan, st, e.sent);
  }

  lemma NextIsSmall(plan: Plan, st: State, e: Event, n: nat, limit: nat)
    requires plan.Valid() && Inv(plan, st) && Small(plan, st, n, limit) && st.r < n
    requires e.elapsed / plan.width + 2 * n + 2 <= limit
    ensures Small(plan, Next(plan, st, e), n, limit)
  {
    var t := Next(plan, st, e);
    NextFields(plan, st, e, t, e.elapsed / plan.width);
    MulNext(plan.packets, st.r, t.r);
  }

  lemma MulNext(x: nat, i: nat, j: nat)
    requires j == i + 1
    ensures x * j == x * i + x
  {
  }

  /** The products `packets_ * k / slots_`. */
  method DueOf(plan: Plan, k: nat, ghost limit: nat) returns (due: Uint32)
    requires plan.Valid() && k <= limit && plan.packets * limit < 0x1_0000_0000
    ensures due == plan.Due(k)
  {
    MulMono(plan.packets, k, limit);
    var product: Uint32 := plan.packets * k;
    due := product / plan.slots;
  }

  /** Lines 173 to 178. */
  method ExpectedIn(plan: Plan, s: nat, ghost limit: nat) returns (expected: Uint32)
    requires plan.Valid() && s + 1 <= limit && plan.packets * limit < 0x1_0000_0000
    ensures expected == plan.Expected(s)
  {
    if s < plan.slots {
      expected := DueOf(plan, s + 1, limit);
    } else {
      expected := plan.packets;
    }
  }

  /** Lines 182 to 214: one group is sent. */
  method SendGroup(plan: Plan, ghost st: State, r: nat, window: Uint32, expected: Uint32, sent: nat, ghost limit: nat)
    returns (got: Uint32)
    requires plan.Valid() && Inv(plan, st) && r == st.r && window == st.window && expected == plan.Expected(st.s)
    requires r + 1 <= limit && plan.packets * limit < 0x1_0000_0000
    ensures got == Got(plan, st, sent)
  {
    var remaining: Uint32 := expected - window;
    var most := GroupOf(plan, r, limit);
    var ask := if remaining > most then most else remaining;
    got := Min(sent, ask % 0x1_0000);
  }

  /** Lines 193 and 194. */
  method GroupOf(plan: Plan, r: nat, ghost limit: nat) returns (most: Uint32)
    requires plan.Valid() && r + 1 <= limit && plan.packets * limit < 0x1_0000_0000
    ensures most == Group(plan, r)
  {
    var upTo := DueOf(plan, r + 1, limit);
    var before := DueOf(plan, r, limit);
    DueStep(plan, r);
    most := upTo - before;
  }

  /** Lines 249 to 267: credits for the slots up to s, the first of them after `from`. */
  method TakeCredits(plan: Plan, r: nat, from: nat, s: nat, window: Uint32, ghost limit: nat)
    returns (left: Uint32)
    requires plan.Valid() && plan.slots <= s && from < s && r + s <= limit && plan.packets * limit < 0x1_0000_0000
    ensures left == window - Min(Credits(plan, r, from, s), window)
  {
    var sp := from;
    if sp < plan.slots - 1 { sp := plan.slots - 1; }
    var missed := s - sp;
    var upTo := DueOf(plan, r + missed, limit);
    var before := DueOf(plan, r, limit);
    DueMono(plan, r, r + missed);
    var credits: Uint32 := upTo - before;
    left := if window > credits then window - credits else 0;
  }

  /** The inner loop's body: whether there is more to send in the same slot, and the new numbers. */
  method Attempt(plan: Plan, ghost st: State, r: Uint32, s: Uint32, window: Uint32, total: Uint32, expected: Uint32,
                 e: Event, ghost n: nat, ghost limit: nat)
    returns (again: bool, r': Uint32, s': Uint32, window': Uint32, total': Uint32, ghost next: State)
    requires plan.Valid() && Inv(plan, st) && st == State(r, s, window, total, st.applied)
    requires expected == plan.Expected(s) && Small(plan, st, n, limit) && r < n
    requires limit < 0x1_0000_0000 && plan.packets * limit < 0x1_0000_0000
    requires e.elapsed / plan.width + 2 * n + 2 <= limit
    ensures next == Next(plan, st, e) == State(r', s', window', total', next.applied)
    ensures again ==> s' == s
  {
    next := Next(plan, st, e);
    NextIsSmall(plan, st, e, n, limit);
    MulMono(plan.packets, next.r, limit);
    var got := SendGroup(plan, st, r, window, expected, e.sent, limit);
    window' := window + got;
    total' := total + got;
    r' := r + 1;
    var slot := e.elapsed / plan.width;
    again, s' := false, s;
    if slot <= s {
      if expected > window' { again := true; return; }
      s' := s + 1;
    } else {
      s' := slot;
    }
    if s' >= plan.slots && window' >= plan.packets {
      window' := TakeCredits(plan, r', s, s', window', limit);
    }
  }

  /** The state of a run after the first k groups, with numbers that are small. */
  ghost predicate Running(plan: Plan, events: seq<Event>, k: nat, st: State, limit: nat)
    requires plan.Valid()
  {
    k <= |events| && st == After(plan, events[..k]) && st.r == k && Small(plan, st, |events|, limit)
  }

  lemma RunningNext(plan: Plan, events: seq<Event>, k: nat, st: State, limit: nat)
    requires plan.Valid() && NoOverflow(plan, events, limit) && Running(plan, events, k, st, limit) && k < |events|
    ensures Inv(plan, st) && Running(plan, events, k + 1, Next(plan, st, events[k]), limit)
  {
    NextIsSmall(plan, st, events[k], |events|, limit);
    assert events[..k + 1][..k] == events[..k];
  }

  /** The inner loop: groups are sent until the slot is over. */
  method SendSlot(plan: Plan, events: seq<Event>, k: nat, r: Uint32, s: Uint32, window: Uint32, total: Uint32,
                  ghost st: State, ghost limit: nat)
    returns (k': nat, over: bool, r': Uint32, s': Uint32, window': Uint32, total': Uint32, ghost st': State)
    requires plan.Valid() && NoOverflow(plan, events, limit) && Running(plan, events, k, st, limit) && k < |events|
    requires st == State(r, s, window, total, st.applied)
    ensures k < k' && Running(plan, events, k', st', limit) && st' == State(r', s', window', total', st'.applied)
    ensures !over ==> k' == |events|
  {
    var expected := ExpectedIn(plan, s, limit);
    k', over, r', s', window', total', st' := k, false, r, s, window, total, st;
    while !over && k' < |events|
      invariant k <= k' <= |events| && Running(plan, events, k', st', limit)
      invariant st' == State(r', s', window', total', st'.applied)
      invariant !over ==> expected == plan.Expected(s')
      invariant over ==> k < k'
      decreases |events| - k'
    {
      RunningNext(plan, events, k', st', limit);
      var again;
      again, r', s', window', total', st' :=
        Attempt(plan, st', r', s', window', total', expected, events[k'], |events|, limit);
      over := !again;
      k' := k' + 1;
    }
  }

  lemma DueIsCounted(plan: Plan, events: seq<Event>, st: State)
    requires plan.Valid() && st == After(plan, events)
    ensures st.total <= plan.Due(|events|)
    ensures events != [] ==> plan.Due(Quotient(events[|events| - 1].elapsed, plan.width)) <= plan.Due(st.s)
  {
    TotalIsAtMostDue(plan, events);
    if events != [] {
      var init, e := events[..|events| - 1], events[|events| - 1];
      assert events == init + [e];
      SlotKeepsUp(plan, init, After(plan, init), e, st);
      DueMono(plan, Quotient(e.elapsed, plan.width), st.s);
    }
  }

  /** `run`: the packets sent and those expected when the time is over, or when no more is known of what
      the system does; `used` groups were tried. */
  method Run(plan: Plan, events: seq<Event>, duration: nat, ghost limit: nat)
    returns (sent: nat, due: nat, used: nat)
    requires plan.Valid() && NoOverflow(plan, events, limit)
    ensures used <= |events|
    ensures var st := After(plan, events[..used]); sent == st.total && due == plan.Due(st.s)
    ensures used < |events| ==> 0 < used && events[used - 1].elapsed >= Max(duration, plan.slots * plan.width)
    ensures 0 < used ==> plan.Due(Quotient(events[used - 1].elapsed, plan.width)) <= due
    ensures sent <= plan.Due(used)
  {
    var r: Uint32, s: Uint32, window: Uint32, total: Uint32 := 0, 0, 0, 0;
    var expectedTime := Max(duration, plan.slots * plan.width);
    var k: nat, more := 0, true;
    ghost var st := START;
    while more && k < |events|
      invariant Running(plan, events, k, st, limit) && st == State(r, s, window, total, st.applied)
      invariant !more ==> 0 < k && events[k - 1].elapsed >= expectedTime
      decreases |events| - k
    {
      var over;
      k, over, r, s, window, total, st := SendSlot(plan, events, k, r, s, window, total, st, limit);
      if over { more := events[k - 1].elapsed < expectedTime; }
    }
    used, sent := k, total;
    due := DueOf(plan, s, limit);
    DueIsCounted(plan, events[..k], st);
  }

  // ----- the share of each thread

  function Wrap(x: nat): Uint32 { x % 0x1_0000_0000 }

  function Add32(x: Uint32, y: Uint32): Uint32
  {
    if x + y < 0x1_0000_0000 then x + y else x + y - 0x1_0000_0000
  }

  function Sub32(x: Uint32, y: Uint32): Uint32
  {
    if y <= x then x - y else x + 0x1_0000_0000 - y
  }

  /** `i * packets / threads`, whose product has 32 bits. */
  function Upto(packets: Uint32, threads: Uint16, i: nat): Uint32
    requires 0 < threads
  {
    DivMono(Wrap(i * packets), 0xFFFF_FFFF, threads);
    QuotientIsSmaller(0xFFFF_FFFF, threads);
    Wrap(i * packets) / threads
  }

  lemma QuotientIsSmaller(n: nat, d: nat)
    requires 0 < d
    ensures n / d <= n
  {
    MulMono(n, 1, d);
    DivAtMost(n, d, n);
  }

  function Sum(shares: seq<Uint32>): nat
  {
    if shares == [] then 0 else Sum(shares[..|shares| - 1]) + shares[|shares| - 1]
  }

  /** The sum in 32 bits. */
  function Sum32(shares: seq<Uint32>): Uint32
  {
    if shares == [] then 0 else Add32(Sum32(shares[..|shares| - 1]), shares[|shares| - 1])
  }

  lemma {:induction false} SumWraps(shares: seq<Uint32>) returns (k: nat)
    ensures Sum(shares) == Sum32(shares) + k * 0x1_0000_0000
  {
    if shares == [] {
      k := 0;
    } else {
      var init := shares[..|shares| - 1];
      k := SumWraps(init);
      if Sum32(init) + shares[|shares| - 1] >= 0x1_0000_0000 { k := k + 1; }
    }
  }

  /** The products of all threads fit. */
  predicate Fits(packets: Uint32, threads: Uint16) { threads * packets < 0x1_0000_0000 }

  lemma ShareBounds(packets: Uint32, threads: Uint16, i: nat)
    requires 0 < threads <= packets && i < threads && Fits(packets, threads)
    ensures Upto(packets, threads, i) + packets / threads <= Upto(packets, threads, i + 1)
         <= Upto(packets, threads, i) + packets / threads + 1
    ensures 1 <= packets / threads
  {
    MulMono(packets, i, threads);
    MulMono(packets, i + 1, threads);
    var a := i * packets;
    assert (i + 1) * packets == a + packets;
    SmallStays(a);
    SmallStays(a + packets);
    DivSum(a, packets, threads);
    DivMono(threads, packets, threads);
    DivExact(1, threads);
  }

  lemma SmallStays(x: nat)
    requires x < 0x1_0000_0000
    ensures Wrap(x) == x
  {
  }

  /** `packets_thread`, in 32 bits. */
  method ShareOf(packets: Uint32, threads: Uint16, i: nat) returns (share: Uint32)
    requires 0 < threads <= packets && i < threads
    ensures Add32(Upto(packets, threads, i), share) == Upto(packets, threads, i + 1)
    ensures Fits(packets, threads) ==>
      && share == Upto(packets, threads, i + 1) - Upto(packets, threads, i)
      && 1 <= share && 0 <= share - packets / threads <= 1
  {
    if Fits(packets, threads) { ShareBounds(packets, threads, i); }
    share := Sub32(Upto(packets, threads, i + 1), Upto(packets, threads, i));
  }

  /** What all the shares come to, with its exact condition. */
  lemma AllShares(packets: Uint32, threads: Uint16)
    requires 0 < threads <= packets
    ensures Upto(packets, threads, 0) == 0
    ensures Upto(packets, threads, threads) == packets <==> Fits(packets, threads)
  {
    DivExact(0, threads);
    var all: nat := threads * packets;
    if all < 0x1_0000_0000 {
      SmallStays(all);
      assert all == packets * threads;
      DivExact(packets, threads);
    } else {
      assert Wrap(all) < all;
      assert all == threads * (packets - 1) + threads;
      DivAtMost(Wrap(all), threads, packets - 1);
    }
  }

  /** The loop over the threads.  The shares are all of the packets exactly when the largest product fits
      32 bits, and otherwise come to the wrapped product over the threads; if it fits, no thread is without
      packets and no two shares are more than one packet apart. */
  method Shares(wanted: Uint32, threads: Uint16) returns (shares: seq<Uint32>)
    requires 0 < threads
    ensures |shares| == threads
    ensures var packets := Max(wanted, threads);
            && (Sum(shares) == packets <==> threads * packets < 0x1_0000_0000)
            && Sum32(shares) == threads * packets % 0x1_0000_0000 / threads
            && (threads * packets < 0x1_0000_0000 ==>
                forall i: nat :: i < threads ==> 1 <= shares[i] && 0 <= shares[i] - packets / threads <= 1)
  {
    var packets: Uint32 := Max(wanted, threads);
    ghost var fits := Fits(packets, threads);
    shares := [];
    var i := 0;
    AllShares(packets, threads);
    while i < threads
      invariant 0 <= i <= threads && |shares| == i && Sum32(shares) == Upto(packets, threads, i)
      invariant fits ==> Sum(shares) == Upto(packets, threads, i)
      invariant fits ==> forall j: nat :: j < i ==> 1 <= shares[j] && 0 <= shares[j] - packets / threads <= 1
    {
      var share := ShareOf(packets, threads, i);
      assert (shares + [share])[..i] == shares;
      shares := shares + [share];
      i := i + 1;
    }
    var k := SumWraps(shares);
  }
}
