/** The reference-counted cell of `rcu.h` as a concurrent step system.

    One `Agent` stands for one `rcu_ptr` variable: it is empty, somewhere inside `rcu::read()`,
    an unreleased handle, or about to run the deleter.  Any number of agents interleave with one
    updater (updates are serialised by `write_mutex_`).  Every atomic access of the source is one
    step, and so is every plain access to `slot_[i].ptr_` that another thread can race with. */
module Rcu {
  import opened Wrappers

  /** Identity of an object owned through a `std::unique_ptr` before it enters the cell. */
  type Obj = nat

  /** `refcount_` is a `std::uint32_t`. */
  const WORD: nat := 0x1_0000_0000

  /** `stamp` counts the pointer stores of line 206: the store that wrote `ptr`. */
  datatype Slot = Slot(count: nat, ptr: Option<Obj>, stamp: nat)

  datatype Agent =
    | Idle
    | LoadedIndex(i: nat)             // read(): index_ loaded
    | LoadedCount(i: nat, rc: nat)    // read(): refcount_ loaded
    | Counted(i: nat)                 // read(): compare-exchange succeeded, ptr_ not yet read
    | Holding(i: nat, p: Obj)         // an unreleased, non-null rcu_ptr
    | Deleting(p: Obj)                // rcu_ptr::free(): fetch_sub returned 1, deleter not yet run

  datatype Updater =
    | Unlocked
    | Scanning(obj: Obj, start: nat, i: nat)
    | Found(obj: Obj, start: nat, i: nat)      // slot i was read with count 0
    | Reserved(obj: Obj, start: nat, i: nat)   // refcount_ stored, ptr_ not yet stored
    | Stored(start: nat, i: nat)               // ptr_ stored, index_ not yet stored
    | Published(start: nat)                    // index_ stored, old slot not yet freed
    | Freeing(i: nat)                          // free(): fetch_sub returned 1, deleter not yet run

  /** `given` holds the objects whose ownership the cell has taken, each with the slot it was put in;
      `deleted` the deleter calls. */
  datatype State = State(
    index: nat,
    slots: seq<Slot>,
    agents: seq<Agent>,
    updater: Updater,
    stores: nat,
    given: map<Obj, nat>,
    deleted: multiset<Obj>)

  datatype Step =
    | LoadIndex(t: nat)
    | LoadCount(t: nat)
    | Cas(t: nat)
    | ReadPtr(t: nat)
    | Copy(from: nat, to: nat)
    | Release(t: nat)
    | RunDeleter(t: nat)
    | Lock(obj: Obj)
    | Scan
    | StoreCount
    | StorePtr
    | StoreIndex
    | FreeOld
    | RunUpdateDeleter

  function Inc(c: nat): nat { (c + 1) % WORD }

  function Dec(c: nat): nat { if c == 0 then WORD - 1 else c - 1 }

  /** The constructor: slot 0 is published with count 1, every other slot is empty. */
  ghost predicate Init(s: State)
  {
    && 0 < |s.slots|
    && s.index == 0
    && s.slots[0].count == 1 && s.slots[0].ptr.Some? && s.slots[0].stamp == 0
    && (forall i :: 1 <= i < |s.slots| ==> s.slots[i] == Slot(0, None, 0))
    && (forall t :: 0 <= t < |s.agents| ==> s.agents[t].Idle?)
    && |s.agents| < WORD - 1
    && s.updater.Unlocked?
    && s.stores == 0
    && s.given == map[s.slots[0].ptr.value := 0]
    && s.deleted == multiset{}
  }

  /** Whether a step can be taken.  `Lock` receives an object that the caller owns uniquely, so the
      cell has never taken it before. */
  predicate Enabled(s: State, step: Step)
  {
    match step
    case LoadIndex(t) => t < |s.agents| && s.agents[t].Idle?
    case LoadCount(t) => t < |s.agents| && s.agents[t].LoadedIndex? && s.agents[t].i < |s.slots|
    case Cas(t) => t < |s.agents| && s.agents[t].LoadedCount? && s.agents[t].i < |s.slots|
    case ReadPtr(t) => t < |s.agents| && s.agents[t].Counted? && s.agents[t].i < |s.slots|
    case Copy(from, to) =>
      && from < |s.agents| && to < |s.agents| && s.agents[to].Idle?
      && s.agents[from].Holding? && s.agents[from].i < |s.slots|
    case Release(t) => t < |s.agents| && s.agents[t].Holding? && s.agents[t].i < |s.slots|
    case RunDeleter(t) => t < |s.agents| && s.agents[t].Deleting?
    case Lock(obj) => s.updater.Unlocked? && obj !in s.given
    case Scan => s.updater.Scanning? && 0 < |s.slots|
    case StoreCount => s.updater.Found? && s.updater.i < |s.slots|
    case StorePtr => s.updater.Reserved? && s.updater.i < |s.slots|
    case StoreIndex => s.updater.Stored?
    case FreeOld => s.updater.Published? && s.updater.start < |s.slots|
    case RunUpdateDeleter => s.updater.Freeing? && s.updater.i < |s.slots|
  }

  function SetCount(s: State, i: nat, c: nat): State
    requires i < |s.slots|
  {
    s.(slots := s.slots[i := s.slots[i].(count := c)])
  }

  function SetAgent(s: State, t: nat, a: Agent): State
    requires t < |s.agents|
  {
    s.(agents := s.agents[t := a])
  }

  /** The effect of one step. */
  function Next(s: State, step: Step): State
    requires Enabled(s, step)
  {
    match step
    case LoadIndex(t) => SetAgent(s, t, LoadedIndex(s.index))
    case LoadCount(t) => SetAgent(s, t, LoadedCount(s.agents[t].i, s.slots[s.agents[t].i].count))
    case Cas(t) =>
      var a := s.agents[t];
      if a.rc == 0 || s.slots[a.i].count != a.rc then SetAgent(s, t, Idle)
      else SetAgent(SetCount(s, a.i, Inc(a.rc)), t, Counted(a.i))
    case ReadPtr(t) =>
      // A null pointer makes a handle without a counter.
      var a := s.agents[t];
      (match s.slots[a.i].ptr
       case None => SetAgent(s, t, Idle)
       case Some(p) => SetAgent(s, t, Holding(a.i, p)))
    case Copy(from, to) =>
      var a := s.agents[from];
      SetAgent(SetCount(s, a.i, Inc(s.slots[a.i].count)), to, a)
    case Release(t) =>
      var a := s.agents[t];
      SetAgent(SetCount(s, a.i, Dec(s.slots[a.i].count)), t,
               if s.slots[a.i].count == 1 then Deleting(a.p) else Idle)
    case RunDeleter(t) =>
      SetAgent(s.(deleted := s.deleted + multiset{s.agents[t].p}), t, Idle)
    case Lock(obj) => s.(updater := Scanning(obj, s.index, s.index))
    case Scan =>
      var u := s.updater;
      var i := (u.i + 1) % |s.slots|;
      if i == u.start then s.(updater := Unlocked)
      else if s.slots[i].count == 0 then s.(updater := Found(u.obj, u.start, i))
      else s.(updater := Scanning(u.obj, u.start, i))
    case StoreCount =>
      var u := s.updater;
      SetCount(s, u.i, 1).(updater := Reserved(u.obj, u.start, u.i))
    case StorePtr =>
      var u := s.updater;
      s.(slots := s.slots[u.i := Slot(s.slots[u.i].count, Some(u.obj), s.stores + 1)],
         stores := s.stores + 1,
         given := s.given[u.obj := u.i],
         updater := Stored(u.start, u.i))
    case StoreIndex => s.(index := s.updater.i, updater := Published(s.updater.start))
    case FreeOld =>
      var i := s.updater.start;
      SetCount(s, i, Dec(s.slots[i].count)).(
        updater := if s.slots[i].count == 1 then Freeing(i) else Unlocked)
    case RunUpdateDeleter =>
      (match s.slots[s.updater.i].ptr
       case None => s.(updater := Unlocked)
       case Some(p) => s.(deleted := s.deleted + multiset{p}, updater := Unlocked))
  }

  /** `run[k]` is the state before `steps[k]`. */
  ghost predicate IsRun(run: seq<State>, steps: seq<Step>)
  {
    && |run| == |steps| + 1
    && Init(run[0])
    && forall k :: 0 <= k < |steps| ==> Enabled(run[k], steps[k]) && run[k + 1] == Next(run[k], steps[k])
  }

  // ----- counting agents

  /** What an agent is counted for: a reference on a slot, or a pending deletion of an object. */
  datatype Query = RefOn(i: nat) | DeletionOf(p: Obj)

  predicate Matches(a: Agent, q: Query)
  {
    match q
    case RefOn(i) => (a.Counted? || a.Holding?) && a.i == i
    case DeletionOf(p) => a == Deleting(p)
  }

  function One(b: bool): nat { if b then 1 else 0 }

  function Count(agents: seq<Agent>, q: Query): nat
  {
    if agents == [] then 0 else One(Matches(agents[0], q)) + Count(agents[1..], q)
  }

  lemma {:induction false} CountUpdate(agents: seq<Agent>, t: nat, a: Agent, q: Query)
    requires t < |agents|
    ensures Count(agents[t := a], q) + One(Matches(agents[t], q))
         == Count(agents, q) + One(Matches(a, q))
  {
    if t == 0 {
      assert agents[t := a][1..] == agents[1..];
    } else {
      assert agents[t := a][1..] == agents[1..][t - 1 := a];
      CountUpdate(agents[1..], t - 1, a, q);
    }
  }

  lemma {:induction false} CountBound(agents: seq<Agent>, q: Query)
    ensures Count(agents, q) <= |agents|
    ensures Count(agents, q) > 0 <==> exists t :: 0 <= t < |agents| && Matches(agents[t], q)
  {
    if agents != [] {
      CountBound(agents[1..], q);
      if Count(agents[1..], q) > 0 {
        var t :| 0 <= t < |agents[1..]| && Matches(agents[1..][t], q);
        assert agents[t + 1] == agents[1..][t];
      }
      if t :| 0 <= t < |agents| && Matches(agents[t], q) {
        if t > 0 { assert agents[1..][t - 1] == agents[t]; }
      }
    }
  }

  // ----- conservation of counts, with no hypothesis on the interleaving

  /** The cell's own reference on slot i: published, reserved for the next publication, or published
      before and not yet freed. */
  function Own(s: State, i: nat): nat
  {
    One(|| i == s.index
        || ((s.updater.Reserved? || s.updater.Stored?) && i == s.updater.i)
        || (s.updater.Published? && i == s.updater.start))
  }

  ghost predicate Indices(s: State)
  {
    && s.index < |s.slots|
    && |s.agents| < WORD - 1
    && (forall t :: 0 <= t < |s.agents| && SlotOf(s.agents[t]).Some? ==>
          SlotOf(s.agents[t]).value < |s.slots| && s.slots[SlotOf(s.agents[t]).value].ptr.Some?)
    && (match s.updater
        case Unlocked => true
        case Scanning(_, start, i) => start == s.index && i < |s.slots|
        case Found(_, start, i) => start == s.index && i < |s.slots| && i != s.index && s.slots[i].count == 0
        case Reserved(_, start, i) => start == s.index && i < |s.slots| && i != s.index
        case Stored(start, i) => start == s.index && i < |s.slots| && i != s.index
        case Published(start) => start < |s.slots| && start != s.index
        case Freeing(i) => i < |s.slots| && i != s.index)
  }

  /** A slot that was ever published has a pointer. */
  ghost predicate Pointers(s: State)
    requires Indices(s)
  {
    && s.slots[s.index].ptr.Some?
    && (s.updater.Stored? ==> s.slots[s.updater.i].ptr.Some? && s.slots[s.updater.i].stamp == s.stores)
    && (s.updater.Published? ==> s.slots[s.updater.start].ptr.Some?)
    && (s.updater.Freeing? ==> s.slots[s.updater.i].ptr.Some?)
    && (forall i :: 0 <= i < |s.slots| ==> s.slots[i].stamp <= s.stores)
    && (forall i :: 0 <= i < |s.slots| && s.slots[i].ptr.Some? ==>
          s.slots[i].ptr.value in s.given && s.given[s.slots[i].ptr.value] == i)
    && (forall p :: p in s.given ==> s.given[p] < |s.slots|)
    && (s.updater.Scanning? || s.updater.Found? || s.updater.Reserved? ==> s.updater.obj !in s.given)
  }

  ghost predicate Conserved(s: State)
  {
    forall i :: 0 <= i < |s.slots| ==> s.slots[i].count == Count(s.agents, RefOn(i)) + Own(s, i)
  }

  ghost predicate Inv(s: State)
  {
    Indices(s) && Pointers(s) && Conserved(s)
  }

  lemma {:induction false} NoMatch(agents: seq<Agent>, q: Query)
    requires forall t :: 0 <= t < |agents| ==> !Matches(agents[t], q)
    ensures Count(agents, q) == 0
  {
    CountBound(agents, q);
  }

  lemma InitInv(s: State)
    requires Init(s)
    ensures Inv(s)
  {
    forall i | 0 <= i < |s.slots| ensures Count(s.agents, RefOn(i)) == 0 {
      NoMatch(s.agents, RefOn(i));
    }
  }

  lemma HeldSlotIsCounted(s: State, t: nat)
    requires Inv(s) && t < |s.agents|
    requires s.agents[t].Counted? || s.agents[t].Holding?
    ensures 0 < s.slots[s.agents[t].i].count
  {
    CountBound(s.agents, RefOn(s.agents[t].i));
    assert Matches(s.agents[t], RefOn(s.agents[t].i));
  }

  /** No counter wraps: there are fewer agents than counter values. */
  lemma CountsFit(s: State, t: nat, a: Agent, i: nat)
    requires Inv(s) && t < |s.agents| && i < |s.slots|
    requires !Matches(s.agents[t], RefOn(i)) && Matches(a, RefOn(i))
    ensures Inc(s.slots[i].count) == s.slots[i].count + 1
  {
    CountUpdate(s.agents, t, a, RefOn(i));
    CountBound(s.agents[t := a], RefOn(i));
    assert s.slots[i].count < |s.agents| + 1;
  }

  function SlotOf(a: Agent): Option<nat>
  {
    if a.Idle? || a.Deleting? then None else Some(a.i)
  }

  /** A change that keeps index, updater and pointers keeps what is said about them. */
  lemma FrameKeepsPointers(s: State, s': State)
    requires Indices(s) && Pointers(s)
    requires s' == s.(slots := s'.slots, agents := s'.agents, deleted := s'.deleted)
    requires |s'.slots| == |s.slots| && |s'.agents| == |s.agents|
    requires forall i :: 0 <= i < |s.slots| ==> s'.slots[i] == s.slots[i].(count := s'.slots[i].count)
    requires forall t :: 0 <= t < |s.agents| && SlotOf(s'.agents[t]).Some? ==>
               SlotOf(s'.agents[t]).value < |s.slots| && s.slots[SlotOf(s'.agents[t]).value].ptr.Some?
    requires s.updater.Found? ==> s'.slots[s.updater.i].count == 0
    ensures Indices(s') && Pointers(s')
  {
  }

  lemma FrameKeepsCounts(s: State, t: nat, a: Agent, i: nat, c: nat)
    requires Conserved(s) && t < |s.agents| && i < |s.slots|
    requires c + One(Matches(s.agents[t], RefOn(i))) == s.slots[i].count + One(Matches(a, RefOn(i)))
    requires forall j :: j != i ==> Matches(s.agents[t], RefOn(j)) == Matches(a, RefOn(j))
    ensures Conserved(SetAgent(SetCount(s, i, c), t, a))
  {
    var s' := SetAgent(SetCount(s, i, c), t, a);
    forall j | 0 <= j < |s.slots|
      ensures s'.slots[j].count == Count(s'.agents, RefOn(j)) + Own(s', j)
    {
      CountUpdate(s.agents, t, a, RefOn(j));
      assert Own(s', j) == Own(s, j);
    }
  }

  /** Agent t becomes `a` while the count of slot i becomes c, by the difference `a` makes. */
  lemma AgentChange(s: State, s': State, t: nat, a: Agent, i: nat, c: nat)
    requires Inv(s) && t < |s.agents| && i < |s.slots|
    requires s' == SetAgent(SetCount(s, i, c), t, a)
    requires c + One(Matches(s.agents[t], RefOn(i))) == s.slots[i].count + One(Matches(a, RefOn(i)))
    requires forall j :: j != i ==> Matches(s.agents[t], RefOn(j)) == Matches(a, RefOn(j))
    requires SlotOf(a).Some? ==> SlotOf(a).value < |s.slots| && s.slots[SlotOf(a).value].ptr.Some?
    requires s.updater.Found? && s.updater.i == i ==> c == 0
    ensures Inv(s')
  {
    FrameKeepsPointers(s, s');
    FrameKeepsCounts(s, t, a, i, c);
  }

  /** A step that changes neither a count nor a reference. */
  lemma AgentMove(s: State, s': State, t: nat, a: Agent)
    requires Inv(s) && t < |s.agents| && s' == SetAgent(s, t, a)
    requires forall j :: Matches(s.agents[t], RefOn(j)) == Matches(a, RefOn(j))
    requires SlotOf(a).Some? ==> SlotOf(a).value < |s.slots| && s.slots[SlotOf(a).value].ptr.Some?
    ensures Inv(s')
  {
    var i := s.index;
    assert s.slots[i := s.slots[i].(count := s.slots[i].count)] == s.slots;
    AgentChange(s, s', t, a, i, s.slots[i].count);
  }

  lemma ReadStepKeepsInv(s: State, step: Step)
    requires Inv(s) && Enabled(s, step)
    requires step.LoadIndex? || step.LoadCount? || step.ReadPtr?
    ensures Inv(Next(s, step))
  {
    AgentMove(s, Next(s, step), step.t, Next(s, step).agents[step.t]);
  }

  /** What is said of slots and counts does not depend on the deleter calls. */
  lemma RunDeleterKeepsInv(s: State, t: nat)
    requires Inv(s) && Enabled(s, RunDeleter(t))
    ensures Inv(Next(s, RunDeleter(t)))
  {
    var s0 := s.(deleted := s.deleted + multiset{s.agents[t].p});
    assert forall i :: 0 <= i < |s.slots| ==> Own(s0, i) == Own(s, i);
    AgentMove(s0, Next(s, RunDeleter(t)), t, Idle);
  }

  lemma CasKeepsInv(s: State, t: nat)
    requires Inv(s) && Enabled(s, Cas(t))
    ensures Inv(Next(s, Cas(t)))
  {
    var a, s' := s.agents[t], Next(s, Cas(t));
    if a.rc == 0 || s.slots[a.i].count != a.rc {
      AgentMove(s, s', t, Idle);
    } else {
      CountsFit(s, t, Counted(a.i), a.i);
      AgentChange(s, s', t, Counted(a.i), a.i, a.rc + 1);
    }
  }

  lemma CopyKeepsInv(s: State, from: nat, to: nat)
    requires Inv(s) && Enabled(s, Copy(from, to))
    ensures Inv(Next(s, Copy(from, to)))
  {
    var a := s.agents[from];
    HeldSlotIsCounted(s, from);
    CountsFit(s, to, a, a.i);
    assert forall j :: !Matches(s.agents[to], RefOn(j)) && Matches(a, RefOn(j)) == (j == a.i);
    AgentChange(s, Next(s, Copy(from, to)), to, a, a.i, s.slots[a.i].count + 1);
  }

  lemma ReleaseKeepsInv(s: State, t: nat)
    requires Inv(s) && Enabled(s, Release(t))
    ensures Inv(Next(s, Release(t)))
  {
    var h := s.agents[t];
    var c := s.slots[h.i].count;
    var a := if c == 1 then Deleting(h.p) else Idle;
    HeldSlotIsCounted(s, t);
    assert forall j :: Matches(h, RefOn(j)) == (j == h.i) && !Matches(a, RefOn(j));
    AgentChange(s, Next(s, Release(t)), t, a, h.i, c - 1);
  }

  /** `Lock`, `Scan` and the deleter of `rcu::free` change neither counts nor references. */
  lemma ScanStepKeepsInv(s: State, step: Step)
    requires Inv(s) && Enabled(s, step)
    requires step.Lock? || step.Scan? || step.RunUpdateDeleter?
    ensures Inv(Next(s, step))
  {
    var s' := Next(s, step);
    assert forall i :: 0 <= i < |s.slots| ==> Own(s', i) == Own(s, i);
  }

  lemma StoreCountKeepsInv(s: State)
    requires Inv(s) && Enabled(s, StoreCount)
    ensures Inv(Next(s, StoreCount))
  {
    var s' := Next(s, StoreCount);
    assert forall i :: 0 <= i < |s.slots| && i != s.updater.i ==> Own(s', i) == Own(s, i);
  }

  lemma StorePtrKeepsInv(s: State)
    requires Inv(s) && Enabled(s, StorePtr)
    ensures Inv(Next(s, StorePtr))
  {
    var s' := Next(s, StorePtr);
    assert forall i :: 0 <= i < |s.slots| ==> Own(s', i) == Own(s, i);
    assert forall i :: 0 <= i < |s.slots| ==> s'.slots[i].count == s.slots[i].count;
  }

  lemma StoreIndexKeepsInv(s: State)
    requires Inv(s) && Enabled(s, StoreIndex)
    ensures Inv(Next(s, StoreIndex))
  {
    var s' := Next(s, StoreIndex);
    assert forall i :: 0 <= i < |s.slots| ==> Own(s', i) == Own(s, i);
  }

  lemma FreeOldKeepsInv(s: State)
    requires Inv(s) && Enabled(s, FreeOld)
    ensures Inv(Next(s, FreeOld))
  {
    var s' := Next(s, FreeOld);
    assert forall i :: 0 <= i < |s.slots| && i != s.updater.start ==> Own(s', i) == Own(s, i);
  }

  lemma StepKeepsInv(s: State, step: Step)
    requires Inv(s) && Enabled(s, step)
    ensures Inv(Next(s, step))
  {
    match step
    case Cas(t) => CasKeepsInv(s, t);
    case Copy(from, to) => CopyKeepsInv(s, from, to);
    case Release(t) => ReleaseKeepsInv(s, t);
    case LoadIndex(_) => ReadStepKeepsInv(s, step);
    case LoadCount(_) => ReadStepKeepsInv(s, step);
    case ReadPtr(_) => ReadStepKeepsInv(s, step);
    case RunDeleter(t) => RunDeleterKeepsInv(s, t);
    case StoreCount => StoreCountKeepsInv(s);
    case StorePtr => StorePtrKeepsInv(s);
    case StoreIndex => StoreIndexKeepsInv(s);
    case FreeOld => FreeOldKeepsInv(s);
    case _ => ScanStepKeepsInv(s, step);
  }

  // ----- objects: live, or deleted exactly once

  /** Slot i is reserved and still has the pointer of its previous use: lines 205 to 206. */
  predicate InWindow(s: State, i: nat)
  {
    s.updater.Reserved? && s.updater.i == i
  }

  /** p is the pointer of its slot and that slot's count is positive for p's sake. */
  predicate Alive(s: State, p: Obj)
  {
    && p in s.given && s.given[p] < |s.slots|
    && s.slots[s.given[p]].ptr == Some(p)
    && 0 < s.slots[s.given[p]].count
    && !InWindow(s, s.given[p])
  }

  predicate FreedByUpdate(s: State, p: Obj)
  {
    s.updater.Freeing? && s.updater.i < |s.slots| && s.slots[s.updater.i].ptr == Some(p)
  }

  /** Deleter calls for p: done, or committed to because a fetch_sub returned 1. */
  function DeadCount(s: State, p: Obj): nat
  {
    s.deleted[p] + Count(s.agents, DeletionOf(p)) + One(FreedByUpdate(s, p))
  }

  /** Every object the cell took is alive with no deleter call, or has exactly one; an object it never
      took has none. */
  ghost predicate DeadOnce(s: State)
  {
    forall p :: DeadCount(s, p) == One(p in s.given && !Alive(s, p))
  }

  ghost predicate HandlesMatchSlots(s: State)
  {
    forall t :: 0 <= t < |s.agents| && s.agents[t].Holding? ==>
      && s.agents[t].i < |s.slots|
      && s.slots[s.agents[t].i].ptr == Some(s.agents[t].p)
      && !InWindow(s, s.agents[t].i)
  }

  ghost predicate LiveInv(s: State)
  {
    Inv(s) && HandlesMatchSlots(s) && DeadOnce(s)
  }

  /** A reader that counted itself on a reserved slot reads the pointer of the previous use. */
  predicate StaleRead(s: State, step: Step)
  {
    step.ReadPtr? && step.t < |s.agents| && s.agents[step.t].Counted? && InWindow(s, s.agents[step.t].i)
  }

  lemma InitLive(s: State)
    requires Init(s)
    ensures LiveInv(s)
  {
    InitInv(s);
    forall p: Obj ensures Count(s.agents, DeletionOf(p)) == 0 {
      NoMatch(s.agents, DeletionOf(p));
    }
  }

  lemma ReadStepKeepsMatch(s: State, step: Step)
    requires LiveInv(s) && Enabled(s, step) && !StaleRead(s, step)
    requires step.LoadIndex? || step.LoadCount? || step.ReadPtr?
    ensures HandlesMatchSlots(Next(s, step))
  {
  }

  /** Nothing is said of objects by what readers know. */
  lemma SameDeaths(s: State, s': State, t: nat, p: Obj)
    requires t < |s.agents| == |s'.agents| && s'.agents == s.agents[t := s'.agents[t]]
    requires Matches(s.agents[t], DeletionOf(p)) == Matches(s'.agents[t], DeletionOf(p))
    requires s'.deleted == s.deleted && FreedByUpdate(s', p) == FreedByUpdate(s, p)
    ensures DeadCount(s', p) == DeadCount(s, p)
  {
    CountUpdate(s.agents, t, s'.agents[t], DeletionOf(p));
  }

  lemma ReadStepKeepsLive(s: State, step: Step)
    requires LiveInv(s) && Enabled(s, step) && !StaleRead(s, step)
    requires step.LoadIndex? || step.LoadCount? || step.ReadPtr?
    ensures HandlesMatchSlots(Next(s, step)) && DeadOnce(Next(s, step))
  {
    ReadStepKeepsMatch(s, step);
    var s' := Next(s, step);
    assert s' == s.(agents := s'.agents);
    forall p: Obj ensures DeadCount(s', p) == One(p in s'.given && !Alive(s', p)) {
      SameDeaths(s, s', step.t, p);
      assert Alive(s', p) == Alive(s, p);
    }
  }

  lemma CasKeepsMatch(s: State, t: nat)
    requires LiveInv(s) && Enabled(s, Cas(t))
    ensures HandlesMatchSlots(Next(s, Cas(t)))
  {
  }

  lemma CasKeepsLive(s: State, t: nat)
    requires LiveInv(s) && Enabled(s, Cas(t))
    ensures HandlesMatchSlots(Next(s, Cas(t))) && DeadOnce(Next(s, Cas(t)))
  {
    CasKeepsMatch(s, t);
    var s' := Next(s, Cas(t));
    var a := s.agents[t];
    if a.rc != 0 && s.slots[a.i].count == a.rc {
      CountsFit(s, t, Counted(a.i), a.i);
    }
    forall p: Obj ensures DeadCount(s', p) == One(p in s'.given && !Alive(s', p)) {
      SameDeaths(s, s', t, p);
      assert Alive(s', p) == Alive(s, p);
    }
  }

  lemma CopyKeepsLive(s: State, from: nat, to: nat)
    requires LiveInv(s) && Enabled(s, Copy(from, to))
    ensures HandlesMatchSlots(Next(s, Copy(from, to))) && DeadOnce(Next(s, Copy(from, to)))
  {
    var s' := Next(s, Copy(from, to));
    var a := s.agents[from];
    HeldSlotIsCounted(s, from);
    CountsFit(s, to, a, a.i);
    forall p: Obj ensures DeadCount(s', p) == One(p in s'.given && !Alive(s', p)) {
      CountUpdate(s.agents, to, a, DeletionOf(p));
      assert Alive(s', p) == Alive(s, p);
    }
  }

  lemma ReleaseKeepsMatch(s: State, t: nat)
    requires LiveInv(s) && Enabled(s, Release(t))
    ensures HandlesMatchSlots(Next(s, Release(t)))
  {
  }

  lemma ReleaseKeepsLive(s: State, t: nat)
    requires LiveInv(s) && Enabled(s, Release(t))
    ensures HandlesMatchSlots(Next(s, Release(t))) && DeadOnce(Next(s, Release(t)))
  {
    ReleaseKeepsMatch(s, t);
    var s' := Next(s, Release(t));
    var h := s.agents[t];
    HeldSlotIsCounted(s, t);
    forall p: Obj ensures DeadCount(s', p) == One(p in s'.given && !Alive(s', p)) {
      CountUpdate(s.agents, t, s'.agents[t], DeletionOf(p));
      if p != h.p {
        assert Alive(s', p) == Alive(s, p);
      } else {
        assert Alive(s, p);
      }
    }
  }

  lemma RunDeleterKeepsLive(s: State, t: nat)
    requires LiveInv(s) && Enabled(s, RunDeleter(t))
    ensures HandlesMatchSlots(Next(s, RunDeleter(t))) && DeadOnce(Next(s, RunDeleter(t)))
  {
    var s' := Next(s, RunDeleter(t));
    forall p: Obj ensures DeadCount(s', p) == One(p in s'.given && !Alive(s', p)) {
      CountUpdate(s.agents, t, Idle, DeletionOf(p));
      assert Alive(s', p) == Alive(s, p);
    }
  }

  lemma ScanStepKeepsMatch(s: State, step: Step)
    requires LiveInv(s) && Enabled(s, step)
    requires step.Lock? || step.Scan? || step.StoreIndex?
    ensures HandlesMatchSlots(Next(s, step))
  {
  }

  lemma ScanStepKeepsLive(s: State, step: Step)
    requires LiveInv(s) && Enabled(s, step)
    requires step.Lock? || step.Scan? || step.StoreIndex?
    ensures HandlesMatchSlots(Next(s, step)) && DeadOnce(Next(s, step))
  {
    ScanStepKeepsMatch(s, step);
    var s' := Next(s, step);
    assert s'.given == s.given;
    forall p: Obj ensures DeadCount(s', p) == One(p in s'.given && !Alive(s', p)) {
      ScanStepKeepsObject(s, step, p);
    }
  }

  lemma ScanStepKeepsObject(s: State, step: Step, p: Obj)
    requires Inv(s) && Enabled(s, step)
    requires step.Lock? || step.Scan? || step.StoreIndex?
    ensures Alive(Next(s, step), p) == Alive(s, p) && DeadCount(Next(s, step), p) == DeadCount(s, p)
  {
  }

  lemma RunUpdateDeleterKeepsLive(s: State)
    requires LiveInv(s) && Enabled(s, RunUpdateDeleter)
    ensures HandlesMatchSlots(Next(s, RunUpdateDeleter)) && DeadOnce(Next(s, RunUpdateDeleter))
  {
    var s' := Next(s, RunUpdateDeleter);
    forall p: Obj ensures DeadCount(s', p) == One(p in s'.given && !Alive(s', p)) {
      assert Alive(s', p) == Alive(s, p) && DeadCount(s', p) == DeadCount(s, p);
    }
  }

  lemma StoreCountKeepsLive(s: State)
    requires LiveInv(s) && Enabled(s, StoreCount)
    ensures HandlesMatchSlots(Next(s, StoreCount)) && DeadOnce(Next(s, StoreCount))
  {
    var s' := Next(s, StoreCount);
    forall t | 0 <= t < |s.agents| && s.agents[t].Holding? ensures s.agents[t].i != s.updater.i {
      HeldSlotIsCounted(s, t);
    }
    forall p: Obj ensures DeadCount(s', p) == One(p in s'.given && !Alive(s', p)) {
      assert Alive(s', p) == Alive(s, p);
    }
  }

  lemma StorePtrKeepsLive(s: State)
    requires LiveInv(s) && Enabled(s, StorePtr)
    ensures HandlesMatchSlots(Next(s, StorePtr)) && DeadOnce(Next(s, StorePtr))
  {
    var s' := Next(s, StorePtr);
    var u := s.updater;
    forall p: Obj ensures DeadCount(s', p) == One(p in s'.given && !Alive(s', p)) {
      if p != u.obj {
        assert Alive(s', p) == Alive(s, p);
      }
    }
  }

  lemma FreeOldKeepsLive(s: State)
    requires LiveInv(s) && Enabled(s, FreeOld)
    ensures HandlesMatchSlots(Next(s, FreeOld)) && DeadOnce(Next(s, FreeOld))
  {
    var s' := Next(s, FreeOld);
    var i := s.updater.start;
    forall p: Obj ensures DeadCount(s', p) == One(p in s'.given && !Alive(s', p)) {
      if s.slots[i].ptr != Some(p) {
        assert Alive(s', p) == Alive(s, p);
      }
    }
  }

  lemma StepKeepsLive(s: State, step: Step)
    requires LiveInv(s) && Enabled(s, step) && !StaleRead(s, step)
    ensures LiveInv(Next(s, step))
  {
    StepKeepsInv(s, step);
    match step
    case Release(t) => ReleaseKeepsLive(s, t);
    case Cas(t) => CasKeepsLive(s, t);
    case Copy(from, to) => CopyKeepsLive(s, from, to);
    case RunDeleter(t) => RunDeleterKeepsLive(s, t);
    case StoreCount => StoreCountKeepsLive(s);
    case StorePtr => StorePtrKeepsLive(s);
    case FreeOld => FreeOldKeepsLive(s);
    case RunUpdateDeleter => RunUpdateDeleterKeepsLive(s);
    case LoadIndex(_) => ReadStepKeepsLive(s, step);
    case LoadCount(_) => ReadStepKeepsLive(s, step);
    case ReadPtr(_) => ReadStepKeepsLive(s, step);
    case _ => ScanStepKeepsLive(s, step);
  }

  // ----- theorems over runs

  lemma {:induction false} RunKeepsInv(run: seq<State>, steps: seq<Step>, k: nat)
    requires IsRun(run, steps) && k < |run|
    ensures Inv(run[k])
  {
    if k == 0 {
      InitInv(run[0]);
    } else {
      RunKeepsInv(run, steps, k - 1);
      StepKeepsInv(run[k - 1], steps[k - 1]);
    }
  }

  /** Whatever the interleaving, a slot's count is the number of its unreleased handles and of the
      readers past their compare-exchange, plus the cell's own reference.  So the published slot is
      never free, nothing is subtracted from 0, and the updater never overwrites a positive count. */
  lemma CountsAreReferences(run: seq<State>, steps: seq<Step>, k: nat)
    requires IsRun(run, steps) && k < |run|
    ensures forall i :: 0 <= i < |run[k].slots| ==>
              run[k].slots[i].count == Count(run[k].agents, RefOn(i)) + Own(run[k], i)
    ensures run[k].index < |run[k].slots| && 0 < run[k].slots[run[k].index].count
    ensures k < |steps| && steps[k].Release? ==> 0 < run[k].slots[run[k].agents[steps[k].t].i].count
    ensures k < |steps| && steps[k].FreeOld? ==> 0 < run[k].slots[run[k].updater.start].count
    ensures k < |steps| && steps[k].StoreCount? ==> run[k].slots[run[k].updater.i].count == 0
    ensures k < |steps| && steps[k].ReadPtr? ==> run[k].slots[run[k].agents[steps[k].t].i].ptr.Some?
  {
    RunKeepsInv(run, steps, k);
    if k < |steps| && steps[k].Release? {
      HeldSlotIsCounted(run[k], steps[k].t);
    }
  }

  ghost predicate HandlesAlive(s: State)
  {
    forall t :: 0 <= t < |s.agents| && s.agents[t].Holding? ==> DeadCount(s, s.agents[t].p) == 0
  }

  lemma {:induction false} RunKeepsLive(run: seq<State>, steps: seq<Step>, k: nat)
    requires IsRun(run, steps) && k < |run|
    requires forall j :: 0 <= j < k ==> !StaleRead(run[j], steps[j])
    ensures LiveInv(run[k])
  {
    if k == 0 {
      InitLive(run[0]);
    } else {
      RunKeepsLive(run, steps, k - 1);
      StepKeepsLive(run[k - 1], steps[k - 1]);
    }
  }

  lemma LiveHandlesAlive(s: State)
    requires LiveInv(s)
    ensures HandlesAlive(s)
  {
    forall t | 0 <= t < |s.agents| && s.agents[t].Holding? ensures DeadCount(s, s.agents[t].p) == 0 {
      HeldSlotIsCounted(s, t);
      assert Alive(s, s.agents[t].p);
    }
  }

  /** A stale read makes a handle on an object whose deleter call was already made or committed to. */
  lemma StaleReadIsDead(s: State, step: Step)
    requires LiveInv(s) && Enabled(s, step) && StaleRead(s, step)
    ensures !HandlesAlive(Next(s, step))
  {
    var s' := Next(s, step);
    var i := s.agents[step.t].i;
    var p := s.slots[i].ptr.value;
    assert !Alive(s, p) && DeadCount(s, p) == 1;
    CountUpdate(s.agents, step.t, s'.agents[step.t], DeletionOf(p));
    assert s'.agents[step.t] == Holding(i, p);
  }

  lemma FirstStaleRead(run: seq<State>, steps: seq<Step>, k: nat) returns (first: nat)
    requires k < |steps| < |run| && StaleRead(run[k], steps[k])
    ensures first <= k && StaleRead(run[first], steps[first])
    ensures forall j :: 0 <= j < first ==> !StaleRead(run[j], steps[j])
  {
    first := 0;
    while !StaleRead(run[first], steps[first])
      invariant first <= k
      decreases k - first
      invariant forall j :: 0 <= j < first ==> !StaleRead(run[j], steps[j])
    {
      first := first + 1;
    }
  }

  lemma NoStaleReadMeansAlive(run: seq<State>, steps: seq<Step>)
    requires IsRun(run, steps)
    requires forall k :: 0 <= k < |steps| ==> !StaleRead(run[k], steps[k])
    ensures forall k :: 0 <= k < |run| ==> HandlesAlive(run[k])
  {
    forall k | 0 <= k < |run| ensures HandlesAlive(run[k]) {
      RunKeepsLive(run, steps, k);
      LiveHandlesAlive(run[k]);
    }
  }

  lemma StaleReadMeansDead(run: seq<State>, steps: seq<Step>, k: nat) returns (dead: nat)
    requires IsRun(run, steps) && k < |steps| && StaleRead(run[k], steps[k])
    ensures dead < |run| && !HandlesAlive(run[dead])
  {
    var first := FirstStaleRead(run, steps, k);
    RunKeepsLive(run, steps, first);
    StaleReadIsDead(run[first], steps[first]);
    dead := first + 1;
  }

  /** Handles stay alive until they are released exactly in the runs where no reader reads `ptr_` of
      the reserved slot between the updater's stores of the count and of the pointer. */
  lemma HandlesAliveIffNoStaleRead(run: seq<State>, steps: seq<Step>)
    requires IsRun(run, steps)
    ensures (forall k :: 0 <= k < |run| ==> HandlesAlive(run[k]))
       <==> (forall k :: 0 <= k < |steps| ==> !StaleRead(run[k], steps[k]))
  {
    if k :| 0 <= k < |steps| && StaleRead(run[k], steps[k]) {
      var dead := StaleReadMeansDead(run, steps, k);
    } else {
      NoStaleReadMeansAlive(run, steps);
    }
  }

  /** In such a run each object the cell took is deleted at most once, and a deleter call is made or
      committed to exactly when the object's slot has lost all its references. */
  lemma DeletedExactlyAtZero(run: seq<State>, steps: seq<Step>, k: nat, p: Obj)
    requires IsRun(run, steps) && k < |run|
    requires forall j :: 0 <= j < k ==> !StaleRead(run[j], steps[j])
    ensures run[k].deleted[p] <= 1
    ensures DeadCount(run[k], p) == One(p in run[k].given && !Alive(run[k], p))
  {
    RunKeepsLive(run, steps, k);
    assert DeadCount(run[k], p) == One(p in run[k].given && !Alive(run[k], p));
  }

  // ----- the hypothesis on the readers' compare-exchange

  /** A reader's compare-exchange succeeds on the reserved slot between lines 205 and 206. */
  predicate CasInWindow(s: State, step: Step)
    requires Enabled(s, step)
  {
    step.Cas? && Next(s, step).agents[step.t].Counted? && InWindow(s, s.agents[step.t].i)
  }

  ghost predicate WindowEmpty(s: State)
  {
    s.updater.Reserved? ==> Count(s.agents, RefOn(s.updater.i)) == 0
  }

  lemma CopyKeepsWindowEmpty(s: State, from: nat, to: nat)
    requires Inv(s) && Enabled(s, Copy(from, to)) && WindowEmpty(s)
    ensures WindowEmpty(Next(s, Copy(from, to)))
  {
    if s.updater.Reserved? {
      var i := s.updater.i;
      CountBound(s.agents, RefOn(i));
      assert !Matches(s.agents[from], RefOn(i));
      CountUpdate(s.agents, to, s.agents[from], RefOn(i));
    }
  }

  lemma AgentStepKeepsWindowEmpty(s: State, step: Step, t: nat)
    requires Inv(s) && Enabled(s, step) && WindowEmpty(s) && !CasInWindow(s, step)
    requires t < |s.agents| && s.updater.Reserved? && Next(s, step).updater == s.updater
    requires |Next(s, step).agents| == |s.agents| && Next(s, step).agents == s.agents[t := Next(s, step).agents[t]]
    requires !Matches(Next(s, step).agents[t], RefOn(s.updater.i))
    ensures WindowEmpty(Next(s, step))
  {
    CountUpdate(s.agents, t, Next(s, step).agents[t], RefOn(s.updater.i));
  }

  /** A reader or handle that is not counted on the reserved slot does not become so. */
  lemma NotCountedInWindow(s: State, step: Step)
    requires Inv(s) && Enabled(s, step) && WindowEmpty(s) && !CasInWindow(s, step) && s.updater.Reserved?
    requires step.LoadIndex? || step.LoadCount? || step.Cas? || step.ReadPtr? || step.Release? || step.RunDeleter?
    ensures step.t < |s.agents| && !Matches(Next(s, step).agents[step.t], RefOn(s.updater.i))
  {
    CountBound(s.agents, RefOn(s.updater.i));
    assert !Matches(s.agents[step.t], RefOn(s.updater.i));
  }

  lemma StepKeepsWindowEmpty(s: State, step: Step)
    requires Inv(s) && Enabled(s, step) && WindowEmpty(s) && !CasInWindow(s, step)
    ensures WindowEmpty(Next(s, step))
  {
    if step.Copy? {
      CopyKeepsWindowEmpty(s, step.from, step.to);
    } else if step.LoadIndex? || step.LoadCount? || step.Cas? || step.ReadPtr? || step.Release? || step.RunDeleter? {
      if s.updater.Reserved? {
        NotCountedInWindow(s, step);
        AgentStepKeepsWindowEmpty(s, step, step.t);
      }
    }
  }

  lemma {:induction false} RunKeepsWindowEmpty(run: seq<State>, steps: seq<Step>, k: nat)
    requires IsRun(run, steps) && k < |run|
    requires forall j :: 0 <= j < k ==> !CasInWindow(run[j], steps[j])
    ensures WindowEmpty(run[k])
  {
    if k > 0 {
      RunKeepsWindowEmpty(run, steps, k - 1);
      RunKeepsInv(run, steps, k - 1);
      StepKeepsWindowEmpty(run[k - 1], steps[k - 1]);
    }
  }

  /** It is enough that no reader's compare-exchange succeeds inside the window. */
  lemma NoCasInWindowIsEnough(run: seq<State>, steps: seq<Step>)
    requires IsRun(run, steps)
    requires forall j :: 0 <= j < |steps| ==> !CasInWindow(run[j], steps[j])
    ensures forall k :: 0 <= k < |run| ==> HandlesAlive(run[k])
  {
    forall k | 0 <= k < |steps| ensures !StaleRead(run[k], steps[k]) {
      RunKeepsWindowEmpty(run, steps, k);
      if StaleRead(run[k], steps[k]) {
        CountBound(run[k].agents, RefOn(run[k].updater.i));
        assert Matches(run[k].agents[steps[k].t], RefOn(run[k].updater.i));
      }
    }
    HandlesAliveIffNoStaleRead(run, steps);
  }

  // ----- what a caller can see to

  /** An agent that has loaded an index and not yet read the pointer. */
  predicate Reading(a: Agent)
  {
    a.LoadedIndex? || a.LoadedCount? || a.Counted?
  }

  ghost predicate NoReader(s: State)
  {
    forall t: nat :: t < |s.agents| ==> !Reading(s.agents[t])
  }

  /** While the updater looks for a slot or fills it, readers are on the published slot. */
  ghost predicate ReadersBehind(s: State)
  {
    s.updater.Scanning? || s.updater.Found? || s.updater.Reserved? ==>
      forall t: nat :: t < |s.agents| && Reading(s.agents[t]) ==> s.agents[t].i == s.index
  }

  lemma StepKeepsReadersBehind(s: State, step: Step)
    requires Enabled(s, step) && ReadersBehind(s) && (step.Lock? ==> NoReader(s))
    ensures ReadersBehind(Next(s, step))
  {
  }

  lemma {:induction false} RunKeepsReadersBehind(run: seq<State>, steps: seq<Step>, k: nat)
    requires IsRun(run, steps) && k < |run|
    requires forall j :: 0 <= j < k && steps[j].Lock? ==> NoReader(run[j])
    ensures ReadersBehind(run[k])
  {
    if k > 0 {
      RunKeepsReadersBehind(run, steps, k - 1);
      StepKeepsReadersBehind(run[k - 1], steps[k - 1]);
    }
  }

  /** It is enough that no update takes the lock while some reader is between its load of the index and
      its read of the pointer. */
  lemma NoLockDuringReadIsEnough(run: seq<State>, steps: seq<Step>)
    requires IsRun(run, steps)
    requires forall j :: 0 <= j < |steps| && steps[j].Lock? ==> NoReader(run[j])
    ensures forall k :: 0 <= k < |run| ==> HandlesAlive(run[k])
  {
    forall k | 0 <= k < |steps| ensures !StaleRead(run[k], steps[k]) {
      RunKeepsReadersBehind(run, steps, k);
      RunKeepsInv(run, steps, k);
    }
    HandlesAliveIffNoStaleRead(run, steps);
  }

  // ----- a run that does not meet it

  /** One reader, two slots, two updates.  The reader loads index 0, the first update frees slot 0, the
      second update reserves it again, and the reader then takes a count on it and reads the pointer
      of the deleted object 7. */
  function StaleState(k: nat): State
  {
    var a0, a1 := Slot(1, Some(7), 0), Slot(0, None, 0);
    var b0, b1 := Slot(0, Some(7), 0), Slot(1, Some(8), 1);
    var reader := [LoadedIndex(0)];
    var given := map[7 := 0, 8 := 1];
    if k == 0 then State(0, [a0, a1], [Idle], Unlocked, 0, map[7 := 0], multiset{})
    else if k == 1 then State(0, [a0, a1], reader, Unlocked, 0, map[7 := 0], multiset{})
    else if k == 2 then State(0, [a0, a1], reader, Scanning(8, 0, 0), 0, map[7 := 0], multiset{})
    else if k == 3 then State(0, [a0, a1], reader, Found(8, 0, 1), 0, map[7 := 0], multiset{})
    else if k == 4 then State(0, [a0, Slot(1, None, 0)], reader, Reserved(8, 0, 1), 0, map[7 := 0], multiset{})
    else if k == 5 then State(0, [a0, b1], reader, Stored(0, 1), 1, given, multiset{})
    else if k == 6 then State(1, [a0, b1], reader, Published(0), 1, given, multiset{})
    else if k == 7 then State(1, [b0, b1], reader, Freeing(0), 1, given, multiset{})
    else if k == 8 then State(1, [b0, b1], reader, Unlocked, 1, given, multiset{7})
    else if k == 9 then State(1, [b0, b1], reader, Scanning(9, 1, 1), 1, given, multiset{7})
    else if k == 10 then State(1, [b0, b1], reader, Found(9, 1, 0), 1, given, multiset{7})
    else if k == 11 then State(1, [a0, b1], reader, Reserved(9, 1, 0), 1, given, multiset{7})
    else if k == 12 then State(1, [a0, b1], [LoadedCount(0, 1)], Reserved(9, 1, 0), 1, given, multiset{7})
    else
      State(1, [Slot(2, Some(7), 0), b1], [if k == 13 then Counted(0) else Holding(0, 7)],
            Reserved(9, 1, 0), 1, given, multiset{7})
  }

  function StaleStep(k: nat): Step
  {
    if k == 0 then LoadIndex(0)
    else if k == 1 then Lock(8)
    else if k == 2 || k == 9 then Scan
    else if k == 3 || k == 10 then StoreCount
    else if k == 4 then StorePtr
    else if k == 5 then StoreIndex
    else if k == 6 then FreeOld
    else if k == 7 then RunUpdateDeleter
    else if k == 8 then Lock(9)
    else if k == 11 then LoadCount(0)
    else if k == 12 then Cas(0)
    else ReadPtr(0)
  }

  ghost predicate StaleRunStep(k: nat)
  {
    && Enabled(StaleState(k), StaleStep(k))
    && StaleState(k + 1) == Next(StaleState(k), StaleStep(k))
  }

  lemma StaleRunFirstScan()
    ensures StaleRunStep(0) && StaleRunStep(1) && StaleRunStep(2)
  {
  }

  lemma StaleRunFirstStores()
    ensures StaleRunStep(3) && StaleRunStep(4) && StaleRunStep(5)
  {
  }

  lemma StaleRunFirstFree()
    ensures StaleRunStep(6)
  {
    assert Next(StaleState(6), FreeOld).slots == [Slot(0, Some(7), 0), Slot(1, Some(8), 1)];
  }

  lemma StaleRunFirstDelete()
    ensures StaleRunStep(7) && StaleRunStep(8)
  {
    assert multiset{} + multiset{7 as Obj} == multiset{7};
  }

  lemma StaleRunSecondScan()
    ensures StaleRunStep(9) && StaleRunStep(10)
  {
  }

  lemma StaleRunRead()
    ensures StaleRunStep(11)
  {
  }

  lemma StaleRunLastStores()
    ensures StaleRunStep(12) && StaleRunStep(13)
  {
  }

  lemma StaleRunEnds()
    ensures Init(StaleState(0)) && !HandlesAlive(StaleState(14))
  {
    assert DeadCount(StaleState(14), 7) >= 1;
  }

  /** Without the hypothesis a handle can point at an object that was deleted before it was made. */
  lemma StaleReadHappens() returns (run: seq<State>, steps: seq<Step>)
    ensures IsRun(run, steps) && |run| == 15
    ensures run[14].agents == [Holding(0, 7)] && run[14].deleted == multiset{7}
    ensures !HandlesAlive(run[14])
  {
    StaleRunEnds();
    run := seq(15, k requires 0 <= k => StaleState(k));
    steps := seq(14, k requires 0 <= k => StaleStep(k));
    forall k: nat | k < 14 ensures Enabled(run[k], steps[k]) && run[k + 1] == Next(run[k], steps[k]) {
      StaleRunSteps(k);
    }
    assert run[14] == StaleState(14);
  }

  lemma StaleRunSteps(k: nat)
    requires k < 14
    ensures StaleRunStep(k)
  {
    if k <= 2 {
      StaleRunFirstScan();
    } else if k <= 5 {
      StaleRunFirstStores();
    } else if k == 6 {
      StaleRunFirstFree();
    } else if k <= 8 {
      StaleRunFirstDelete();
    } else if k <= 10 {
      StaleRunSecondScan();
    } else if k == 11 {
      StaleRunRead();
    } else {
      StaleRunLastStores();
    }
  }

  // ----- update(): when it can fail

  /** Slots the scan has looked at: after start, up to i, around the end of the array. */
  predicate Between(start: nat, i: nat, j: nat)
  {
    if start <= i then start < j <= i else start < j || j <= i
  }

  /** From s0 to s no slot other than the published one went from free to occupied. */
  ghost predicate NoneOccupied(s0: State, s: State)
  {
    && s.index == s0.index && |s.slots| == |s0.slots|
    && forall j :: 0 <= j < |s.slots| && j != s.index && 0 < s.slots[j].count ==> 0 < s0.slots[j].count
  }

  ghost predicate ScanInv(s0: State, s: State)
  {
    && NoneOccupied(s0, s)
    && s.updater.Scanning? && s.updater.start == s.index
    && (forall j :: 0 <= j < |s.slots| && Between(s.updater.start, s.updater.i, j) && j != s.index ==>
          0 < s0.slots[j].count)
  }

  lemma NextSlot(i: nat, n: nat)
    requires i < n
    ensures (i + 1) % n == if i + 1 == n then 0 else i + 1
  {
  }

  ghost predicate HeldCounted(s: State)
  {
    && s.index < |s.slots|
    && (forall t :: 0 <= t < |s.agents| && s.agents[t].Holding? ==>
          s.agents[t].i < |s.slots| && 0 < s.slots[s.agents[t].i].count)
  }

  lemma RunKeepsHeldCounted(run: seq<State>, steps: seq<Step>, k: nat)
    requires IsRun(run, steps) && k < |run|
    ensures HeldCounted(run[k])
    ensures run[k].updater.Scanning? ==> run[k].updater.i < |run[k].slots|
  {
    RunKeepsInv(run, steps, k);
    forall t | 0 <= t < |run[k].agents| && run[k].agents[t].Holding?
      ensures 0 < run[k].slots[run[k].agents[t].i].count
    {
      HeldSlotIsCounted(run[k], t);
    }
  }

  lemma ScanStepKeepsScanInv(s0: State, s: State, step: Step)
    requires HeldCounted(s) && ScanInv(s0, s) && s.updater.i < |s.slots| && Enabled(s, step)
    ensures NoneOccupied(s0, Next(s, step))
    ensures Next(s, step).updater.Scanning? ==> ScanInv(s0, Next(s, step))
    ensures Next(s, step).updater.Unlocked? ==>
              forall j :: 0 <= j < |s0.slots| && j != s0.index ==> 0 < s0.slots[j].count
  {
    var s' := Next(s, step);
    if step.Scan? {
      NextSlot(s.updater.i, |s.slots|);
    }
  }

  lemma {:induction false} ScanOverRun(run: seq<State>, steps: seq<Step>, b: nat, k: nat)
    requires IsRun(run, steps) && b < k < |run|
    requires steps[b].Lock? && forall j :: b < j <= k ==> run[j].updater.Scanning?
    ensures ScanInv(run[b], run[k])
  {
    if k == b + 1 {
      RunKeepsInv(run, steps, b);
    } else {
      RunKeepsHeldCounted(run, steps, k - 1);
      ScanOverRun(run, steps, b, k - 1);
      ScanStepKeepsScanInv(run[b], run[k - 1], steps[k - 1]);
    }
  }

  lemma FailedScanSawAll(run: seq<State>, steps: seq<Step>, b: nat, e: nat)
    requires IsRun(run, steps) && b < e - 1 && e < |run|
    requires steps[b].Lock? && forall j :: b < j < e ==> run[j].updater.Scanning?
    requires run[e].updater.Unlocked?
    ensures forall i :: 0 <= i < |run[b].slots| && i != run[b].index ==> 0 < run[b].slots[i].count
  {
    var k := e - 1;
    RunKeepsHeldCounted(run, steps, k);
    ScanOverRun(run, steps, b, k);
    RunStep(run, steps, k);
    ScanStepKeepsScanInv(run[b], run[k], steps[k]);
  }

  lemma RunStep(run: seq<State>, steps: seq<Step>, k: nat)
    requires IsRun(run, steps) && k + 1 < |run|
    ensures Enabled(run[k], steps[k]) && run[k + 1] == Next(run[k], steps[k])
  {
  }

  lemma UnlockedOwnsIndexOnly(s: State)
    requires Inv(s) && s.updater.Unlocked?
    ensures forall i :: 0 <= i < |s.slots| && i != s.index ==> s.slots[i].count == Count(s.agents, RefOn(i))
  {
  }

  /** `update` gives up only if, when it took the lock, every unpublished slot was held by a handle or a
      reader: what readers do during the scan cannot make it fail. */
  lemma UpdateFailsOnlyIfAllHeld(run: seq<State>, steps: seq<Step>, b: nat, e: nat)
    requires IsRun(run, steps) && b < e - 1 && e < |run|
    requires steps[b].Lock? && forall j :: b < j < e ==> run[j].updater.Scanning?
    requires run[e].updater.Unlocked?
    ensures forall i :: 0 <= i < |run[b].slots| && i != run[b].index ==>
              0 < Count(run[b].agents, RefOn(i))
  {
    FailedScanSawAll(run, steps, b, e);
    RunKeepsInv(run, steps, b);
    UnlockedOwnsIndexOnly(run[b]);
  }

  // ----- update(): how long it takes

  /** The slots a scan has looked at. */
  function Looked(u: Updater, n: nat): int
    requires u.Scanning?
  {
    if u.start <= u.i then u.i - u.start else u.i + n - u.start
  }

  /** The steps of the scan in steps from..to. */
  function Scans(steps: seq<Step>, from: nat, to: nat): nat
    requires to <= |steps|
  {
    if to <= from then 0 else Scans(steps, from, to - 1) + One(steps[to - 1].Scan?)
  }

  /** A scan that has looked at c slots goes on. */
  predicate HasLooked(s: State, c: nat)
  {
    && s.updater.Scanning? && s.updater.start < |s.slots| && s.updater.i < |s.slots|
    && Looked(s.updater, |s.slots|) == c
  }

  lemma LookedOverStep(s: State, s': State, step: Step, c: nat)
    requires Enabled(s, step) && s' == Next(s, step) && HasLooked(s, c) && s'.updater.Scanning?
    ensures HasLooked(s', c + One(step.Scan?))
  {
    if step.Scan? { NextSlot(s.updater.i, |s.slots|); }
  }

  lemma LookedAtLock(run: seq<State>, steps: seq<Step>, b: nat)
    requires IsRun(run, steps) && b + 1 < |run| && steps[b].Lock?
    ensures HasLooked(run[b + 1], 0)
  {
    RunKeepsInv(run, steps, b);
  }

  /** A scan that has not ended has looked at fewer slots than there are, one with each of its steps.  So
      it ends with the step that makes them as many, whatever the other threads do in between. */
  lemma {:induction false} ScanIsBounded(run: seq<State>, steps: seq<Step>, b: nat, e: nat)
    requires IsRun(run, steps) && b < e < |run|
    requires steps[b].Lock? && forall j :: b < j <= e ==> run[j].updater.Scanning?
    ensures HasLooked(run[e], Scans(steps, b + 1, e)) && Scans(steps, b + 1, e) < |run[e].slots|
    decreases e
  {
    var k := e - 1;
    if k == b {
      LookedAtLock(run, steps, k);
    } else {
      ScanIsBounded(run, steps, b, k);
      LookedNext(run, steps, k, Scans(steps, b + 1, k));
    }
    ScansNext(steps, b + 1, k, e);
  }

  lemma LookedNext(run: seq<State>, steps: seq<Step>, k: nat, c: nat)
    requires IsRun(run, steps) && k + 1 < |run| && HasLooked(run[k], c) && run[k + 1].updater.Scanning?
    ensures HasLooked(run[k + 1], c + One(steps[k].Scan?))
  {
    LookedOverStep(run[k], run[k + 1], steps[k], c);
  }

  lemma ScansNext(steps: seq<Step>, from: nat, k: nat, to: nat)
    requires to == k + 1 <= |steps|
    ensures Scans(steps, from, to) == if k < from then 0 else Scans(steps, from, k) + One(steps[k].Scan?)
  {
  }

  /** If some unpublished slot has no handle and no reader when an update takes the lock, the scan ends
      with a free slot, and the update publishes its object. */
  lemma FreeSlotIsFound(run: seq<State>, steps: seq<Step>, b: nat, e: nat, i: nat)
    requires IsRun(run, steps) && b < e - 1 && e < |run|
    requires steps[b].Lock? && forall j :: b < j < e ==> run[j].updater.Scanning?
    requires !run[e].updater.Scanning?
    requires i < |run[b].slots| && i != run[b].index && Count(run[b].agents, RefOn(i)) == 0
    ensures run[e].updater.Found?
  {
    var k := e - 1;
    RunStep(run, steps, k);
    if run[e].updater.Unlocked? { UpdateFailsOnlyIfAllHeld(run, steps, b, e); }
  }

  /** An update waits for nobody: in every state of a run its next step can be taken. */
  lemma UpdaterGoesOn(run: seq<State>, steps: seq<Step>, k: nat)
    requires IsRun(run, steps) && k < |run|
    ensures var s := run[k];
            match s.updater
            case Unlocked => forall obj: Obj :: obj !in s.given ==> Enabled(s, Lock(obj))
            case Scanning(_, _, _) => Enabled(s, Scan)
            case Found(_, _, _) => Enabled(s, StoreCount)
            case Reserved(_, _, _) => Enabled(s, StorePtr)
            case Stored(_, _) => Enabled(s, StoreIndex)
            case Published(_) => Enabled(s, FreeOld)
            case Freeing(_) => Enabled(s, RunUpdateDeleter)
  {
    RunKeepsInv(run, steps, k);
  }

  // ----- read(): never older than what was published when it loaded the index

  function PublishedStamp(s: State): nat
    requires s.index < |s.slots|
  {
    s.slots[s.index].stamp
  }

  /** From s to t no slot, and not the published one, goes back to an older store. */
  ghost predicate StampsFollow(s: State, t: State)
  {
    && |s.slots| == |t.slots| && s.index < |s.slots| && t.index < |t.slots|
    && (forall i: nat :: i < |s.slots| ==> s.slots[i].stamp <= t.slots[i].stamp)
    && PublishedStamp(s) <= PublishedStamp(t)
  }

  lemma StepGrowsStamps(s: State, step: Step)
    requires Inv(s) && Enabled(s, step)
    ensures StampsFollow(s, Next(s, step))
  {
  }

  lemma StampsFollowOn(s: State, t: State, u: State)
    requires StampsFollow(s, t) && StampsFollow(t, u)
    ensures StampsFollow(s, u)
  {
  }

  lemma StampsOverStep(run: seq<State>, steps: seq<Step>, k: nat)
    requires IsRun(run, steps) && k + 1 < |run|
    ensures StampsFollow(run[k], run[k + 1])
  {
    RunKeepsInv(run, steps, k);
    RunStep(run, steps, k);
    StepGrowsStamps(run[k], steps[k]);
  }

  lemma StampsStay(run: seq<State>, steps: seq<Step>, k: nat)
    requires IsRun(run, steps) && k < |run|
    ensures StampsFollow(run[k], run[k])
  {
    RunKeepsInv(run, steps, k);
  }

  lemma {:induction false} StampsGrow(run: seq<State>, steps: seq<Step>, j: nat, k: nat)
    requires IsRun(run, steps) && j <= k < |run|
    ensures StampsFollow(run[j], run[k])
  {
    if j < k {
      var m: nat := k - 1;
      StampsGrow(run, steps, j, m);
      StampsOverStep(run, steps, m);
      StampsFollowOn(run[j], run[m], run[k]);
    } else {
      StampsStay(run, steps, k);
    }
  }

  lemma PublishedStampGrows(run: seq<State>, steps: seq<Step>, j: nat, k: nat)
    requires IsRun(run, steps) && j <= k < |run|
    ensures run[j].index < |run[j].slots| && run[k].index < |run[k].slots|
    ensures PublishedStamp(run[j]) <= PublishedStamp(run[k])
  {
    StampsGrow(run, steps, j, k);
  }

  lemma StepOfReader(s: State, step: Step, t: nat)
    requires Enabled(s, step) && t < |s.agents|
    ensures |Next(s, step).agents| == |s.agents|
    ensures Reading(Next(s, step).agents[t]) && step != LoadIndex(t) ==>
              Reading(s.agents[t]) && s.agents[t].i == Next(s, step).agents[t].i
    ensures step == LoadIndex(t) ==> Next(s, step).agents[t] == LoadedIndex(s.index)
  {
  }

  lemma {:induction false} AgentsStay(run: seq<State>, steps: seq<Step>, k: nat)
    requires IsRun(run, steps) && k < |run|
    ensures |run[k].agents| == |run[0].agents|
  {
    if k > 0 {
      AgentsStay(run, steps, k - 1);
    }
  }

  lemma ReaderOverStep(run: seq<State>, steps: seq<Step>, k: nat, t: nat)
    requires IsRun(run, steps) && k < |steps| && t < |run[k + 1].agents| && Reading(run[k + 1].agents[t])
    ensures t < |run[k].agents|
    ensures steps[k] == LoadIndex(t) ==> run[k + 1].agents[t].i == run[k].index
    ensures steps[k] != LoadIndex(t) ==> Reading(run[k].agents[t]) && run[k].agents[t].i == run[k + 1].agents[t].i
  {
    AgentsStay(run, steps, k);
    AgentsStay(run, steps, k + 1);
    StepOfReader(run[k], steps[k], t);
  }

  lemma {:induction false} ReaderKeepsSlot(run: seq<State>, steps: seq<Step>, j: nat, k: nat, t: nat)
    requires IsRun(run, steps) && j < k < |run| && t < |run[k].agents| && Reading(run[k].agents[t])
    requires steps[j] == LoadIndex(t) && forall m :: j < m < k ==> steps[m] != LoadIndex(t)
    ensures run[k].agents[t].i == run[j].index
    decreases k
  {
    var m := k - 1;
    assert run[m + 1] == run[k];
    ReaderOverStep(run, steps, m, t);
    if j < m {
      assert steps[m] != LoadIndex(t);
      ReaderKeepsSlot(run, steps, j, m, t);
    }
  }

  /** A read returns an object at least as new as every one that was published before it loaded the
      index: an `update` that completed before is always seen. */
  lemma ReadIsFresh(run: seq<State>, steps: seq<Step>, before: nat, j: nat, k: nat, t: nat)
    requires IsRun(run, steps) && before <= j < k < |steps|
    requires steps[j] == LoadIndex(t) && steps[k] == ReadPtr(t)
    requires forall m :: j < m < k ==> steps[m] != LoadIndex(t)
    ensures run[before].index < |run[before].slots|
    ensures run[k + 1].agents[t].Holding? && run[k + 1].agents[t].i < |run[k].slots|
    ensures run[k + 1].agents[t].p == run[k].slots[run[k + 1].agents[t].i].ptr.value
    ensures PublishedStamp(run[before]) <= run[k].slots[run[k + 1].agents[t].i].stamp
  {
    RunKeepsInv(run, steps, k);
    ReaderKeepsSlot(run, steps, j, k, t);
    PublishedStampGrows(run, steps, before, j);
    StampsGrow(run, steps, j, k);
  }
}
