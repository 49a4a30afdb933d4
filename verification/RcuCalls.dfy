/** What the calls of `rcu.h` do: when a reader's exchange succeeds, what copies and releases of handles
    change, and what `read` and `update` come to when nobody interferes. */
module RcuCalls {
  import opened Wrappers
  import opened Rcu

  /** The steps can be taken one after the other, and lead from s to t. */
  ghost predicate Leads(s: State, steps: seq<Step>, t: State)
    decreases |steps|
  {
    if steps == [] then s == t else Enabled(s, steps[0]) && Leads(Next(s, steps[0]), steps[1..], t)
  }

  lemma FirstStep(s: State, steps: seq<Step>, t: State) returns (u: State)
    requires steps != [] && Leads(s, steps, t)
    ensures Enabled(s, steps[0]) && u == Next(s, steps[0]) && Leads(u, steps[1..], t)
  {
    u := Next(s, steps[0]);
  }

  lemma LeadsFirst(s: State, a: Step, u: State, rest: seq<Step>, all: seq<Step>, t: State)
    requires all == [a] + rest && Enabled(s, a) && u == Next(s, a) && Leads(u, rest, t)
    ensures Leads(s, all, t)
  {
    assert all[1..] == rest;
  }

  lemma {:induction false} LeadsOn(s: State, first: seq<Step>, t: State, second: seq<Step>, u: State)
    requires Leads(s, first, t) && Leads(t, second, u)
    ensures Leads(s, first + second, u)
    decreases |first|
  {
    if first == [] {
      assert first + second == second;
    } else {
      var a, rest := first[0], first[1..];
      var v := FirstStep(s, first, t);
      LeadsOn(v, rest, t, second, u);
      assert first + second == [a] + (rest + second);
      LeadsFirst(s, a, v, rest + second, first + second, u);
    }
  }

  lemma OneStep(s: State, step: Step)
    requires Enabled(s, step)
    ensures Leads(s, [step], Next(s, step))
  {
    assert [step][1..] == [];
  }

  lemma TwoSteps(s: State, a: Step, b: Step)
    requires Enabled(s, a) && Enabled(Next(s, a), b)
    ensures Leads(s, [a, b], Next(Next(s, a), b))
  {
    OneStep(s, a);
    OneStep(Next(s, a), b);
    LeadsOn(s, [a], Next(s, a), [b], Next(Next(s, a), b));
    assert [a] + [b] == [a, b];
  }

  // ----- read()

  /** A handle more on slot i. */
  function OneMore(s: State, i: nat, t: nat, a: Agent): State
    requires i < |s.slots| && t < |s.agents|
  {
    s.(slots := s.slots[i := s.slots[i].(count := s.slots[i].count + 1)], agents := s.agents[t := a])
  }

  lemma PublishedIsCounted(s: State)
    requires Inv(s)
    ensures s.index < |s.slots| && 0 < s.slots[s.index].count && s.slots[s.index].ptr.Some?
  {
  }

  /** Nobody else takes a step: `read` returns the published pointer, with one more reference, and changes
      nothing else. */
  lemma ReadAlone(s: State, t: nat)
    requires Inv(s) && t < |s.agents| && s.agents[t].Idle?
    ensures s.index < |s.slots| && s.slots[s.index].ptr.Some?
    ensures Leads(s, [LoadIndex(t), LoadCount(t), Cas(t), ReadPtr(t)],
                  OneMore(s, s.index, t, Holding(s.index, s.slots[s.index].ptr.value)))
  {
    var i := s.index;
    PublishedIsCounted(s);
    var u := LoadsAlone(s, t);
    ExchangeAlone(s, u, t);
    LeadsOn(s, [LoadIndex(t), LoadCount(t)], u, [Cas(t), ReadPtr(t)],
            OneMore(s, i, t, Holding(i, s.slots[i].ptr.value)));
    assert [LoadIndex(t), LoadCount(t)] + [Cas(t), ReadPtr(t)] == [LoadIndex(t), LoadCount(t), Cas(t), ReadPtr(t)];
  }

  lemma LoadsAlone(s: State, t: nat) returns (u: State)
    requires Inv(s) && t < |s.agents| && s.agents[t].Idle?
    ensures s.index < |s.slots|
    ensures u == s.(agents := s.agents[t := LoadedCount(s.index, s.slots[s.index].count)])
    ensures Leads(s, [LoadIndex(t), LoadCount(t)], u)
  {
    TwoSteps(s, LoadIndex(t), LoadCount(t));
    u := Next(Next(s, LoadIndex(t)), LoadCount(t));
  }

  lemma ExchangeAlone(s: State, u: State, t: nat)
    requires Inv(s) && t < |s.agents| && s.agents[t].Idle? && s.index < |s.slots| && s.slots[s.index].ptr.Some?
    requires u == s.(agents := s.agents[t := LoadedCount(s.index, s.slots[s.index].count)])
    ensures Leads(u, [Cas(t), ReadPtr(t)], OneMore(s, s.index, t, Holding(s.index, s.slots[s.index].ptr.value)))
  {
    PublishedIsCounted(s);
    CountsFit(s, t, Rcu.Counted(s.index), s.index);
    TwoSteps(u, Cas(t), ReadPtr(t));
    assert Next(Next(u, Cas(t)), ReadPtr(t))
        == OneMore(s, s.index, t, Holding(s.index, s.slots[s.index].ptr.value));
  }

  /** While a reader has loaded a count, only its own exchange changes that. */
  lemma LoadedStays(s: State, step: Step, t: nat)
    requires Enabled(s, step) && t < |s.agents| && s.agents[t].LoadedCount? && step != Cas(t)
    ensures t < |Next(s, step).agents| && Next(s, step).agents[t] == s.agents[t]
  {
  }

  lemma {:induction false} LoadedInRun(run: seq<State>, steps: seq<Step>, j: nat, k: nat, t: nat)
    requires IsRun(run, steps) && j < k < |run| && steps[j] == LoadCount(t)
    requires forall m :: j < m < k ==> steps[m] != Cas(t)
    ensures t < |run[j].agents| && run[j].agents[t].LoadedIndex? && run[j].agents[t].i < |run[j].slots|
    ensures var i := run[j].agents[t].i;
            t < |run[k].agents| && run[k].agents[t] == LoadedCount(i, run[j].slots[i].count)
    decreases k
  {
    var m: nat := k - 1;
    RunStep(run, steps, m);
    if j < m {
      LoadedInRun(run, steps, j, m, t);
      LoadedStays(run[m], steps[m], t);
    }
  }

  /** In any run, whatever happens between a reader's load of a count and its exchange: the exchange succeeds,
      and counts one more, exactly when the slot has that count again, or still, and it was not 0. */
  lemma ExchangeSucceedsIff(run: seq<State>, steps: seq<Step>, j: nat, k: nat, t: nat)
    requires IsRun(run, steps) && j < k < |steps| && steps[j] == LoadCount(t) && steps[k] == Cas(t)
    requires forall m :: j < m < k ==> steps[m] != Cas(t)
    ensures t < |run[j].agents| && run[j].agents[t].LoadedIndex? && run[j].agents[t].i < |run[j].slots|
    ensures var i := run[j].agents[t].i;
            var loaded := run[j].slots[i].count;
            && i < |run[k].slots| && t < |run[k].agents|
            && run[k + 1] == if loaded != 0 && run[k].slots[i].count == loaded
                             then OneMore(run[k], i, t, Rcu.Counted(i))
                             else run[k].(agents := run[k].agents[t := Idle])
  {
    LoadedInRun(run, steps, j, k, t);
    RunStep(run, steps, k);
    RunKeepsInv(run, steps, k);
    ExchangeStep(run[k], t);
  }

  lemma ExchangeStep(s: State, t: nat)
    requires Inv(s) && Enabled(s, Cas(t))
    ensures var a := s.agents[t];
            Next(s, Cas(t)) == if a.rc != 0 && s.slots[a.i].count == a.rc then OneMore(s, a.i, t, Rcu.Counted(a.i))
                               else s.(agents := s.agents[t := Idle])
  {
    CountsFit(s, t, Rcu.Counted(s.agents[t].i), s.agents[t].i);
  }

  // ----- handles

  /** A handle can be copied to an empty one at any time: then both are on the same slot and object, which
      has one more reference, and nothing else changes. */
  lemma CopyShares(s: State, from: nat, to: nat)
    requires Inv(s) && from < |s.agents| && to < |s.agents| && s.agents[from].Holding? && s.agents[to].Idle?
    ensures Enabled(s, Copy(from, to)) && s.agents[from].i < |s.slots|
    ensures var t := Next(s, Copy(from, to));
            && t.agents[from] == t.agents[to] == s.agents[from]
            && t == OneMore(s, s.agents[from].i, to, s.agents[from])
  {
    assert SlotOf(s.agents[from]).Some?;
    CountsFit(s, to, s.agents[from], s.agents[from].i);
  }

  function Deleted(s: State, t: nat, p: Obj): State
    requires t < |s.agents|
  {
    s.(agents := s.agents[t := Idle], deleted := s.deleted + multiset{p})
  }

  /** A handle can be released at any time: it is empty then, its slot has one reference less, and if that
      was the last one its object is deleted next.  Nothing else changes. */
  lemma ReleaseLetsGo(s: State, t: nat)
    requires Inv(s) && t < |s.agents| && s.agents[t].Holding?
    ensures Enabled(s, Release(t)) && s.agents[t].i < |s.slots|
    ensures var i, p, u := s.agents[t].i, s.agents[t].p, Next(s, Release(t));
            && 0 < s.slots[i].count
            && u == s.(slots := s.slots[i := s.slots[i].(count := s.slots[i].count - 1)], agents := u.agents)
            && u.agents == s.agents[t := if s.slots[i].count == 1 then Deleting(p) else Idle]
            && (s.slots[i].count == 1 ==> Enabled(u, RunDeleter(t)) && Next(u, RunDeleter(t)) == Deleted(u, t, p))
  {
    assert SlotOf(s.agents[t]).Some?;
    HeldSlotIsCounted(s, t);
  }

  // ----- update()

  /** The slots from i on before the scan is back at `start`. */
  function Ahead(i: nat, start: nat, n: nat): int
  {
    if i < start then start - i else start - i + n
  }

  lemma NextAhead(i: nat, start: nat, n: nat)
    requires i < n && start < n
    ensures var j := (i + 1) % n;
            && j < n && (j == start <==> Ahead(i, start, n) == 1)
            && (j != start ==> Ahead(j, start, n) == Ahead(i, start, n) - 1)
  {
    if i + 1 < n { assert (i + 1) % n == i + 1; } else { assert (i + 1) % n == 0; }
  }

  lemma SameAhead(i: nat, j: nat, start: nat, n: nat)
    requires i < n && j < n && start < n && Ahead(i, start, n) == Ahead(j, start, n)
    ensures i == j
  {
  }

  /** Free, not published, and ahead of i. */
  predicate FreeAhead(s: State, start: nat, i: nat, f: nat)
  {
    f < |s.slots| && f != start && s.slots[f].count == 0 && Ahead(f, start, |s.slots|) < Ahead(i, start, |s.slots|)
  }

  /** f is the first of these. */
  ghost predicate FirstFree(s: State, start: nat, i: nat, f: nat)
  {
    && FreeAhead(s, start, i, f)
    && forall g: nat :: FreeAhead(s, start, i, g) ==> Ahead(g, start, |s.slots|) <= Ahead(f, start, |s.slots|)
  }

  /** The scan of an update that nobody disturbs. */
  lemma {:induction false} ScanAlone(s: State, u: State, obj: Obj, start: nat, i: nat)
    returns (steps: seq<Step>, t: State)
    requires u == s.(updater := Scanning(obj, start, i)) && i < |s.slots| && start < |s.slots|
    ensures Leads(u, steps, t)
    ensures if exists f: nat :: FreeAhead(s, start, i, f)
            then exists f: nat :: FirstFree(s, start, i, f) && t == s.(updater := Found(obj, start, f))
            else t == s.(updater := Unlocked)
    decreases Ahead(i, start, |s.slots|)
  {
    var n := |s.slots|;
    var j := (i + 1) % n;
    NextAhead(i, start, n);
    var v := Next(u, Scan);
    OneStep(u, Scan);
    if j == start {
      steps, t := [Scan], v;
      assert forall f: nat :: !FreeAhead(s, start, i, f);
    } else if s.slots[j].count == 0 {
      steps, t := [Scan], v;
      assert FirstFree(s, start, i, j);
    } else {
      var rest;
      rest, t := ScanAlone(s, v, obj, start, j);
      steps := [Scan] + rest;
      LeadsOn(u, [Scan], v, rest, t);
      AheadOfNext(s, start, i, j);
    }
  }

  lemma AheadOfNext(s: State, start: nat, i: nat, j: nat)
    requires i < |s.slots| && start < |s.slots| && j < |s.slots| && j != start && s.slots[j].count != 0
    requires Ahead(j, start, |s.slots|) == Ahead(i, start, |s.slots|) - 1
    ensures forall f: nat :: FreeAhead(s, start, i, f) <==> FreeAhead(s, start, j, f)
    ensures forall f: nat :: FirstFree(s, start, i, f) <==> FirstFree(s, start, j, f)
  {
    forall f: nat ensures FreeAhead(s, start, i, f) <==> FreeAhead(s, start, j, f) {
      if FreeAhead(s, start, i, f) && Ahead(f, start, |s.slots|) == Ahead(j, start, |s.slots|) {
        SameAhead(f, j, start, |s.slots|);
      }
    }
  }

  /** The object is in slot f, which is published; the slot before has one reference less, and its object
      was deleted if that was the last one. */
  function Updated(s: State, obj: Obj, f: nat): State
    requires s.index < |s.slots| && f < |s.slots| && s.slots[s.index].ptr.Some? && 0 < s.slots[s.index].count
  {
    var was := s.slots[s.index];
    s.(index := f,
       slots := s.slots[f := Slot(1, Some(obj), s.stores + 1)][s.index := was.(count := was.count - 1)],
       stores := s.stores + 1,
       given := s.given[obj := f],
       updater := Unlocked,
       deleted := s.deleted + if was.count == 1 then multiset{was.ptr.value} else multiset{})
  }

  lemma StoresAlone(s: State, v: State, obj: Obj, f: nat) returns (t: State)
    requires Inv(s) && s.updater.Unlocked? && f < |s.slots| && f != s.index
    requires v == s.(updater := Found(obj, s.index, f))
    ensures Leads(v, [StoreCount, StorePtr], t)
    ensures t == s.(slots := s.slots[f := Slot(1, Some(obj), s.stores + 1)], stores := s.stores + 1,
                    given := s.given[obj := f], updater := Stored(s.index, f))
  {
    TwoSteps(v, StoreCount, StorePtr);
    t := Next(Next(v, StoreCount), StorePtr);
  }

  lemma PublishAlone(s: State, u: State, obj: Obj, f: nat) returns (steps: seq<Step>)
    requires Inv(s) && s.updater.Unlocked? && f < |s.slots| && f != s.index
    requires u == s.(slots := s.slots[f := Slot(1, Some(obj), s.stores + 1)], stores := s.stores + 1,
                     given := s.given[obj := f], updater := Stored(s.index, f))
    ensures s.slots[s.index].ptr.Some? && 0 < s.slots[s.index].count && Leads(u, steps, Updated(s, obj, f))
  {
    PublishedIsCounted(s);
    TwoSteps(u, StoreIndex, FreeOld);
    steps := [StoreIndex, FreeOld];
    if s.slots[s.index].count == 1 {
      var w := Next(Next(u, StoreIndex), FreeOld);
      OneStep(w, RunUpdateDeleter);
      LeadsOn(u, steps, w, [RunUpdateDeleter], Next(w, RunUpdateDeleter));
      steps := steps + [RunUpdateDeleter];
    } else {
      assert s.deleted + multiset{} == s.deleted;
    }
  }

  /** A slot that is not published and has no references. */
  predicate Free(s: State, f: nat)
  {
    f < |s.slots| && f != s.index && s.slots[f].count == 0
  }

  /** Nobody else takes a step: `update` puts the object into the first free slot behind the published one,
      publishes it and frees the slot before; without a free slot it gives up, and nothing has changed. */
  lemma UpdateAlone(s: State, obj: Obj) returns (steps: seq<Step>, t: State)
    requires Inv(s) && s.updater.Unlocked? && obj !in s.given
    ensures Leads(s, steps, t) && s.slots[s.index].ptr.Some? && 0 < s.slots[s.index].count
    ensures if exists f: nat :: Free(s, f)
            then exists f: nat :: FirstFree(s, s.index, s.index, f) && t == Updated(s, obj, f)
            else t == s
  {
    PublishedIsCounted(s);
    var u := Next(s, Lock(obj));
    OneStep(s, Lock(obj));
    var scan, v := ScanAlone(s, u, obj, s.index, s.index);
    LeadsOn(s, [Lock(obj)], u, scan, v);
    steps, t := [Lock(obj)] + scan, v;
    if f0: nat :| Free(s, f0) {
      assert FreeAhead(s, s.index, s.index, f0);
      var f: nat :| FirstFree(s, s.index, s.index, f) && v == s.(updater := Found(obj, s.index, f));
      var w := StoresAlone(s, v, obj, f);
      var last := PublishAlone(s, w, obj, f);
      LeadsOn(v, [StoreCount, StorePtr], w, last, Updated(s, obj, f));
      LeadsOn(s, steps, v, [StoreCount, StorePtr] + last, Updated(s, obj, f));
      steps, t := steps + ([StoreCount, StorePtr] + last), Updated(s, obj, f);
    } else {
      forall f: nat ensures !FreeAhead(s, s.index, s.index, f) { assert !Free(s, f); }
      assert s == s.(updater := Unlocked);
    }
  }
}
