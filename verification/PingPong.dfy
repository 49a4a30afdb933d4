/** The two ping-pong protocols of `core_latency`: two threads that hand a turn to each other, with two
    flags or with one flag and compare-and-swap. */
module PingPong {
  import opened Bits

  datatype Thread = Ping | Pong

  // ----- fair schedules

  /** Each thread is scheduled again and again. */
  ghost predicate Fair(who: nat -> Thread)
  {
    forall n: nat, t: Thread :: ScheduledFrom(who, n, t)
  }

  ghost predicate ScheduledFrom(who: nat -> Thread, n: nat, t: Thread)
  {
    exists m: nat :: n <= m && who(m) == t
  }

  /** While there is something to do, the thread whose turn it is gets on with it and the other one spins. */
  ghost predicate TurnTaken<S(!new)>(run: nat -> S, who: nat -> Thread, left: S -> nat, turn: S -> Thread, n: nat)
  {
    0 < left(run(n)) ==>
      if who(n) == turn(run(n)) then left(run(n + 1)) < left(run(n)) else run(n + 1) == run(n)
  }

  lemma {:induction false} TurnComes<S(!new)>(run: nat -> S, who: nat -> Thread, left: S -> nat, turn: S -> Thread,
                                              n: nat, m: nat) returns (p: nat)
    requires forall i: nat :: TurnTaken(run, who, left, turn, i)
    requires 0 < left(run(n)) && n <= m && who(m) == turn(run(n))
    ensures left(run(p)) < left(run(n))
    decreases m - n
  {
    assert TurnTaken(run, who, left, turn, n);
    if who(n) == turn(run(n)) {
      p := n + 1;
    } else {
      p := TurnComes(run, who, left, turn, n + 1, m);
    }
  }

  /** Under a fair schedule all that is left gets done. */
  lemma {:induction false} FairFinishes<S(!new)>(run: nat -> S, who: nat -> Thread, left: S -> nat,
                                                 turn: S -> Thread, n: nat) returns (p: nat)
    requires Fair(who) && forall i: nat :: TurnTaken(run, who, left, turn, i)
    ensures left(run(p)) == 0
    decreases left(run(n))
  {
    p := n;
    if 0 < left(run(n)) {
      assert ScheduledFrom(who, n, turn(run(n)));
      var m: nat :| n <= m && who(m) == turn(run(n));
      var q := TurnComes(run, who, left, turn, n, m);
      p := FairFinishes(run, who, left, turn, q);
    }
  }

  // ----- two flags

  /** The flags, the hand-offs each thread has made, and whether it has seen its turn and not yet stored. */
  datatype Flags = Flags(ping: nat, pong: nat, pings: nat, pongs: nat, pingSees: bool, pongSees: bool)

  /** Both threads of one run; the ping thread makes `pingMax` hand-offs and the pong thread `pongMax`. */
  datatype Two = Two(pingMax: nat, pongMax: nat)
  {
    /** A thread's load, or its store after a load that showed its turn. */
    function Step(s: Flags, t: Thread): Flags
    {
      match t
      case Ping =>
        if s.pings == pingMax then s
        else if s.pingSees then s.(ping := (s.pings + 1) % 2, pings := s.pings + 1, pingSees := false)
        else if s.pong == (s.pings + 1) % 2 then s.(pingSees := true)
        else s
      case Pong =>
        if s.pongs == pongMax then s
        else if s.pongSees then s.(pong := (s.pongs + 1) % 2, pongs := s.pongs + 1, pongSees := false)
        else if s.ping == s.pongs % 2 then s.(pongSees := true)
        else s
    }

    ghost predicate IsRun(run: nat -> Flags, who: nat -> Thread, flag: nat)
    {
      run(0) == Flags(flag, flag, 0, 0, false, false) && forall n: nat :: run(n + 1) == Step(run(n), who(n))
    }

    predicate Done(s: Flags) { s.pings == pingMax && s.pongs == pongMax }

    /** Hand-offs alternate, and only the thread whose turn it is can have seen it. */
    predicate Inv(s: Flags)
    {
      && s.pings <= s.pongs <= s.pings + 1 && s.pings <= pingMax && s.pongs <= pongMax
      && s.ping == s.pings % 2 && s.pong == s.pongs % 2
      && (s.pingSees ==> s.pongs == s.pings + 1) && (s.pongSees ==> s.pongs == s.pings)
    }

    function Turn(s: Flags): Thread { if s.pings == s.pongs then Pong else Ping }

    function Left(s: Flags): nat
    {
      if Inv(s) then 2 * (pingMax - s.pings) + 2 * (pongMax - s.pongs)
                     - (if s.pingSees && s.pings < pingMax then 1 else 0)
                     - (if s.pongSees && s.pongs < pongMax then 1 else 0)
      else 0
    }

    lemma StepKeepsInv(s: Flags, t: Thread)
      requires Inv(s)
      ensures Inv(Step(s, t))
    {
    }

    /** Whatever the schedule, counts never differ by more than one. */
    lemma {:induction false} RunKeepsInv(run: nat -> Flags, who: nat -> Thread, n: nat)
      requires IsRun(run, who, 0)
      ensures Inv(run(n))
    {
      if n > 0 {
        RunKeepsInv(run, who, n - 1);
        assert run(n - 1 + 1) == Step(run(n - 1), who(n - 1));
        StepKeepsInv(run(n - 1), who(n - 1));
      }
    }

    /** The pong thread, which goes first, makes as many hand-offs as the other or one more. */
    predicate Paired() { pingMax <= pongMax <= pingMax + 1 }

    /** With such numbers of hand-offs, the thread whose turn it is can go on until both are done. */
    lemma TurnGoesOn(s: Flags, t: Thread)
      requires Inv(s) && Paired() && 0 < Left(s)
      ensures if t == Turn(s) then Left(Step(s, t)) < Left(s) else Step(s, t) == s
      ensures !Done(s)
    {
    }

    /** Otherwise one thread waits for ever for hand-offs that never come. */
    lemma NeverDone(run: nat -> Flags, who: nat -> Thread, n: nat)
      requires IsRun(run, who, 0) && !Paired()
      ensures !Done(run(n))
    {
      RunKeepsInv(run, who, n);
    }

    /** Under a fair schedule both threads finish if, and only if, their numbers of hand-offs are equal or
        the pong thread makes one more. */
    lemma FinishesIff(run: nat -> Flags, who: nat -> Thread)
      requires IsRun(run, who, 0) && Fair(who)
      ensures (exists n: nat :: Done(run(n))) <==> pingMax <= pongMax <= pingMax + 1
    {
      if Paired() {
        forall i: nat ensures TurnTaken(run, who, Left, Turn, i) {
          RunKeepsInv(run, who, i);
          assert run(i + 1) == Step(run(i), who(i));
          if 0 < Left(run(i)) { TurnGoesOn(run(i), who(i)); }
        }
        var p := FairFinishes(run, who, Left, Turn, 0);
        RunKeepsInv(run, who, p);
        assert Done(run(p));
      } else {
        forall n: nat ensures !Done(run(n)) { NeverDone(run, who, n); }
      }
    }

    /** What the flags are in the end. */
    lemma FlagsAtTheEnd(run: nat -> Flags, who: nat -> Thread, n: nat)
      requires IsRun(run, who, 0) && Done(run(n))
      ensures run(n).ping == pingMax % 2 && run(n).pong == pongMax % 2
    {
      RunKeepsInv(run, who, n);
    }

    /** A run that starts with both flags up never ends: the ping thread sees its turn once, the pong thread
        never. */
    lemma {:induction false} StuckWhenRaised(run: nat -> Flags, who: nat -> Thread, n: nat)
      requires IsRun(run, who, 1) && 0 < pongMax
      ensures run(n).pongs == 0 && run(n).pong == 1 && run(n).ping == 1 && !run(n).pongSees && run(n).pings <= 1
      ensures run(n).pings == 1 ==> !run(n).pingSees
      ensures !Done(run(n))
    {
      if n > 0 {
        StuckWhenRaised(run, who, n - 1);
        assert run(n - 1 + 1) == Step(run(n - 1), who(n - 1));
      }
    }
  }

  /** The two threads of `run`: the loops of the ping thread are nested, the pong thread's bound is one
      product of 32 bits. */
  function TwoFlags(iterations: nat, samples: nat): Two
  {
    Two(iterations * samples, iterations * samples % 0x1_0000_0000)
  }

  /** `run` comes to its end exactly when the product fits. */
  lemma RunEndsIffProductFits(iterations: nat, samples: nat, run: nat -> Flags, who: nat -> Thread)
    requires TwoFlags(iterations, samples).IsRun(run, who, 0) && Fair(who)
    ensures (exists n: nat :: TwoFlags(iterations, samples).Done(run(n))) <==> iterations * samples < 0x1_0000_0000
  {
    TwoFlags(iterations, samples).FinishesIff(run, who);
  }

  /** After a run, the next one without `init` ends exactly when the number of hand-offs was even. */
  lemma NextRunEndsIffEven(two: Two, first: nat -> Flags, who: nat -> Thread, n: nat,
                           second: nat -> Flags, then': nat -> Thread)
    requires 0 < two.pongMax == two.pingMax
    requires two.IsRun(first, who, 0) && two.Done(first(n))
    requires two.IsRun(second, then', first(n).ping) && Fair(then')
    ensures first(n).ping == first(n).pong
    ensures (exists m: nat :: two.Done(second(m))) <==> two.pingMax % 2 == 0
  {
    two.FlagsAtTheEnd(first, who, n);
    if two.pingMax % 2 == 0 {
      two.FinishesIff(second, then');
    } else {
      forall m: nat ensures !two.Done(second(m)) { two.StuckWhenRaised(second, then', m); }
    }
  }

  // ----- one flag and compare-and-swap

  /** The flag and the swaps each thread has made. */
  datatype Swap = Swap(pong: bool, pings: nat, pongs: nat)

  /** The ping thread, which goes first, makes `pingMax` swaps and the pong thread `pongMax`. */
  datatype One = One(pingMax: nat, pongMax: nat)
  {
    /** One compare-and-swap. */
    function Step(s: Swap, t: Thread): Swap
    {
      match t
      case Ping => if s.pings < pingMax && !s.pong then s.(pong := true, pings := s.pings + 1) else s
      case Pong => if s.pongs < pongMax && s.pong then s.(pong := false, pongs := s.pongs + 1) else s
    }

    ghost predicate IsRun(run: nat -> Swap, who: nat -> Thread)
    {
      run(0) == Swap(false, 0, 0) && forall n: nat :: run(n + 1) == Step(run(n), who(n))
    }

    predicate Done(s: Swap) { s.pings == pingMax && s.pongs == pongMax }

    predicate Inv(s: Swap)
    {
      s.pings == s.pongs + (if s.pong then 1 else 0) && s.pings <= pingMax && s.pongs <= pongMax
    }

    function Turn(s: Swap): Thread { if s.pong then Pong else Ping }

    function Left(s: Swap): nat
    {
      if Inv(s) then (pingMax - s.pings) + (pongMax - s.pongs) else 0
    }

    predicate Paired() { pongMax <= pingMax <= pongMax + 1 }

    lemma {:induction false} RunKeepsInv(run: nat -> Swap, who: nat -> Thread, n: nat)
      requires IsRun(run, who)
      ensures Inv(run(n))
    {
      if n > 0 {
        RunKeepsInv(run, who, n - 1);
        assert run(n - 1 + 1) == Step(run(n - 1), who(n - 1));
      }
    }

    /** Under a fair schedule both threads finish if, and only if, their numbers of swaps are equal or the
        ping thread makes one more. */
    lemma FinishesIff(run: nat -> Swap, who: nat -> Thread)
      requires IsRun(run, who) && Fair(who)
      ensures (exists n: nat :: Done(run(n))) <==> pongMax <= pingMax <= pongMax + 1
    {
      if Paired() {
        forall i: nat ensures TurnTaken(run, who, Left, Turn, i) {
          RunKeepsInv(run, who, i);
          assert run(i + 1) == Step(run(i), who(i));
        }
        var p := FairFinishes(run, who, Left, Turn, 0);
        RunKeepsInv(run, who, p);
        assert Done(run(p));
      } else {
        forall n: nat ensures !Done(run(n)) { RunKeepsInv(run, who, n); }
      }
    }

    /** What the flag is in the end: as it was at first exactly for equal numbers. */
    lemma FlagAtTheEnd(run: nat -> Swap, who: nat -> Thread, n: nat)
      requires IsRun(run, who) && Done(run(n))
      ensures run(n).pong <==> pingMax == pongMax + 1
      ensures !run(n).pong <==> pingMax == pongMax
    {
      RunKeepsInv(run, who, n);
    }
  }

  /** The two threads of `run`: the ping thread's bound is one product of `width` bits, the loops of the
      pong thread are nested. */
  function OneFlag(iterations: nat, samples: nat, width: nat): One
  {
    One(iterations * samples % Pow2(width), iterations * samples)
  }

  lemma WrapsIff(x: nat, y: nat)
    requires 0 < y
    ensures x % y <= x
    ensures x % y == x <==> x < y
  {
  }

  /** `run` comes to its end, with the flag as it was, exactly when the product fits `std::size_t`. */
  lemma SwapRunEndsIffProductFits(iterations: nat, samples: nat, width: nat, run: nat -> Swap, who: nat -> Thread)
    requires OneFlag(iterations, samples, width).IsRun(run, who) && Fair(who)
    ensures (exists n: nat :: OneFlag(iterations, samples, width).Done(run(n)))
       <==> iterations * samples < Pow2(width)
    ensures forall n: nat :: OneFlag(iterations, samples, width).Done(run(n)) ==> !run(n).pong
  {
    var one := OneFlag(iterations, samples, width);
    WrapsIff(iterations * samples, Pow2(width));
    one.FinishesIff(run, who);
    forall n: nat | one.Done(run(n)) ensures !run(n).pong { one.FlagAtTheEnd(run, who, n); }
  }
}
