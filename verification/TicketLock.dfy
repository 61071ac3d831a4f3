/** The ticket lock: one 32-bit word, the ticket being served in its low half and the next
    ticket to hand out in its high half, changed by atomic steps of any number of threads. */
module TicketLock {

  const HALF := 0x1_0000
  const WORD := 0x1_0000_0000
  const NEXT_LSB := HALF

  function Owner(raw: nat): nat
  {
    raw % HALF
  }

  function Next(raw: nat): nat
  {
    raw / HALF
  }

  /** The word rotated by half its width, as `try_lock` compares it with itself. */
  function Rotated(raw: nat): nat
    requires raw < WORD
  {
    Owner(raw) * HALF + Next(raw)
  }

  datatype Thread = Idle | Waiting(ticket: nat) | Holding(ticket: nat)

  /** Bookkeeping that no step looks at: tickets and unlocks counted without wrapping, the
      unwrapped ticket of each thread, who took each ticket, and the tickets that went to
      nobody. */
  datatype History = History(
    issued: nat, unlocked: nat, tickets: seq<nat>, takers: map<nat, nat>, lost: seq<nat>)

  datatype State = State(raw: nat, threads: seq<Thread>, h: History)

  datatype Step = Lock(t: nat) | TryLock(t: nat) | Spin(t: nat) | Unlock(t: nat)

  function Init(n: nat): State
  {
    State(0, seq(n, _ => Idle), History(0, 0, seq(n, _ => 0), map[], []))
  }

  predicate Shape(s: State)
  {
    s.raw < WORD && |s.h.tickets| == |s.threads|
  }

  predicate Enabled(s: State, step: Step)
    requires Shape(s)
  {
    step.t < |s.threads| &&
    match step
    case Lock(t) => s.threads[t] == Idle
    case TryLock(t) => s.threads[t] == Idle
    case Spin(t) => s.threads[t].Waiting?
    case Unlock(t) => s.threads[t].Holding?
  }

  /** Takes the next ticket; a ticket that is being served already needs no waiting. */
  function TakeTicket(s: State, t: nat): State
    requires Shape(s) && t < |s.threads|
  {
    var ticket := Next(s.raw);
    State(
      (s.raw + NEXT_LSB) % WORD,
      s.threads[t := if Owner(s.raw) == ticket then Holding(ticket) else Waiting(ticket)],
      s.h.(issued := s.h.issued + 1,
           tickets := s.h.tickets[t := s.h.issued],
           takers := s.h.takers[s.h.issued := t]))
  }

  function Apply(s: State, step: Step): State
    requires Shape(s) && Enabled(s, step)
  {
    match step
    case Lock(t) => TakeTicket(s, t)
    case TryLock(t) => if s.raw == Rotated(s.raw) then TakeTicket(s, t) else s
    case Spin(t) =>
      var ticket := s.threads[t].ticket;
      if Owner(s.raw) == ticket then s.(threads := s.threads[t := Holding(ticket)]) else s
    case Unlock(t) =>
      // One is added to the whole word: past the last ticket it carries into the next one
      // to hand out, which nobody has taken.
      var carries := Owner(s.raw) == HALF - 1;
      State(
        (s.raw + 1) % WORD,
        s.threads[t := Idle],
        s.h.(unlocked := s.h.unlocked + 1,
             issued := if carries then s.h.issued + 1 else s.h.issued,
             lost := if carries then s.h.lost + [s.h.issued] else s.h.lost))
  }

  // ----- Words -----------------------------------------------------------------------

  lemma WordParts(raw: nat)
    requires raw < WORD
    ensures raw == Owner(raw) + HALF * Next(raw) && Next(raw) < HALF
    ensures raw == Rotated(raw) <==> Owner(raw) == Next(raw)
  {
  }

  lemma AddTicket(raw: nat)
    requires raw < WORD
    ensures Owner((raw + NEXT_LSB) % WORD) == Owner(raw)
    ensures Next((raw + NEXT_LSB) % WORD) == (Next(raw) + 1) % HALF
  {
  }

  lemma AddOne(raw: nat)
    requires raw < WORD
    ensures Owner((raw + 1) % WORD) == (Owner(raw) + 1) % HALF
    ensures Next((raw + 1) % WORD) == (if Owner(raw) == HALF - 1 then Next(raw) + 1 else Next(raw)) % HALF
  {
    var next, owner := raw / HALF, raw % HALF;
    assert raw == HALF * next + owner && next < HALF;
    if owner < HALF - 1 {
      Halves(next, owner + 1);
    } else if next < HALF - 1 {
      Halves(next + 1, 0);
    } else {
      Halves(0, 0);
      assert raw + 1 == WORD;
    }
  }

  lemma Halves(next: nat, owner: nat)
    requires next < HALF && owner < HALF
    ensures var raw := HALF * next + owner;
            raw < WORD && Owner(raw) == owner && Next(raw) == next
  {
  }

  lemma NextMod(n: nat)
    ensures (n + 1) % HALF == (n % HALF + 1) % HALF
  {
  }

  lemma SameTicket(a: nat, b: nat)
    requires a <= b < a + HALF
    ensures a % HALF == b % HALF <==> a == b
  {
  }

  // ----- Invariant -------------------------------------------------------------------

  predicate Live(s: State, t: int)
  {
    0 <= t < |s.threads| && s.threads[t] != Idle
  }

  function Count(threads: seq<Thread>): nat
  {
    if |threads| == 0 then 0 else (if threads[0] == Idle then 0 else 1) + Count(threads[1..])
  }

  lemma {:induction false} CountBound(threads: seq<Thread>)
    ensures Count(threads) <= |threads|
  {
    if |threads| > 0 {
      CountBound(threads[1..]);
    }
  }

  lemma {:induction false} CountUpdate(threads: seq<Thread>, t: nat, x: Thread)
    requires t < |threads|
    ensures Count(threads[t := x])
            == Count(threads) - (if threads[t] == Idle then 0 else 1) + (if x == Idle then 0 else 1)
    decreases |threads|
  {
    var threads' := threads[t := x];
    if t == 0 {
      assert threads'[1..] == threads[1..];
    } else {
      CountUpdate(threads[1..], t - 1, x);
      assert threads'[1..] == threads[1..][t - 1 := x];
    }
  }

  lemma {:induction false} CountIdle(n: nat)
    ensures Count(seq(n, _ => Idle)) == 0
  {
    if n > 0 {
      CountIdle(n - 1);
      assert seq(n, _ => Idle)[1..] == seq(n - 1, _ => Idle);
    }
  }

  ghost predicate Tickets(s: State)
    requires Shape(s)
  {
    var h := s.h;
    && (forall t :: Live(s, t) ==>
          && h.unlocked <= h.tickets[t] < h.issued
          && h.tickets[t] !in h.lost
          && s.threads[t].ticket == h.tickets[t] % HALF)
    && (forall t, u :: Live(s, t) && Live(s, u) && t != u ==> h.tickets[t] != h.tickets[u])
    && (forall t :: Live(s, t) && s.threads[t].Holding? ==> h.tickets[t] == h.unlocked)
    && (forall k: nat :: h.unlocked <= k < h.issued && k !in h.lost ==>
          k in h.takers && Live(s, h.takers[k]) && h.tickets[h.takers[k]] == k)
  }

  /** At most one ticket is ever lost, and the turn cannot pass it. */
  ghost predicate LostTicket(h: History)
  {
    && |h.lost| <= 1
    && (h.lost == [] ==> h.unlocked < HALF)
    && (|h.lost| == 1 ==>
          h.unlocked <= h.lost[0] < h.issued && HALF <= h.unlocked && h.lost[0] < 2 * HALF - 1)
  }

  ghost predicate Inv(s: State)
  {
    && Shape(s) && |s.threads| < HALF - 1
    && Owner(s.raw) == s.h.unlocked % HALF && Next(s.raw) == s.h.issued % HALF
    && s.h.issued - s.h.unlocked == Count(s.threads) + |s.h.lost|
    && Tickets(s)
    && LostTicket(s.h)
  }

  lemma InitInv(n: nat)
    requires n < HALF - 1
    ensures Inv(Init(n))
  {
    CountIdle(n);
  }

  /** With room for every thread, equal halves mean that every ticket has been served. */
  lemma Distance(s: State)
    requires Inv(s)
    ensures s.h.unlocked <= s.h.issued < s.h.unlocked + HALF
    ensures Owner(s.raw) == Next(s.raw) <==> s.h.issued == s.h.unlocked
    ensures forall t :: Live(s, t) ==> (Owner(s.raw) == s.threads[t].ticket <==> s.h.tickets[t] == s.h.unlocked)
  {
    CountBound(s.threads);
    SameTicket(s.h.unlocked, s.h.issued);
    forall t | Live(s, t)
      ensures Owner(s.raw) == s.threads[t].ticket <==> s.h.tickets[t] == s.h.unlocked
    {
      SameTicket(s.h.unlocked, s.h.tickets[t]);
    }
  }

  lemma TakeKeeps(s: State, t: nat)
    requires Inv(s) && t < |s.threads| && s.threads[t] == Idle
    ensures Inv(TakeTicket(s, t))
  {
    var s' := TakeTicket(s, t);
    Distance(s);
    LostBefore(s.h);
    hide Owner, Next, Count, Tickets;
    WordParts(s.raw);
    AddTicket(s.raw);
    NextMod(s.h.issued);
    CountUpdate(s.threads, t, s'.threads[t]);
    TakeTickets(s, t);
    TakeKeepsLost(s.h, s'.h);
    hide LostTicket;
  }

  lemma LostBefore(h: History)
    requires LostTicket(h)
    ensures forall x :: x in h.lost ==> x < h.issued
  {
    assert h.lost == [] || h.lost == [h.lost[0]];
  }

  lemma TakeKeepsLost(h: History, h': History)
    requires LostTicket(h) && h'.lost == h.lost && h'.unlocked == h.unlocked && h'.issued == h.issued + 1
    ensures LostTicket(h')
  {
  }

  lemma TakeTickets(s: State, t: nat)
    requires Shape(s) && Tickets(s) && t < |s.threads| && s.threads[t] == Idle
    requires Next(s.raw) == s.h.issued % HALF && s.h.unlocked <= s.h.issued
    requires Owner(s.raw) == Next(s.raw) ==> s.h.issued == s.h.unlocked
    requires forall x :: x in s.h.lost ==> x < s.h.issued
    ensures Shape(TakeTicket(s, t)) && Tickets(TakeTicket(s, t))
  {
    hide Owner, Next;
    var s' := TakeTicket(s, t);
    var h, h' := s.h, s'.h;
    assert forall u :: Live(s', u) && u != t ==> Live(s, u) && h'.tickets[u] == h.tickets[u];
    assert forall u :: Live(s, u) ==> Live(s', u) && u != t;
    assert h'.tickets[t] == h.issued;
    forall k: nat | h'.unlocked <= k < h'.issued && k !in h'.lost
      ensures k in h'.takers && Live(s', h'.takers[k]) && h'.tickets[h'.takers[k]] == k
    {
      if k != h.issued {
        assert k in h.takers && Live(s, h.takers[k]);
      }
    }
  }

  lemma SpinKeeps(s: State, t: nat)
    requires Inv(s) && Enabled(s, Spin(t))
    ensures Inv(Apply(s, Spin(t)))
  {
    hide Owner, Next, Count;
    var s' := Apply(s, Spin(t));
    Distance(s);
    CountUpdate(s.threads, t, Holding(s.threads[t].ticket));
    assert Live(s, t);
    assert forall u :: Live(s', u) <==> Live(s, u);
  }

  lemma UnlockKeeps(s: State, t: nat)
    requires Inv(s) && Enabled(s, Unlock(t))
    ensures Inv(Apply(s, Unlock(t)))
  {
    UnlockCounts(s, t);
    UnlockLost(s, t);
    assert forall x :: x in s.h.lost ==> x < s.h.issued;
    UnlockTickets(s, t);
    hide Owner, Next, Count, Tickets, LostTicket, Apply;
  }

  lemma UnlockCounts(s: State, t: nat)
    requires Inv(s) && Enabled(s, Unlock(t))
    ensures var s' := Apply(s, Unlock(t));
            && Shape(s') && |s'.threads| == |s.threads|
            && Owner(s'.raw) == s'.h.unlocked % HALF && Next(s'.raw) == s'.h.issued % HALF
            && s'.h.issued - s'.h.unlocked == Count(s'.threads) + |s'.h.lost|
  {
    hide Owner, Next, Count, Tickets, LostTicket;
    WordParts(s.raw);
    AddOne(s.raw);
    NextMod(s.h.unlocked);
    NextMod(s.h.issued);
    CountUpdate(s.threads, t, Idle);
  }

  lemma UnlockLost(s: State, t: nat)
    requires Inv(s) && Enabled(s, Unlock(t))
    ensures LostTicket(Apply(s, Unlock(t)).h)
  {
    HolderIsServed(s, t);
    hide Owner, Next, Count, Tickets, LostTicket;
    CountBound(s.threads);
    LostKeeps(s.h, Apply(s, Unlock(t)).h, |s.threads|);
  }

  lemma HolderIsServed(s: State, t: nat)
    requires Shape(s) && Tickets(s) && t < |s.threads| && s.threads[t].Holding?
    ensures s.h.unlocked < s.h.issued && s.h.unlocked !in s.h.lost
  {
    assert Live(s, t);
  }

  lemma UnlockTickets(s: State, t: nat)
    requires Shape(s) && Tickets(s) && t < |s.threads| && s.threads[t].Holding?
    requires forall x :: x in s.h.lost ==> x < s.h.issued
    ensures var s' := Apply(s, Unlock(t)); Shape(s') && Tickets(s')
  {
    hide Owner, Next, Count, Inv, LostTicket;
    var s' := Apply(s, Unlock(t));
    assert Live(s, t);
    assert s'.h.tickets == s.h.tickets && s'.threads == s.threads[t := Idle];
    assert forall x :: x in s'.h.lost ==> x in s.h.lost || x == s.h.issued;
    assert s'.h.unlocked == s.h.unlocked + 1 && s.h.issued <= s'.h.issued && s'.h.takers == s.h.takers;
    assert forall k: nat :: s.h.issued <= k < s'.h.issued ==> k in s'.h.lost;
    assert forall x :: x in s.h.lost ==> x in s'.h.lost;
    hide Apply;
    assert forall u :: Live(s', u) <==> Live(s, u) && u != t;
    assert forall u :: Live(s', u) ==> s.h.tickets[u] != s.h.tickets[t];
  }

  lemma LostKeeps(h: History, h': History, n: nat)
    requires LostTicket(h) && n < HALF - 1
    requires h.unlocked !in h.lost && h.unlocked < h.issued <= h.unlocked + n + |h.lost|
    requires var carries := h.unlocked % HALF == HALF - 1;
             && h'.unlocked == h.unlocked + 1
             && h'.issued == (if carries then h.issued + 1 else h.issued)
             && h'.lost == (if carries then h.lost + [h.issued] else h.lost)
    ensures LostTicket(h')
  {
    if h.lost == [] {
      if h.unlocked == HALF - 1 {
        assert h.unlocked % HALF == HALF - 1;
        assert h'.lost == [h.issued];
      } else {
        assert h.unlocked % HALF != HALF - 1;
      }
    } else {
      assert h.lost[0] in h.lost;
      assert HALF <= h.unlocked < 2 * HALF - 1;
      assert h.unlocked % HALF == h.unlocked - HALF;
    }
  }

  lemma StepKeeps(s: State, step: Step)
    requires Inv(s) && Enabled(s, step)
    ensures Inv(Apply(s, step))
  {
    hide Inv, Owner, Next;
    match step {
      case Lock(t) => TakeKeeps(s, t);
      case TryLock(t) => TakeKeeps(s, t);
      case Spin(t) => SpinKeeps(s, t);
      case Unlock(t) => UnlockKeeps(s, t);
    }
  }

  // ----- Runs ------------------------------------------------------------------------

  ghost predicate Run(n: nat, states: seq<State>, steps: seq<Step>)
  {
    && |states| == |steps| + 1
    && states[0] == Init(n)
    && forall i :: 0 <= i < |steps| ==>
         Shape(states[i]) && Enabled(states[i], steps[i]) && states[i + 1] == Apply(states[i], steps[i])
  }

  lemma {:induction false} RunKeeps(n: nat, states: seq<State>, steps: seq<Step>, i: nat)
    requires n < HALF - 1 && Run(n, states, steps) && i < |states|
    ensures Inv(states[i])
  {
    if i == 0 {
      InitInv(n);
    } else {
      RunKeeps(n, states, steps, i - 1);
      hide Inv, Apply, Enabled;
      assert states[i - 1 + 1] == Apply(states[i - 1], steps[i - 1]);
      StepKeeps(states[i - 1], steps[i - 1]);
    }
  }

  /** In every state of every run with fewer than 65535 threads, however often the ticket
      numbers have wrapped: at most one thread holds the lock, and the one that does took its
      ticket before every other thread that holds or waits. */
  lemma MutualExclusionInOrder(n: nat, states: seq<State>, steps: seq<Step>, i: nat)
    requires n < HALF - 1 && Run(n, states, steps) && i < |states|
    ensures var s := states[i];
            Shape(s) &&
            forall t, u :: Live(s, t) && s.threads[t].Holding? && Live(s, u) && t != u ==>
              !s.threads[u].Holding? && s.h.tickets[t] < s.h.tickets[u]
  {
    RunKeeps(n, states, steps, i);
  }

  /** Someone's turn: until 65536 unlocks have happened, whenever the two halves of the word
      differ the ticket being served is that of a thread that holds, or that waits and holds
      when it next looks; no other thread that waits gets the lock by looking. */
  lemma TurnBelongsToSomeone(n: nat, states: seq<State>, steps: seq<Step>, i: nat) returns (t: nat)
    requires n < HALF - 1 && Run(n, states, steps) && i < |states|
    requires states[i].h.unlocked < HALF && Owner(states[i].raw) != Next(states[i].raw)
    ensures var s := states[i];
            && Shape(s) && Live(s, t) && s.threads[t].ticket == Owner(s.raw)
            && (s.threads[t].Waiting? ==> Apply(s, Spin(t)).threads[t].Holding?)
            && forall u :: Live(s, u) && u != t && s.threads[u].Waiting? ==> !Apply(s, Spin(u)).threads[u].Holding?
  {
    RunKeeps(n, states, steps, i);
    var s := states[i];
    Distance(s);
    assert s.h.lost == [];
    t := TurnOf(s);
    hide Owner, Next, Count;
    forall u | Live(s, u) && s.threads[u].Waiting?
      ensures Apply(s, Spin(u)).threads[u].Holding? <==> u == t
    {
      InvGetsLockIff(s, u);
    }
  }

  /** Who took the ticket that is being served. */
  lemma TurnOf(s: State) returns (t: nat)
    requires Inv(s) && s.h.unlocked < s.h.issued && s.h.unlocked !in s.h.lost
    ensures Live(s, t) && s.h.tickets[t] == s.h.unlocked && s.threads[t].ticket == Owner(s.raw)
  {
    t := s.h.takers[s.h.unlocked];
    assert Live(s, t);
  }

  // ----- Who gets the lock -----------------------------------------------------------

  /** No thread holds or waits. */
  predicate AllIdle(s: State)
  {
    forall t :: 0 <= t < |s.threads| ==> s.threads[t] == Idle
  }

  lemma {:induction false} CountZero(threads: seq<Thread>)
    ensures Count(threads) == 0 <==> forall t :: 0 <= t < |threads| ==> threads[t] == Idle
  {
    if |threads| > 0 {
      CountZero(threads[1..]);
      assert forall t :: 0 <= t < |threads| - 1 ==> threads[1..][t] == threads[t + 1];
      assert forall t :: 0 < t < |threads| ==> threads[t] == threads[1..][t - 1];
    }
  }

  /** Nobody else is affected by what a thread does, and only an unlock serves another ticket. */
  predicate LeavesOthers(s: State, s': State, t: nat)
  {
    |s'.threads| == |s.threads| && forall u :: 0 <= u < |s.threads| && u != t ==> s'.threads[u] == s.threads[u]
  }

  /** In every state of every run, by the tickets as they were counted: a waiting thread that
      looks at the lock gets it if and only if as many unlocks have happened as tickets were
      taken before its own; one that tries gets it if and only if nobody holds or waits and no
      ticket has been lost; and one that asks gets it at once under the same condition and
      waits otherwise, behind all the others. */
  lemma GetsLockIff(n: nat, states: seq<State>, steps: seq<Step>, i: nat, t: nat)
    requires n < HALF - 1 && Run(n, states, steps) && i < |states| && t < |states[i].threads|
    ensures var s := states[i];
            && Shape(s)
            && (s.threads[t].Waiting? ==>
                  var s' := Apply(s, Spin(t));
                  && LeavesOthers(s, s', t) && s'.raw == s.raw && s'.h == s.h
                  && (s'.threads[t].Holding? <==> s.h.tickets[t] == s.h.unlocked)
                  && (s'.threads[t].Holding? || s' == s))
            && (s.threads[t] == Idle ==>
                  var (tried, asked) := (Apply(s, TryLock(t)), Apply(s, Lock(t)));
                  var free := AllIdle(s) && s.h.unlocked < HALF;
                  && LeavesOthers(s, asked, t)
                  && (asked.threads[t].Holding? <==> free) && asked.threads[t] != Idle
                  && (forall u :: Live(s, u) ==> asked.h.tickets[u] < asked.h.tickets[t])
                  && tried == (if free then asked else s))
  {
    RunKeeps(n, states, steps, i);
    LostAfterCarry(n, states, steps, i);
    InvGetsLockIff(states[i], t);
  }

  lemma InvGetsLockIff(s: State, t: nat)
    requires Inv(s) && t < |s.threads|
    ensures s.threads[t].Waiting? ==>
              var s' := Apply(s, Spin(t));
              && LeavesOthers(s, s', t) && s'.raw == s.raw && s'.h == s.h
              && (s'.threads[t].Holding? <==> s.h.tickets[t] == s.h.unlocked)
              && (s'.threads[t].Holding? || s' == s)
    ensures s.threads[t] == Idle ==>
              var (tried, asked) := (Apply(s, TryLock(t)), Apply(s, Lock(t)));
              var free := AllIdle(s) && s.h.lost == [];
              && LeavesOthers(s, asked, t)
              && (asked.threads[t].Holding? <==> free) && asked.threads[t] != Idle
              && (forall u :: Live(s, u) ==> asked.h.tickets[u] < asked.h.tickets[t])
              && tried == (if free then asked else s)
  {
    hide Owner, Next, Count, LostTicket;
    Distance(s);
    WordParts(s.raw);
    CountZero(s.threads);
    assert Live(s, t) <==> s.threads[t] != Idle;
  }

  /** The run goes on to a state in which the thread holds the lock with the ticket it has. */
  ghost predicate GoesIn(
      n: nat, states: seq<State>, steps: seq<Step>, t: nat, states': seq<State>, steps': seq<Step>)
    requires Run(n, states, steps)
  {
    && Run(n, states', steps') && steps <= steps' && states <= states'
    && var (s, s') := (states[|steps|], states'[|steps'|]);
       && t < |s.threads| == |s'.threads| && Shape(s) && Shape(s')
       && s'.threads[t].Holding? && s'.h.tickets[t] == s.h.tickets[t]
  }

  lemma GoesInLater(
      n: nat, states: seq<State>, steps: seq<Step>, step: Step, t: nat, states': seq<State>, steps': seq<Step>)
    requires Run(n, states, steps) && Shape(states[|steps|]) && Enabled(states[|steps|], step)
    requires Run(n, states + [Apply(states[|steps|], step)], steps + [step])
    requires GoesIn(n, states + [Apply(states[|steps|], step)], steps + [step], t, states', steps')
    requires var (s, s') := (states[|steps|], Apply(states[|steps|], step));
             t < |s.threads| == |s'.threads| && Shape(s') && s'.h.tickets[t] == s.h.tickets[t]
    ensures GoesIn(n, states, steps, t, states', steps')
  {
    var states1, steps1 := states + [Apply(states[|steps|], step)], steps + [step];
    assert states1[|steps1|] == Apply(states[|steps|], step);
    hide Apply, Run, Enabled, Shape;
    assert states <= states1 <= states' && steps <= steps1 <= steps';
  }

  /** What a turn's spin and unlock do to another thread that waits. */
  lemma SpinServes(s: State, u: nat, t: nat)
    requires Inv(s) && u < |s.threads| && s.threads[u].Waiting? && s.h.tickets[u] == s.h.unlocked && t < |s.threads|
    ensures var s' := Apply(s, Spin(u));
            && |s'.threads| == |s.threads| && s'.h == s.h && s'.threads[u].Holding?
            && (t != u ==> s'.threads[t] == s.threads[t])
  {
    InvGetsLockIff(s, u);
    hide Inv, Apply;
  }

  lemma UnlockServes(s: State, u: nat, t: nat)
    requires Inv(s) && u < |s.threads| && s.threads[u].Holding? && t < |s.threads| && t != u
    ensures var s' := Apply(s, Unlock(u));
            && |s'.threads| == |s.threads| && s'.h.tickets == s.h.tickets && s'.threads[t] == s.threads[t]
            && s'.h.unlocked == s.h.unlocked + 1 && forall x :: x in s'.h.lost ==> x in s.h.lost || x == s.h.issued
  {
  }

  predicate BeforeLost(h: History, ticket: nat)
  {
    forall x :: x in h.lost ==> ticket < x
  }

  predicate SomeoneHolds(s: State)
  {
    exists u :: 0 <= u < |s.threads| && s.threads[u].Holding?
  }

  /** The next thing to happen on the way of a thread that waits: whoever's turn it is takes the
      lock or gives it back. */
  lemma TurnMoves(s: State, t: nat) returns (step: Step)
    requires Inv(s) && Live(s, t) && s.threads[t].Waiting? && BeforeLost(s.h, s.h.tickets[t])
    ensures Enabled(s, step) && Inv(Apply(s, step))
    ensures var s' := Apply(s, step);
            && Live(s', t) && |s'.threads| == |s.threads| && s'.h.tickets[t] == s.h.tickets[t]
            && BeforeLost(s'.h, s'.h.tickets[t])
            && ((s'.h.unlocked == s.h.unlocked && !SomeoneHolds(s) && SomeoneHolds(s')) || s'.h.unlocked == s.h.unlocked + 1)
  {
    TurnIsThere(s, t);
    hide Inv, Apply;
    var u := TurnOf(s);
    step := if s.threads[u].Waiting? then Spin(u) else Unlock(u);
    StepKeeps(s, step);
    if s.threads[u].Waiting? {
      NobodyHolds(s, u);
      SpinServes(s, u, t);
      assert Apply(s, step).threads[u].Holding?;
    } else {
      UnlockServes(s, u, t);
    }
  }

  lemma TurnIsThere(s: State, t: nat)
    requires Inv(s) && Live(s, t) && BeforeLost(s.h, s.h.tickets[t])
    ensures Shape(s) && s.h.unlocked <= s.h.tickets[t] < s.h.issued && s.h.unlocked !in s.h.lost
  {
  }

  lemma NobodyHolds(s: State, u: nat)
    requires Inv(s) && Live(s, u) && s.threads[u].Waiting? && s.h.tickets[u] == s.h.unlocked
    ensures !SomeoneHolds(s)
  {
    hide Owner, Next, Count, LostTicket;
    assert forall v :: 0 <= v < |s.threads| && s.threads[v].Holding? ==> Live(s, v);
  }

  /** A thread whose ticket was taken before any was lost gets in: the turns before its own
      only have to be taken and given back. */
  lemma {:induction false} WaiterGetsIn(n: nat, states: seq<State>, steps: seq<Step>, t: nat)
    returns (states': seq<State>, steps': seq<Step>)
    requires n < HALF - 1 && Run(n, states, steps) && Inv(states[|steps|]) && Live(states[|steps|], t)
    requires BeforeLost(states[|steps|].h, states[|steps|].h.tickets[t])
    ensures GoesIn(n, states, steps, t, states', steps')
    decreases states[|steps|].h.tickets[t] - states[|steps|].h.unlocked, if SomeoneHolds(states[|steps|]) then 0 else 1
  {
    var s := states[|steps|];
    if s.threads[t].Holding? {
      states', steps' := states, steps;
    } else {
      var step := TurnMoves(s, t);
      var next := Apply(s, step);
      TicketsAhead(next, t);
      RunExtends(n, states, steps, step);
      assert Shape(s) && Shape(next);
      hide Inv, Apply, Run, Enabled, GoesIn, BeforeLost, SomeoneHolds, Shape;
      states', steps' := WaiterGetsIn(n, states + [next], steps + [step], t);
      GoesInLater(n, states, steps, step, t, states', steps');
    }
  }

  lemma TicketsAhead(s: State, t: nat)
    requires Inv(s) && Live(s, t)
    ensures s.h.unlocked <= s.h.tickets[t]
  {
  }

  lemma {:induction false} LostStays(n: nat, states: seq<State>, steps: seq<Step>, i: nat, j: nat)
    requires n < HALF - 1 && Run(n, states, steps) && i <= j < |states|
    ensures states[i].h.lost <= states[j].h.lost
  {
    if i < j {
      LostStays(n, states, steps, i, j - 1);
      assert states[j - 1 + 1] == Apply(states[j - 1], steps[j - 1]);
      hide Run, Owner, Next;
    }
  }

  lemma NotAfterLost(n: nat, states: seq<State>, steps: seq<Step>, i: nat, t: nat)
    requires n < HALF - 1 && Run(n, states, steps) && i < |states|
    requires Inv(states[i]) && Live(states[i], t) && Inv(states[|steps|]) && t < |states[|steps|].threads|
    requires states[|steps|].threads[t].Holding? && states[|steps|].h.tickets[t] == states[i].h.tickets[t]
    ensures BeforeLost(states[i].h, states[i].h.tickets[t])
  {
    LostStays(n, states, steps, i, |steps|);
    var s, s' := states[i], states[|steps|];
    hide Run, Owner, Next, Count;
    assert Live(s', t);
    assert s.h.tickets[t] !in s.h.lost;
    assert |s.h.lost| == 1 ==> s'.h.lost[0] == s.h.lost[0];
  }

  /** After 65536 unlocks a thread can still come to hold the lock with the ticket it has if and
      only if it took that ticket before one was lost. */
  lemma GetsInIff(n: nat, states: seq<State>, steps: seq<Step>, t: nat)
    requires n < HALF - 1 && Run(n, states, steps) && Live(states[|steps|], t)
    ensures Shape(states[|steps|])
    ensures (exists states': seq<State>, steps': seq<Step> :: GoesIn(n, states, steps, t, states', steps'))
            <==> BeforeLost(states[|steps|].h, states[|steps|].h.tickets[t])
  {
    RunKeeps(n, states, steps, |steps|);
    assert Shape(states[|steps|]);
    hide Inv, BeforeLost, Live;
    if BeforeLost(states[|steps|].h, states[|steps|].h.tickets[t]) {
      var states', steps' := WaiterGetsIn(n, states, steps, t);
    }
    if states': seq<State>, steps': seq<Step> :| GoesIn(n, states, steps, t, states', steps') {
      RunKeeps(n, states', steps', |steps'|);
      NotAfterLost(n, states', steps', |steps|, t);
    }
  }

  // ----- The carry -------------------------------------------------------------------

  /** The turn of the ticket that went to nobody. */
  ghost predicate Stuck(s: State)
  {
    Inv(s) && |s.h.lost| == 1 && s.h.unlocked == s.h.lost[0]
  }

  /** From then on nobody holds the lock and nobody ever will. */
  lemma StuckForEver(s: State, step: Step)
    requires Stuck(s) && Enabled(s, step)
    ensures Stuck(Apply(s, step))
    ensures forall t :: Live(s, t) ==> !s.threads[t].Holding?
  {
    StepKeeps(s, step);
    hide Owner, Next, Count, TakeTicket;
    assert s.h.lost[0] in s.h.lost;
    forall t | Live(s, t)
      ensures !s.threads[t].Holding?
    {
      assert s.h.tickets[t] !in s.h.lost;
    }
    assert Live(s, step.t) ==> !s.threads[step.t].Holding?;
    match step {
      case Lock(t) => TakeLosesNothing(s, t);
      case TryLock(t) => TakeLosesNothing(s, t);
      case Spin(t) =>
      case Unlock(t) =>
    }
  }

  lemma TakeLosesNothing(s: State, t: nat)
    requires Shape(s) && t < |s.threads|
    ensures TakeTicket(s, t).h.lost == s.h.lost && TakeTicket(s, t).h.unlocked == s.h.unlocked
  {
  }

  /** Once 65536 unlocks have happened a ticket is lost; the lock works on only until that
      ticket's turn, which comes before the count of unlocks reaches 131071. */
  lemma LostAfterCarry(n: nat, states: seq<State>, steps: seq<Step>, i: nat)
    requires n < HALF - 1 && Run(n, states, steps) && i < |states|
    ensures var h := states[i].h;
            && (h.unlocked < HALF <==> h.lost == [])
            && (h.unlocked >= HALF ==> |h.lost| == 1 && h.unlocked <= h.lost[0] < 2 * HALF - 1)
  {
    RunKeeps(n, states, steps, i);
  }

  function OneTaker(k: nat): map<nat, nat>
  {
    if k == 0 then map[] else OneTaker(k - 1)[k - 1 := 0]
  }

  /** One thread alone, after locking and unlocking `k` times. */
  function Alone(k: nat): State
    requires k <= HALF
  {
    State(
      if k == HALF then HALF else k + HALF * k,
      [Idle],
      History(
        if k == HALF then HALF + 1 else k, k,
        [if k == 0 then 0 else k - 1],
        OneTaker(k),
        if k == HALF then [HALF] else []))
  }

  lemma AloneStep(k: nat)
    requires k < HALF
    ensures Shape(Alone(k)) && Enabled(Alone(k), Lock(0))
    ensures var held := Apply(Alone(k), Lock(0));
            Shape(held) && Enabled(held, Unlock(0)) && Apply(held, Unlock(0)) == Alone(k + 1)
  {
    AloneTakes(k);
    AloneGivesBack(k);
    hide Apply, Alone;
  }

  /** The same while it holds the lock. */
  function AloneHolding(k: nat): State
    requires k < HALF
  {
    State(
      if k == HALF - 1 then k else k + HALF * (k + 1),
      [Holding(k)],
      History(k + 1, k, [k], OneTaker(k + 1), []))
  }

  lemma AloneTakes(k: nat)
    requires k < HALF
    ensures Shape(Alone(k)) && Enabled(Alone(k), Lock(0)) && Apply(Alone(k), Lock(0)) == AloneHolding(k)
  {
    var s := Alone(k);
    Halves(k, k);
    assert s.raw == HALF * k + k && s.h.tickets[0 := k] == [k] && s.threads[0 := Holding(k)] == [Holding(k)];
    hide OneTaker;
    assert OneTaker(k + 1) == OneTaker(k)[k := 0] by { TakerNext(k); }
  }

  lemma TakerNext(k: nat)
    ensures OneTaker(k + 1) == OneTaker(k)[k := 0]
  {
  }

  lemma AloneGivesBack(k: nat)
    requires k < HALF
    ensures Shape(AloneHolding(k)) && Enabled(AloneHolding(k), Unlock(0))
    ensures Apply(AloneHolding(k), Unlock(0)) == Alone(k + 1)
  {
    var held := AloneHolding(k);
    Halves(if k == HALF - 1 then 0 else k + 1, k);
    hide OneTaker;
    assert held.threads[0 := Idle] == [Idle];
  }

  /** So a single thread that takes and releases the lock 65536 times can never take it
      again. */
  lemma AloneGetsStuck()
    ensures Stuck(Alone(HALF))
  {
    assert Count([Idle]) == 0;
  }

  lemma AloneBegins()
    ensures Init(1) == Alone(0)
  {
    assert Init(1).threads == [Idle] && Init(1).h.tickets == [0];
  }

  /** And that state is reached. */
  lemma {:induction false} AloneRuns(k: nat) returns (states: seq<State>, steps: seq<Step>)
    requires k <= HALF
    ensures Run(1, states, steps) && states[|steps|] == Alone(k) && |steps| == 2 * k
  {
    hide Apply, Alone, Init, Shape, Enabled;
    if k == 0 {
      AloneBegins();
      states, steps := [Init(1)], [];
    } else {
      states, steps := AloneRuns(k - 1);
      AloneStep(k - 1);
      var held := Apply(Alone(k - 1), Lock(0));
      RunExtends(1, states, steps, Lock(0));
      RunExtends(1, states + [held], steps + [Lock(0)], Unlock(0));
      states, steps := states + [held] + [Alone(k)], steps + [Lock(0)] + [Unlock(0)];
    }
  }

  lemma RunExtends(n: nat, states: seq<State>, steps: seq<Step>, step: Step)
    requires Run(n, states, steps) && Shape(states[|steps|]) && Enabled(states[|steps|], step)
    ensures Run(n, states + [Apply(states[|steps|], step)], steps + [step])
  {
    hide Apply, Enabled, Shape;
    var states', steps' := states + [Apply(states[|steps|], step)], steps + [step];
    forall i | 0 <= i < |steps'|
      ensures Shape(states'[i]) && Enabled(states'[i], steps'[i]) && states'[i + 1] == Apply(states'[i], steps'[i])
    {
      if i < |steps| {
        assert states'[i] == states[i] && states'[i + 1] == states[i + 1] && steps'[i] == steps[i];
      }
    }
  }
}
