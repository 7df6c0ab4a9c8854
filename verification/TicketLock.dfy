/** spinlocks.asm: the ticket lock as a transition system.  Every CPU runs acquire, its critical
    section and release over and over; one step is one instruction that touches shared memory or
    RFLAGS.  A schedule is the sequence of CPUs that take the next step. */
module TicketLock {
  import opened Common

  const WORD16: nat := 0x1_0000
  const NO_CPU: nat := 0xFFFF_FFFF

  /** Where a CPU is (CPUs are named by their APIC ID).  `f` is the copy of RFLAGS in rdx, `my` the ticket in ax. */
  datatype Pc =
    | Outside
    | Pushed(f: nat)            // pushfq; pop rdx done
    | Disabled(f: nat)          // cli done
    | Waiting(my: nat, f: nat)  // lock xadd done, spinning
    | Won(f: nat)               // serving == ax seen
    | Marking                   // lk->rflags stored
    | Holding                   // lk->cpu_id stored: acquire has returned
    | Loaded(f: nat)            // release: rdx = lk->rflags
    | Unmarked(f: nat)          // lk->cpu_id = -1 stored
    | Released(f: nat)          // serving incremented, popfq pending

  /** `flags` is the CPU's RFLAGS; `before` remembers their value when acquire was entered. */
  datatype Cpu = Cpu(pc: Pc, flags: nat, before: nat)

  datatype State = State(ticket: nat, serving: nat, cpuId: nat, rflags: nat, cpus: map<nat, Cpu>)

  const IF_BIT: nat := 0x200

  function ClearIf(f: nat): nat { if f / IF_BIT % 2 == 1 then f - IF_BIT else f }

  /** CPU `cpu` takes its next step.  Between calls and inside the critical section a CPU may have changed its own
      RFLAGS; `flags` is what they are when it calls acquire or release. */
  datatype Event = Event(cpu: nat, flags: nat)

  /** The next instruction of CPU `c`. */
  function Step(s: State, c: nat, fl: nat): (t: State)
    requires c in s.cpus
    ensures t.cpus.Keys == s.cpus.Keys
  {
    var u := s.cpus[c];
    match u.pc
    case Outside => s.(cpus := s.cpus[c := u.(pc := Pushed(fl), flags := fl, before := fl)])
    case Pushed(f) => s.(cpus := s.cpus[c := u.(pc := Disabled(f), flags := ClearIf(u.flags))])
    case Disabled(f) =>
      s.(ticket := (s.ticket + 1) % WORD16, cpus := s.cpus[c := u.(pc := Waiting(s.ticket, f))])
    case Waiting(my, f) => if s.serving == my then s.(cpus := s.cpus[c := u.(pc := Won(f))]) else s
    case Won(f) => s.(rflags := f, cpus := s.cpus[c := u.(pc := Marking)])
    case Marking => s.(cpuId := c % 0x100, cpus := s.cpus[c := u.(pc := Holding)])
    case Holding => s.(cpus := s.cpus[c := u.(pc := Loaded(s.rflags), flags := fl)])
    case Loaded(f) => s.(cpuId := NO_CPU, cpus := s.cpus[c := u.(pc := Unmarked(f))])
    case Unmarked(f) => s.(serving := (s.serving + 1) % WORD16, cpus := s.cpus[c := u.(pc := Released(f))])
    case Released(f) => s.(cpus := s.cpus[c := u.(pc := Outside, flags := f)])
  }

  /** After `spinlock_init`, with CPUs whose RFLAGS are `flags`. */
  function Init(flags: map<nat, nat>): State
  {
    State(0, 0, NO_CPU, 0, map c | c in flags :: Cpu(Outside, flags[c], flags[c]))
  }

  ghost predicate Scheduled(s: State, sched: seq<Event>) { forall e :: e in sched ==> e.cpu in s.cpus }

  /** The state after a schedule; the last element is the last step. */
  function Run(s: State, sched: seq<Event>): State
    requires Scheduled(s, sched)
    ensures Run(s, sched).cpus.Keys == s.cpus.Keys
    decreases |sched|
  {
    if sched == [] then s
    else
      var r := Run(s, sched[..|sched| - 1]);
      var e := sched[|sched| - 1];
      assert e in sched;
      Step(r, e.cpu, e.flags)
  }

  // ----- The queue of outstanding tickets

  predicate InQueue(p: Pc) { !p.Outside? && !p.Pushed? && !p.Disabled? && !p.Released? }

  /** Inside acquire after winning, in the critical section, or in release before `serving` moves. */
  predicate Critical(p: Pc) { InQueue(p) && !p.Waiting? }

  ghost function NextQueue(s: State, c: nat, q: seq<nat>): seq<nat>
    requires c in s.cpus
  {
    if s.cpus[c].pc.Disabled? then q + [c]
    else if s.cpus[c].pc.Unmarked? && q != [] then q[1..]
    else q
  }

  /** CPUs in the order in which they drew their tickets, those still outstanding. */
  ghost function Queue(s: State, sched: seq<Event>): seq<nat>
    requires Scheduled(s, sched)
    decreases |sched|
  {
    if sched == [] then []
    else
      assert sched[|sched| - 1] in sched;
      NextQueue(Run(s, sched[..|sched| - 1]), sched[|sched| - 1].cpu, Queue(s, sched[..|sched| - 1]))
  }

  /** The saved flags are safe wherever they are. */
  ghost predicate FlagsKept(s: State, u: Cpu)
  {
    match u.pc
    case Outside => true
    case Pushed(f) => f == u.before
    case Disabled(f) => f == u.before
    case Waiting(_, f) => f == u.before
    case Won(f) => f == u.before
    case Marking => s.rflags == u.before
    case Holding => s.rflags == u.before
    case Loaded(f) => f == u.before
    case Unmarked(f) => f == u.before
    case Released(f) => f == u.before
  }

  /** `q` holds each CPU with an outstanding ticket once, and all but its head are spinning. */
  ghost predicate Members(s: State, q: seq<nat>)
  {
    && NoRepeats(q)
    && (forall c :: c in s.cpus ==> (c in q <==> InQueue(s.cpus[c].pc)))
    && (forall i :: 0 <= i < |q| ==> q[i] in s.cpus)
    && (forall i :: 0 < i < |q| ==> s.cpus[q[i]].pc.Waiting?)
  }

  /** The tickets of `q` are consecutive numbers, modulo 2^16, from `serving` up to `ticket`. */
  ghost predicate Numbers(s: State, q: seq<nat>)
    requires Members(s, q)
  {
    && s.serving < WORD16 && s.ticket == (s.serving + |q|) % WORD16
    && (forall i :: 0 <= i < |q| && s.cpus[q[i]].pc.Waiting? ==> s.cpus[q[i]].pc.my == (s.serving + i) % WORD16)
  }

  ghost predicate AllFlagsKept(s: State) { forall c :: c in s.cpus ==> FlagsKept(s, s.cpus[c]) }

  ghost predicate Inv(s: State, q: seq<nat>) { Members(s, q) && Numbers(s, q) && AllFlagsKept(s) }

  /** Only the head of the queue can be past the spin loop. */
  lemma {:induction false} CriticalIsHead(s: State, q: seq<nat>, c: nat)
    requires Members(s, q) && c in s.cpus && Critical(s.cpus[c].pc)
    ensures |q| > 0 && q[0] == c
  {
    var i :| 0 <= i < |q| && q[i] == c;
  }

  /** Of all waiting CPUs only the head sees its own number served. */
  lemma {:induction false} EligibleIsHead(s: State, q: seq<nat>, c: nat)
    requires Members(s, q) && Numbers(s, q) && |s.cpus| <= WORD16 && c in s.cpus && s.cpus[c].pc.Waiting?
    ensures s.serving == s.cpus[c].pc.my <==> |q| > 0 && q[0] == c
  {
    var i :| 0 <= i < |q| && q[i] == c;
    NoMoreThan(q, s.cpus.Keys);
    assert |s.cpus| == |s.cpus.Keys|;
    assert (s.serving + i) % WORD16 == s.serving <==> i == 0;
  }

  lemma {:induction false} DrawKeepsMembers(s: State, c: nat, fl: nat, q: seq<nat>)
    requires c in s.cpus && Members(s, q) && s.cpus[c].pc.Disabled?
    ensures Members(Step(s, c, fl), q + [c])
  {
    var t, r := Step(s, c, fl), q + [c];
    assert c !in q;
    assert t.cpus == s.cpus[c := t.cpus[c]];
    assert forall i :: 0 <= i < |q| ==> r[i] == q[i] && q[i] in q && t.cpus[q[i]] == s.cpus[q[i]];
    assert forall d :: d in r <==> d in q || d == c;
    assert t.cpus[c].pc.Waiting?;
  }

  lemma {:induction false} StepFrame(s: State, c: nat, fl: nat)
    requires c in s.cpus
    ensures Step(s, c, fl).cpus == s.cpus[c := Step(s, c, fl).cpus[c]]
    ensures s.cpus[c].pc.Disabled? ==> Step(s, c, fl).ticket == (s.ticket + 1) % WORD16
    ensures s.cpus[c].pc.Disabled? ==> Step(s, c, fl).serving == s.serving
    ensures s.cpus[c].pc.Disabled? ==> Step(s, c, fl).cpus[c].pc == Waiting(s.ticket, s.cpus[c].pc.f)
    ensures s.cpus[c].pc.Unmarked? ==> Step(s, c, fl).serving == (s.serving + 1) % WORD16
    ensures s.cpus[c].pc.Unmarked? ==> Step(s, c, fl).ticket == s.ticket && Step(s, c, fl).cpus[c].pc.Released?
  {
  }

  lemma {:induction false} DrawKeepsNumbers(s: State, c: nat, fl: nat, q: seq<nat>)
    requires c in s.cpus && Members(s, q) && Numbers(s, q) && s.cpus[c].pc.Disabled? && Members(Step(s, c, fl), q + [c])
    ensures Numbers(Step(s, c, fl), q + [c])
  {
    hide Step, FlagsKept;
    StepFrame(s, c, fl);
    var t, r := Step(s, c, fl), q + [c];
    assert c !in q;
    forall i | 0 <= i < |r| ensures t.cpus[r[i]].pc.Waiting? ==> t.cpus[r[i]].pc.my == (t.serving + i) % WORD16 {
      if i < |q| { assert r[i] == q[i] && q[i] in q && t.cpus[q[i]] == s.cpus[q[i]]; }
    }
    WrapNext(s.serving + |q|);
  }

  lemma {:induction false} ReleaseKeepsMembers(s: State, c: nat, fl: nat, q: seq<nat>)
    requires c in s.cpus && Members(s, q) && s.cpus[c].pc.Unmarked?
    ensures |q| > 0 && q[0] == c && Members(Step(s, c, fl), q[1..])
  {
    hide Step;
    StepFrame(s, c, fl);
    CriticalIsHead(s, q, c);
    var t, r := Step(s, c, fl), q[1..];
    assert forall i :: 0 <= i < |r| ==> r[i] == q[i + 1] && r[i] != c && r[i] in s.cpus;
    forall i | 0 <= i < |r| ensures t.cpus[r[i]].pc.Waiting? { assert t.cpus[r[i]] == s.cpus[q[i + 1]]; }
    assert q == [c] + r;
    forall d | d in t.cpus ensures d in r <==> InQueue(t.cpus[d].pc) { assert d in q <==> d == c || d in r; }
  }

  lemma {:induction false} ReleaseKeepsNumbers(s: State, c: nat, fl: nat, q: seq<nat>)
    requires c in s.cpus && Members(s, q) && Numbers(s, q) && s.cpus[c].pc.Unmarked?
    requires |q| > 0 && q[0] == c && Members(Step(s, c, fl), q[1..])
    ensures Numbers(Step(s, c, fl), q[1..])
  {
    hide Step;
    StepFrame(s, c, fl);
    var t, r := Step(s, c, fl), q[1..];
    forall i | 0 <= i < |r| ensures t.cpus[r[i]].pc.Waiting? ==> t.cpus[r[i]].pc.my == (t.serving + i) % WORD16 {
      assert r[i] == q[i + 1] && r[i] != c;
      assert s.cpus[q[i + 1]].pc.my == (s.serving + (i + 1)) % WORD16;
      WrapStep(s.serving, i);
    }
    WrapStep(s.serving, |r|);
  }

  lemma {:induction false} WrapStep(x: nat, i: nat)
    ensures (x + (i + 1)) % WORD16 == ((x + 1) % WORD16 + i) % WORD16
  {
  }

  /** A step that neither draws a ticket nor releases. */
  lemma {:induction false} OtherKeepsQueue(s: State, c: nat, fl: nat, q: seq<nat>)
    requires c in s.cpus && Members(s, q) && Numbers(s, q) && |s.cpus| <= WORD16
    requires !s.cpus[c].pc.Disabled? && !s.cpus[c].pc.Unmarked?
    ensures Members(Step(s, c, fl), q) && Numbers(Step(s, c, fl), q)
  {
    var t := Step(s, c, fl);
    assert t.cpus.Keys == s.cpus.Keys;
    if Critical(s.cpus[c].pc) { CriticalIsHead(s, q, c); }
    if s.cpus[c].pc.Waiting? { EligibleIsHead(s, q, c); }
    assert forall d :: d in s.cpus && d != c ==> t.cpus[d] == s.cpus[d];
    assert InQueue(t.cpus[c].pc) == InQueue(s.cpus[c].pc);
    assert forall i :: 0 < i < |q| && q[i] == c ==> t == s;
  }

  /** The slot lk->rflags is only written while no other CPU relies on it. */
  lemma {:induction false} StepKeepsFlags(s: State, c: nat, fl: nat, q: seq<nat>)
    requires c in s.cpus && Members(s, q) && AllFlagsKept(s)
    ensures AllFlagsKept(Step(s, c, fl))
  {
    var t := Step(s, c, fl);
    assert FlagsKept(s, s.cpus[c]);
    forall d | d in t.cpus ensures FlagsKept(t, t.cpus[d]) {
      if d != c {
        assert t.cpus[d] == s.cpus[d] && FlagsKept(s, s.cpus[d]);
        if s.cpus[c].pc.Won? && Critical(s.cpus[d].pc) {
          CriticalIsHead(s, q, c);
          CriticalIsHead(s, q, d);
        }
      }
    }
  }

  lemma {:induction false} StepKeepsInv(s: State, c: nat, fl: nat, q: seq<nat>)
    requires c in s.cpus && Inv(s, q) && |s.cpus| <= WORD16
    ensures Inv(Step(s, c, fl), NextQueue(s, c, q))
  {
    hide Members, Numbers, AllFlagsKept, Step;
    StepKeepsFlags(s, c, fl, q);
    if s.cpus[c].pc.Disabled? {
      DrawKeepsMembers(s, c, fl, q);
      DrawKeepsNumbers(s, c, fl, q);
    } else if s.cpus[c].pc.Unmarked? {
      ReleaseKeepsMembers(s, c, fl, q);
      ReleaseKeepsNumbers(s, c, fl, q);
    } else {
      OtherKeepsQueue(s, c, fl, q);
    }
  }

  lemma {:induction false} RunCount(flags: map<nat, nat>, sched: seq<Event>)
    requires Scheduled(Init(flags), sched)
    ensures var s := Run(Init(flags), sched); s.cpus.Keys == flags.Keys && |s.cpus| == |flags|
  {
    var s := Run(Init(flags), sched);
    assert s.cpus.Keys == Init(flags).cpus.Keys == flags.Keys;
    assert |s.cpus| == |s.cpus.Keys| && |flags| == |flags.Keys|;
  }

  /** Every schedule of at most 2^16 CPUs keeps the invariant. */
  lemma {:induction false} RunKeepsInv(flags: map<nat, nat>, sched: seq<Event>)
    requires |flags| <= 0x1_0000 && Scheduled(Init(flags), sched)
    ensures Inv(Run(Init(flags), sched), Queue(Init(flags), sched))
    decreases |sched|
  {
    var s := Init(flags);
    if sched != [] {
      var n := |sched| - 1;
      assert sched[n] in sched;
      RunKeepsInv(flags, sched[..n]);
      var r := Run(s, sched[..n]);
      RunCount(flags, sched[..n]);
      StepKeepsInv(r, sched[n].cpu, sched[n].flags, Queue(s, sched[..n]));
    }
  }

  // ----- The theorems

  /** Mutual exclusion. */
  lemma {:induction false} AtMostOneHolder(flags: map<nat, nat>, sched: seq<Event>, c: nat, d: nat)
    requires |flags| <= 0x1_0000 && Scheduled(Init(flags), sched) && c in flags && d in flags
    requires var s := Run(Init(flags), sched); Critical(s.cpus[c].pc) && Critical(s.cpus[d].pc)
    ensures c == d
  {
    RunKeepsInv(flags, sched);
    var s, q := Run(Init(flags), sched), Queue(Init(flags), sched);
    CriticalIsHead(s, q, c);
    CriticalIsHead(s, q, d);
  }

  /** Progress: while tickets are outstanding, the CPU that drew the oldest one is past the spin loop
      or leaves it with its next step. */
  lemma {:induction false} OldestCanMove(flags: map<nat, nat>, sched: seq<Event>, fl: nat)
    requires |flags| <= 0x1_0000 && Scheduled(Init(flags), sched) && Queue(Init(flags), sched) != []
    ensures var s, c := Run(Init(flags), sched), Queue(Init(flags), sched)[0];
            c in s.cpus && InQueue(s.cpus[c].pc) && Step(s, c, fl) != s &&
            (s.cpus[c].pc.Waiting? ==> Step(s, c, fl).cpus[c].pc.Won?)
  {
    RunKeepsInv(flags, sched);
    var s, q := Run(Init(flags), sched), Queue(Init(flags), sched);
    var c := q[0];
    assert c in q;
    RunCount(flags, sched);
    if s.cpus[c].pc.Waiting? { EligibleIsHead(s, q, c); }
    assert Step(s, c, fl).cpus[c].pc != s.cpus[c].pc;
  }

  /** How many steps of its own a CPU is from having left release. */
  function StepsLeft(p: Pc): nat
  {
    match p
    case Outside => 0
    case Pushed(_) => 9
    case Disabled(_) => 8
    case Waiting(_, _) => 7
    case Won(_) => 6
    case Marking => 5
    case Holding => 4
    case Loaded(_) => 3
    case Unmarked(_) => 2
    case Released(_) => 1
  }

  ghost function Alone(c: nat, n: nat): seq<Event> { seq(n, _ => Next(c)) }

  /** From every reachable state, a CPU that no older ticket precedes gets through acquire and release by at most nine
      steps of its own. */
  lemma {:induction false} LeavesAlone(flags: map<nat, nat>, sched: seq<Event>, c: nat)
    requires |flags| <= 0x1_0000 && Scheduled(Init(flags), sched) && c in flags
    requires var s, q := Run(Init(flags), sched), Queue(Init(flags), sched);
             s.cpus[c].pc.Outside? || s.cpus[c].pc.Released? || q == [] || q[0] == c
    ensures var more := sched + Alone(c, StepsLeft(Run(Init(flags), sched).cpus[c].pc));
            Scheduled(Init(flags), more) && Run(Init(flags), more).cpus[c].pc.Outside?
    decreases StepsLeft(Run(Init(flags), sched).cpus[c].pc)
  {
    hide Step, Run, Members, Numbers, AllFlagsKept, NextQueue;
    var s0 := Init(flags);
    var s, q := Run(s0, sched), Queue(s0, sched);
    var n := StepsLeft(s.cpus[c].pc);
    if n == 0 {
      assert sched + Alone(c, n) == sched;
    } else {
      RunKeepsInv(flags, sched);
      RunCount(flags, sched);
      RunMore(s0, sched, c);
      QueueMore(s0, sched, c);
      Advances(s, q, c);
      LeavesAlone(flags, sched + [Next(c)], c);
      assert sched + [Next(c)] + Alone(c, n - 1) == sched + Alone(c, n);
    }
  }

  lemma {:induction false} QueueMore(s: State, sched: seq<Event>, c: nat)
    requires Scheduled(s, sched) && c in s.cpus && Scheduled(s, sched + [Next(c)])
    ensures Queue(s, sched + [Next(c)]) == NextQueue(Run(s, sched), c, Queue(s, sched))
  {
    assert (sched + [Next(c)])[..|sched|] == sched;
  }

  lemma {:induction false} Advances(s: State, q: seq<nat>, c: nat)
    requires c in s.cpus && Inv(s, q) && |s.cpus| <= WORD16 && !s.cpus[c].pc.Outside?
    requires s.cpus[c].pc.Released? || q == [] || q[0] == c
    ensures var t, r := Step(s, c, 0), NextQueue(s, c, q);
            && StepsLeft(t.cpus[c].pc) == StepsLeft(s.cpus[c].pc) - 1
            && (t.cpus[c].pc.Outside? || t.cpus[c].pc.Released? || r == [] || r[0] == c)
  {
    assert c in q <==> InQueue(s.cpus[c].pc);
    if s.cpus[c].pc.Waiting? { EligibleIsHead(s, q, c); }
  }

  // ----- RFLAGS

  /** The RFLAGS with which CPU `c` last called acquire, read off the schedule; those it started with if it never
      did. */
  ghost function Entered(flags: map<nat, nat>, sched: seq<Event>, c: nat): nat
    requires Scheduled(Init(flags), sched) && c in flags
    decreases |sched|
  {
    if sched == [] then flags[c]
    else
      var n := |sched| - 1;
      assert sched[n] in sched;
      if sched[n].cpu == c && Run(Init(flags), sched[..n]).cpus[c].pc.Outside? then sched[n].flags
      else Entered(flags, sched[..n], c)
  }

  lemma {:induction false} BeforeIsEntered(flags: map<nat, nat>, sched: seq<Event>, c: nat)
    requires Scheduled(Init(flags), sched) && c in flags
    ensures Run(Init(flags), sched).cpus[c].before == Entered(flags, sched, c)
    decreases |sched|
  {
    if sched != [] {
      assert sched[|sched| - 1] in sched;
      BeforeIsEntered(flags, sched[..|sched| - 1], c);
    }
  }

  /** Whenever a CPU is outside again, its RFLAGS are those with which it last called acquire. */
  lemma {:induction false} FlagsRestored(flags: map<nat, nat>, sched: seq<Event>, c: nat)
    requires |flags| <= 0x1_0000 && Scheduled(Init(flags), sched) && c in flags
    ensures var s := Run(Init(flags), sched); s.cpus[c].pc.Outside? ==> s.cpus[c].flags == Entered(flags, sched, c)
    decreases |sched|
  {
    BeforeIsEntered(flags, sched, c);
    if sched != [] {
      var n := |sched| - 1;
      assert sched[n] in sched;
      FlagsRestored(flags, sched[..n], c);
      BeforeIsEntered(flags, sched[..n], c);
      RunKeepsInv(flags, sched[..n]);
      var r := Run(Init(flags), sched[..n]);
      assert FlagsKept(r, r.cpus[sched[n].cpu]);
    }
  }

  /** From `cli` to the end of acquire. */
  predicate Masked(p: Pc) { p.Disabled? || p.Waiting? || p.Won? || p.Marking? || p.Holding? }

  /** From `cli` on until acquire has returned, a CPU has interrupts disabled (bit 9 of RFLAGS) and its other flags as
      they were, whatever the schedule and the number of CPUs. */
  lemma {:induction false} InterruptsOff(flags: map<nat, nat>, sched: seq<Event>, c: nat)
    requires Scheduled(Init(flags), sched) && c in flags
    ensures var u, f := Run(Init(flags), sched).cpus[c], Entered(flags, sched, c);
            && (Masked(u.pc) ==> u.flags / 0x200 % 2 == 0 && u.flags == if f / 0x200 % 2 == 1 then f - 0x200 else f)
            && (u.pc.Pushed? ==> u.flags == f)
    decreases |sched|
  {
    hide Run;
    RunEnds(flags, sched);
    if sched != [] {
      var n := |sched| - 1;
      assert sched[n] in sched;
      InterruptsOff(flags, sched[..n], c);
      BitCleared(Entered(flags, sched[..n], c));
    }
  }

  lemma {:induction false} RunEnds(flags: map<nat, nat>, sched: seq<Event>)
    requires Scheduled(Init(flags), sched)
    ensures sched == [] ==> Run(Init(flags), sched) == Init(flags)
    ensures sched != [] ==>
      var n := |sched| - 1;
      assert sched[n] in sched;
      Run(Init(flags), sched) == Step(Run(Init(flags), sched[..n]), sched[n].cpu, sched[n].flags)
  {
    if sched != [] { assert sched[|sched| - 1] in sched; }
  }

  lemma {:induction false} BitCleared(f: nat)
    ensures f / 0x200 % 2 == 1 ==> f >= 0x200 && (f - 0x200) / 0x200 % 2 == 0
  {
  }

  // ----- lk->cpu_id

  ghost predicate Marked(s: State)
  {
    && (forall c :: c in s.cpus && (s.cpus[c].pc.Holding? || s.cpus[c].pc.Loaded?) ==> s.cpuId == c % 0x100)
    && ((forall c :: c in s.cpus ==> !s.cpus[c].pc.Holding? && !s.cpus[c].pc.Loaded?) ==> s.cpuId == 0xFFFF_FFFF)
  }

  lemma {:induction false} StepKeepsMarked(s: State, c: nat, fl: nat, q: seq<nat>)
    requires c in s.cpus && Members(s, q) && Marked(s)
    ensures Marked(Step(s, c, fl))
  {
    var t := Step(s, c, fl);
    assert forall d :: d in s.cpus && d != c ==> t.cpus[d] == s.cpus[d];
    if Critical(s.cpus[c].pc) {
      CriticalIsHead(s, q, c);
      forall d | d in s.cpus && Critical(s.cpus[d].pc) ensures d == c { CriticalIsHead(s, q, d); }
    }
    if !s.cpus[c].pc.Marking? && !s.cpus[c].pc.Loaded? {
      assert t.cpus[c].pc.Holding? || t.cpus[c].pc.Loaded? <==> s.cpus[c].pc.Holding? || s.cpus[c].pc.Loaded?;
      assert forall d :: d in s.cpus ==>
        (t.cpus[d].pc.Holding? || t.cpus[d].pc.Loaded? <==> s.cpus[d].pc.Holding? || s.cpus[d].pc.Loaded?);
    }
  }

  /** Over every schedule, lk->cpu_id is the APIC ID of the CPU that has the lock, from the end of acquire until release
      takes the mark back, and 0xFFFF_FFFF while there is none. */
  lemma {:induction false} CpuIdNamesHolder(flags: map<nat, nat>, sched: seq<Event>)
    requires |flags| <= 0x1_0000 && Scheduled(Init(flags), sched)
    ensures Marked(Run(Init(flags), sched))
    decreases |sched|
  {
    hide Run, Step, Members, Numbers, AllFlagsKept, Marked;
    RunEnds(flags, sched);
    if sched == [] {
      NobodyMarked(flags);
    } else {
      var n := |sched| - 1;
      assert sched[n] in sched;
      CpuIdNamesHolder(flags, sched[..n]);
      RunKeepsInv(flags, sched[..n]);
      StepKeepsMarked(Run(Init(flags), sched[..n]), sched[n].cpu, sched[n].flags, Queue(Init(flags), sched[..n]));
    }
  }

  lemma {:induction false} NobodyMarked(flags: map<nat, nat>)
    ensures Marked(Init(flags))
  {
  }

  // ----- First come, first served

  /** The CPUs in the order in which they drew tickets, over the whole schedule. */
  ghost function Draws(s: State, sched: seq<Event>): seq<nat>
    requires Scheduled(s, sched)
    decreases |sched|
  {
    if sched == [] then []
    else
      var n := |sched| - 1;
      assert sched[n] in sched;
      Draws(s, sched[..n]) + Drawn(Run(s, sched[..n]), sched[n].cpu)
  }

  /** The CPUs in the order in which they left the spin loop. */
  ghost function Wins(s: State, sched: seq<Event>): seq<nat>
    requires Scheduled(s, sched)
    decreases |sched|
  {
    if sched == [] then []
    else
      var n := |sched| - 1;
      assert sched[n] in sched;
      Wins(s, sched[..n]) + Winner(Run(s, sched[..n]), sched[n].cpu, sched[n].flags)
  }

  /** The tickets of `q` whose CPUs are not past the spin loop. */
  ghost function StillWaiting(s: State, q: seq<nat>): seq<nat>
    requires Members(s, q)
  {
    if q != [] && Critical(s.cpus[q[0]].pc) then q[1..] else q
  }

  /** What a step adds to the draws and to the wins. */
  ghost function Drawn(s: State, c: nat): seq<nat> requires c in s.cpus { if s.cpus[c].pc.Disabled? then [c] else [] }

  ghost function Winner(s: State, c: nat, fl: nat): seq<nat>
    requires c in s.cpus
  {
    if s.cpus[c].pc.Waiting? && Step(s, c, fl).cpus[c].pc.Won? then [c] else []
  }

  lemma {:induction false} DrawWaits(s: State, c: nat, fl: nat, q: seq<nat>)
    requires c in s.cpus && s.cpus[c].pc.Disabled? && Members(s, q) && Members(Step(s, c, fl), q + [c])
    ensures StillWaiting(s, q) + [c] == StillWaiting(Step(s, c, fl), q + [c])
  {
    var t := Step(s, c, fl);
    assert c !in q && t.cpus == s.cpus[c := t.cpus[c]];
    if q != [] { assert q[0] in q && (q + [c])[0] == q[0] && (q + [c])[1..] == q[1..] + [c]; }
  }

  lemma {:induction false} HolderWaits(s: State, c: nat, fl: nat, q: seq<nat>)
    requires c in s.cpus && Critical(s.cpus[c].pc) && Members(s, q) && Members(Step(s, c, fl), NextQueue(s, c, q))
    ensures StillWaiting(s, q) == StillWaiting(Step(s, c, fl), NextQueue(s, c, q))
  {
    CriticalIsHead(s, q, c);
    var r := NextQueue(s, c, q);
    if s.cpus[c].pc.Unmarked? && r != [] { assert r[0] == q[1]; }
  }

  lemma {:induction false} SpinnerWaits(s: State, c: nat, fl: nat, q: seq<nat>)
    requires c in s.cpus && s.cpus[c].pc.Waiting? && Inv(s, q) && |s.cpus| <= WORD16 && Members(Step(s, c, fl), q)
    ensures StillWaiting(s, q) == Winner(s, c, fl) + StillWaiting(Step(s, c, fl), q)
  {
    EligibleIsHead(s, q, c);
    assert q != [] ==> q == [q[0]] + q[1..];
  }

  lemma {:induction false} OutsiderWaits(s: State, c: nat, fl: nat, q: seq<nat>)
    requires c in s.cpus && !InQueue(s.cpus[c].pc) && !s.cpus[c].pc.Disabled? && Members(s, q)
    requires Members(Step(s, c, fl), q)
    ensures StillWaiting(s, q) == StillWaiting(Step(s, c, fl), q)
  {
    assert c !in q;
    assert q != [] ==> q[0] in q;
  }

  lemma {:induction false} StepKeepsWaiting(s: State, c: nat, fl: nat, q: seq<nat>)
    requires c in s.cpus && Inv(s, q) && |s.cpus| <= WORD16
    requires Inv(Step(s, c, fl), NextQueue(s, c, q))
    ensures StillWaiting(s, q) + Drawn(s, c) == Winner(s, c, fl) + StillWaiting(Step(s, c, fl), NextQueue(s, c, q))
  {
    hide Step, Members, Numbers, AllFlagsKept, StillWaiting;
    if s.cpus[c].pc.Disabled? {
      DrawWaits(s, c, fl, q);
    } else if Critical(s.cpus[c].pc) {
      HolderWaits(s, c, fl, q);
    } else if s.cpus[c].pc.Waiting? {
      SpinnerWaits(s, c, fl, q);
    } else {
      OutsiderWaits(s, c, fl, q);
    }
  }

  /** Every run serves in ticket order: the winners so far, followed by those still spinning in ticket
      order, are exactly the CPUs that drew a ticket, in the order in which they drew. */
  lemma {:induction false} ServedInTicketOrder(flags: map<nat, nat>, sched: seq<Event>)
    requires |flags| <= 0x1_0000 && Scheduled(Init(flags), sched)
    ensures var s, q := Run(Init(flags), sched), Queue(Init(flags), sched);
            Members(s, q) && Draws(Init(flags), sched) == Wins(Init(flags), sched) + StillWaiting(s, q)
    decreases |sched|
  {
    hide Step, Members, Numbers, AllFlagsKept, NextQueue, StillWaiting;
    RunKeepsInv(flags, sched);
    var s := Init(flags);
    if sched == [] {
      assert Queue(s, sched) == [] && Draws(s, sched) == [] && Wins(s, sched) == [];
      NothingWaiting(Run(s, sched));
    } else {
      var n := |sched| - 1;
      assert sched[n] in sched;
      ServedInTicketOrder(flags, sched[..n]);
      RunKeepsInv(flags, sched[..n]);
      RunCount(flags, sched[..n]);
      var r, q := Run(s, sched[..n]), Queue(s, sched[..n]);
      assert Run(s, sched) == Step(r, sched[n].cpu, sched[n].flags) && Queue(s, sched) == NextQueue(r, sched[n].cpu, q);
      StepKeepsWaiting(r, sched[n].cpu, sched[n].flags, q);
      Regroup(Wins(s, sched[..n]), StillWaiting(r, q), Drawn(r, sched[n].cpu), Winner(r, sched[n].cpu, sched[n].flags),
              StillWaiting(Run(s, sched), Queue(s, sched)));
    }
  }

  lemma {:induction false} Regroup(wins: seq<nat>, waiting: seq<nat>, drawn: seq<nat>, won: seq<nat>, after: seq<nat>)
    requires waiting + drawn == won + after
    ensures wins + waiting + drawn == wins + won + after
  {
    assert wins + waiting + drawn == wins + (waiting + drawn);
    assert wins + won + after == wins + (won + after);
  }

  lemma {:induction false} NothingWaiting(s: State)
    requires Members(s, [])
    ensures StillWaiting(s, []) == []
  {
  }

  // ----- The bound of 2^16 CPUs is exact

  function Next(c: nat): Event { Event(c, 0) }

  /** Each of the CPUs of `q` in turn takes the three steps that draw a ticket. */
  ghost function Crowd(q: seq<nat>): seq<Event>
    ensures forall e :: e in Crowd(q) ==> e.cpu in q
  {
    if q == [] then [] else Crowd(q[..|q| - 1]) + [Next(q[|q| - 1]), Next(q[|q| - 1]), Next(q[|q| - 1])]
  }

  lemma {:induction false} RunMore(s: State, sched: seq<Event>, c: nat)
    requires Scheduled(s, sched) && c in s.cpus
    ensures Scheduled(s, sched + [Next(c)]) && Run(s, sched + [Next(c)]) == Step(Run(s, sched), c, 0)
  {
    assert (sched + [Next(c)])[..|sched|] == sched;
  }

  /** Every CPU of `q` spins on its place in `q` modulo 2^16; all others are outside. */
  ghost predicate Crowded(s: State, keys: set<nat>, q: seq<nat>)
  {
    && s.cpus.Keys == keys && s.serving == 0 && s.ticket == |q| % WORD16
    && (forall c :: c in keys && c !in q ==> s.cpus[c].pc.Outside?)
    && (forall i :: 0 <= i < |q| ==> q[i] in keys && s.cpus[q[i]].pc.Waiting? && s.cpus[q[i]].pc.my == i % WORD16)
  }

  lemma {:induction false} CrowdGrows(s: State, keys: set<nat>, p: seq<nat>, c: nat)
    requires Crowded(s, keys, p) && c in keys && c !in p
    ensures Crowded(Step(Step(Step(s, c, 0), c, 0), c, 0), keys, p + [c])
  {
    hide Step;
    ThreeSteps(s, c);
    WrapNext(|p|);
    var t, q := Step(Step(Step(s, c, 0), c, 0), c, 0), p + [c];
    forall i | 0 <= i < |q| ensures q[i] in keys && t.cpus[q[i]].pc.Waiting? && t.cpus[q[i]].pc.my == i % WORD16 {
      if i < |p| { assert q[i] == p[i] && p[i] in p; }
    }
  }

  lemma {:induction false} CrowdDraws(flags: map<nat, nat>, q: seq<nat>)
    requires NoRepeats(q) && forall i :: 0 <= i < |q| ==> q[i] in flags
    ensures Scheduled(Init(flags), Crowd(q)) && Crowded(Run(Init(flags), Crowd(q)), flags.Keys, q)
    decreases |q|
  {
    hide Step, Run, Crowded;
    if q == [] {
      NobodyCrowded(flags);
    } else {
      var n := |q| - 1;
      var p, c := q[..n], q[n];
      assert q == p + [c];
      CrowdDraws(flags, p);
      assert c !in p;
      RunThrice(Init(flags), Crowd(p), c);
      assert Crowd(q) == Crowd(p) + [Next(c), Next(c), Next(c)];
      CrowdGrows(Run(Init(flags), Crowd(p)), flags.Keys, p, c);
    }
  }

  lemma {:induction false} WrapNext(n: nat)
    ensures (n % WORD16 + 1) % WORD16 == (n + 1) % WORD16
  {
  }

  lemma {:induction false} NobodyCrowded(flags: map<nat, nat>)
    ensures Crowded(Run(Init(flags), []), flags.Keys, [])
  {
  }

  lemma {:induction false} RunThrice(s: State, sched: seq<Event>, c: nat)
    requires Scheduled(s, sched) && c in s.cpus
    ensures Scheduled(s, sched + [Next(c), Next(c), Next(c)])
    ensures Run(s, sched + [Next(c), Next(c), Next(c)]) == Step(Step(Step(Run(s, sched), c, 0), c, 0), c, 0)
  {
    hide Run, Step;
    RunMore(s, sched, c);
    RunMore(s, sched + [Next(c)], c);
    RunMore(s, sched + [Next(c)] + [Next(c)], c);
    assert sched + [Next(c), Next(c), Next(c)] == sched + [Next(c)] + [Next(c)] + [Next(c)];
  }

  lemma {:induction false} ThreeSteps(s: State, c: nat)
    requires c in s.cpus && s.cpus[c].pc.Outside?
    ensures var t := Step(Step(Step(s, c, 0), c, 0), c, 0);
            && t.cpus.Keys == s.cpus.Keys && (forall d :: d in s.cpus && d != c ==> t.cpus[d] == s.cpus[d])
            && t.serving == s.serving && t.ticket == (s.ticket + 1) % WORD16
            && t.cpus[c].pc.Waiting? && t.cpus[c].pc.my == s.ticket
  {
  }

  lemma {:induction false} Distinct(keys: set<nat>, n: nat) returns (q: seq<nat>)
    requires n <= |keys|
    ensures |q| == n && NoRepeats(q) && forall i :: 0 <= i < |q| ==> q[i] in keys
    decreases n
  {
    if n == 0 { return []; }
    var k :| k in keys;
    var p := Distinct(keys - {k}, n - 1);
    q := p + [k];
  }

  ghost predicate MutualExclusion(flags: map<nat, nat>)
  {
    forall sched, c, d :: Scheduled(Init(flags), sched) && c in flags && d in flags && c != d ==>
      !(Critical(Run(Init(flags), sched).cpus[c].pc) && Critical(Run(Init(flags), sched).cpus[d].pc))
  }

  /** With more CPUs than ticket numbers, two of them can hold the same winning number. */
  lemma {:induction false} TooManyCpus(flags: map<nat, nat>)
    requires |flags| > 0x1_0000
    ensures !MutualExclusion(flags)
  {
    hide Run, Step, MutualExclusion, Critical;
    assert |flags| == |flags.Keys|;
    var q := Distinct(flags.Keys, WORD16 + 1);
    var a, b := q[0], q[WORD16];
    CrowdDraws(flags, q);
    var s0, sched := Init(flags), Crowd(q);
    RunMore(s0, sched, a);
    RunMore(s0, sched + [Next(a)], b);
    BothWin(Run(s0, sched), a, b);
    TwoInside(flags, sched + [Next(a)] + [Next(b)], a, b);
  }

  lemma {:induction false} TwoInside(flags: map<nat, nat>, sched: seq<Event>, a: nat, b: nat)
    requires Scheduled(Init(flags), sched) && a in flags && b in flags && a != b
    requires var s := Run(Init(flags), sched); Critical(s.cpus[a].pc) && Critical(s.cpus[b].pc)
    ensures !MutualExclusion(flags)
  {
    hide Run, Critical;
  }

  lemma {:induction false} BothWin(s: State, a: nat, b: nat)
    requires a in s.cpus && b in s.cpus && a != b && s.cpus[a].pc.Waiting? && s.cpus[b].pc.Waiting?
    requires s.cpus[a].pc.my == s.serving == s.cpus[b].pc.my
    ensures var t := Step(Step(s, a, 0), b, 0); Critical(t.cpus[a].pc) && Critical(t.cpus[b].pc)
  {
  }

  /** The lock is safe for exactly the machines with at most 2^16 CPUs. */
  lemma {:induction false} SafeIffTicketsSuffice(flags: map<nat, nat>)
    ensures MutualExclusion(flags) <==> |flags| <= 0x1_0000
  {
    if |flags| > 0x1_0000 {
      TooManyCpus(flags);
    } else {
      forall sched, c, d | Scheduled(Init(flags), sched) && c in flags && d in flags && c != d
        ensures !(Critical(Run(Init(flags), sched).cpus[c].pc) && Critical(Run(Init(flags), sched).cpus[d].pc))
      {
        if Critical(Run(Init(flags), sched).cpus[c].pc) && Critical(Run(Init(flags), sched).cpus[d].pc) {
          AtMostOneHolder(flags, sched, c, d);
        }
      }
    }
  }
}
