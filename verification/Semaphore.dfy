/** The semaphores of the thread library: a count under a mutex, and a condition variable
    for the threads that have to wait. */
module Semaphore {
  import opened Basics

  type Tid = nat

  /** Where a thread is. In sem_wait: wanting the semaphore's lock; holding it, before and
      after the count is lowered; in cond_wait, wanting the variable's lock, holding it
      before and after registering, about to release the semaphore's lock, released,
      descheduled, made runnable and wanting the lock again; about to leave. In sem_signal:
      wanting the lock; holding it; in cond_signal, wanting the variable's lock, holding it
      before and after taking an entry, or finding none, waking the thread taken; about to
      raise the count
      (with the thread it has just woken, if any); about to leave. */
  datatype Pc =
    | Outside
    | WantWait | Lowering | Lowered | WantAdd | Adding | Added | Letting | Drowsy | Asleep | Woken | LeavingWait
    | WantSignal | Checking | WantTake | Taking | NoOne | Took(w: Tid) | Waking(w: Tid) | Raising(woken: seq<Tid>) | LeavingSignal

  /** `locked` and `condLocked` are the state words of the two mutexes; the last three
      count the waits begun and completed, and the signals that raised the count. */
  datatype State = State(pcs: map<Tid, Pc>, count: int, locked: bool, condLocked: bool, list: seq<Tid>,
                         begun: nat, completed: nat, raised: nat)

  predicate Blocked(s: State, pc: Pc) {
    ((pc.WantWait? || pc.Woken? || pc.WantSignal?) && s.locked) || ((pc.WantAdd? || pc.WantTake?) && s.condLocked)
    || pc.Asleep?
  }

  predicate Enabled(s: State, t: Tid) { t in s.pcs && !Blocked(s, s.pcs[t]) }

  /** One step of thread `t`. A thread outside calls sem_signal with `yes`, else sem_wait;
      one that enters itself in the list is granted the entry with `yes`, else refused. A
      refusal while the list is empty makes the program follow a null pointer: no step. */
  predicate Can(s: State, t: Tid, yes: bool) { Enabled(s, t) && (s.pcs[t].Adding? && !yes ==> s.list != []) }

  /** No entry is refused by the step. */
  predicate Fine(s: State, t: Tid, yes: bool) { t in s.pcs && s.pcs[t].Adding? ==> yes }

  function Go(s: State, t: Tid, pc: Pc): State { s.(pcs := s.pcs[t := pc]) }

  /** Where thread `t` goes next, unless it is waking another. */
  function NextPc(s: State, t: Tid, yes: bool): Pc
    requires t in s.pcs
  {
    match s.pcs[t]
    case Outside => if yes then WantSignal else WantWait
    case WantWait => Lowering
    case Lowering => Lowered
    case Lowered => if s.count < 0 then WantAdd else LeavingWait
    case WantAdd => Adding
    case Adding => Added
    case Added => Letting
    case Letting => Drowsy
    case Drowsy => Asleep
    case Asleep => Asleep
    case Woken => LeavingWait
    case LeavingWait => Outside
    case WantSignal => Checking
    case Checking => if s.count < 0 then WantTake else Raising([])
    case WantTake => Taking
    case Taking => if s.list == [] then NoOne else Took(s.list[0])
    case NoOne => Raising([])
    case Took(w) => Waking(w)
    case Waking(w) => Waking(w)
    case Raising(_) => LeavingSignal
    case LeavingSignal => Outside
  }

  /** What its step does to the semaphore. */
  function Effect(s: State, t: Tid, yes: bool): State
    requires t in s.pcs
  {
    match s.pcs[t]
    case WantWait => s.(locked := true)
    case Lowering => s.(count := s.count - 1, begun := s.begun + 1)
    case WantAdd => s.(condLocked := true)
    case Adding => if yes then s.(list := s.list + [t]) else s
    case Added => s.(condLocked := false)
    case Letting => s.(locked := false)
    case Woken => s.(locked := true)
    case LeavingWait => s.(locked := false, completed := s.completed + 1)
    case WantSignal => s.(locked := true)
    case WantTake => s.(condLocked := true)
    case Taking => if s.list == [] then s else s.(list := s.list[1..])
    case NoOne => s.(condLocked := false)
    case Took(_) => s.(condLocked := false)
    case Raising(_) => s.(count := s.count + 1, raised := s.raised + 1)
    case LeavingSignal => s.(locked := false)
    case _ => s
  }

  /** An attempt to wake a thread that is not descheduled yet changes nothing; the caller
      yields to it and tries again. */
  function Next(s: State, t: Tid, yes: bool): State
    requires Enabled(s, t)
  {
    match s.pcs[t]
    case Waking(w) => if w in s.pcs && s.pcs[w].Asleep? then Go(Go(s, w, Woken), t, Raising([w])) else s
    case _ => Effect(s, t, yes).(pcs := s.pcs[t := NextPc(s, t, yes)])
  }

  // -------------------------------------------------------------------- the invariant

  /** Holding the semaphore's lock. */
  predicate Holds(pc: Pc) {
    pc.Lowering? || pc.Lowered? || pc.WantAdd? || pc.Adding? || pc.Added? || pc.Letting? || pc.LeavingWait?
    || pc.Checking? || pc.WantTake? || pc.Taking? || pc.NoOne? || pc.Took? || pc.Waking? || pc.Raising? || pc.LeavingSignal?
  }

  /** Registered and not yet woken. */
  predicate Waiting(pc: Pc) { pc.Added? || pc.Letting? || pc.Drowsy? || pc.Asleep? }

  /** In a wait that has lowered the count. */
  predicate Within(pc: Pc) {
    pc.Lowered? || pc.WantAdd? || pc.Adding? || Waiting(pc) || pc.Woken? || pc.LeavingWait?
  }

  ghost function Inside(s: State): set<Tid> { set t | t in s.pcs && Within(s.pcs[t]) }

  ghost predicate LockOK(s: State) {
    && (forall t :: t in s.pcs && Holds(s.pcs[t]) ==> s.locked)
    && (forall t, u :: t in s.pcs && u in s.pcs && Holds(s.pcs[t]) && Holds(s.pcs[u]) ==> t == u)
  }

  ghost predicate IsWaiting(s: State, w: Tid) { w in s.pcs && Waiting(s.pcs[w]) }

  /** Signaller `u` has taken the entry of `w` and has not woken it yet. */
  ghost predicate Has(s: State, u: Tid, w: Tid) { u in s.pcs && (s.pcs[u] == Took(w) || s.pcs[u] == Waking(w)) }

  ghost predicate TokenOK(s: State) {
    && NoDuplicates(s.list)
    && (forall w :: IsWaiting(s, w) ==> w in s.list || exists u :: Has(s, u, w))
    && (forall w :: w in s.list ==> IsWaiting(s, w))
    && (forall u, w :: Has(s, u, w) ==> IsWaiting(s, w) && w !in s.list)
    && (forall u, w :: u in s.pcs && s.pcs[u] == Raising([w]) ==> w in s.pcs && s.pcs[w].Woken?)
  }

  /** The lock holder is at a point where the count and the list are one apart. */
  predicate Between(pc: Pc, count: int) {
    count < 0 && (pc.Lowered? || pc.WantAdd? || pc.Adding? || pc.Took? || pc.Waking? || pc.Raising?)
  }

  ghost predicate CountAt(s: State, pc: Pc) {
    && (pc.WantAdd? || pc.Adding? || pc.Added? || pc.Letting? || pc.WantTake? || pc.Taking? || pc.Took? || pc.Waking? ==> s.count < 0)
    && !pc.NoOne?
    && (pc.Raising? ==> |pc.woken| == if s.count < 0 then 1 else 0)
  }

  function Need(count: int): nat { if count < 0 then -count else 0 }

  /** As many entries as the count is below zero, give or take what the lock holder is in
      the middle of. */
  ghost predicate CountOK(s: State) {
    && (forall t :: t in s.pcs ==> CountAt(s, s.pcs[t]))
    && (if exists t :: t in s.pcs && Between(s.pcs[t], s.count) then |s.list| + 1 == Need(s.count) else |s.list| == Need(s.count))
  }

  /** The books: waits begun and signals against the count, and begun against completed. */
  ghost predicate BooksOK(s: State, initial: int) {
    s.count == initial - s.begun + s.raised && s.begun == s.completed + |Inside(s)|
  }

  ghost predicate Inv(s: State, initial: int) { LockOK(s) && TokenOK(s) && CountOK(s) && BooksOK(s, initial) }

  /** Thread `t` goes on to `pc`; the lists may change too. */
  ghost predicate Moves(s: State, s': State, t: Tid, pc: Pc) { t in s.pcs && s'.pcs == s.pcs[t := pc] }

  lemma LockMove(s: State, s': State, t: Tid, pc: Pc)
    requires LockOK(s) && Moves(s, s', t, pc)
    requires || (Holds(pc) == Holds(s.pcs[t]) && s'.locked == s.locked)
             || (!s.locked && s'.locked) || (Holds(s.pcs[t]) && !Holds(pc))
    ensures LockOK(s')
  {
  }

  lemma LockKept(s: State, t: Tid, yes: bool)
    requires LockOK(s) && Enabled(s, t)
    ensures LockOK(Next(s, t, yes))
  {
    hide LockOK;
    var s' := Next(s, t, yes);
    match s.pcs[t]
    case Waking(w) =>
      if s' != s {
        var s1 := Go(s, w, Woken);
        LockMove(s, s1, w, Woken);
        LockMove(s1, s', t, s'.pcs[t]);
      }
    case Asleep =>
    case _ => LockMove(s, s', t, s'.pcs[t]);
  }

  // --------------------------------------------------------------------------- tokens

  function Token(pc: Pc): seq<Tid> { if pc.Took? || pc.Waking? then [pc.w] else [] }

  /** A step that neither adds nor takes an entry. */
  lemma SameTokens(s: State, s': State, t: Tid, pc: Pc)
    requires TokenOK(s) && LockOK(s) && Moves(s, s', t, pc) && s'.list == s.list
    requires (Waiting(pc) <==> Waiting(s.pcs[t])) && Token(pc) == Token(s.pcs[t])
    requires (pc.Raising? ==> pc.woken == []) && (s.pcs[t].Woken? ==> !s.locked)
    ensures TokenOK(s')
  {
    hide NoDuplicates;
    forall u, w
      ensures Has(s', u, w) <==> Has(s, u, w)
    {
      if u == t { assert Has(s', u, w) <==> w in Token(pc); assert Has(s, u, w) <==> w in Token(s.pcs[t]); }
    }
    assert forall w :: IsWaiting(s', w) <==> IsWaiting(s, w);
    forall u, w | u in s'.pcs && s'.pcs[u] == Raising([w])
      ensures w in s'.pcs && s'.pcs[w].Woken?
    {
      assert u != t && Holds(s.pcs[u]);
    }
  }

  lemma SplitNoDuplicates(l: seq<Tid>)
    requires NoDuplicates(l) && l != []
    ensures NoDuplicates(l[1..]) && l[0] !in l[1..] && forall x :: x in l <==> x == l[0] || x in l[1..]
  {
    assert l == [l[0]] + l[1..];
  }

  lemma TakeTokens(s: State, t: Tid)
    requires TokenOK(s) && t in s.pcs && s.pcs[t].Taking? && s.list != []
    ensures TokenOK(Next(s, t, true))
  {
    var s' := Next(s, t, true);
    SplitNoDuplicates(s.list);
    hide NoDuplicates;
    assert Has(s', t, s.list[0]);
    assert forall u, w :: Has(s', u, w) <==> Has(s, u, w) || (u == t && w == s.list[0]);
    assert forall w :: IsWaiting(s', w) <==> IsWaiting(s, w);
    forall w | IsWaiting(s', w) && w !in s'.list
      ensures exists u :: Has(s', u, w)
    {
      if w != s.list[0] {
        var u :| Has(s, u, w);
        assert Has(s', u, w);
      }
    }
  }

  lemma AppendTokens(s: State, t: Tid, yes: bool)
    requires TokenOK(s) && t in s.pcs && s.pcs[t].Adding?
    ensures TokenOK(Next(s, t, yes)) <==> yes
  {
    var s' := Next(s, t, yes);
    assert !IsWaiting(s, t);
    assert forall u, w :: Has(s', u, w) <==> Has(s, u, w);
    assert forall w :: IsWaiting(s', w) <==> IsWaiting(s, w) || w == t;
  }

  /** The signaller is the only one with a token, for it has the semaphore's lock. */
  lemma OnlyToken(s: State, t: Tid, w: Tid)
    requires TokenOK(s) && LockOK(s) && t in s.pcs && s.pcs[t] == Waking(w)
    ensures w !in s.list && (forall u, x :: Has(s, u, x) <==> u == t && x == w) && forall u :: u in s.pcs ==> !s.pcs[u].Raising?
  {
    hide NoDuplicates;
    assert Has(s, t, w);
    forall u | u in s.pcs && u != t
      ensures !Holds(s.pcs[u])
    {
      assert Holds(s.pcs[t]);
    }
  }

  lemma WakeFacts(s: State, t: Tid, w: Tid)
    requires TokenOK(s) && LockOK(s) && t in s.pcs && s.pcs[t] == Waking(w) && w in s.pcs && s.pcs[w].Asleep?
    ensures var s' := Next(s, t, true);
            && w !in s.list && (forall u, x :: !Has(s', u, x)) && (forall u, x :: Has(s, u, x) ==> x == w)
            && (forall x :: IsWaiting(s', x) <==> IsWaiting(s, x) && x != w)
            && forall u :: u in s.pcs && s.pcs[u].Raising? ==> false
  {
    hide TokenOK, LockOK, NextPc, Effect;
    OnlyToken(s, t, w);
    var s' := Next(s, t, true);
    forall u, x
      ensures !Has(s', u, x)
    {
      assert !Has(s, u, x) || (u == t && x == w);
    }
  }

  lemma WakeTokens(s: State, t: Tid, w: Tid)
    requires TokenOK(s) && LockOK(s) && t in s.pcs && s.pcs[t] == Waking(w) && w in s.pcs && s.pcs[w].Asleep?
    ensures TokenOK(Next(s, t, true))
  {
    hide NoDuplicates, Has, IsWaiting, LockOK, NextPc, Effect;
    WakeFacts(s, t, w);
  }

  lemma TokenKept(s: State, t: Tid, yes: bool)
    requires TokenOK(s) && LockOK(s) && Enabled(s, t)
    ensures TokenOK(Next(s, t, yes)) <==> Fine(s, t, yes)
  {
    hide TokenOK, LockOK;
    var s' := Next(s, t, yes);
    match s.pcs[t]
    case Adding => AppendTokens(s, t, yes);
    case Taking => if s.list != [] { TakeTokens(s, t); } else { SameTokens(s, s', t, NoOne); }
    case Waking(w) => if w in s.pcs && s.pcs[w].Asleep? { WakeTokens(s, t, w); }
    case Asleep =>
    case _ => SameTokens(s, s', t, s'.pcs[t]);
  }

  // ----------------------------------------------------------------------------- count

  ghost predicate SomeBetween(s: State) { exists t :: t in s.pcs && Between(s.pcs[t], s.count) }

  /** Only the lock holder can be in between. */
  lemma HolderCount(s: State, t: Tid)
    requires LockOK(s) && t in s.pcs && Holds(s.pcs[t])
    ensures SomeBetween(s) <==> Between(s.pcs[t], s.count)
  {
  }

  lemma NobodyBetween(s: State)
    requires LockOK(s) && forall t :: t in s.pcs ==> !Holds(s.pcs[t])
    ensures !SomeBetween(s)
  {
  }

  /** A step of the lock holder. */
  lemma HolderStep(s: State, s': State, t: Tid, pc: Pc)
    requires LockOK(s) && CountOK(s) && Moves(s, s', t, pc) && Holds(s.pcs[t]) && LockOK(s')
    requires CountAt(s', pc)
    requires var before := if Between(s.pcs[t], s.count) then |s.list| + 1 else |s.list|;
             before == Need(s.count) ==> (if Between(pc, s'.count) then |s'.list| + 1 else |s'.list|) == Need(s'.count)
    ensures CountOK(s')
  {
    HolderCount(s, t);
    forall u | u in s'.pcs
      ensures CountAt(s', s'.pcs[u])
    {
      if u != t { assert !Holds(s.pcs[u]); }
    }
    if Holds(pc) {
      HolderCount(s', t);
    } else {
      NobodyBetween(s');
    }
  }

  /** A step without the lock, or one that takes it. */
  lemma FreeStep(s: State, s': State, t: Tid, pc: Pc)
    requires LockOK(s) && CountOK(s) && Moves(s, s', t, pc) && !Holds(s.pcs[t]) && s'.count == s.count && s'.list == s.list
    requires CountAt(s', pc) && !Between(pc, s'.count)
    ensures CountOK(s')
  {
    if SomeBetween(s) {
      var u :| u in s.pcs && Between(s.pcs[u], s.count);
      assert Between(s'.pcs[u], s'.count);
    }
    if SomeBetween(s') {
      var u :| u in s'.pcs && Between(s'.pcs[u], s'.count);
      assert Between(s.pcs[u], s.count);
    }
    assert forall u :: u in s'.pcs && u != t ==> CountAt(s, s.pcs[u]);
  }

  lemma CountFacts(s: State, t: Tid)
    requires LockOK(s) && CountOK(s) && t in s.pcs && Holds(s.pcs[t])
    ensures CountAt(s, s.pcs[t])
    ensures (if Between(s.pcs[t], s.count) then |s.list| + 1 else |s.list|) == Need(s.count)
  {
    HolderCount(s, t);
  }

  lemma CountKept(s: State, t: Tid, yes: bool)
    requires LockOK(s) && TokenOK(s) && CountOK(s) && Enabled(s, t) && Fine(s, t, yes)
    ensures CountOK(Next(s, t, yes))
  {
    hide TokenOK, LockOK, CountOK, Moves;
    var s' := Next(s, t, yes);
    LockKept(s, t, yes);
    if s' == s {
    } else if s.pcs[t].Waking? {
      WakeCount(s, t);
    } else if Holds(s.pcs[t]) {
      HolderCountKept(s, t, yes);
    } else {
      FreeCountKept(s, t, yes);
    }
  }

  lemma HolderCountKept(s: State, t: Tid, yes: bool)
    requires LockOK(s) && CountOK(s) && Enabled(s, t) && LockOK(Next(s, t, yes)) && Holds(s.pcs[t]) && !s.pcs[t].Waking? && Fine(s, t, yes)
    ensures CountOK(Next(s, t, yes))
  {
    hide LockOK, CountOK, Moves;
    var s' := Next(s, t, yes);
    CountFacts(s, t);
    MovesOn(s, t, yes);
    HolderStep(s, s', t, NextPc(s, t, yes));
  }

  lemma FreeCountKept(s: State, t: Tid, yes: bool)
    requires LockOK(s) && CountOK(s) && Enabled(s, t) && !Holds(s.pcs[t])
    ensures CountOK(Next(s, t, yes))
  {
    hide LockOK, CountOK, Moves;
    var s' := Next(s, t, yes);
    MovesOn(s, t, yes);
    FreeStep(s, s', t, NextPc(s, t, yes));
  }

  lemma MovesOn(s: State, t: Tid, yes: bool)
    requires Enabled(s, t) && !s.pcs[t].Waking?
    ensures Moves(s, Next(s, t, yes), t, NextPc(s, t, yes))
  {
    hide NextPc, Effect;
  }

  lemma WakeCount(s: State, t: Tid)
    requires LockOK(s) && CountOK(s) && Enabled(s, t) && s.pcs[t].Waking?
    ensures CountOK(Next(s, t, true))
  {
    var s' := Next(s, t, true);
    if s' != s {
      var s1 := Go(s, s.pcs[t].w, Woken);
      FreeStep(s, s1, s.pcs[t].w, Woken);
      LockMove(s, s1, s.pcs[t].w, Woken);
      LockKept(s, t, true);
      CountFacts(s, t);
      HolderStep(s1, s', t, s'.pcs[t]);
    }
  }

  // ----------------------------------------------------------------------------- books

  lemma InsideMove(s: State, s': State, t: Tid, pc: Pc)
    requires Moves(s, s', t, pc)
    ensures |Inside(s')| == |Inside(s)| + (if Within(pc) then 1 else 0) - if Within(s.pcs[t]) then 1 else 0
  {
    var rest := Inside(s) - {t};
    assert Inside(s) == if Within(s.pcs[t]) then rest + {t} else rest;
    assert Inside(s') == if Within(pc) then rest + {t} else rest;
  }

  lemma BooksKept(s: State, t: Tid, yes: bool, initial: int)
    requires BooksOK(s, initial) && Enabled(s, t)
    ensures BooksOK(Next(s, t, yes), initial)
  {
    hide Inside, Moves, NextPc, Effect, Within, Blocked;
    var s' := Next(s, t, yes);
    if s.pcs[t].Waking? {
      WakeBooks(s, t, initial);
    } else {
      MovesOn(s, t, yes);
      InsideMove(s, s', t, NextPc(s, t, yes));
      BooksMove(s, t, yes, initial);
    }
  }

  /** The books after a step that wakes nobody, given who is inside a wait then. */
  lemma BooksMove(s: State, t: Tid, yes: bool, initial: int)
    requires BooksOK(s, initial) && Enabled(s, t) && !s.pcs[t].Waking?
    requires |Inside(Next(s, t, yes))| == |Inside(s)| + (if Within(NextPc(s, t, yes)) then 1 else 0) - if Within(s.pcs[t]) then 1 else 0
    ensures BooksOK(Next(s, t, yes), initial)
  {
    hide Inside, Blocked;
  }

  lemma WakeBooks(s: State, t: Tid, initial: int)
    requires BooksOK(s, initial) && Enabled(s, t) && s.pcs[t].Waking?
    ensures BooksOK(Next(s, t, true), initial)
  {
    hide Inside, Moves;
    var s' := Next(s, t, true);
    if s' != s {
      var s1 := Go(s, s.pcs[t].w, Woken);
      WakeMoves(s, t);
      InsideMove(s, s1, s.pcs[t].w, Woken);
      InsideMove(s1, s', t, s'.pcs[t]);
    }
  }

  lemma WakeMoves(s: State, t: Tid)
    requires Enabled(s, t) && s.pcs[t].Waking? && Next(s, t, true) != s
    ensures var w, s' := s.pcs[t].w, Next(s, t, true); var s1 := Go(s, w, Woken);
            w in s.pcs && s.pcs[w].Asleep? && w != t && Moves(s, s1, w, Woken) && Moves(s1, s', t, s'.pcs[t]) && s'.pcs[t] == Raising([w])
  {
  }

  /** Each step keeps everything, if and only if it refuses no entry. */
  lemma StepKeeps(s: State, t: Tid, yes: bool, initial: int)
    requires Inv(s, initial) && Enabled(s, t)
    ensures Inv(Next(s, t, yes), initial) <==> Fine(s, t, yes)
  {
    hide LockOK, TokenOK, CountOK, BooksOK;
    LockKept(s, t, yes);
    TokenKept(s, t, yes);
    if Fine(s, t, yes) {
      CountKept(s, t, yes);
      BooksKept(s, t, yes, initial);
    }
  }

  // --------------------------------------------------------------------------- progress

  /** How many steps of its own a thread is at most from being outside or asleep. */
  function Left(pc: Pc): nat {
    match pc
    case Outside => 0 case Asleep => 0
    case WantWait => 8 case Lowering => 7 case Lowered => 6 case WantAdd => 5 case Adding => 4 case Added => 3 case Letting => 2
    case Drowsy => 1 case Woken => 2 case LeavingWait => 1
    case WantSignal => 8 case Checking => 7 case WantTake => 6 case Taking => 5 case NoOne => 3 case Took(_) => 4 case Waking(_) => 3
    case Raising(_) => 2 case LeavingSignal => 1
  }

  /** Each step brings a call nearer to its end, but for an attempt to wake a thread that is
      not asleep yet; an attempt on one that is asleep wakes it. */
  lemma Advances(s: State, t: Tid, yes: bool)
    requires LockOK(s) && TokenOK(s) && CountOK(s) && Enabled(s, t)
    ensures var s', pc := Next(s, t, yes), s.pcs[t];
            && t in s'.pcs
            && (pc.Outside? ==> s' == s.(pcs := s.pcs[t := if yes then WantSignal else WantWait]))
            && (!pc.Outside? && !pc.Waking? ==> Left(s'.pcs[t]) < Left(pc))
            && (pc.Waking? ==>
                  pc.w in s.pcs && Waiting(s.pcs[pc.w])
                  && if s.pcs[pc.w].Asleep? then s'.pcs[pc.w].Woken? && s'.pcs[t].Raising? else s' == s)
  {
    hide NoDuplicates, CountOK;
    if s.pcs[t].Waking? {
      assert Has(s, t, s.pcs[t].w);
    }
  }

  // ------------------------------------------------------------------------ main results

  /** sem_init, with nobody inside. */
  ghost predicate Start(s: State, initial: int) {
    && s.count == initial && !s.locked && s.list == [] && s.begun == 0 && s.completed == 0 && s.raised == 0
    && forall t :: t in s.pcs ==> s.pcs[t].Outside?
  }

  /** The invariant holds at first if and only if the semaphore does not start below
      zero. */
  lemma StartInv(s: State, initial: int)
    requires Start(s, initial)
    ensures Inv(s, initial) <==> initial >= 0
  {
    assert Inside(s) == {};
    assert !SomeBetween(s);
  }

  ghost predicate IsRun(states: seq<State>, steps: seq<(Tid, bool)>, initial: int) {
    && |states| == |steps| + 1 && Start(states[0], initial)
    && forall i :: 0 <= i < |steps| ==> Can(states[i], steps[i].0, steps[i].1) && states[i + 1] == Next(states[i], steps[i].0, steps[i].1)
  }

  /** No entry is refused in the first `n` steps. */
  ghost predicate AllGranted(states: seq<State>, steps: seq<(Tid, bool)>, n: nat)
    requires n <= |states| && n <= |steps|
  {
    forall i :: 0 <= i < n ==> Fine(states[i], steps[i].0, steps[i].1)
  }

  /** The invariant lasts exactly until an entry is refused. */
  lemma {:induction false} RunInv(states: seq<State>, steps: seq<(Tid, bool)>, initial: int, n: nat)
    requires IsRun(states, steps, initial) && initial >= 0 && n < |states| && (n > 0 ==> AllGranted(states, steps, n - 1))
    ensures Inv(states[n], initial) <==> AllGranted(states, steps, n)
  {
    hide Inv;
    if n == 0 {
      StartInv(states[0], initial);
    } else {
      RunInv(states, steps, initial, n - 1);
      StepKeeps(states[n - 1], steps[n - 1].0, steps[n - 1].1, initial);
    }
  }

  /** Whenever the semaphore's lock is free, as many threads are listed as the count is
      below zero. */
  lemma ListMatchesCount(states: seq<State>, steps: seq<(Tid, bool)>, initial: int, n: nat)
    requires IsRun(states, steps, initial) && initial >= 0 && n < |states| && AllGranted(states, steps, n) && !states[n].locked
    ensures |states[n].list| == if states[n].count < 0 then -states[n].count else 0
  {
    RunInv(states, steps, initial, n);
    NobodyBetween(states[n]);
  }

  /** A signal that finds the count below zero finds somebody to wake. */
  lemma SignalFinds(states: seq<State>, steps: seq<(Tid, bool)>, initial: int, n: nat, t: Tid)
    requires IsRun(states, steps, initial) && initial >= 0 && n < |states| && AllGranted(states, steps, n) && t in states[n].pcs
    ensures !states[n].pcs[t].NoOne? && (states[n].pcs[t].Taking? ==> states[n].list != [])
  {
    RunInv(states, steps, initial, n);
    if Holds(states[n].pcs[t]) { CountFacts(states[n], t); }
  }

  /** At most one thread is between locking and unlocking the semaphore. */
  lemma Exclusion(states: seq<State>, steps: seq<(Tid, bool)>, initial: int, n: nat, t: Tid, u: Tid)
    requires IsRun(states, steps, initial) && initial >= 0 && n < |states| && AllGranted(states, steps, n)
    requires t in states[n].pcs && u in states[n].pcs && Holds(states[n].pcs[t]) && Holds(states[n].pcs[u])
    ensures t == u
  {
    RunInv(states, steps, initial, n);
  }

  lemma {:induction false} DistinctMembers(l: seq<Tid>) returns (m: set<Tid>)
    requires NoDuplicates(l)
    ensures |m| == |l| && forall x :: x in m <==> x in l
  {
    if l == [] {
      m := {};
    } else {
      SplitNoDuplicates(l);
      var rest := DistinctMembers(l[1..]);
      m := rest + {l[0]};
    }
  }

  /** At least as many threads are inside a wait as the count is below zero. */
  lemma EnoughInside(s: State)
    requires LockOK(s) && TokenOK(s) && CountOK(s)
    ensures Need(s.count) <= |Inside(s)|
  {
    var m := DistinctMembers(s.list);
    assert m <= Inside(s);
    if SomeBetween(s) {
      var t :| t in s.pcs && Between(s.pcs[t], s.count);
      var x := Extra(s, t);
      assert m + {x} <= Inside(s);
      Fewer(m + {x}, Inside(s));
    } else {
      Fewer(m, Inside(s));
    }
  }

  lemma Fewer(a: set<Tid>, b: set<Tid>)
    requires a <= b
    ensures |a| <= |b|
  {
    assert b == a + (b - a);
  }

  /** The thread by which the count and the list differ: the one that has lowered the
      count and is not listed yet, or the one taken off the list. */
  lemma Extra(s: State, t: Tid) returns (x: Tid)
    requires LockOK(s) && TokenOK(s) && CountOK(s) && t in s.pcs && Between(s.pcs[t], s.count)
    ensures x in Inside(s) && x !in s.list
  {
    hide NoDuplicates;
    CountFacts(s, t);
    var pc := s.pcs[t];
    if pc.Took? || pc.Waking? {
      x := pc.w;
      assert Has(s, t, x);
    } else if pc.Raising? {
      x := pc.woken[0];
      assert pc == Raising([x]);
      assert x in s.list ==> IsWaiting(s, x);
    } else {
      x := t;
      assert x in s.list ==> IsWaiting(s, x);
    }
  }

  /** No wait returns without a unit of the semaphore: those completed never exceed the
      initial count and the signals together. */
  lemma WaitsAreCovered(states: seq<State>, steps: seq<(Tid, bool)>, initial: int, n: nat)
    requires IsRun(states, steps, initial) && initial >= 0 && n < |states| && AllGranted(states, steps, n)
    ensures states[n].completed <= initial + states[n].raised
  {
    RunInv(states, steps, initial, n);
    EnoughInside(states[n]);
  }
}
