/** The condition variables of the thread library, over deschedule and make_runnable. */
module CondVar {
  import opened Basics

  type Tid = nat

  /** Where a thread is: outside; in cond_wait before and after it has appended itself,
      holding the variable's lock; registered, with the lock released, but not asleep yet;
      descheduled; in cond_signal or cond_broadcast before and after it has taken entries
      off the list; waking what it took. */
  datatype Pc =
    | Outside
    | WantAdd | Adding | Added | Drowsy | Asleep
    | WantTake(all: bool) | Taking(all: bool) | Took(todo: seq<Tid>) | Waking(todo: seq<Tid>)

  /** `locked` is the state word of the variable's mutex. */
  datatype State = State(pcs: map<Tid, Pc>, locked: bool, list: seq<Tid>)

  datatype Event =
    | Wait(t: Tid) | LockAdd(t: Tid) | Append(t: Tid, granted: bool) | UnlockAdd(t: Tid) | Deschedule(t: Tid)
    | Notify(t: Tid, all: bool) | LockTake(t: Tid) | Take(t: Tid) | UnlockTake(t: Tid) | MakeRunnable(t: Tid) | Return(t: Tid)

  /** A refused entry of the list is noticed by nobody, unless the list is empty: then the
      program follows a null pointer, which ends the process. */
  predicate Enabled(s: State, e: Event) {
    && e.t in s.pcs
    && var pc := s.pcs[e.t];
       match e
       case Wait(_) => pc.Outside?
       case LockAdd(_) => pc.WantAdd? && !s.locked
       case Append(_, granted) => pc.Adding? && (granted || s.list != [])
       case UnlockAdd(_) => pc.Added?
       case Deschedule(_) => pc.Drowsy?
       case Notify(_, _) => pc.Outside?
       case LockTake(_) => pc.WantTake? && !s.locked
       case Take(_) => pc.Taking?
       case UnlockTake(_) => pc.Took?
       case MakeRunnable(_) => pc.Waking? && pc.todo != []
       case Return(_) => pc.Waking? && pc.todo == []
  }

  function Go(s: State, t: Tid, pc: Pc): State { s.(pcs := s.pcs[t := pc]) }

  /** An attempt to make a thread runnable that is not descheduled yet changes nothing; the
      caller yields to it and tries again. */
  function Next(s: State, e: Event): State
    requires Enabled(s, e)
  {
    var t := e.t;
    match e
    case Wait(_) => Go(s, t, WantAdd)
    case LockAdd(_) => Go(s, t, Adding).(locked := true)
    case Append(_, granted) => Go(s, t, Added).(list := if granted then s.list + [t] else s.list)
    case UnlockAdd(_) => Go(s, t, Drowsy).(locked := false)
    case Deschedule(_) => Go(s, t, Asleep)
    case Notify(_, all) => Go(s, t, WantTake(all))
    case LockTake(_) => Go(s, t, Taking(s.pcs[t].all)).(locked := true)
    case Take(_) =>
      if s.list == [] then Go(s, t, Took([]))
      else if s.pcs[t].all then Go(s, t, Took(s.list)).(list := [])
      else Go(s, t, Took([s.list[0]])).(list := s.list[1..])
    case UnlockTake(_) => Go(s, t, Waking(s.pcs[t].todo)).(locked := false)
    case MakeRunnable(_) =>
      var todo := s.pcs[t].todo;
      if todo[0] in s.pcs && s.pcs[todo[0]].Asleep? then Go(Go(s, todo[0], Outside), t, Waking(todo[1..])) else s
    case Return(_) => Go(s, t, Outside)
  }

  // -------------------------------------------------------------------- the invariant

  predicate Holds(pc: Pc) { pc.Adding? || pc.Added? || pc.Taking? || pc.Took? }

  /** Registered and not yet woken. */
  predicate Waiting(pc: Pc) { pc.Added? || pc.Drowsy? || pc.Asleep? }

  function Todo(pc: Pc): seq<Tid> { if pc.Took? || pc.Waking? then pc.todo else [] }

  /** At most one thread holds the lock, and then it is set. */
  ghost predicate LockOK(s: State) {
    && (forall t :: t in s.pcs && Holds(s.pcs[t]) ==> s.locked)
    && (forall t, u :: t in s.pcs && u in s.pcs && Holds(s.pcs[t]) && Holds(s.pcs[u]) ==> t == u)
  }

  /** Signaller `u` has taken the entry of `w` and has not woken it yet. */
  ghost predicate Has(s: State, u: Tid, w: Tid) { u in s.pcs && w in Todo(s.pcs[u]) }

  ghost predicate IsWaiting(s: State, w: Tid) { w in s.pcs && Waiting(s.pcs[w]) }

  /** Each waiter has exactly one token: an entry in the list, or one that a signaller took
      off it. */
  ghost predicate TokenOK(s: State) {
    && NoDuplicates(s.list)
    && (forall u :: u in s.pcs ==> NoDuplicates(Todo(s.pcs[u])))
    && (forall w :: IsWaiting(s, w) ==> w in s.list || exists u :: Has(s, u, w))
    && (forall w :: w in s.list ==> IsWaiting(s, w))
    && (forall u, w :: Has(s, u, w) ==> IsWaiting(s, w) && w !in s.list)
    && (forall u, v, w :: Has(s, u, w) && Has(s, v, w) ==> u == v)
  }

  /** Every entry asked for is granted. */
  predicate Granted(e: Event) { e.Append? ==> e.granted }

  ghost predicate Inv(s: State) { LockOK(s) && TokenOK(s) }

  lemma LockKept(s: State, e: Event)
    requires Inv(s) && Enabled(s, e)
    ensures LockOK(Next(s, e))
  {
  }

  /** What a step does to tokens: those in the list, those taken, and who waits. */
  lemma TokenKept(s: State, e: Event)
    requires Inv(s) && Enabled(s, e)
    ensures TokenOK(Next(s, e)) <==> Granted(e)
  {
    match e
    case Append(t, granted) => AppendTokens(s, t, granted);
    case Take(t) => TakeTokens(s, t);
    case MakeRunnable(t) => WakeTokens(s, t);
    case _ => SameTokens(s, Next(s, e));
  }

  /** Steps that neither add nor take an entry. */
  lemma SameTokens(s: State, s': State)
    requires TokenOK(s) && s'.list == s.list && s'.pcs.Keys == s.pcs.Keys
    requires forall t :: t in s.pcs ==> (Waiting(s'.pcs[t]) <==> Waiting(s.pcs[t])) && Todo(s'.pcs[t]) == Todo(s.pcs[t])
    ensures TokenOK(s')
  {
    hide NoDuplicates;
    assert forall u, w :: Has(s', u, w) <==> Has(s, u, w);
    assert forall w :: IsWaiting(s', w) <==> IsWaiting(s, w);
  }

  lemma AppendTokens(s: State, t: Tid, granted: bool)
    requires TokenOK(s) && Enabled(s, Append(t, granted))
    ensures TokenOK(Next(s, Append(t, granted))) <==> granted
    ensures !granted ==> Lost(Next(s, Append(t, granted)), t)
  {
    var s' := Next(s, Append(t, granted));
    assert forall u, w :: Has(s', u, w) <==> Has(s, u, w);
    assert forall w :: IsWaiting(s', w) <==> IsWaiting(s, w) || w == t;
    assert !IsWaiting(s, t);
  }

  /** A waiter without a token. */
  ghost predicate Lost(s: State, w: Tid) { IsWaiting(s, w) && w !in s.list && forall u :: !Has(s, u, w) }

  lemma SplitNoDuplicates(l: seq<Tid>, r: seq<Tid>)
    requires NoDuplicates(l + r)
    ensures NoDuplicates(l) && NoDuplicates(r) && forall x :: x in l ==> x !in r
  {
    assert forall i :: 0 <= i < |l| ==> (l + r)[i] == l[i];
    assert forall j :: 0 <= j < |r| ==> (l + r)[|l| + j] == r[j];
  }

  lemma TakeFacts(s: State, t: Tid)
    requires Enabled(s, Take(t))
    ensures t in Next(s, Take(t)).pcs
    ensures var s' := Next(s, Take(t)); var taken := Todo(s'.pcs[t]);
            && s.list == taken + s'.list
            && (forall u, w :: Has(s', u, w) <==> Has(s, u, w) || (u == t && w in taken))
            && (forall w :: IsWaiting(s', w) <==> IsWaiting(s, w))
            && (forall u :: u in s'.pcs ==> u in s.pcs && (u != t ==> s'.pcs[u] == s.pcs[u]))
  {
  }

  lemma TakeTokens(s: State, t: Tid)
    requires TokenOK(s) && Enabled(s, Take(t))
    ensures TokenOK(Next(s, Take(t)))
  {
    hide NoDuplicates, Has, IsWaiting, Next;
    var s' := Next(s, Take(t));
    TakeFacts(s, t);
    var taken := Todo(s'.pcs[t]);
    SplitNoDuplicates(taken, s'.list);
    forall w | IsWaiting(s', w) && w !in s'.list
      ensures exists u :: Has(s', u, w)
    {
      if w in taken {
        assert Has(s', t, w);
      } else {
        var u :| Has(s, u, w);
        assert Has(s', u, w);
      }
    }
  }

  lemma WakeFacts(s: State, t: Tid)
    requires TokenOK(s) && Enabled(s, MakeRunnable(t)) && Next(s, MakeRunnable(t)) != s
    ensures var s', x := Next(s, MakeRunnable(t)), s.pcs[t].todo[0];
            && Has(s, t, x) && NoDuplicates(s.pcs[t].todo[1..]) && s'.list == s.list && x !in s.list
            && (forall u, w :: Has(s', u, w) <==> Has(s, u, w) && w != x)
            && (forall w :: IsWaiting(s', w) <==> IsWaiting(s, w) && w != x)
            && s'.pcs[t] == Waking(s.pcs[t].todo[1..]) && x in s'.pcs && s'.pcs[x] == Outside
            && (forall u :: u in s'.pcs ==> u in s.pcs && (u != t && u != x ==> s'.pcs[u] == s.pcs[u]))
  {
    var s', todo := Next(s, MakeRunnable(t)), s.pcs[t].todo;
    var x := todo[0];
    assert todo == [x] + todo[1..];
    SplitNoDuplicates([x], todo[1..]);
    assert Has(s, t, x);
    forall u, w
      ensures Has(s', u, w) <==> Has(s, u, w) && w != x
    {
      if Has(s, u, w) && u != t { assert w == x ==> u == t; }
    }
  }

  lemma WakeTokens(s: State, t: Tid)
    requires TokenOK(s) && Enabled(s, MakeRunnable(t))
    ensures TokenOK(Next(s, MakeRunnable(t)))
  {
    hide NoDuplicates, Has, IsWaiting, Next;
    var s' := Next(s, MakeRunnable(t));
    if s' != s {
      WakeFacts(s, t);
      NothingTwice();
      forall w | IsWaiting(s', w) && w !in s'.list
        ensures exists u :: Has(s', u, w)
      {
        var u :| Has(s, u, w);
        assert Has(s', u, w);
      }
    }
  }

  lemma NothingTwice()
    ensures NoDuplicates([])
  {
  }

  lemma StepKeeps(s: State, e: Event)
    requires Inv(s) && Enabled(s, e)
    ensures Inv(Next(s, e)) <==> Granted(e)
  {
    LockKept(s, e);
    TokenKept(s, e);
  }

  /** A freshly initialized variable: nobody is inside. */
  ghost predicate Initial(s: State) { s.list == [] && !s.locked && forall t :: t in s.pcs ==> s.pcs[t].Outside? }

  ghost predicate IsRun(states: seq<State>, events: seq<Event>) {
    && |states| == |events| + 1 && Initial(states[0])
    && forall i :: 0 <= i < |events| ==> Enabled(states[i], events[i]) && states[i + 1] == Next(states[i], events[i])
  }

  /** The invariant lasts exactly until an entry is refused. */
  lemma {:induction false} RunInv(states: seq<State>, events: seq<Event>, n: nat)
    requires IsRun(states, events) && n < |states| && forall i :: 0 <= i < n - 1 ==> Granted(events[i])
    ensures Inv(states[n]) <==> n == 0 || Granted(events[n - 1])
  {
    if n > 0 {
      RunInv(states, events, n - 1);
      StepKeeps(states[n - 1], events[n - 1]);
    }
  }

  // --------------------------------------------------------------------- main results

  /** A waiter whose entry was refused is never woken: whatever happens, it stays without a
      token. */
  lemma LostStays(s: State, e: Event, w: Tid)
    requires Lost(s, w) && Enabled(s, e)
    ensures Lost(Next(s, e), w)
  {
    var s' := Next(s, e);
    if e.MakeRunnable? { assert Has(s, e.t, s.pcs[e.t].todo[0]); }
    if e.Take? { TakeFacts(s, e.t); }
    forall u
      ensures !Has(s', u, w)
    {
      assert !Has(s, u, w);
    }
  }

  lemma {:induction false} LostForever(states: seq<State>, events: seq<Event>, m: nat, n: nat, w: Tid)
    requires IsRun(states, events) && m <= n < |states| && Lost(states[m], w)
    ensures Lost(states[n], w)
  {
    if m < n {
      LostForever(states, events, m, n - 1, w);
      LostStays(states[n - 1], events[n - 1], w);
    }
  }

  /** Threads 1 and 2 in cond_wait. */
  function Pair(a: Pc, b: Pc, locked: bool, list: seq<Tid>): State { State(map[1 := a, 2 := b], locked, list) }

  ghost predicate Goes(s: State, e: Event, s': State) { Enabled(s, e) && s' == Next(s, e) }

  lemma FirstWaits()
    ensures Goes(Pair(Outside, Outside, false, []), Wait(1), Pair(WantAdd, Outside, false, []))
    ensures Goes(Pair(WantAdd, Outside, false, []), LockAdd(1), Pair(Adding, Outside, true, []))
    ensures Goes(Pair(Adding, Outside, true, []), Append(1, true), Pair(Added, Outside, true, [1]))
    ensures Goes(Pair(Added, Outside, true, [1]), UnlockAdd(1), Pair(Drowsy, Outside, false, [1]))
  {
  }

  lemma SecondWaits()
    ensures Goes(Pair(Drowsy, Outside, false, [1]), Wait(2), Pair(Drowsy, WantAdd, false, [1]))
    ensures Goes(Pair(Drowsy, WantAdd, false, [1]), LockAdd(2), Pair(Drowsy, Adding, true, [1]))
    ensures Goes(Pair(Drowsy, Adding, true, [1]), Append(2, false), Pair(Drowsy, Added, true, [1]))
    ensures Lost(Pair(Drowsy, Added, true, [1]), 2) && Initial(Pair(Outside, Outside, false, []))
  {
  }

  /** A run to such a waiter: the second of two gets no entry. */
  lemma LostReachable() returns (states: seq<State>, events: seq<Event>)
    ensures IsRun(states, events) && Lost(states[|events|], 2)
  {
    hide Enabled, Next, Pair, Lost, Initial;
    FirstWaits();
    SecondWaits();
    events := [Wait(1), LockAdd(1), Append(1, true), UnlockAdd(1), Wait(2), LockAdd(2), Append(2, false)];
    states := [Pair(Outside, Outside, false, []), Pair(WantAdd, Outside, false, []), Pair(Adding, Outside, true, []),
               Pair(Added, Outside, true, [1]), Pair(Drowsy, Outside, false, [1]), Pair(Drowsy, WantAdd, false, [1]),
               Pair(Drowsy, Adding, true, [1]), Pair(Drowsy, Added, true, [1])];
  }

  /** In every reachable state, while every entry is granted, a waiter has one token, in one place. */
  lemma OneToken(states: seq<State>, events: seq<Event>, n: nat, w: Tid)
    requires IsRun(states, events) && n < |states| && forall i :: 0 <= i < n ==> Granted(events[i])
    ensures var s := states[n];
            && (IsWaiting(s, w) <==> (w in s.list || exists u :: Has(s, u, w)))
            && (forall i, j :: 0 <= i < |s.list| && 0 <= j < |s.list| && s.list[i] == w == s.list[j] ==> i == j)
            && (forall u :: Has(s, u, w) ==> w !in s.list)
            && (forall u, v :: Has(s, u, w) && Has(s, v, w) ==> u == v)
  {
    RunInv(states, events, n);
  }

  /** A waiter whose entry was taken stays registered, even before it has descheduled
      itself, until the very signaller that took the entry makes it runnable; then it
      leaves cond_wait and the token is gone. */
  lemma TakenIsWoken(s: State, e: Event, u: Tid, w: Tid)
    requires Inv(s) && Enabled(s, e) && Granted(e) && Has(s, u, w)
    ensures || (Has(Next(s, e), u, w) && IsWaiting(Next(s, e), w))
            || (e == MakeRunnable(u) && s.pcs[w].Asleep? && Next(s, e).pcs[w].Outside? && !exists v :: Has(Next(s, e), v, w))
  {
    StepKeeps(s, e);
    if e.MakeRunnable? {
      var todo := s.pcs[e.t].todo;
      assert Has(s, e.t, todo[0]);
      assert todo == [todo[0]] + todo[1..];
      if Next(s, e) != s { WakeFacts(s, e.t); }
    }
  }

  /** A waiter in the list stays there until its entry is taken, and nobody overtakes it. */
  lemma ListedIsNext(s: State, e: Event, i: nat)
    requires Inv(s) && Enabled(s, e) && i < |s.list|
    ensures var s' := Next(s, e); var w := s.list[i];
            || (exists j :: 0 <= j <= i && j < |s'.list| && s'.list[j] == w)
            || (e.Take? && Has(s', e.t, w))
  {
    var s', w := Next(s, e), s.list[i];
    if e.Take? {
      var taken := Todo(s'.pcs[e.t]);
      assert s.list == taken + s'.list;
      if i < |taken| {
        assert taken[i] == w;
      } else {
        assert s'.list[i - |taken|] == w;
      }
    } else {
      assert s'.list[i] == w;
    }
  }

  /** A signal with somebody in the list takes exactly the first; a broadcast takes all. */
  lemma TakesFirst(s: State, t: Tid)
    requires Enabled(s, Take(t))
    ensures var s' := Next(s, Take(t));
            && Todo(s'.pcs[t]) + s'.list == s.list
            && |Todo(s'.pcs[t])| == if s.pcs[t].all then |s.list| else if s.list == [] then 0 else 1
  {
    assert s.list != [] ==> s.list == [s.list[0]] + s.list[1..];
  }

  // ------------------------------------------------------------------------- waking works

  /** make_runnable on a thread that is asleep wakes exactly that one, however many the
      caller has still to wake; on one that is not asleep yet it changes nothing. */
  lemma WakesOne(s: State, u: Tid)
    requires Inv(s) && Enabled(s, MakeRunnable(u))
    ensures var s', w := Next(s, MakeRunnable(u)), s.pcs[u].todo[0];
            && w in s.pcs && Waiting(s.pcs[w])
            && (s.pcs[w].Asleep? ==>
                  && s'.pcs == s.pcs[w := Outside][u := Waking(s.pcs[u].todo[1..])] && w != u
                  && s'.list == s.list && s'.locked == s.locked)
            && (!s.pcs[w].Asleep? ==> s' == s)
  {
    var w := s.pcs[u].todo[0];
    assert Has(s, u, w);
  }

  /** The state after so many more wake-ups by `u`. */
  function WakeUps(s: State, u: Tid, n: nat): State
    decreases n
  {
    if n > 0 && Enabled(s, MakeRunnable(u)) then WakeUps(Next(s, MakeRunnable(u)), u, n - 1) else s
  }

  /** Once all that a signaller has taken are asleep, as many wake-ups as there are leave
      every one of them outside, and nobody else is touched. */
  lemma {:induction false} AllAreWoken(s: State, u: Tid)
    requires Inv(s) && u in s.pcs && s.pcs[u].Waking? && forall w :: w in s.pcs[u].todo ==> w in s.pcs && s.pcs[w].Asleep?
    ensures var todo := s.pcs[u].todo; var s' := WakeUps(s, u, |todo|);
            && Inv(s') && s'.list == s.list && s'.pcs.Keys == s.pcs.Keys && s'.pcs[u] == Waking([])
            && (forall w :: w in todo ==> s'.pcs[w].Outside?)
            && (forall w :: w in s.pcs && w !in todo && w != u ==> s'.pcs[w] == s.pcs[w])
    decreases |s.pcs[u].todo|
  {
    hide Inv, Next;
    var todo := s.pcs[u].todo;
    if todo != [] {
      var s1 := Next(s, MakeRunnable(u));
      WakesOne(s, u);
      StepKeeps(s, MakeRunnable(u));
      TodoOnce(s, u);
      AllAreWoken(s1, u);
    }
  }

  lemma TodoOnce(s: State, u: Tid)
    requires Inv(s) && u in s.pcs && s.pcs[u].Waking? && s.pcs[u].todo != []
    ensures var todo := s.pcs[u].todo; todo[0] !in todo[1..] && (forall w :: w in todo <==> w == todo[0] || w in todo[1..]) && u !in todo
  {
    var todo := s.pcs[u].todo;
    assert todo == [todo[0]] + todo[1..];
    SplitNoDuplicates([todo[0]], todo[1..]);
    assert u in todo ==> Has(s, u, u);
  }

  /** How often `u` makes a thread runnable from the m-th event up to the n-th. */
  function Attempts(events: seq<Event>, m: nat, n: nat, u: Tid): nat
    requires m <= n <= |events|
  {
    if m == n then 0 else Attempts(events, m, n - 1, u) + if events[n - 1] == MakeRunnable(u) then 1 else 0
  }

  /** Whatever the other threads do meanwhile: the i-th attempt of `u` wakes the i-th of those
      it has taken, if they are all asleep when it begins. */
  lemma {:induction false} WakesInOrder(states: seq<State>, events: seq<Event>, m: nat, n: nat, u: Tid)
    requires IsRun(states, events) && m <= n < |states| && (forall i :: 0 <= i < n ==> Granted(events[i]))
    requires u in states[m].pcs && states[m].pcs[u].Waking? && Attempts(events, m, n, u) <= |states[m].pcs[u].todo|
    requires forall w :: w in states[m].pcs[u].todo ==> w in states[m].pcs && states[m].pcs[w].Asleep?
    requires forall i :: m <= i < n ==> events[i] != Return(u)
    ensures var todo, c := states[m].pcs[u].todo, Attempts(events, m, n, u);
            && u in states[n].pcs && states[n].pcs[u] == Waking(todo[c..])
            && (forall w :: w in todo[c..] ==> w in states[n].pcs && states[n].pcs[w].Asleep?)
            && forall k :: 0 <= k < c ==> WokenBy(states, events, m, n, u, todo[k])
  {
    hide Inv, Enabled, Next, Has, WokenAt;
    var todo := states[m].pcs[u].todo;
    if n > m {
      var c, s, e := Attempts(events, m, n - 1, u), states[n - 1], events[n - 1];
      WakesInOrder(states, events, m, n - 1, u);
      RunInv(states, events, n - 1);
      if e == MakeRunnable(u) {
        assert todo[c..] != [] && todo[c..][0] == todo[c] && todo[c..][1..] == todo[c + 1..];
        WakesOne(s, u);
        TodoOnce(s, u);
        WokenNow(states, events, n - 1, u, todo[c]);
      } else {
        OthersLeaveAlone(s, e, u);
      }
      forall k | 0 <= k < Attempts(events, m, n, u)
        ensures WokenBy(states, events, m, n, u, todo[k])
      {
        if k < c {
          var i :| m <= i < n - 1 && WokenAt(states, events, i, u, todo[k]);
        } else {
          assert WokenAt(states, events, n - 1, u, todo[k]);
        }
      }
    }
  }

  ghost predicate WokenBy(states: seq<State>, events: seq<Event>, m: nat, n: nat, u: Tid, w: Tid) {
    exists i :: m <= i < n && WokenAt(states, events, i, u, w)
  }

  ghost predicate WokenAt(states: seq<State>, events: seq<Event>, i: nat, u: Tid, w: Tid) {
    i < |events| < |states| && events[i] == MakeRunnable(u) && w in states[i].pcs && states[i].pcs[w].Asleep?
    && w in states[i + 1].pcs && states[i + 1].pcs[w].Outside?
  }

  lemma WokenNow(states: seq<State>, events: seq<Event>, i: nat, u: Tid, w: Tid)
    requires IsRun(states, events) && i < |events| && events[i] == MakeRunnable(u) && Inv(states[i])
    requires u in states[i].pcs && states[i].pcs[u].Waking? && states[i].pcs[u].todo != [] && w == states[i].pcs[u].todo[0]
    requires w in states[i].pcs && states[i].pcs[w].Asleep?
    ensures WokenAt(states, events, i, u, w)
  {
    WakesOne(states[i], u);
  }

  /** No other thread wakes those that `u` has taken. */
  lemma OthersLeaveAlone(s: State, e: Event, u: Tid)
    requires Inv(s) && Enabled(s, e) && e != MakeRunnable(u) && e != Return(u)
    requires u in s.pcs && s.pcs[u].Waking? && forall w :: w in s.pcs[u].todo ==> w in s.pcs && s.pcs[w].Asleep?
    ensures u in Next(s, e).pcs && Next(s, e).pcs[u] == s.pcs[u]
    ensures forall w :: w in s.pcs[u].todo ==> w in Next(s, e).pcs && Next(s, e).pcs[w].Asleep?
  {
    assert e.t != u;
    if e.MakeRunnable? {
      var x := s.pcs[e.t].todo[0];
      assert Has(s, e.t, x);
      assert x in s.pcs[u].todo ==> Has(s, u, x);
    }
  }
}
