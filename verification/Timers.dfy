/** The timer protocol of timeout.c: callers that add, advance and cancel timers, and the timer thread that
    runs callbacks, which may call too, and re-arms timers, with one lock for the tree and one in each timer. */
module Timers {
  import opened Options
  import Sets

  // ---------------------------------------------------------------------------------------------
  // Times
  // ---------------------------------------------------------------------------------------------

  const DSEC2NSEC := 100000000
  const ONESEC_AS_NSEC := 1000000000

  datatype Time = Time(sec: int, nsec: int)

  predicate Normal(t: Time) {
    0 <= t.nsec < ONESEC_AS_NSEC
  }

  function Nanos(t: Time): (n: int) {
    t.sec * ONESEC_AS_NSEC + t.nsec
  }

  /** to2sec, to2nsec, timespec_add: timeouts are in tenths of a second. */
  function TimeAdd(t: Time, timeout: nat): (r: Time) {
    var sec, nsec := t.sec + timeout / 10, t.nsec + timeout % 10 * DSEC2NSEC;
    if nsec >= ONESEC_AS_NSEC then Time(sec + 1, nsec - ONESEC_AS_NSEC) else Time(sec, nsec)
  }

  lemma TimeAddExact(t: Time, timeout: nat)
    requires Normal(t)
    ensures Normal(TimeAdd(t, timeout)) && Nanos(TimeAdd(t, timeout)) == Nanos(t) + timeout * DSEC2NSEC
  {
    assert timeout == timeout / 10 * 10 + timeout % 10;
  }

  /** timespec_after, which looks at the nanoseconds even when the seconds differ. */
  predicate TimeAfter(a: Time, b: Time) {
    a.sec > b.sec || a.nsec >= b.nsec
  }

  /** timespec_cmp without the addresses. */
  predicate Earlier(a: Time, b: Time) {
    a.sec < b.sec || (a.sec == b.sec && a.nsec < b.nsec)
  }

  lemma EarlierNanos(a: Time, b: Time)
    requires Normal(a) && Normal(b)
    ensures Earlier(a, b) <==> Nanos(a) < Nanos(b)
  {
  }

  /** A timer counts as run out only when its time has passed, so never early; one whose time has passed
      counts as run out exactly when its nanoseconds are below those of now, so perhaps late. */
  lemma RunsOutIff(due: Time, now: Time)
    requires Normal(due) && Normal(now)
    ensures !TimeAfter(due, now) ==> Nanos(due) < Nanos(now)
    ensures Nanos(due) < Nanos(now) ==> (!TimeAfter(due, now) <==> due.nsec < now.nsec)
  {
    EarlierNanos(due, now);
  }

  lemma MayRunOutLate()
    ensures var due, now := Time(5, 900), Time(7, 100);
            Nanos(due) < Nanos(now) && TimeAfter(due, now)
  {
  }

  // ---------------------------------------------------------------------------------------------
  // The protocol
  // ---------------------------------------------------------------------------------------------

  type Timer = nat

  /** Who calls: some thread, or the callback that the timer thread is running. */
  datatype Id = Thread(n: nat) | Callback

  datatype Owner = TimerThread | Caller(id: Id)

  datatype Op = Add(due: Time) | Advance(due: Time) | Cancel

  /** Where a caller is: before the tree lock, with it, with both locks before and after its work, and with
      the tree lock again; `again` is set when a cancel has to retry. */
  datatype CallerPc =
    | WantTree(op: Op, t: Timer)
    | HaveTree(op: Op, t: Timer)
    | HaveBoth(op: Op, t: Timer)
    | Acted(op: Op, t: Timer, ret: bool, again: bool)
    | LockDropped(op: Op, t: Timer, ret: bool, again: bool)

  /** Where the timer thread is. */
  datatype TimerPc =
    | Asleep
    | Choosing
    | WantLock(t: Timer)
    | Both(t: Timer)
    | Running(t: Timer)
    | Finished(t: Timer)
    | Rearmed(t: Timer)
    | WantTreeBack
    | Again(t: Timer)
    | AgainTree(t: Timer)
    | AgainBoth(t: Timer)

  datatype State = State(
    tree: set<Timer>,
    due: map<Timer, Time>,
    rearm: set<Timer>,
    treeLock: Option<Owner>,
    locks: map<Timer, Owner>,
    timer: TimerPc,
    callers: map<Id, CallerPc>)

  datatype Action =
    | Call(id: Id, op: Op, t: Timer) | TakeTree(id: Id) | TakeLock(id: Id) | TryFails(id: Id) | Act(id: Id)
    | DropLock(id: Id) | DropTree(id: Id)
    | Wake | Sleep | Pick(t: Timer, now: Time) | LockPicked | Fire | Return(rearm: bool) | Drop | Retake | Relock
    | Reinsert(due: Time)

  /** timeout_nearest: no timer in the tree is earlier. */
  predicate Nearest(s: State, t: Timer) {
    t in s.tree && t in s.due && forall u :: u in s.tree && u in s.due ==> !Earlier(s.due[u], s.due[t])
  }

  predicate Enabled(s: State, a: Action) {
    match a
    case Call(id, op, _) => id !in s.callers && (op.Cancel? || Normal(op.due)) && (id.Callback? ==> s.timer.Running?)
    case TakeTree(id) => id in s.callers && s.callers[id].WantTree? && s.treeLock.None?
    case TakeLock(id) => id in s.callers && s.callers[id].HaveTree? && s.callers[id].t !in s.locks
    case TryFails(id) =>
      id in s.callers && s.callers[id].HaveTree? && s.callers[id].op.Advance? && s.callers[id].t in s.locks
    case Act(id) => id in s.callers && s.callers[id].HaveBoth?
    case DropLock(id) => id in s.callers && s.callers[id].Acted?
    case DropTree(id) => id in s.callers && s.callers[id].LockDropped?
    case Wake => s.timer.Asleep? && s.treeLock.None?
    case Sleep => s.timer.Choosing?
    case Pick(t, now) => s.timer.Choosing? && Nearest(s, t) && Normal(now) && !TimeAfter(s.due[t], now)
    case LockPicked => s.timer.WantLock? && s.timer.t !in s.locks
    case Fire => s.timer.Both?
    case Return(_) => s.timer.Running? && Callback !in s.callers
    case Drop => s.timer.Finished? || s.timer.Rearmed?
    case Retake => (s.timer.WantTreeBack? || s.timer.Again?) && s.treeLock.None?
    case Relock => s.timer.AgainTree? && s.timer.t !in s.locks
    case Reinsert(due) => s.timer.AgainBoth? && Normal(due)
  }

  /** What timeout_add, timeout_advance and timeout_cancel do while they hold both locks. */
  function Acting(s: State, id: Id, op: Op, t: Timer): (r: State) {
    match op
    case Add(due) =>
      if t !in s.tree && t !in s.rearm
      then s.(tree := s.tree + {t}, due := s.due[t := due], callers := s.callers[id := Acted(op, t, true, false)])
      else s.(callers := s.callers[id := Acted(op, t, false, false)])
    case Advance(due) =>
      if t in s.tree && t !in s.rearm
      then s.(due := s.due[t := due], callers := s.callers[id := Acted(op, t, true, false)])
      else s.(callers := s.callers[id := Acted(op, t, false, false)])
    case Cancel =>
      if t in s.rearm then s.(callers := s.callers[id := Acted(op, t, false, true)])
      else s.(tree := s.tree - {t}, callers := s.callers[id := Acted(op, t, t in s.tree, false)])
  }

  function Apply(s: State, a: Action): (r: State)
    requires Enabled(s, a)
  {
    match a
    case Call(id, op, t) => s.(callers := s.callers[id := WantTree(op, t)])
    case TakeTree(id) =>
      var c := s.callers[id];
      s.(treeLock := Some(Caller(id)), callers := s.callers[id := HaveTree(c.op, c.t)])
    case TakeLock(id) =>
      var c := s.callers[id];
      s.(locks := s.locks[c.t := Caller(id)], callers := s.callers[id := HaveBoth(c.op, c.t)])
    case TryFails(id) =>
      var c := s.callers[id];
      s.(callers := s.callers[id := LockDropped(c.op, c.t, false, false)])
    case Act(id) => Acting(s, id, s.callers[id].op, s.callers[id].t)
    case DropLock(id) =>
      var c := s.callers[id];
      s.(locks := s.locks - {c.t}, callers := s.callers[id := LockDropped(c.op, c.t, c.ret, c.again)])
    case DropTree(id) =>
      var c := s.callers[id];
      s.(treeLock := None, callers := if c.again then s.callers[id := WantTree(c.op, c.t)] else s.callers - {id})
    case Wake => s.(treeLock := Some(TimerThread), timer := Choosing)
    case Sleep => s.(treeLock := None, timer := Asleep)
    case Pick(t, _) => s.(timer := WantLock(t))
    case LockPicked => s.(locks := s.locks[s.timer.t := TimerThread], timer := Both(s.timer.t))
    case Fire => s.(tree := s.tree - {s.timer.t}, treeLock := None, timer := Running(s.timer.t))
    case Return(rearm) =>
      if rearm then s.(rearm := s.rearm + {s.timer.t}, timer := Rearmed(s.timer.t))
      else s.(timer := Finished(s.timer.t))
    case Drop =>
      s.(locks := s.locks - {s.timer.t}, timer := if s.timer.Rearmed? then Again(s.timer.t) else WantTreeBack)
    case Retake => s.(treeLock := Some(TimerThread), timer := if s.timer.Again? then AgainTree(s.timer.t) else Choosing)
    case Relock => s.(locks := s.locks[s.timer.t := TimerThread], timer := AgainBoth(s.timer.t))
    case Reinsert(due) =>
      var t := s.timer.t;
      var s' := if t in s.tree then s else s.(tree := s.tree + {t}, due := s.due[t := due]);
      s'.(rearm := s.rearm - {t}, locks := s.locks - {t}, timer := Choosing)
  }

  // ---------------------------------------------------------------------------------------------
  // Invariant
  // ---------------------------------------------------------------------------------------------

  predicate TimerHasTree(pc: TimerPc) {
    pc.Choosing? || pc.WantLock? || pc.Both? || pc.AgainTree? || pc.AgainBoth?
  }

  predicate TimerHasLock(pc: TimerPc, t: Timer) {
    (pc.Both? || pc.Running? || pc.Finished? || pc.Rearmed? || pc.AgainBoth?) && pc.t == t
  }

  /** The timer thread has announced that it will put t back. */
  predicate Rearming(pc: TimerPc, t: Timer) {
    (pc.Rearmed? || pc.Again? || pc.AgainTree? || pc.AgainBoth?) && pc.t == t
  }

  /** The timer thread has taken t out of the tree and is not done with it. */
  predicate Busy(pc: TimerPc, t: Timer) {
    Rearming(pc, t) || ((pc.Running? || pc.Finished?) && pc.t == t)
  }

  predicate CallerHasTree(pc: CallerPc) {
    !pc.WantTree?
  }

  predicate CallerHasLock(pc: CallerPc, t: Timer) {
    (pc.HaveBoth? || pc.Acted?) && pc.t == t
  }

  /** Each lock is held by exactly the thread whose position says so. */
  ghost predicate TreeLocked(s: State) {
    (s.treeLock == Some(TimerThread) <==> TimerHasTree(s.timer))
    && forall id :: s.treeLock == Some(Caller(id)) <==> id in s.callers && CallerHasTree(s.callers[id])
  }

  ghost predicate TimerLocked(s: State, t: Timer) {
    (t in s.locks && s.locks[t] == TimerThread <==> TimerHasLock(s.timer, t))
    && forall id :: t in s.locks && s.locks[t] == Caller(id) <==> id in s.callers && CallerHasLock(s.callers[id], t)
  }

  /** The flag says what the timer thread is about to do, a timer it is busy with is not in the tree, one
      it is about to take is, and every timer in the tree has a time. */
  ghost predicate Marked(s: State, t: Timer) {
    (t in s.rearm <==> Rearming(s.timer, t))
    && (Busy(s.timer, t) ==> t !in s.tree)
    && ((s.timer.WantLock? || s.timer.Both?) && s.timer.t == t ==> t in s.tree)
    && (t in s.tree ==> t in s.due)
  }

  ghost predicate Inv(s: State) {
    TreeLocked(s) && (forall t :: TimerLocked(s, t)) && (forall t :: Marked(s, t))
    && (Callback in s.callers ==> s.timer.Running?)
  }

  // ---------------------------------------------------------------------------------------------
  // Every step keeps the invariant
  // ---------------------------------------------------------------------------------------------

  /** Steps of callers, as opposed to steps of the timer thread. */
  predicate ByCaller(a: Action) {
    a.Call? || a.TakeTree? || a.TakeLock? || a.TryFails? || a.Act? || a.DropLock? || a.DropTree?
  }

  lemma CallerTreeLocked(s: State, a: Action)
    requires TreeLocked(s) && Enabled(s, a) && ByCaller(a)
    ensures TreeLocked(Apply(s, a))
  {
  }

  lemma ThreadTreeLocked(s: State, a: Action)
    requires TreeLocked(s) && Enabled(s, a) && !ByCaller(a)
    ensures TreeLocked(Apply(s, a))
  {
  }

  lemma CallerLocked(s: State, a: Action, t: Timer)
    requires TimerLocked(s, t) && Enabled(s, a) && ByCaller(a)
    ensures TimerLocked(Apply(s, a), t)
  {
  }

  lemma ThreadLocked(s: State, a: Action, t: Timer)
    requires TimerLocked(s, t) && Enabled(s, a) && !ByCaller(a)
    ensures TimerLocked(Apply(s, a), t)
  {
  }

  lemma CallerMarked(s: State, a: Action, t: Timer)
    requires Marked(s, t) && TimerLocked(s, t) && TreeLocked(s) && Enabled(s, a) && ByCaller(a)
    ensures Marked(Apply(s, a), t)
  {
  }

  lemma ThreadMarked(s: State, a: Action, t: Timer)
    requires Marked(s, t) && TimerLocked(s, t) && TreeLocked(s) && Enabled(s, a) && !ByCaller(a)
    ensures Marked(Apply(s, a), t)
  {
  }

  lemma StepKeeps(s: State, a: Action)
    requires Inv(s) && Enabled(s, a)
    ensures Inv(Apply(s, a))
  {
    if ByCaller(a) {
      CallerTreeLocked(s, a);
    } else {
      ThreadTreeLocked(s, a);
    }
    forall t ensures TimerLocked(Apply(s, a), t) && Marked(Apply(s, a), t) {
      assert TimerLocked(s, t) && Marked(s, t);
      if ByCaller(a) {
        CallerLocked(s, a, t);
        CallerMarked(s, a, t);
      } else {
        ThreadLocked(s, a, t);
        ThreadMarked(s, a, t);
      }
    }
  }

  // ---------------------------------------------------------------------------------------------
  // What a cancel achieves
  // ---------------------------------------------------------------------------------------------

  /** The timer is not in the tree, its callback is not running, no re-arm is pending, and the timer thread
      has nothing to do with it. */
  predicate Detached(s: State, t: Timer) {
    t !in s.tree && t !in s.rearm && !Busy(s.timer, t) && !((s.timer.WantLock? || s.timer.Both?) && s.timer.t == t)
  }

  /** The one action that can attach a timer again: the work of a timeout_add for it. */
  predicate Adds(s: State, a: Action, t: Timer) {
    a.Act? && a.id in s.callers && s.callers[a.id].HaveBoth? && s.callers[a.id].op.Add? && s.callers[a.id].t == t
  }

  /** A cancel that has done its work and will not retry. */
  predicate Cancelled(pc: CallerPc, t: Timer) {
    (pc.Acted? || pc.LockDropped?) && pc.op.Cancel? && !pc.again && pc.t == t
  }

  /** Between its work and its return a cancel keeps the tree locked, and the timer stays detached. */
  ghost predicate CancelsHold(s: State) {
    forall id, t :: id in s.callers && Cancelled(s.callers[id], t) ==> Detached(s, t)
  }

  lemma DetachedStays(s: State, a: Action, t: Timer)
    requires Inv(s) && Enabled(s, a) && Detached(s, t) && !Adds(s, a, t)
    ensures Detached(Apply(s, a), t)
  {
    assert Marked(s, t);
  }

  lemma CancelDetaches(s: State, id: Id)
    requires Inv(s) && Enabled(s, Act(id)) && s.callers[id].op.Cancel?
    ensures var t, s' := s.callers[id].t, Apply(s, Act(id));
            if t in s.rearm then s'.callers[id].again else Detached(s', t)
  {
    var t := s.callers[id].t;
    assert Marked(s, t) && TimerLocked(s, t);
  }

  lemma CancelsHoldKept(s: State, a: Action)
    requires Inv(s) && CancelsHold(s) && Enabled(s, a)
    ensures CancelsHold(Apply(s, a))
  {
    var s' := Apply(s, a);
    forall id, t | id in s'.callers && Cancelled(s'.callers[id], t) ensures Detached(s', t) {
      if a == Act(id) {
        CancelDetaches(s, id);
      } else {
        assert id in s.callers && Cancelled(s.callers[id], t);
        assert s.treeLock == Some(Caller(id));
        DetachedStays(s, a, t);
      }
    }
  }

  // ---------------------------------------------------------------------------------------------
  // Whole runs
  // ---------------------------------------------------------------------------------------------

  function Init(): (s: State) {
    State({}, map[], {}, None, map[], Asleep, map[])
  }

  lemma InitHolds()
    ensures Inv(Init()) && CancelsHold(Init())
  {
  }

  ghost predicate IsRun(states: seq<State>, actions: seq<Action>) {
    |states| == |actions| + 1
    && forall i :: 0 <= i < |actions| ==>
         Enabled(states[i], actions[i]) && states[i + 1] == Apply(states[i], actions[i])
  }

  lemma {:induction false} RunKeeps(states: seq<State>, actions: seq<Action>, i: nat)
    requires IsRun(states, actions) && states[0] == Init() && i < |states|
    ensures Inv(states[i]) && CancelsHold(states[i])
  {
    if i == 0 {
      InitHolds();
    } else {
      RunKeeps(states, actions, i - 1);
      StepKeeps(states[i - 1], actions[i - 1]);
      CancelsHoldKept(states[i - 1], actions[i - 1]);
    }
  }

  /** Over any interleaving: when timeout_cancel returns, at action i, the timer is detached, and it stays
      so for as long as no later timeout_add does its work on it. */
  lemma {:induction false} CancelIsFinal(states: seq<State>, actions: seq<Action>, i: nat, j: nat, id: Id, t: Timer)
    requires IsRun(states, actions) && states[0] == Init() && i < j <= |actions|
    requires actions[i] == DropTree(id) && id !in states[i + 1].callers
    requires states[i].callers[id].op.Cancel? && states[i].callers[id].t == t
    requires forall k :: i < k < j ==> !Adds(states[k], actions[k], t)
    ensures Detached(states[j], t)
    decreases j
  {
    RunKeeps(states, actions, i);
    if j == i + 1 {
      DetachedStays(states[i], actions[i], t);
    } else {
      CancelIsFinal(states, actions, i, j - 1, id, t);
      RunKeeps(states, actions, j - 1);
      DetachedStays(states[j - 1], actions[j - 1], t);
    }
  }

  /** The timer thread finds the timer it locked still in the tree, and one it re-arms out of it. */
  lemma TimerThreadFinds(states: seq<State>, actions: seq<Action>, i: nat)
    requires IsRun(states, actions) && states[0] == Init() && i < |states|
    ensures states[i].timer.Both? ==> states[i].timer.t in states[i].tree
    ensures states[i].timer.AgainBoth? ==> states[i].timer.t !in states[i].tree
  {
    RunKeeps(states, actions, i);
    if states[i].timer.Both? || states[i].timer.AgainBoth? {
      assert Marked(states[i], states[i].timer.t);
    }
  }

  /** All times are normal, as sums of clock readings and timeouts are. */
  ghost predicate NormalTimes(s: State) {
    (forall t :: t in s.due ==> Normal(s.due[t]))
    && forall id :: id in s.callers && !s.callers[id].op.Cancel? ==> Normal(s.callers[id].op.due)
  }

  lemma {:induction false} TimesStayNormal(states: seq<State>, actions: seq<Action>, i: nat)
    requires IsRun(states, actions) && states[0] == Init() && i < |states|
    ensures NormalTimes(states[i])
  {
    if i > 0 {
      TimesStayNormal(states, actions, i - 1);
      assert states[i] == Apply(states[i - 1], actions[i - 1]);
    }
  }

  lemma PickedStep(s: State, a: Action)
    requires Inv(s) && Enabled(s, a) && (Apply(s, a).timer.WantLock? || Apply(s, a).timer.Both?)
    ensures Apply(s, a).due == s.due && Apply(s, a).tree == s.tree
    ensures if a.Pick? then Apply(s, a).timer.t == a.t
            else (s.timer.WantLock? || s.timer.Both?) && Apply(s, a).timer.t == s.timer.t
  {
  }

  /** From picking a timer to taking it out of the tree nobody moves its time, and nobody else comes or goes. */
  lemma {:induction false} PickedBefore(states: seq<State>, actions: seq<Action>, j: nat) returns (i: nat)
    requires IsRun(states, actions) && states[0] == Init() && j < |states|
    requires states[j].timer.WantLock? || states[j].timer.Both?
    ensures i < j && actions[i].Pick? && actions[i].t == states[j].timer.t
    ensures states[j].due == states[i].due && states[j].tree == states[i].tree
  {
    RunKeeps(states, actions, j - 1);
    PickedStep(states[j - 1], actions[j - 1]);
    if actions[j - 1].Pick? {
      i := j - 1;
    } else {
      i := PickedBefore(states, actions, j - 1);
    }
  }

  /** Over any interleaving: a callback that starts, at action j, was due before the clock reading, at action
      i, that picked it, and no timer in the tree is due before it. */
  lemma NeverEarly(states: seq<State>, actions: seq<Action>, j: nat) returns (i: nat)
    requires IsRun(states, actions) && states[0] == Init() && j < |actions| && actions[j].Fire?
    ensures i < j && actions[i].Pick? && actions[i].t == states[j].timer.t
    ensures states[j].timer.t in states[j].due && Nanos(states[j].due[states[j].timer.t]) < Nanos(actions[i].now)
    ensures forall u :: u in states[j].tree && u in states[j].due ==>
                          Nanos(states[j].due[states[j].timer.t]) <= Nanos(states[j].due[u])
  {
    i := PickedBefore(states, actions, j);
    TimesStayNormal(states, actions, i);
    RunsOutIff(states[i].due[actions[i].t], actions[i].now);
    NearestIsFirst(states[i], actions[i].t);
  }

  lemma NearestIsFirst(s: State, t: Timer)
    requires Nearest(s, t) && NormalTimes(s)
    ensures forall u :: u in s.tree && u in s.due ==> Nanos(s.due[t]) <= Nanos(s.due[u])
  {
    forall u | u in s.tree && u in s.due ensures Nanos(s.due[t]) <= Nanos(s.due[u]) {
      EarlierNanos(s.due[u], s.due[t]);
    }
  }

  // ---------------------------------------------------------------------------------------------
  // Which timers are in the tree
  // ---------------------------------------------------------------------------------------------

  /** The work of a call of this kind on t, while nobody is about to put t back. */
  predicate Works(s: State, a: Action, t: Timer) {
    a.Act? && a.id in s.callers && s.callers[a.id].HaveBoth? && s.callers[a.id].t == t && t !in s.rearm
  }

  /** A timer comes into the tree by the work of an add, and when the timer thread puts it back. */
  predicate Comes(s: State, a: Action, t: Timer) {
    (Works(s, a, t) && s.callers[a.id].op.Add?) || (a.Reinsert? && s.timer.AgainBoth? && s.timer.t == t)
  }

  /** It leaves the tree by the work of a cancel, and when its callback starts. */
  predicate Goes(s: State, a: Action, t: Timer) {
    (Works(s, a, t) && s.callers[a.id].op.Cancel?) || (a.Fire? && s.timer.Both? && s.timer.t == t)
  }

  /** And in no other way, whatever the step. */
  lemma TreeStep(s: State, a: Action, t: Timer)
    requires Inv(s) && Enabled(s, a)
    ensures t in Apply(s, a).tree <==> Comes(s, a, t) || (t in s.tree && !Goes(s, a, t))
  {
    assert Marked(s, t);
  }

  /** Its time is what an add, an advance or the timer thread gave it. */
  lemma DueStep(s: State, a: Action, t: Timer)
    requires Inv(s) && Enabled(s, a) && t in Apply(s, a).tree
    ensures t in Apply(s, a).due
    ensures if a.Reinsert? && s.timer.t == t then Apply(s, a).due[t] == a.due
            else if Works(s, a, t) && s.callers[a.id].op.Advance? then Apply(s, a).due[t] == s.callers[a.id].op.due
            else if Works(s, a, t) && s.callers[a.id].op.Add? && t !in s.tree
            then Apply(s, a).due[t] == s.callers[a.id].op.due
            else t in s.due && Apply(s, a).due[t] == s.due[t]
  {
    assert Marked(s, t);
  }

  /** What a call returns: an add whether t was out of the tree, an advance and a cancel whether it was in it. */
  lemma WorkReturns(s: State, id: Id)
    requires Inv(s) && Enabled(s, Act(id))
    ensures var c, c' := s.callers[id], Apply(s, Act(id)).callers[id];
            c'.Acted? && c'.op == c.op && c'.t == c.t
            && (c'.ret <==> c.t !in s.rearm && (if c.op.Add? then c.t !in s.tree else c.t in s.tree))
            && (c'.again <==> c.op.Cancel? && c.t in s.rearm)
  {
    assert Marked(s, s.callers[id].t);
  }

  /** An advance that does not get the lock gives up only while the timer thread has it, with the timer out of the tree.
      */
  lemma AdvanceGivesUp(s: State, id: Id)
    requires Inv(s) && Enabled(s, TryFails(id))
    ensures var t := s.callers[id].t; TimerHasLock(s.timer, t) && t !in s.tree
    ensures var c := Apply(s, TryFails(id)).callers[id]; c.LockDropped? && !c.ret && !c.again
  {
    var t := s.callers[id].t;
    assert s.treeLock == Some(Caller(id));
    assert TimerLocked(s, t) && Marked(s, t);
  }

  /** An add or advance that has done its work with success has its timer in the tree, with the time it was given, until
      it returns. */
  ghost predicate AddsHold(s: State) {
    forall id :: id in s.callers && Succeeded(s.callers[id]) ==>
      var c := s.callers[id]; c.t in s.tree && c.t in s.due && s.due[c.t] == c.op.due
  }

  predicate Succeeded(pc: CallerPc) {
    (pc.Acted? || pc.LockDropped?) && pc.ret && !pc.op.Cancel?
  }

  lemma AddsHoldKept(s: State, a: Action)
    requires Inv(s) && AddsHold(s) && Enabled(s, a)
    ensures AddsHold(Apply(s, a))
  {
    var s' := Apply(s, a);
    forall id | id in s'.callers && Succeeded(s'.callers[id])
      ensures var c := s'.callers[id]; c.t in s'.tree && c.t in s'.due && s'.due[c.t] == c.op.due
    {
      if a != Act(id) {
        assert id in s.callers && Succeeded(s.callers[id]);
        assert s.treeLock == Some(Caller(id));
      }
    }
  }

  lemma {:induction false} AddsHoldOverRuns(states: seq<State>, actions: seq<Action>, i: nat)
    requires IsRun(states, actions) && states[0] == Init() && i < |states|
    ensures AddsHold(states[i])
  {
    if i > 0 {
      AddsHoldOverRuns(states, actions, i - 1);
      RunKeeps(states, actions, i - 1);
      AddsHoldKept(states[i - 1], actions[i - 1]);
    }
  }

  /** Over any interleaving: when an add or advance returns true, at action i, its timer is in the tree with the time it
      was given. */
  lemma AddIsThere(states: seq<State>, actions: seq<Action>, i: nat, id: Id)
    requires IsRun(states, actions) && states[0] == Init() && i < |actions|
    requires actions[i] == DropTree(id) && Succeeded(states[i].callers[id])
    ensures var c := states[i].callers[id];
            c.t in states[i + 1].tree && c.t in states[i + 1].due && states[i + 1].due[c.t] == c.op.due
  {
    AddsHoldOverRuns(states, actions, i);
  }

  // ---------------------------------------------------------------------------------------------
  // Re-arming
  // ---------------------------------------------------------------------------------------------

  /** Until it is put back the timer thread goes on with the timer. */
  lemma {:induction false} RearmingLasts(states: seq<State>, actions: seq<Action>, i: nat, k: nat)
    requires IsRun(states, actions) && i < k < |states| && actions[i] == Return(true)
    requires forall j :: i < j < k ==> !actions[j].Reinsert?
    ensures Rearming(states[k].timer, states[i].timer.t)
    decreases k
  {
    if k > i + 1 {
      RearmingLasts(states, actions, i, k - 1);
      assert !actions[k - 1].Reinsert?;
    }
  }

  /** The work of a cancel of t. */
  predicate Cancels(s: State, a: Action, t: Timer) {
    a.Act? && a.id in s.callers && s.callers[a.id].HaveBoth? && s.callers[a.id].op.Cancel? && s.callers[a.id].t == t
  }

  predicate MustRetry(s: State, id: Id) {
    id in s.callers && s.callers[id].Acted? && s.callers[id].again
  }

  /** Over any interleaving: a timer whose callback asks for it, at action i, is put back into the tree by the next
      reinsertion, at action j, with the new time and without the flag. In between it is out of the tree, and no cancel
      of it gets done: it has to retry. */
  lemma RearmedIsBack(states: seq<State>, actions: seq<Action>, i: nat, j: nat)
    requires IsRun(states, actions) && states[0] == Init() && i < j < |actions|
    requires actions[i] == Return(true) && actions[j].Reinsert? && forall k :: i < k < j ==> !actions[k].Reinsert?
    ensures var t := states[i].timer.t;
            t in states[j + 1].tree && t in states[j + 1].due && states[j + 1].due[t] == actions[j].due
            && t !in states[j + 1].rearm
    ensures forall k :: i < k <= j ==> states[i].timer.t !in states[k].tree && states[i].timer.t in states[k].rearm
    ensures forall k :: i < k < j && Cancels(states[k], actions[k], states[i].timer.t) ==>
                          MustRetry(states[k + 1], actions[k].id)
  {
    var t := states[i].timer.t;
    forall k | i < k <= j ensures Rearming(states[k].timer, t) && t !in states[k].tree && t in states[k].rearm {
      RearmingLasts(states, actions, i, k);
      RunKeeps(states, actions, k);
      assert Marked(states[k], t);
    }
    RunKeeps(states, actions, j);
    TreeStep(states[j], actions[j], t);
    DueStep(states[j], actions[j], t);
    forall k | i < k < j && Cancels(states[k], actions[k], t) ensures MustRetry(states[k + 1], actions[k].id) {
      RunKeeps(states, actions, k);
      WorkReturns(states[k], actions[k].id);
    }
  }

  // ---------------------------------------------------------------------------------------------
  // Deadlock
  // ---------------------------------------------------------------------------------------------

  /** A call that has the tree and cannot do without the lock of t: only timeout_advance merely tries. */
  predicate Blocked(pc: CallerPc, t: Timer) {
    pc.HaveTree? && pc.t == t && !pc.op.Advance?
  }

  /** The callback of t, which runs under the lock of t, waits for the tree while a thread that has the tree waits
      for the lock of t; or the callback adds or cancels t itself. */
  ghost predicate Deadlocked(s: State) {
    s.timer.Running? && Callback in s.callers
    && ((s.callers[Callback].WantTree? && exists id :: id in s.callers && Blocked(s.callers[id], s.timer.t))
        || Blocked(s.callers[Callback], s.timer.t))
  }

  /** The steps that begin nothing: no call, no waking up, no picking and no re-arming; and nobody takes the tree while
      a timer is to be put back. */
  predicate Homeward(s: State, a: Action) {
    !a.Call? && !a.Wake? && !a.Pick? && a != Return(true) && (a.TakeTree? ==> s.rearm == {})
  }

  /** While a call is under way or the timer thread is awake somebody can go on, if and only if there is no such
      deadlock. */
  lemma SomebodyGoesOnIff(s: State)
    requires Inv(s) && (s.callers != map[] || !s.timer.Asleep?)
    ensures (exists a :: Enabled(s, a) && !a.Call?) <==> !Deadlocked(s)
  {
    if Deadlocked(s) {
      forall a | Enabled(s, a) ensures a.Call? {
        NobodyGoesOn(s, a);
      }
    } else {
      var a := Going(s);
    }
  }

  /** In a deadlock there is nothing to be done but to call, and that does not end it. */
  lemma NobodyGoesOn(s: State, a: Action)
    requires Inv(s) && Deadlocked(s) && Enabled(s, a)
    ensures a.Call? && Deadlocked(Apply(s, a))
  {
    var t := s.timer.t;
    if Blocked(s.callers[Callback], t) {
      BlockedStays(s, a, Callback);
    } else {
      var id :| id in s.callers && Blocked(s.callers[id], t);
      BlockedStays(s, a, id);
    }
  }

  lemma BlockedStays(s: State, a: Action, id: Id)
    requires Inv(s) && s.timer.Running? && Callback in s.callers && id in s.callers && Blocked(s.callers[id], s.timer.t)
    requires Enabled(s, a)
    ensures a.Call? && id in Apply(s, a).callers && Apply(s, a).callers[id] == s.callers[id]
  {
    assert CallerHasTree(s.callers[id]);
    assert s.treeLock == Some(Caller(id));
    assert TimerLocked(s, s.timer.t);
  }

  lemma Going(s: State) returns (a: Action)
    requires Inv(s) && (s.callers != map[] || !s.timer.Asleep?) && !Deadlocked(s)
    ensures Enabled(s, a) && Homeward(s, a)
  {
    if s.treeLock.None? {
      if s.timer.Asleep? {
        NothingToPutBack(s);
        var id := Sets.Witness(s.callers.Keys);
        assert s.callers[id].WantTree?;
        a := TakeTree(id);
      } else if Callback in s.callers {
        NothingToPutBack(s);
        assert s.callers[Callback].WantTree?;
        a := TakeTree(Callback);
      } else {
        a := if s.timer.Running? then Return(false)
             else if s.timer.Finished? || s.timer.Rearmed? then Drop else Retake;
      }
    } else if s.treeLock.value.TimerThread? {
      a := TimerGoesOn(s);
    } else {
      a := CallerGoesOn(s, s.treeLock.value.id);
    }
  }

  lemma NothingToPutBack(s: State)
    requires Inv(s) && (s.timer.Asleep? || s.timer.Running?)
    ensures s.rearm == {}
  {
    forall t: Timer ensures t !in s.rearm {
      assert Marked(s, t);
    }
  }

  lemma TimerGoesOn(s: State) returns (a: Action)
    requires Inv(s) && s.treeLock == Some(TimerThread)
    ensures Enabled(s, a) && Homeward(s, a)
  {
    if s.timer.Choosing? {
      a := Sleep;
    } else {
      LockIsFree(s, s.timer.t);
      a := if s.timer.WantLock? then LockPicked else if s.timer.Both? then Fire
           else if s.timer.AgainTree? then Relock else Reinsert(Time(0, 0));
    }
  }

  /** With the tree lock in the timer thread's hands no caller holds a timer's lock. */
  lemma LockIsFree(s: State, t: Timer)
    requires Inv(s) && s.treeLock == Some(TimerThread)
    ensures t in s.locks ==> TimerHasLock(s.timer, t)
  {
    assert TimerLocked(s, t);
    if t in s.locks && s.locks[t].Caller? {
      var id := s.locks[t].id;
      assert id in s.callers && CallerHasTree(s.callers[id]);
      assert false;
    }
  }

  lemma CallerGoesOn(s: State, id: Id) returns (a: Action)
    requires Inv(s) && s.treeLock == Some(Caller(id)) && !Deadlocked(s)
    ensures Enabled(s, a) && Homeward(s, a)
  {
    assert id in s.callers;
    var c := s.callers[id];
    if c.HaveBoth? {
      a := Act(id);
    } else if c.Acted? {
      a := DropLock(id);
    } else if c.LockDropped? {
      a := DropTree(id);
    } else if c.t !in s.locks {
      a := TakeLock(id);
    } else if c.op.Advance? {
      a := TryFails(id);
    } else {
      assert TimerLocked(s, c.t);
      assert Blocked(c, s.timer.t);
      a := if s.timer.Running? then Return(false) else Drop;
    }
  }

  /** What callers have to see to before they call. The callback of t calls only while no other thread is adding or
      cancelling t, and never to add or cancel t itself; while it calls, no thread begins to add or cancel t. */
  predicate MayCall(s: State, id: Id, op: Op, t: Timer) {
    match id
    case Callback =>
      s.timer.Running? && (t == s.timer.t ==> op.Advance?)
      && forall other :: other in s.callers && s.callers[other].t == s.timer.t ==> s.callers[other].op.Advance?
    case Thread(_) => Callback in s.callers && s.timer.Running? && t == s.timer.t ==> op.Advance?
  }

  ghost predicate CarefulRun(states: seq<State>, actions: seq<Action>) {
    IsRun(states, actions) && states[0] == Init()
    && forall i :: 0 <= i < |actions| && actions[i].Call? ==>
         MayCall(states[i], actions[i].id, actions[i].op, actions[i].t)
  }

  /** While the callback of t calls, nobody is about to add or cancel t. */
  predicate KeptApart(s: State) {
    s.timer.Running? && Callback in s.callers ==>
      forall id :: id in s.callers && s.callers[id].t == s.timer.t ==> s.callers[id].op.Advance?
  }

  lemma {:induction false} CarefulKeepsApart(states: seq<State>, actions: seq<Action>, i: nat)
    requires CarefulRun(states, actions) && i < |states|
    ensures KeptApart(states[i])
  {
    if i > 0 {
      CarefulKeepsApart(states, actions, i - 1);
      RunKeeps(states, actions, i - 1);
      ApartStep(states[i - 1], actions[i - 1]);
    }
  }

  lemma ApartStep(s: State, a: Action)
    requires Inv(s) && KeptApart(s) && Enabled(s, a) && (a.Call? ==> MayCall(s, a.id, a.op, a.t))
    ensures KeptApart(Apply(s, a))
  {
  }

  /** With callers that see to it the two locks never deadlock: in every state of every such run in which a call is
      under way or the timer thread is awake, somebody can go on. */
  lemma SomebodyGoesOn(states: seq<State>, actions: seq<Action>, i: nat) returns (a: Action)
    requires CarefulRun(states, actions) && i < |states|
    requires states[i].callers != map[] || !states[i].timer.Asleep?
    ensures Enabled(states[i], a) && !a.Call?
  {
    RunKeeps(states, actions, i);
    CarefulKeepsApart(states, actions, i);
    a := Going(states[i]);
  }

  // ---------------------------------------------------------------------------------------------
  // Every call returns
  // ---------------------------------------------------------------------------------------------

  /** The cancel that has the tree has to retry, or will have to as things are. */
  predicate Retrying(s: State) {
    s.treeLock.Some? && s.treeLock.value.Caller? && s.treeLock.value.id in s.callers
    && var c := s.callers[s.treeLock.value.id];
       match c
       case WantTree(_, _) => false
       case HaveTree(op, t) => op.Cancel? && t in s.rearm
       case HaveBoth(op, t) => op.Cancel? && t in s.rearm
       case Acted(_, _, _, again) => again
       case LockDropped(_, _, _, again) => again
  }

  /** How far the timer thread is from sleeping. */
  function TimerRank(pc: TimerPc): (n: nat) {
    match pc
    case Asleep => 0
    case Choosing => 1
    case WantTreeBack => 2
    case Finished(_) => 3
    case Running(_) => 4
    case Both(_) => 5
    case WantLock(_) => 6
    case AgainBoth(_) => 2
    case AgainTree(_) => 3
    case Again(_) => 4
    case Rearmed(_) => 5
  }

  function CallerRank(pc: CallerPc): (n: nat) {
    match pc
    case WantTree(_, _) => 5
    case HaveTree(_, _) => 4
    case HaveBoth(_, _) => 3
    case Acted(_, _, _, _) => 2
    case LockDropped(_, _, _, _) => 1
  }

  /** How far the call that has the tree is from giving it back. */
  function HolderRank(s: State): (n: nat) {
    if s.treeLock.Some? && s.treeLock.value.Caller? && s.treeLock.value.id in s.callers
    then CallerRank(s.callers[s.treeLock.value.id]) else 5
  }

  /** After such a step fewer cancels have to retry, or fewer calls are under way, or some thread is further on. */
  ghost predicate Nearer(s': State, s: State) {
    (Retrying(s') ==> Retrying(s))
    && (Retrying(s') == Retrying(s) ==>
          |s'.callers| < |s.callers|
          || (|s'.callers| == |s.callers| && HolderRank(s') + TimerRank(s'.timer) < HolderRank(s) + TimerRank(s.timer)))
  }

  /** The tree lock is no caller's. */
  predicate NoCallers(s: State) {
    s.treeLock.None? || s.treeLock.value.TimerThread?
  }

  /** What steps of the timer thread leave alone. */
  lemma ThreadStep(s: State, a: Action)
    requires TreeLocked(s) && Enabled(s, a) && Homeward(s, a) && !ByCaller(a)
    ensures var s' := Apply(s, a);
            s'.callers == s.callers && s'.rearm <= s.rearm && TimerRank(s'.timer) < TimerRank(s.timer)
            && (s'.treeLock == s.treeLock || (NoCallers(s) && NoCallers(s')))
  {
  }

  lemma ThreadNearer(s: State, s': State)
    requires s'.callers == s.callers && s'.rearm <= s.rearm && TimerRank(s'.timer) < TimerRank(s.timer)
    requires s'.treeLock == s.treeLock || (NoCallers(s) && NoCallers(s'))
    ensures Nearer(s', s)
  {
  }

  lemma SameCallers(callers: map<Id, CallerPc>, id: Id, pc: CallerPc)
    requires id in callers
    ensures |callers[id := pc]| == |callers| && |callers - {id}| < |callers|
  {
    assert callers[id := pc].Keys == callers.Keys;
    Sets.SubsetCard((callers - {id}).Keys, callers.Keys - {id});
  }

  /** What steps of a caller leave alone. */
  lemma CallerStep(s: State, a: Action)
    requires Enabled(s, a) && Homeward(s, a) && ByCaller(a)
    ensures a.id in s.callers
    ensures var c, s' := s.callers[a.id], Apply(s, a);
            s'.timer == s.timer && s'.rearm == s.rearm
            && if a.DropTree? && !c.again then s'.callers == s.callers - {a.id}
               else a.id in s'.callers && s'.callers == s.callers[a.id := s'.callers[a.id]]
                    && (CallerRank(s'.callers[a.id]) < CallerRank(c) || a.DropTree?)
  {
  }

  lemma CallerNearer(s: State, a: Action)
    requires TreeLocked(s) && Enabled(s, a) && Homeward(s, a) && ByCaller(a)
    ensures Nearer(Apply(s, a), s)
  {
    var s' := Apply(s, a);
    CallerStep(s, a);
    SameCallers(s.callers, a.id, if a.id in s'.callers then s'.callers[a.id] else s.callers[a.id]);
    assert !a.TakeTree? ==> s.treeLock == Some(Caller(a.id));
  }

  /** From any state without threat of the deadlock, steps that begin nothing lead to where no call is under way. */
  lemma {:induction false} Home(s: State) returns (states: seq<State>, actions: seq<Action>)
    requires Inv(s) && KeptApart(s)
    ensures IsRun(states, actions) && states[0] == s
    ensures forall i :: 0 <= i < |actions| ==> Homeward(states[i], actions[i])
    ensures states[|actions|].callers == map[] && states[|actions|].timer.Asleep?
    decreases Retrying(s), |s.callers|, HolderRank(s) + TimerRank(s.timer)
  {
    if s.callers == map[] && s.timer.Asleep? {
      states, actions := [s], [];
    } else {
      var a := Going(s);
      StepKeeps(s, a);
      ApartStep(s, a);
      if ByCaller(a) {
        CallerNearer(s, a);
      } else {
        ThreadStep(s, a);
        ThreadNearer(s, Apply(s, a));
      }
      states, actions := Home(Apply(s, a));
      states, actions := Before(s, a, states, actions);
    }
  }

  lemma Before(s: State, a: Action, states: seq<State>, actions: seq<Action>)
      returns (states': seq<State>, actions': seq<Action>)
    requires Enabled(s, a) && Homeward(s, a) && IsRun(states, actions) && states[0] == Apply(s, a)
    requires forall i :: 0 <= i < |actions| ==> Homeward(states[i], actions[i])
    ensures states' == [s] + states && actions' == [a] + actions && IsRun(states', actions')
    ensures forall i :: 0 <= i < |actions'| ==> Homeward(states'[i], actions'[i])
  {
    states', actions' := [s] + states, [a] + actions;
    forall i | 0 <= i < |actions'|
      ensures Enabled(states'[i], actions'[i]) && states'[i + 1] == Apply(states'[i], actions'[i])
      ensures Homeward(states'[i], actions'[i])
    {
      if i > 0 {
        assert states'[i] == states[i - 1] && actions'[i] == actions[i - 1] && states'[i + 1] == states[i];
      }
    }
  }

  /** So from every state of every careful run there is a way on, without new calls, on which every call that is under
      way returns, a cancel that has to retry included, and the timer thread goes to sleep. */
  lemma CallsReturn(states: seq<State>, actions: seq<Action>, i: nat)
      returns (states': seq<State>, actions': seq<Action>)
    requires CarefulRun(states, actions) && i < |states|
    ensures IsRun(states', actions') && states'[0] == states[i]
    ensures forall j :: 0 <= j < |actions'| ==> !actions'[j].Call?
    ensures states'[|actions'|].callers == map[] && states'[|actions'|].timer.Asleep?
  {
    RunKeeps(states, actions, i);
    CarefulKeepsApart(states, actions, i);
    states', actions' := Home(states[i]);
  }

  lemma Further(states: seq<State>, actions: seq<Action>, a: Action)
      returns (states': seq<State>, actions': seq<Action>)
    requires IsRun(states, actions) && Enabled(states[|actions|], a)
    ensures IsRun(states', actions') && states'[0] == states[0] && actions' == actions + [a]
    ensures states'[|actions'|] == Apply(states[|actions|], a)
  {
    states', actions' := states + [Apply(states[|actions|], a)], actions + [a];
  }

  /** A run in which timer t is added. */
  lemma TimerIsAdded(t: Timer) returns (states: seq<State>, actions: seq<Action>)
    ensures IsRun(states, actions) && states[0] == Init()
    ensures states[|actions|] == State({t}, map[t := Time(1, 0)], {}, None, map[], Asleep, map[])
  {
    var id := Thread(1);
    states, actions := [Init()], [];
    states, actions := Further(states, actions, Call(id, Add(Time(1, 0)), t));
    states, actions := Further(states, actions, TakeTree(id));
    states, actions := Further(states, actions, TakeLock(id));
    states, actions := Further(states, actions, Act(id));
    states, actions := Further(states, actions, DropLock(id));
    states, actions := Further(states, actions, DropTree(id));
  }

  /** And its callback starts. */
  lemma CallbackStarts(t: Timer) returns (states: seq<State>, actions: seq<Action>)
    ensures IsRun(states, actions) && states[0] == Init()
    ensures states[|actions|] == State({}, map[t := Time(1, 0)], {}, None, map[t := TimerThread], Running(t), map[])
  {
    states, actions := TimerIsAdded(t);
    states, actions := Further(states, actions, Wake);
    states, actions := Further(states, actions, Pick(t, Time(2, 1)));
    states, actions := Further(states, actions, LockPicked);
    states, actions := Further(states, actions, Fire);
  }

  /** And asks to be run again, and the timer is back. */
  lemma TimerIsRearmed(t: Timer) returns (states: seq<State>, actions: seq<Action>)
    ensures IsRun(states, actions) && states[0] == Init()
    ensures states[|actions|] == State({t}, map[t := Time(9, 0)], {}, Some(TimerThread), map[], Choosing, map[])
  {
    states, actions := CallbackStarts(t);
    states, actions := Further(states, actions, Return(true));
    states, actions := Further(states, actions, Drop);
    states, actions := Further(states, actions, Retake);
    states, actions := Further(states, actions, Relock);
    states, actions := Further(states, actions, Reinsert(Time(9, 0)));
  }

  /** Without that care there are runs into the deadlock: a thread cancels timer 5 while the callback of timer 5
      cancels timer 6. */
  lemma CallbackMayDeadlock() returns (states: seq<State>, actions: seq<Action>)
    ensures IsRun(states, actions) && states[0] == Init() && Deadlocked(states[|actions|])
    ensures Callback in states[|actions|].callers && states[|actions|].callers[Callback] == WantTree(Cancel, 6)
  {
    states, actions := CallbackStarts(5);
    states, actions := Further(states, actions, Call(Thread(1), Cancel, 5));
    states, actions := Further(states, actions, TakeTree(Thread(1)));
    states, actions := Further(states, actions, Call(Callback, Cancel, 6));
    var s := states[|actions|];
    assert Thread(1) in s.callers && Blocked(s.callers[Thread(1)], 5);
  }

  /** And the callback that cancels its own timer stops by itself. */
  lemma CallbackMayStopItself() returns (states: seq<State>, actions: seq<Action>)
    ensures IsRun(states, actions) && states[0] == Init() && Deadlocked(states[|actions|])
    ensures states[|actions|].callers.Keys == {Callback}
  {
    states, actions := CallbackStarts(5);
    states, actions := Further(states, actions, Call(Callback, Cancel, 5));
    states, actions := Further(states, actions, TakeTree(Callback));
  }
}
