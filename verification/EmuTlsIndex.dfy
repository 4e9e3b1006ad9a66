/** The index allocator of src/compiler-rt/builtins/emutls.c as a transition system:
    any number of threads run emutls_get_index, interleaved one memory access at a
    time; the pthread mutex and the acquire/release accesses are atomic. */
module EmuTlsIndex {
  import opened Words

  /** A control variable is named by its (non-null) address. */
  type Control = c: nat | 0 < c < TWO64 witness 1

  type Tid = nat

  /** A control variable takes four words of 64 bits, so indices stay far below 2^64. */
  const CONTROL_SIZE: nat := 32
  const INDEX_BOUND: nat := 0x1000_0000_0000_0000

  /** What a thread has left to do in emutls_get_index(control), with its local index. */
  datatype Pc =
    | Idle
    | Loading(control: Control)
    | Locking(control: Control)
    | Rereading(control: Control)
    | Counting(control: Control)
    | Storing(control: Control, index: nat)
    | Unlocking(control: Control, index: nat)
    | Returned(control: Control, index: nat)

  datatype Owner = Free | HeldBy(tid: Tid)

  /** emutls_num_object, the nonzero object.index fields, the mutex, the threads. */
  datatype State = State(count: nat, index: map<Control, nat>, owner: Owner, pc: map<Tid, Pc>)

  function IndexOf(s: State, c: Control): nat { if c in s.index then s.index[c] else 0 }
  function PcOf(s: State, t: Tid): Pc { if t in s.pc then s.pc[t] else Idle }

  predicate InCritical(pc: Pc) { pc.Rereading? || pc.Counting? || pc.Storing? || pc.Unlocking? }

  ghost predicate Init(s: State) { s == State(0, map[], Free, map[]) }

  function At(s: State, t: Tid, pc: Pc): State { s.(pc := s.pc[t := pc]) }

  /** One step of thread t; a call of the function on any control may begin when the
      thread is idle or has returned. */
  ghost predicate Step(s: State, t: Tid, s': State) {
    match PcOf(s, t)
    case Idle => exists c: Control :: s' == At(s, t, Loading(c))
    case Returned(_, _) => exists c: Control :: s' == At(s, t, Loading(c))
    case Loading(c) =>
      s' == At(s, t, if IndexOf(s, c) != 0 then Returned(c, IndexOf(s, c)) else Locking(c))
    case Locking(c) =>
      s.owner == Free && s' == At(s, t, Rereading(c)).(owner := HeldBy(t))
    case Rereading(c) =>
      s' == At(s, t, if IndexOf(s, c) == 0 then Counting(c) else Unlocking(c, IndexOf(s, c)))
    case Counting(c) =>
      var n := (s.count + 1) % TWO64;
      s' == At(s, t, Storing(c, n)).(count := n)
    case Storing(c, i) =>
      s' == At(s, t, Unlocking(c, i)).(index := s.index[c := i])
    case Unlocking(c, i) =>
      s' == At(s, t, Returned(c, i)).(owner := Free)
  }

  // ------------------------------------------------------ invariant

  /** What a thread's position says about the shared state. */
  ghost predicate LocalInv(s: State, pc: Pc) {
    match pc
    case Counting(c) => c !in s.index
    case Storing(c, i) => c !in s.index && i == s.count > 0 && (forall d :: d in s.index ==> s.index[d] != i)
    case Unlocking(c, i) => IndexOf(s, c) == i != 0
    case Returned(c, i) => IndexOf(s, c) == i != 0
    case _ => true
  }

  /** The value handed out but not yet stored, if any. */
  predicate Pending(s: State) { s.owner.HeldBy? && PcOf(s, s.owner.tid).Storing? }

  /** Who holds the mutex, and what each thread knows. */
  ghost predicate ThreadsInv(s: State) {
    && (forall t :: InCritical(PcOf(s, t)) <==> s.owner == HeldBy(t))
    && (forall t :: LocalInv(s, PcOf(s, t)))
  }

  /** Indices are distinct, in range, and counted. */
  ghost predicate IndexInv(s: State) {
    && s.count < TWO64
    && (forall c :: c in s.index ==> 1 <= s.index[c] <= s.count)
    && (forall c, d :: c in s.index && d in s.index && c != d ==> s.index[c] != s.index[d])
    && |s.index| + (if Pending(s) then 1 else 0) == s.count
  }

  ghost predicate Inv(s: State) { ThreadsInv(s) && IndexInv(s) }

  /** There are fewer than 2^64 control variables. */
  lemma {:induction false} ControlsBounded(s: set<Control>, n: nat)
    requires forall c :: c in s ==> c <= n
    ensures |s| <= n
  {
    if n == 0 {
      assert s == {};
    } else {
      var rest := s - {n};
      ControlsBounded(rest, n - 1);
      assert |s| <= |rest| + 1;
    }
  }

  /** So the counter cannot wrap while some control has no index. */
  lemma RoomForOne(s: State, c: Control)
    requires c !in s.index
    ensures |s.index| + 1 < TWO64
  {
    var keys := s.index.Keys + {c};
    ControlsBounded(keys, TWO64 - 1);
    assert |keys| == |s.index.Keys| + 1;
    assert |s.index.Keys| == |s.index|;
  }

  lemma StepKeepsInv(s: State, t: Tid, s': State)
    requires Inv(s) && Step(s, t, s')
    ensures Inv(s')
  {
    assert LocalInv(s, PcOf(s, t));
    match PcOf(s, t)
    case Idle => LocalStep(s, t, s');
    case Returned(_, _) => LocalStep(s, t, s');
    case Loading(_) => LocalStep(s, t, s');
    case Rereading(_) => LocalStep(s, t, s');
    case Locking(_) =>
    case Counting(c) => CountStep(s, t, s', c);
    case Storing(c, i) => StoreStep(s, t, s', c, i);
    case Unlocking(c, i) =>
  }

  /** Steps that change nothing but the thread's own position. */
  lemma LocalStep(s: State, t: Tid, s': State)
    requires Inv(s) && s' == At(s, t, PcOf(s', t))
    requires InCritical(PcOf(s, t)) <==> InCritical(PcOf(s', t))
    requires LocalInv(s, PcOf(s', t)) && !PcOf(s, t).Storing? && !PcOf(s', t).Storing?
    ensures Inv(s')
  {
    forall u
      ensures InCritical(PcOf(s', u)) <==> s'.owner == HeldBy(u)
      ensures LocalInv(s', PcOf(s', u))
    {
      assert LocalInv(s, PcOf(s, u));
    }
  }

  /** Two threads are not both inside the mutex. */
  lemma OneInside(s: State, t: Tid, u: Tid)
    requires Inv(s) && InCritical(PcOf(s, t)) && u != t
    ensures !InCritical(PcOf(s, u))
  {
    assert s.owner == HeldBy(t);
  }

  lemma CountStep(s: State, t: Tid, s': State, c: Control)
    requires Inv(s) && PcOf(s, t) == Counting(c) && Step(s, t, s')
    ensures Inv(s')
  {
    assert LocalInv(s, PcOf(s, t));
    assert s.owner == HeldBy(t) && InCritical(PcOf(s, t));
    RoomForOne(s, c);
    assert s'.count == s.count + 1;
    CountThreads(s, t, s', c);
  }

  lemma CountThreads(s: State, t: Tid, s': State, c: Control)
    requires ThreadsInv(s) && PcOf(s, t) == Counting(c) && s'.count == s.count + 1
    requires s' == At(s, t, Storing(c, s'.count)).(count := s'.count)
    requires forall d :: d in s.index ==> s.index[d] <= s.count
    ensures ThreadsInv(s')
  {
    assert LocalInv(s, PcOf(s, t));
    assert s.owner == HeldBy(t) && InCritical(PcOf(s, t));
    forall u
      ensures InCritical(PcOf(s', u)) <==> s'.owner == HeldBy(u)
      ensures LocalInv(s', PcOf(s', u))
    {
      if u != t { assert LocalInv(s, PcOf(s, u)) && !InCritical(PcOf(s, u)); }
    }
  }

  lemma StoreStep(s: State, t: Tid, s': State, c: Control, i: nat)
    requires Inv(s) && PcOf(s, t) == Storing(c, i) && Step(s, t, s')
    ensures Inv(s')
  {
    assert LocalInv(s, PcOf(s, t));
    assert s.owner == HeldBy(t);
    assert |s'.index| == |s.index| + 1;
    forall u
      ensures InCritical(PcOf(s', u)) <==> s'.owner == HeldBy(u)
      ensures LocalInv(s', PcOf(s', u))
    {
      if u != t { OneInside(s, t, u); assert LocalInv(s, PcOf(s, u)); }
    }
  }

  /** An index never changes once it is set. */
  lemma StepKeepsIndex(s: State, t: Tid, s': State, c: Control)
    requires Inv(s) && Step(s, t, s') && c in s.index
    ensures c in s'.index && s'.index[c] == s.index[c]
  {
    assert LocalInv(s, PcOf(s, t));
  }

  // ------------------------------------------------------ whole runs

  /** A run: who moves, and the states before, between and after. */
  ghost predicate IsRun(states: seq<State>, schedule: seq<Tid>) {
    && |states| == |schedule| + 1
    && Init(states[0])
    && forall i :: 0 <= i < |schedule| ==> Step(states[i], schedule[i], states[i + 1])
  }

  lemma {:induction false} RunKeepsInv(states: seq<State>, schedule: seq<Tid>, i: nat)
    requires IsRun(states, schedule) && i < |states|
    ensures Inv(states[i])
  {
    if i > 0 {
      RunKeepsInv(states, schedule, i - 1);
      StepKeepsInv(states[i - 1], schedule[i - 1], states[i]);
    }
  }

  lemma {:induction false} RunKeepsIndex(states: seq<State>, schedule: seq<Tid>, i: nat, j: nat, c: Control)
    requires IsRun(states, schedule) && i <= j < |states| && c in states[i].index
    ensures c in states[j].index && states[j].index[c] == states[i].index[c]
    decreases j
  {
    if i < j {
      RunKeepsIndex(states, schedule, i, j - 1, c);
      RunKeepsInv(states, schedule, j - 1);
      StepKeepsIndex(states[j - 1], schedule[j - 1], states[j], c);
    }
  }

  /** Whatever the interleaving, any two calls agree on a control's index and no two
      controls share one, however far apart in the run the calls return. */
  lemma CallsAgree(states: seq<State>, schedule: seq<Tid>, i: nat, j: nat, t: Tid, u: Tid)
    requires IsRun(states, schedule) && i < |states| && j < |states|
    requires PcOf(states[i], t).Returned? && PcOf(states[j], u).Returned?
    ensures var p, q := PcOf(states[i], t), PcOf(states[j], u);
      && (p.index == q.index <==> p.control == q.control)
      && 1 <= p.index <= states[i].count
  {
    if i <= j {
      LaterCallAgrees(states, schedule, i, j, t, u);
    } else {
      LaterCallAgrees(states, schedule, j, i, u, t);
    }
    RunKeepsInv(states, schedule, i);
    assert LocalInv(states[i], PcOf(states[i], t));
  }

  lemma LaterCallAgrees(states: seq<State>, schedule: seq<Tid>, i: nat, j: nat, t: Tid, u: Tid)
    requires IsRun(states, schedule) && i <= j < |states|
    requires PcOf(states[i], t).Returned? && PcOf(states[j], u).Returned?
    ensures PcOf(states[i], t).index == PcOf(states[j], u).index
       <==> PcOf(states[i], t).control == PcOf(states[j], u).control
  {
    RunKeepsInv(states, schedule, i);
    RunKeepsInv(states, schedule, j);
    assert LocalInv(states[i], PcOf(states[i], t));
    assert LocalInv(states[j], PcOf(states[j], u));
    RunKeepsIndex(states, schedule, i, j, PcOf(states[i], t).control);
  }

  /** At most one thread is between lock and unlock. */
  lemma MutualExclusion(states: seq<State>, schedule: seq<Tid>, i: nat, t: Tid, u: Tid)
    requires IsRun(states, schedule) && i < |states|
    requires InCritical(PcOf(states[i], t)) && InCritical(PcOf(states[i], u))
    ensures t == u
  {
    RunKeepsInv(states, schedule, i);
    assert states[i].owner == HeldBy(t) && states[i].owner == HeldBy(u);
  }

  /** The numbers 1 .. n. */
  function UpTo(n: nat): (r: set<nat>)
    ensures forall k: nat :: k in r <==> 1 <= k <= n
    ensures |r| == n
  {
    if n == 0 then {} else UpTo(n - 1) + {n}
  }

  /** While the mutex is free the indices in use are exactly 1 .. emutls_num_object. */
  lemma FreeMeansDense(states: seq<State>, schedule: seq<Tid>, i: nat)
    requires IsRun(states, schedule) && i < |states| && states[i].owner == Free
    ensures |states[i].index| == states[i].count
    ensures states[i].index.Values == UpTo(states[i].count)
  {
    RunKeepsInv(states, schedule, i);
    var s := states[i];
    InjectiveValues(s.index);
    assert s.index.Values <= UpTo(s.count);
    SubsetOfSameSize(s.index.Values, UpTo(s.count));
  }

  /** Control variables do not overlap. */
  ghost predicate Spaced(controls: set<Control>) {
    forall c, d :: c in controls && d in controls && c < d ==> c + CONTROL_SIZE <= d
  }

  lemma {:induction false} SpacedBounded(controls: set<Control>, n: nat)
    requires Spaced(controls) && forall c :: c in controls ==> c < CONTROL_SIZE * n
    ensures |controls| <= n
  {
    if n == 0 {
      assert controls == {};
    } else {
      var below := set c | c in controls && c < CONTROL_SIZE * (n - 1);
      SpacedBounded(below, n - 1);
      AtMostOneAbove(controls, controls - below, n);
      assert controls == below + (controls - below) && |controls| <= |below| + |controls - below|;
    }
  }

  lemma AtMostOneAbove(controls: set<Control>, top: set<Control>, n: nat)
    requires n > 0 && Spaced(controls) && top <= controls
    requires forall c :: c in top ==> CONTROL_SIZE * (n - 1) <= c < CONTROL_SIZE * n
    ensures |top| <= 1
  {
    if top != {} {
      var c :| c in top;
      assert forall d :: d in top ==> d == c;
      assert top == {c};
    }
  }

  /** Every index handed out is below 2^60, so its array's byte count cannot wrap. */
  lemma IndexFits(states: seq<State>, schedule: seq<Tid>, i: nat, t: Tid)
    requires IsRun(states, schedule) && i < |states| && PcOf(states[i], t).Returned?
    requires Spaced(states[i].index.Keys)
    ensures 1 <= PcOf(states[i], t).index < INDEX_BOUND
  {
    RunKeepsInv(states, schedule, i);
    var s := states[i];
    assert LocalInv(s, PcOf(s, t));
    SpacedBounded(s.index.Keys, TWO64 / CONTROL_SIZE);
    assert |s.index.Keys| == |s.index|;
  }

  lemma {:induction false} InjectiveValues(m: map<Control, nat>)
    requires forall c, d :: c in m && d in m && c != d ==> m[c] != m[d]
    ensures |m.Values| == |m|
    decreases |m|
  {
    if m == map[] {
      assert m.Values == {};
    } else {
      var c :| c in m;
      var rest := map d | d in m && d != c :: m[d];
      assert rest.Keys == m.Keys - {c};
      assert |rest| == |rest.Keys| && |m| == |m.Keys|;
      InjectiveValues(rest);
      assert m.Values == rest.Values + {m[c]} by {
        forall v | v in m.Values ensures v in rest.Values + {m[c]} {
          var d :| d in m && m[d] == v;
          if d != c { assert rest[d] == v; }
        }
      }
      assert m[c] !in rest.Values;
    }
  }

  lemma SubsetOfSameSize(a: set<nat>, b: set<nat>)
    requires a <= b && |a| == |b|
    ensures a == b
  {
    assert |b - a| == 0;
  }

  // ------------------------------------------------------ progress

  /** Steps until the mutex's holder has unlocked. */
  function Remaining(pc: Pc): nat {
    match pc
    case Rereading(_) => 4
    case Counting(_) => 3
    case Storing(_, _) => 2
    case Unlocking(_, _) => 1
    case _ => 0
  }

  /** No call is stuck: every thread can move, except one that waits for the mutex while
      another thread holds it; a thread between calls may call for any control; and a
      call for a control that has its index returns without the mutex. */
  lemma ThreadsCanMove(states: seq<State>, schedule: seq<Tid>, i: nat, t: Tid, called: Control)
    requires IsRun(states, schedule) && i < |states|
    ensures var s := states[i];
      && (PcOf(s, t).Locking? && s.owner != Free ==> exists u :: u != t && s.owner == HeldBy(u))
      && (PcOf(s, t).Locking? && s.owner == Free ==> exists s' :: Step(s, t, s') && s'.owner == HeldBy(t))
      && (PcOf(s, t).Idle? || PcOf(s, t).Returned? ==>
            exists s' :: Step(s, t, s') && PcOf(s', t) == Loading(called))
      && (PcOf(s, t).Loading? ==> exists s' :: Step(s, t, s'))
      && (forall s' :: Step(s, t, s') && PcOf(s, t).Loading? && IndexOf(s, PcOf(s, t).control) != 0 ==>
            PcOf(s', t).Returned?)
  {
    RunKeepsInv(states, schedule, i);
    var s := states[i];
    match PcOf(s, t)
    case Locking(c) =>
      assert !InCritical(PcOf(s, t));
      if s.owner == Free {
        assert Step(s, t, At(s, t, Rereading(c)).(owner := HeldBy(t)));
      } else {
        assert s.owner.tid != t;
      }
    case Loading(c) =>
      assert Step(s, t, At(s, t, if IndexOf(s, c) != 0 then Returned(c, IndexOf(s, c)) else Locking(c)));
    case _ =>
      if PcOf(s, t).Idle? || PcOf(s, t).Returned? {
        CanCall(s, t, called);
      }
  }

  lemma CanCall(s: State, t: Tid, c: Control)
    requires PcOf(s, t).Idle? || PcOf(s, t).Returned?
    ensures exists s' :: Step(s, t, s') && PcOf(s', t) == Loading(c)
  {
    var s' := At(s, t, Loading(c));
    assert PcOf(s', t) == Loading(c) && Step(s, t, s');
  }

  /** The mutex is never held for ever: its holder can always move, and every move open
      to it leads nearer to the unlock, after which the call has returned. */
  lemma HolderAdvances(states: seq<State>, schedule: seq<Tid>, i: nat, t: Tid) returns (next: State)
    requires IsRun(states, schedule) && i < |states| && states[i].owner == HeldBy(t)
    ensures Step(states[i], t, next)
    ensures forall s' :: Step(states[i], t, s') ==>
      && Remaining(PcOf(s', t)) < Remaining(PcOf(states[i], t))
      && if Remaining(PcOf(s', t)) == 0 then s'.owner == Free && PcOf(s', t).Returned? else s'.owner == HeldBy(t)
  {
    RunKeepsInv(states, schedule, i);
    var s := states[i];
    assert InCritical(PcOf(s, t));
    match PcOf(s, t)
    case Rereading(c) =>
      next := At(s, t, if IndexOf(s, c) == 0 then Counting(c) else Unlocking(c, IndexOf(s, c)));
    case Counting(c) =>
      var n := (s.count + 1) % TWO64;
      next := At(s, t, Storing(c, n)).(count := n);
    case Storing(c, i) =>
      next := At(s, t, Unlocking(c, i)).(index := s.index[c := i]);
    case Unlocking(c, i) =>
      next := At(s, t, Returned(c, i)).(owner := Free);
  }
}
