/** The locked paths of src/compiler-rt/builtins/atomic.c as a transition system. Any
    number of threads run loads, stores, exchanges, compare-exchanges and fetch-ops,
    interleaved one memory access at a time: every byte that memcpy or memcmp touches
    is a step of its own, and the weak compare-exchange on a lock word may fail at any
    moment. Memory is bytes, and calls name ranges of it that may overlap. */
module LockAtomics {
  import opened LockTable
  import Words

  type Byte = Words.Byte

  type Pointer = p: nat | p < Words.TWO64

  type Tid = nat
  type LockWords = w: seq<nat> | |w| == SPINLOCK_COUNT witness seq(SPINLOCK_COUNT, _ => 0)
  type Memory = seq<Byte>

  datatype Kind = Add | Sub | BitAnd | BitOr | BitXor

  datatype Op =
    | Load
    | Store(value: seq<Byte>)
    | Exchange(value: seq<Byte>)
    | CompareExchange(expected: seq<Byte>, desired: seq<Byte>)
    | Fetch(kind: Kind, operand: seq<Byte>)

  /** The size bytes from ptr on. */
  datatype Range = Range(ptr: Pointer, size: nat)

  datatype Call = Call(op: Op, at: Range)

  predicate Covers(a: Range, x: nat) { a.ptr <= x < a.ptr + a.size }
  predicate InBounds(a: Range, m: Memory) { a.ptr + a.size <= |m| }

  predicate Overlap(a: Range, b: Range) {
    a.size > 0 && b.size > 0 && a.ptr < b.ptr + b.size && b.ptr < a.ptr + a.size
  }

  predicate SameLine(a: Range, b: Range) { a.ptr / 16 == b.ptr / 16 }

  /** What a range of memory holds. */
  function View(m: Memory, a: Range): (v: seq<Byte>)
    requires InBounds(a, m)
    ensures |v| == a.size
  {
    m[a.ptr..a.ptr + a.size]
  }

  /** Memory with v written from ptr on. */
  function Put(m: Memory, ptr: nat, v: seq<Byte>): (r: Memory)
    requires ptr + |v| <= |m|
    ensures |r| == |m|
    ensures forall x :: 0 <= x < |m| ==> r[x] == if ptr <= x < ptr + |v| then v[x - ptr] else m[x]
  {
    m[..ptr] + v + m[ptr + |v|..]
  }

  /** What the caller gets back: nothing, the old value, or for a compare-exchange the
      flag 1, or the flag 0 and the value written to *expected. */
  datatype Result = Nothing | Old(value: seq<Byte>) | Exchanged | Differed(value: seq<Byte>)

  function LockOf(p: Pointer): (l: nat)
    ensures l < SPINLOCK_COUNT
  {
    assert p < Words.Pow2(64) by { hide Words.Pow2; Words.Pow2Values(); }
    LockForBits(p);
    LockFor(p)
  }

  // ------------------------------------------------------ the operations, run alone

  /** A little-endian integer. */
  function Number(bytes: seq<Byte>): nat {
    if bytes == [] then 0 else bytes[0] + 256 * Number(bytes[1..])
  }

  function Bytes(x: int, n: nat): (r: seq<Byte>)
    ensures |r| == n
    decreases n
  {
    if n == 0 then [] else [x % 256] + Bytes(x / 256, n - 1)
  }

  /** tmp op val on the unsigned integer type of that size. */
  function Combine(kind: Kind, tmp: seq<Byte>, val: seq<Byte>): (r: seq<Byte>)
    ensures |r| == |tmp|
  {
    var x, y := Number(tmp), Number(val);
    Bytes(match kind
          case Add => x + y
          case Sub => x - y
          case BitAnd => Words.And(x, y)
          case BitOr => Words.Or(x, y)
          case BitXor => Words.Xor(x, y), |tmp|)
  }

  /** The new value of the range and the result, were the operation indivisible. */
  function Apply(op: Op, v: seq<Byte>): (r: (seq<Byte>, Result))
    ensures Sized(op, |v|) ==> |r.0| == |v|
  {
    match op
    case Load => (v, Old(v))
    case Store(value) => (value, Nothing)
    case Exchange(value) => (value, Old(v))
    case CompareExchange(expected, desired) =>
      if v == expected then (desired, Exchanged) else (v, Differed(v))
    case Fetch(kind, operand) => (Combine(kind, v, operand), Old(v))
  }

  /** Operands have the size of the range; the lock-free sizes never get here. */
  predicate Sized(op: Op, n: nat) {
    match op
    case Load => true
    case Store(value) => |value| == n
    case Exchange(value) => |value| == n
    case CompareExchange(expected, desired) => |expected| == n && |desired| == n
    case Fetch(_, operand) => |operand| == n
  }

  datatype Entry = Entry(tid: Tid, call: Call, result: Result)

  /** The memory after one call, run alone. */
  function After(m: Memory, c: Call): (r: Memory)
    ensures |r| == |m|
  {
    if InBounds(c.at, m) && Sized(c.op, c.at.size) then Put(m, c.at.ptr, Apply(c.op, View(m, c.at)).0) else m
  }

  /** The memory after running the calls of a log one at a time. */
  function Replay(init: Memory, log: seq<Entry>): (r: Memory)
    ensures |r| == |init|
  {
    if log == [] then init else After(Replay(init, log[..|log| - 1]), log[|log| - 1].call)
  }

  // ------------------------------------------------------ threads

  /** Where a thread is inside an operation. seen is the local old of lock(), buffer what
      memcpy has copied out so far, k the bytes compared or copied in so far. */
  datatype Pc =
    | Idle
    | Spinning(call: Call, seen: nat)
    | Failed(call: Call, seen: nat)
    | Comparing(call: Call, k: nat)
    | Reading(call: Call, buffer: seq<Byte>)
    | Writing(call: Call, source: seq<Byte>, k: nat, result: Result)
    | Unlocking(call: Call, result: Result)
    | Returned(call: Call, result: Result)

  /** log records each call as it unlocks. */
  datatype State = State(mem: Memory, locks: LockWords, pc: map<Tid, Pc>, log: seq<Entry>)

  function PcOf(s: State, t: Tid): Pc { if t in s.pc then s.pc[t] else Idle }
  function At(s: State, t: Tid, pc: Pc): State { s.(pc := s.pc[t := pc]) }

  predicate Critical(pc: Pc) { pc.Comparing? || pc.Reading? || pc.Writing? || pc.Unlocking? }

  /** The first thing done with the lock held. */
  function Enter(call: Call): Pc {
    match call.op
    case CompareExchange(_, _) => Comparing(call, 0)
    case Store(value) => Writing(call, value, 0, Nothing)
    case _ => Reading(call, [])
  }

  /** What follows once the whole object has been copied out. */
  function AfterReading(call: Call, v: seq<Byte>): Pc {
    match call.op
    case Exchange(value) => Writing(call, value, 0, Old(v))
    case Fetch(kind, operand) => Writing(call, Combine(kind, v, operand), 0, Old(v))
    case CompareExchange(_, _) => Unlocking(call, Differed(v))
    case _ => Unlocking(call, Old(v))
  }

  ghost predicate Init(s: State) {
    s.locks == seq(SPINLOCK_COUNT, _ => 0) && s.pc == map[] && s.log == []
  }

  ghost predicate Begins(s: State, t: Tid, s': State, call: Call) {
    InBounds(call.at, s.mem) && Sized(call.op, call.at.size) && s' == At(s, t, Spinning(call, 0))
  }

  ghost predicate Step(s: State, t: Tid, s': State) {
    match PcOf(s, t)
    case Idle => exists call :: Begins(s, t, s', call)
    case Returned(_, _) => exists call :: Begins(s, t, s', call)
    case Spinning(call, seen) =>
      var l := LockOf(call.at.ptr);
      || (s.locks[l] == seen && s' == At(s, t, Enter(call)).(locks := s.locks[l := 1]))
      || s' == At(s, t, Failed(call, s.locks[l]))
    case Failed(call, seen) => s' == At(s, t, Spinning(call, 0))
    case Comparing(call, k) =>
      && InBounds(call.at, s.mem) && call.op.CompareExchange?
      && s' == At(s, t,
           if k >= call.at.size || k >= |call.op.expected| then Writing(call, call.op.desired, 0, Exchanged)
           else if s.mem[call.at.ptr + k] == call.op.expected[k] then Comparing(call, k + 1)
           else Reading(call, []))
    case Reading(call, buffer) =>
      && InBounds(call.at, s.mem)
      && s' == At(s, t,
           if |buffer| < call.at.size then Reading(call, buffer + [s.mem[call.at.ptr + |buffer|]])
           else AfterReading(call, buffer))
    case Writing(call, source, k, result) =>
      && InBounds(call.at, s.mem)
      && if k < call.at.size && k < |source| then
           s' == At(s, t, Writing(call, source, k + 1, result)).(mem := s.mem[call.at.ptr + k := source[k]])
         else s' == At(s, t, Unlocking(call, result))
    case Unlocking(call, result) =>
      s' == At(s, t, Returned(call, result)).(locks := s.locks[LockOf(call.at.ptr) := 0],
                                              log := s.log + [Entry(t, call, result)])
  }

  // ------------------------------------------------------ invariant

  predicate Started(pc: Pc) { !pc.Idle? && !pc.Returned? }

  predicate Holds(s: State, t: Tid, l: nat) { Critical(PcOf(s, t)) && LockOf(PcOf(s, t).call.at.ptr) == l }

  /** Thread t is at work on a range that holds byte x. */
  predicate InUse(s: State, t: Tid, x: nat) { Critical(PcOf(s, t)) && Covers(PcOf(s, t).call.at, x) }

  /** What the lock table asks of its users: calls in progress at the same time whose
      ranges overlap have their bases in one sixteen-byte line. */
  ghost predicate Disciplined(s: State) {
    forall t, u ::
      Started(PcOf(s, t)) && Started(PcOf(s, u)) && t != u && Overlap(PcOf(s, t).call.at, PcOf(s, u).call.at) ==>
      SameLine(PcOf(s, t).call.at, PcOf(s, u).call.at)
  }

  /** What a thread inside an operation knows: v is what the range holds now, abs
      what it holds after the logged calls. */
  predicate Progress(pc: Pc, v: seq<Byte>, abs: seq<Byte>) {
    match pc
    case Comparing(call, k) =>
      && v == abs && call.op.CompareExchange?
      && k <= |abs| && k <= |call.op.expected| && call.op.expected[..k] == abs[..k]
    case Reading(call, buffer) =>
      && v == abs && buffer <= abs && !call.op.Store?
      && (call.op.CompareExchange? ==> call.op.expected != abs)
    case Writing(call, source, k, result) =>
      && Apply(call.op, abs) == (source, result)
      && k <= |source| == |abs| && v == source[..k] + abs[k..]
    case Unlocking(call, result) => Apply(call.op, abs) == (v, result)
    case _ => true
  }

  /** What a thread's position says without looking at the bytes. */
  predicate Shaped(pc: Pc, mem: Memory) {
    Started(pc) ==>
      && InBounds(pc.call.at, mem) && Sized(pc.call.op, pc.call.at.size)
      && match pc
         case Spinning(_, seen) => seen == 0
         case Comparing(call, k) => call.op.CompareExchange? && k <= call.at.size
         case Reading(call, buffer) => |buffer| <= call.at.size
         case Writing(call, source, k, _) => k <= |source| == call.at.size
         case _ => true
  }

  predicate LocalInv(pc: Pc, mem: Memory, abs: Memory)
    requires |mem| == |abs|
  {
    Shaped(pc, mem) && (Critical(pc) ==> Progress(pc, View(mem, pc.call.at), View(abs, pc.call.at)))
  }

  /** A lock word is 1 exactly while some thread is inside, and then one thread only. */
  ghost predicate LocksInv(s: State) {
    && (forall l :: 0 <= l < SPINLOCK_COUNT ==> s.locks[l] == 0 || s.locks[l] == 1)
    && (forall l :: 0 <= l < SPINLOCK_COUNT && s.locks[l] == 1 ==> exists t :: Holds(s, t, l))
    && (forall t: Tid, l: nat :: Holds(s, t, l) ==> s.locks[l] == 1)
    && (forall t, u, l :: Holds(s, t, l) && Holds(s, u, l) ==> t == u)
  }

  ghost predicate ControlInv(s: State) { LocksInv(s) && forall t :: Shaped(PcOf(s, t), s.mem) }

  ghost predicate DataInv(s: State, abs: Memory) {
    && |s.mem| == |abs|
    && (forall t :: LocalInv(PcOf(s, t), s.mem, abs))
    && (forall x :: 0 <= x < |s.mem| && (forall t :: !InUse(s, t, x)) ==> s.mem[x] == abs[x])
  }

  /** Entry k reports what its operation yields on the memory left by those before. */
  ghost predicate Explained(init: Memory, log: seq<Entry>, k: nat)
    requires k < |log|
  {
    var m, call := Replay(init, log[..k]), log[k].call;
    InBounds(call.at, m) && Sized(call.op, call.at.size) && log[k].result == Apply(call.op, View(m, call.at)).1
  }

  ghost predicate Inv(s: State, init: Memory) {
    && LocksInv(s)
    && DataInv(s, Replay(init, s.log))
    && forall k :: 0 <= k < |s.log| ==> Explained(init, s.log, k)
  }

  // ------------------------------------------------------ the steps keep it

  /** Ranges that start in one line use one lock. */
  lemma OneLock(a: Range, b: Range)
    requires SameLine(a, b)
    ensures LockOf(a.ptr) == LockOf(b.ptr)
  {
    hide LockFor, Words.Pow2;
    Words.Pow2Values();
    LineSharesLock(a.ptr, b.ptr);
  }

  /** So two threads inside are at work on disjoint ranges. */
  lemma ApartInside(s: State, t: Tid, u: Tid)
    requires LocksInv(s) && Disciplined(s) && Critical(PcOf(s, t)) && Critical(PcOf(s, u)) && t != u
    ensures !Overlap(PcOf(s, t).call.at, PcOf(s, u).call.at)
  {
    hide LockOf, Overlap, SameLine;
    assert Holds(s, t, LockOf(PcOf(s, t).call.at.ptr)) && Holds(s, u, LockOf(PcOf(s, u).call.at.ptr));
    if Overlap(PcOf(s, t).call.at, PcOf(s, u).call.at) { OneLock(PcOf(s, t).call.at, PcOf(s, u).call.at); }
  }

  /** Moves outside and moves inside the critical section leave the locks as they are. */
  lemma LocksUntouched(s: State, t: Tid, s': State)
    requires LocksInv(s) && s'.locks == s.locks
    requires s'.pc == s.pc[t := PcOf(s', t)]
    requires Critical(PcOf(s', t)) <==> Critical(PcOf(s, t))
    requires Critical(PcOf(s, t)) ==> PcOf(s', t).call == PcOf(s, t).call
    ensures LocksInv(s')
  {
    hide LockOf;
    assert forall u, l :: Holds(s', u, l) <==> Holds(s, u, l) by {
      assert forall u :: u != t ==> PcOf(s', u) == PcOf(s, u);
    }
  }

  lemma LockTaken(s: State, t: Tid, s': State, call: Call)
    requires LocksInv(s) && PcOf(s, t) == Spinning(call, 0)
    requires s.locks[LockOf(call.at.ptr)] == 0
    requires s'.locks == s.locks[LockOf(call.at.ptr) := 1]
    requires s'.pc == s.pc[t := PcOf(s', t)] && Critical(PcOf(s', t)) && PcOf(s', t).call == call
    ensures LocksInv(s')
  {
    hide LockOf;
    var mine := LockOf(call.at.ptr);
    assert forall u, l :: u != t ==> (Holds(s', u, l) <==> Holds(s, u, l));
    assert forall l :: Holds(s', t, l) <==> l == mine;
    assert forall l :: !Holds(s, t, l);
    forall l | 0 <= l < SPINLOCK_COUNT && s'.locks[l] == 1
      ensures exists u :: Holds(s', u, l)
    {
      if l == mine {
        assert Holds(s', t, l);
      } else {
        var u :| Holds(s, u, l);
        assert Holds(s', u, l);
      }
    }
  }

  lemma LockReleased(s: State, t: Tid, s': State, call: Call)
    requires LocksInv(s) && Critical(PcOf(s, t)) && PcOf(s, t).call == call
    requires s'.locks == s.locks[LockOf(call.at.ptr) := 0]
    requires s'.pc == s.pc[t := PcOf(s', t)] && !Critical(PcOf(s', t))
    ensures LocksInv(s')
  {
    hide LockOf;
    var mine := LockOf(call.at.ptr);
    assert Holds(s, t, mine);
    assert forall u, l :: u != t ==> (Holds(s', u, l) <==> Holds(s, u, l));
    assert forall l :: !Holds(s', t, l);
    forall l | 0 <= l < SPINLOCK_COUNT && s'.locks[l] == 1
      ensures exists u :: Holds(s', u, l)
    {
      var u :| Holds(s, u, l);
      assert Holds(s', u, l);
    }
  }

  /** Locks and positions stay in order whatever ranges the calls use. */
  lemma StepKeepsControl(s: State, t: Tid, s': State)
    requires ControlInv(s) && Step(s, t, s')
    ensures ControlInv(s')
  {
    hide LockOf, Combine, LocksInv, Sized;
    assert Shaped(PcOf(s, t), s.mem);
    StepKeepsShape(s, t, s');
    match PcOf(s, t)
    case Spinning(call, seen) =>
      if s' == At(s, t, Failed(call, s.locks[LockOf(call.at.ptr)])) {
        LocksUntouched(s, t, s');
      } else {
        LockTaken(s, t, s', call);
      }
    case Unlocking(call, result) => LockReleased(s, t, s', call);
    case _ => LocksUntouched(s, t, s');
  }

  lemma StepKeepsShape(s: State, t: Tid, s': State)
    requires (forall u :: Shaped(PcOf(s, u), s.mem)) && Step(s, t, s')
    ensures |s'.mem| == |s.mem| && forall u :: Shaped(PcOf(s', u), s'.mem)
  {
    hide LockOf, Combine;
    assert Shaped(PcOf(s, t), s.mem);
    assert |s'.mem| == |s.mem|;
    forall u ensures Shaped(PcOf(s', u), s'.mem) {
      assert Shaped(PcOf(s, u), s.mem);
    }
  }

  /** A step that touches no memory and logs nothing. */
  lemma MemoryUntouched(s: State, t: Tid, s': State, abs: Memory)
    requires DataInv(s, abs) && s'.mem == s.mem
    requires s'.pc == s.pc[t := PcOf(s', t)] && LocalInv(PcOf(s', t), s.mem, abs)
    requires Critical(PcOf(s, t)) ==> Critical(PcOf(s', t)) && PcOf(s', t).call == PcOf(s, t).call
    ensures DataInv(s', abs)
  {
    hide LocalInv;
    forall u ensures LocalInv(PcOf(s', u), s'.mem, abs) {
      if u != t { assert PcOf(s', u) == PcOf(s, u); }
    }
    forall x | 0 <= x < |s'.mem| && (forall u :: !InUse(s', u, x))
      ensures s'.mem[x] == abs[x]
    {
      forall u ensures !InUse(s, u, x) {
        assert !InUse(s', u, x);
      }
    }
  }

  /** Memory changed in one range at most. */
  ghost predicate OnlyIn(a: Range, m: Memory, m': Memory) {
    |m'| == |m| && forall x :: 0 <= x < |m| && !Covers(a, x) ==> m'[x] == m[x]
  }

  lemma ElsewhereSame(a: Range, b: Range, m: Memory, m': Memory)
    requires OnlyIn(a, m, m') && !Overlap(a, b) && InBounds(b, m)
    ensures InBounds(b, m') && View(m', b) == View(m, b)
  {
    forall i | 0 <= i < b.size ensures View(m', b)[i] == View(m, b)[i] {
      assert !Covers(a, b.ptr + i);
    }
  }

  /** A step of a thread inside its critical section that changes only its own range,
      in memory or in the replayed log. */
  lemma OwnRangeOnly(s: State, t: Tid, s': State, abs: Memory, abs': Memory)
    requires LocksInv(s) && Disciplined(s) && DataInv(s, abs) && Critical(PcOf(s, t))
    requires var c := PcOf(s, t).call;
      && OnlyIn(c.at, s.mem, s'.mem) && OnlyIn(c.at, abs, abs') && InBounds(c.at, s.mem)
      && if Critical(PcOf(s', t)) then PcOf(s', t).call == c else View(s'.mem, c.at) == View(abs', c.at)
    requires s'.pc == s.pc[t := PcOf(s', t)] && |s'.mem| == |abs'| && LocalInv(PcOf(s', t), s'.mem, abs')
    ensures DataInv(s', abs')
  {
    hide LocksInv, Disciplined, LockOf, Sized, Progress, OnlyIn, Overlap;
    var c := PcOf(s, t).call;
    assert |s'.mem| == |s.mem| && |abs'| == |abs| by { SameLength(c.at, s.mem, s'.mem); SameLength(c.at, abs, abs'); }
    forall u ensures LocalInv(PcOf(s', u), s'.mem, abs') {
      if u != t {
        assert PcOf(s', u) == PcOf(s, u);
        assert LocalInv(PcOf(s, u), s.mem, abs);
        if Critical(PcOf(s, u)) {
          ApartInside(s, t, u);
          ElsewhereSame(c.at, PcOf(s, u).call.at, s.mem, s'.mem);
          ElsewhereSame(c.at, PcOf(s, u).call.at, abs, abs');
        }
      }
    }
    forall x | 0 <= x < |s'.mem| && (forall u :: !InUse(s', u, x))
      ensures s'.mem[x] == abs'[x]
    {
      OwnByte(s, t, s', abs, abs', x);
    }
  }

  lemma SameLength(a: Range, m: Memory, m': Memory)
    requires OnlyIn(a, m, m')
    ensures |m'| == |m|
  {}

  lemma OwnByte(s: State, t: Tid, s': State, abs: Memory, abs': Memory, x: nat)
    requires DataInv(s, abs) && Critical(PcOf(s, t)) && s'.pc == s.pc[t := PcOf(s', t)]
    requires var c := PcOf(s, t).call;
      && OnlyIn(c.at, s.mem, s'.mem) && OnlyIn(c.at, abs, abs') && InBounds(c.at, s.mem)
      && if Critical(PcOf(s', t)) then PcOf(s', t).call == c else View(s'.mem, c.at) == View(abs', c.at)
    requires x < |s'.mem| && forall u :: !InUse(s', u, x)
    ensures s'.mem[x] == abs'[x]
  {
    hide LocalInv;
    var c := PcOf(s, t).call;
    assert !InUse(s', t, x);
    if Covers(c.at, x) {
      assert View(s'.mem, c.at)[x - c.at.ptr] == View(abs', c.at)[x - c.at.ptr];
    } else {
      forall u ensures !InUse(s, u, x) {
        assert !InUse(s', u, x);
      }
    }
  }

  lemma StepKeepsInv(s: State, t: Tid, s': State, init: Memory)
    requires Inv(s, init) && Disciplined(s) && Step(s, t, s')
    ensures Inv(s', init)
  {
    hide LockOf, Replay, Explained, Sized, Progress, Combine, Disciplined, LocksInv, View;
    var pc := PcOf(s, t);
    var abs := Replay(init, s.log);
    assert LocalInv(pc, s.mem, abs);
    StepKeepsControl(s, t, s');
    match pc
    case Spinning(call, seen) => SpinStep(s, t, s', abs, call);
    case Comparing(call, k) => CompareStep(s, t, s', abs, call, k);
    case Reading(call, buffer) => ReadStep(s, t, s', abs, call, buffer);
    case Writing(call, source, k, result) => WriteStep(s, t, s', abs, call, source, k, result);
    case Unlocking(call, result) => UnlockStep(s, t, s', init, call, result);
    case _ => MemoryUntouched(s, t, s', abs);
  }

  /** A thread at work on a range that a waiting call overlaps holds that call's lock. */
  lemma LockedOut(s: State, t: Tid, u: Tid)
    requires LocksInv(s) && Disciplined(s) && PcOf(s, t).Spinning? && Critical(PcOf(s, u))
    requires Overlap(PcOf(s, t).call.at, PcOf(s, u).call.at)
    ensures s.locks[LockOf(PcOf(s, t).call.at.ptr)] == 1
  {
    hide LockOf, Overlap, SameLine;
    OneLock(PcOf(s, t).call.at, PcOf(s, u).call.at);
    assert Holds(s, u, LockOf(PcOf(s, t).call.at.ptr));
  }

  /** While its lock word is 0 nobody is at work on the range of a waiting call. */
  lemma FreeRange(s: State, abs: Memory, t: Tid)
    requires LocksInv(s) && Disciplined(s) && DataInv(s, abs) && PcOf(s, t).Spinning?
    requires s.locks[LockOf(PcOf(s, t).call.at.ptr)] == 0
    ensures var c := PcOf(s, t).call;
      InBounds(c.at, s.mem) && InBounds(c.at, abs) && View(s.mem, c.at) == View(abs, c.at)
  {
    hide LocksInv, Disciplined, LockOf, Sized, Progress;
    var c := PcOf(s, t).call;
    assert LocalInv(PcOf(s, t), s.mem, abs);
    forall i | 0 <= i < c.at.size ensures View(s.mem, c.at)[i] == View(abs, c.at)[i] {
      var x := c.at.ptr + i;
      forall u ensures !InUse(s, u, x) {
        if InUse(s, u, x) { LockedOut(s, t, u); }
      }
    }
  }

  lemma SpinStep(s: State, t: Tid, s': State, abs: Memory, call: Call)
    requires LocksInv(s) && Disciplined(s) && DataInv(s, abs) && PcOf(s, t) == Spinning(call, 0) && Step(s, t, s')
    ensures DataInv(s', abs) && s'.log == s.log
  {
    hide LockOf, Sized, Disciplined, View;
    assert LocalInv(PcOf(s, t), s.mem, abs);
    if s' == At(s, t, Failed(call, s.locks[LockOf(call.at.ptr)])) {
        MemoryUntouched(s, t, s', abs);
    } else {
      FreeRange(s, abs, t);
      EnterProgress(call, View(abs, call.at));
      MemoryUntouched(s, t, s', abs);
    }
  }

  lemma EnterProgress(call: Call, v: seq<Byte>)
    requires Sized(call.op, |v|)
    ensures Progress(Enter(call), v, v) && Critical(Enter(call)) && Enter(call).call == call
  {}

  lemma CompareStep(s: State, t: Tid, s': State, abs: Memory, call: Call, k: nat)
    requires DataInv(s, abs) && PcOf(s, t) == Comparing(call, k) && Step(s, t, s')
    ensures DataInv(s', abs) && s'.log == s.log
  {
    hide LockOf, Sized;
    assert LocalInv(PcOf(s, t), s.mem, abs);
    CompareProgress(call, k, View(abs, call.at));
    assert k < call.at.size ==> View(s.mem, call.at)[k] == s.mem[call.at.ptr + k];
    assert LocalInv(PcOf(s', t), s.mem, abs);
    MemoryUntouched(s, t, s', abs);
  }

  lemma CompareProgress(call: Call, k: nat, v: seq<Byte>)
    requires call.op.CompareExchange? && Sized(call.op, |v|) && k <= |v|
    requires Progress(Comparing(call, k), v, v)
    ensures |call.op.expected| == |call.op.desired| == |v|
    ensures k == |v| ==> Progress(Writing(call, call.op.desired, 0, Exchanged), v, v)
    ensures k < |v| ==>
      Progress(if v[k] == call.op.expected[k] then Comparing(call, k + 1) else Reading(call, []), v, v)
  {}

  lemma ReadStep(s: State, t: Tid, s': State, abs: Memory, call: Call, buffer: seq<Byte>)
    requires DataInv(s, abs) && PcOf(s, t) == Reading(call, buffer) && Step(s, t, s')
    ensures DataInv(s', abs) && s'.log == s.log
  {
    hide LockOf, Combine;
    assert LocalInv(PcOf(s, t), s.mem, abs);
    var v := View(abs, call.at);
    if |buffer| < |v| {
      assert View(s.mem, call.at)[|buffer|] == s.mem[call.at.ptr + |buffer|];
      assert buffer + [v[|buffer|]] <= v;
    } else {
      assert buffer == v;
      ReadProgress(call, v);
    }
    assert LocalInv(PcOf(s', t), s.mem, abs);
    MemoryUntouched(s, t, s', abs);
  }

  lemma ReadProgress(call: Call, v: seq<Byte>)
    requires Sized(call.op, |v|) && !call.op.Store? && (call.op.CompareExchange? ==> call.op.expected != v)
    ensures Progress(AfterReading(call, v), v, v)
    ensures Critical(AfterReading(call, v)) && AfterReading(call, v).call == call
  {
    hide Combine;
  }

  lemma WriteStep(s: State, t: Tid, s': State, abs: Memory, call: Call, source: seq<Byte>, k: nat, result: Result)
    requires LocksInv(s) && Disciplined(s) && DataInv(s, abs)
    requires PcOf(s, t) == Writing(call, source, k, result) && Step(s, t, s')
    ensures DataInv(s', abs) && s'.log == s.log
  {
    hide LockOf, Combine, Apply, Sized, Disciplined;
    assert LocalInv(PcOf(s, t), s.mem, abs);
    var a := View(abs, call.at);
    if k < |a| {
      assert View(s'.mem, call.at) == View(s.mem, call.at)[k := source[k]];
      assert (source[..k] + a[k..])[k := source[k]] == source[..k + 1] + a[k + 1..];
    } else {
      assert source[..k] + a[k..] == source;
    }
    assert LocalInv(PcOf(s', t), s'.mem, abs);
    OwnRangeOnly(s, t, s', abs, abs);
  }

  lemma UnlockStep(s: State, t: Tid, s': State, init: Memory, call: Call, result: Result)
    requires Inv(s, init) && Disciplined(s) && PcOf(s, t) == Unlocking(call, result) && Step(s, t, s')
    ensures DataInv(s', Replay(init, s'.log))
    ensures forall k :: 0 <= k < |s'.log| ==> Explained(init, s'.log, k)
  {
    hide LockOf, Apply, Sized, Replay, Explained, LocksInv, DataInv, Disciplined, After, View;
    var abs, abs' := Replay(init, s.log), Replay(init, s'.log);
    UnlockProgress(s, t, abs, call, result);
    ReplayOne(init, s.log, Entry(t, call, result));
    AfterCall(abs, call, View(s.mem, call.at), result);
    OwnRangeOnly(s, t, s', abs, abs');
    LogGrows(init, s.log, Entry(t, call, result));
  }

  lemma UnlockProgress(s: State, t: Tid, abs: Memory, call: Call, result: Result)
    requires DataInv(s, abs) && PcOf(s, t) == Unlocking(call, result)
    ensures |s.mem| == |abs| && InBounds(call.at, s.mem) && Sized(call.op, call.at.size)
    ensures Apply(call.op, View(abs, call.at)) == (View(s.mem, call.at), result)
  {
    hide LockOf, Apply, Sized;
    assert LocalInv(PcOf(s, t), s.mem, abs);
  }

  /** Running a call alone writes its new value into its range and nowhere else. */
  lemma AfterCall(m: Memory, c: Call, v: seq<Byte>, result: Result)
    requires InBounds(c.at, m) && Sized(c.op, c.at.size) && Apply(c.op, View(m, c.at)) == (v, result)
    ensures OnlyIn(c.at, m, After(m, c)) && InBounds(c.at, After(m, c)) && View(After(m, c), c.at) == v
  {
    hide Apply;
  }

  lemma ReplayOne(init: Memory, log: seq<Entry>, entry: Entry)
    ensures Replay(init, log + [entry]) == After(Replay(init, log), entry.call)
  {
    hide After;
    assert (log + [entry])[..|log|] == log;
  }

  lemma LogGrows(init: Memory, log: seq<Entry>, entry: Entry)
    requires forall k :: 0 <= k < |log| ==> Explained(init, log, k)
    requires var m, call := Replay(init, log), entry.call;
      InBounds(call.at, m) && Sized(call.op, call.at.size) && entry.result == Apply(call.op, View(m, call.at)).1
    ensures forall k :: 0 <= k < |log| + 1 ==> Explained(init, log + [entry], k)
  {
    hide Replay, Apply, View, Sized;
    var log' := log + [entry];
    forall k | 0 <= k < |log'| ensures Explained(init, log', k) {
      if k < |log| {
        assert Explained(init, log, k);
        assert log'[..k] == log[..k];
      } else {
        assert log'[..k] == log;
      }
    }
  }

  /** A thread carries out the call it began and no other. */
  lemma StepKeepsCall(s: State, t: Tid, s': State)
    requires Step(s, t, s') && Started(PcOf(s, t))
    ensures !PcOf(s', t).Idle? && PcOf(s', t).call == PcOf(s, t).call
    ensures PcOf(s, t).Unlocking? ==>
      PcOf(s', t).Returned? && s'.log == s.log + [Entry(t, PcOf(s, t).call, PcOf(s', t).result)]
  {
    hide LockOf, Combine;
  }

  // ------------------------------------------------------ progress

  /** Steps a thread holding a lock may still take. */
  function Remaining(pc: Pc): int {
    match pc
    case Comparing(c, k) => 4 + 2 * c.at.size + (c.at.size - k)
    case Reading(c, buffer) => 3 + c.at.size + (c.at.size - |buffer|)
    case Writing(c, _, k, _) => 2 + (c.at.size - k)
    case Unlocking(_, _) => 1
    case _ => 0
  }

  /** The successor of a thread that holds a lock; such a thread never waits. */
  function Next(s: State, t: Tid): (s': State)
    requires Critical(PcOf(s, t)) && InBounds(PcOf(s, t).call.at, s.mem)
    requires PcOf(s, t).Comparing? ==> PcOf(s, t).call.op.CompareExchange?
    ensures Step(s, t, s')
  {
    var call := PcOf(s, t).call;
    match PcOf(s, t)
    case Comparing(_, k) =>
      At(s, t,
        if k >= call.at.size || k >= |call.op.expected| then Writing(call, call.op.desired, 0, Exchanged)
        else if s.mem[call.at.ptr + k] == call.op.expected[k] then Comparing(call, k + 1)
        else Reading(call, []))
    case Reading(_, buffer) =>
      At(s, t,
        if |buffer| < call.at.size then Reading(call, buffer + [s.mem[call.at.ptr + |buffer|]])
        else AfterReading(call, buffer))
    case Writing(_, source, k, result) =>
      if k < call.at.size && k < |source| then
        At(s, t, Writing(call, source, k + 1, result)).(mem := s.mem[call.at.ptr + k := source[k]])
      else At(s, t, Unlocking(call, result))
    case Unlocking(_, result) =>
      At(s, t, Returned(call, result)).(locks := s.locks[LockOf(call.at.ptr) := 0],
                                        log := s.log + [Entry(t, call, result)])
  }

  // ------------------------------------------------------ whole runs

  ghost predicate IsRun(states: seq<State>, schedule: seq<Tid>) {
    && |states| == |schedule| + 1
    && Init(states[0])
    && forall i :: 0 <= i < |schedule| ==> Step(states[i], schedule[i], states[i + 1])
  }

  lemma {:induction false} RunKeepsControl(states: seq<State>, schedule: seq<Tid>, i: nat)
    requires IsRun(states, schedule) && i < |states|
    ensures ControlInv(states[i])
  {
    hide Step, LockOf;
    if i > 0 {
      RunKeepsControl(states, schedule, i - 1);
      StepKeepsControl(states[i - 1], schedule[i - 1], states[i]);
    }
  }

  /** No two threads are inside on the same lock. */
  lemma MutualExclusion(states: seq<State>, schedule: seq<Tid>, i: nat, t: Tid, u: Tid, l: nat)
    requires IsRun(states, schedule) && i < |states|
    requires Holds(states[i], t, l) && Holds(states[i], u, l)
    ensures t == u && states[i].locks[l] == 1
  {
    hide LockOf, Step;
    RunKeepsControl(states, schedule, i);
  }

  /** A move of thread t that brings its unlock nearer: it still holds the lock
      afterwards, with fewer steps remaining, or it has released it. */
  ghost predicate Nearer(s: State, t: Tid, s': State, l: nat) {
    l < SPINLOCK_COUNT
    && 0 <= Remaining(PcOf(s', t)) < Remaining(PcOf(s, t))
    && if Remaining(PcOf(s', t)) == 0 then s'.locks[l] == 0 else Holds(s', t, l)
  }

  lemma MoveIsNearer(s: State, t: Tid, s': State)
    requires Critical(PcOf(s, t)) && Shaped(PcOf(s, t), s.mem) && Step(s, t, s')
    ensures Nearer(s, t, s', LockOf(PcOf(s, t).call.at.ptr))
  {
    hide LockOf, Combine;
  }

  /** A lock word is never left at 1: whoever holds it can always move, and every move
      open to it brings it nearer to the unlock. */
  lemma HolderAdvances(states: seq<State>, schedule: seq<Tid>, i: nat, l: nat) returns (t: Tid, next: State)
    requires IsRun(states, schedule) && i < |states| && l < SPINLOCK_COUNT && states[i].locks[l] != 0
    ensures Holds(states[i], t, l) && Step(states[i], t, next)
    ensures forall s' :: Step(states[i], t, s') ==> Nearer(states[i], t, s', l)
  {
    hide LockOf, Step, Nearer, Sized;
    RunKeepsControl(states, schedule, i);
    var s := states[i];
    t :| Holds(s, t, l);
    assert Shaped(PcOf(s, t), s.mem);
    next := Next(s, t);
    forall s' | Step(s, t, s')
      ensures Nearer(s, t, s', l)
    {
      MoveIsNearer(s, t, s');
    }
  }

  /** How often thread t moves in states i to j of a run. */
  function Moves(schedule: seq<Tid>, t: Tid, i: nat, j: nat): nat
    requires i <= j <= |schedule|
  {
    if i == j then 0 else Moves(schedule, t, i, j - 1) + if schedule[j - 1] == t then 1 else 0
  }

  /** A lock taken at state i is released by the time its holder has moved as often as
      Remaining says, whatever the other threads do meanwhile. */
  lemma HolderReleases(states: seq<State>, schedule: seq<Tid>, i: nat, j: nat, t: Tid, l: nat)
    requires IsRun(states, schedule) && i <= j < |states| && l < SPINLOCK_COUNT && Holds(states[i], t, l)
    requires Moves(schedule, t, i, j) >= Remaining(PcOf(states[i], t))
    ensures exists k :: i < k <= j && states[k].locks[l] == 0
  {
    hide LockOf;
    StillHeld(states, schedule, i, j, t, l);
    RunKeepsControl(states, schedule, j);
    assert Shaped(PcOf(states[j], t), states[j].mem);
  }

  /** Until it is released, the lock stays with its holder, whose moves are counted. */
  lemma {:induction false} StillHeld(states: seq<State>, schedule: seq<Tid>, i: nat, j: nat, t: Tid, l: nat)
    requires IsRun(states, schedule) && i <= j < |states| && l < SPINLOCK_COUNT && Holds(states[i], t, l)
    ensures (forall k :: i < k <= j ==> states[k].locks[l] != 0) ==>
      && Holds(states[j], t, l)
      && Remaining(PcOf(states[j], t)) <= Remaining(PcOf(states[i], t)) - Moves(schedule, t, i, j)
    decreases j
  {
    hide LockOf, Step, Remaining;
    if i < j && forall k :: i < k <= j ==> states[k].locks[l] != 0 {
      StillHeld(states, schedule, i, j - 1, t, l);
      RunKeepsControl(states, schedule, j - 1);
      assert Shaped(PcOf(states[j - 1], t), states[j - 1].mem);
      StepLogs(states[j - 1], schedule[j - 1], states[j]);
      if schedule[j - 1] == t { MoveIsNearer(states[j - 1], t, states[j]); }
    }
  }

  /** Up to state i the calls in progress keep to the lock table's condition. */
  ghost predicate Orderly(states: seq<State>, i: nat) {
    forall k :: 0 <= k < i && k < |states| ==> Disciplined(states[k])
  }

  lemma {:induction false} RunKeepsInv(states: seq<State>, schedule: seq<Tid>, i: nat)
    requires IsRun(states, schedule) && i < |states| && Orderly(states, i)
    ensures Inv(states[i], states[0].mem)
  {
    hide LockOf, Sized, Apply, Step, Disciplined;
    if i > 0 {
      RunKeepsInv(states, schedule, i - 1);
      StepKeepsInv(states[i - 1], schedule[i - 1], states[i], states[0].mem);
    }
  }

  /** Linearizability: whatever the interleaving, each logged result is the one its
      operation yields when the calls before it in the log have run one at a time, and
      every byte nobody is at work on is what that sequential run leaves there. */
  lemma Linearizable(states: seq<State>, schedule: seq<Tid>, i: nat)
    requires IsRun(states, schedule) && i < |states| && Orderly(states, i)
    ensures forall k :: 0 <= k < |states[i].log| ==> Explained(states[0].mem, states[i].log, k)
    ensures var abs := Replay(states[0].mem, states[i].log);
      && |abs| == |states[i].mem|
      && (forall x :: 0 <= x < |abs| && (forall t :: !InUse(states[i], t, x)) ==> states[i].mem[x] == abs[x])
  {
    hide LockOf, Explained, Replay, LocalInv, Step;
    RunKeepsInv(states, schedule, i);
  }

  /** When no thread is inside, memory is exactly that of the sequential run. */
  lemma QuiescentMemory(states: seq<State>, schedule: seq<Tid>, i: nat)
    requires IsRun(states, schedule) && i < |states| && Orderly(states, i)
    requires forall t :: !Critical(PcOf(states[i], t))
    ensures states[i].mem == Replay(states[0].mem, states[i].log)
  {
    hide LockOf, Explained, Replay, LocalInv, Step;
    Linearizable(states, schedule, i);
  }

  /** The log only grows. */
  lemma {:induction false} LogIsStable(states: seq<State>, schedule: seq<Tid>, i: nat, j: nat)
    requires IsRun(states, schedule) && i <= j < |states|
    ensures states[i].log <= states[j].log
    decreases j
  {
    hide LockOf, Combine;
    if i < j {
      LogIsStable(states, schedule, i, j - 1);
      assert Step(states[j - 1], schedule[j - 1], states[j]);
    }
  }

  /** Thread t is inside one call from state j on, and has returned from it at state k. */
  ghost predicate Spans(states: seq<State>, t: Tid, j: nat, k: nat) {
    && j < k < |states|
    && (forall i :: j <= i < k ==> Started(PcOf(states[i], t)))
    && PcOf(states[k], t).Returned?
  }

  /** A step logs nothing, or its own thread's call as that unlocks. */
  lemma StepLogs(s: State, u: Tid, s': State)
    requires Step(s, u, s')
    ensures forall t :: t != u ==> PcOf(s', t) == PcOf(s, t)
    ensures if PcOf(s, u).Unlocking? then s'.log == s.log + [Entry(u, PcOf(s, u).call, PcOf(s, u).result)]
            else s'.log == s.log
    ensures PcOf(s', u).Returned? ==> PcOf(s, u).Unlocking?
  {
    hide LockOf, Combine;
  }

  /** While a thread is inside one call it keeps the call and logs nothing. */
  lemma {:induction false} NotYetLogged(states: seq<State>, schedule: seq<Tid>, t: Tid, j: nat, i: nat)
    requires IsRun(states, schedule) && j <= i < |states|
    requires forall h :: j <= h <= i ==> Started(PcOf(states[h], t))
    ensures Started(PcOf(states[i], t)) && Started(PcOf(states[j], t))
    ensures PcOf(states[i], t).call == PcOf(states[j], t).call
    ensures |states[j].log| <= |states[i].log|
    ensures forall m :: |states[j].log| <= m < |states[i].log| ==> states[i].log[m].tid != t
    decreases i
  {
    hide Step, LockOf, Combine;
    if j < i {
      NotYetLogged(states, schedule, t, j, i - 1);
      StepLogs(states[i - 1], schedule[i - 1], states[i]);
      assert Started(PcOf(states[i - 1], t)) && Started(PcOf(states[i], t));
      if schedule[i - 1] == t { StepKeepsCall(states[i - 1], t, states[i]); }
    }
  }

  /** A call is logged exactly once, between its beginning and its return, with the
      result the caller is handed. */
  lemma ReturnsAreLogged(states: seq<State>, schedule: seq<Tid>, t: Tid, j: nat, k: nat) returns (m: nat)
    requires IsRun(states, schedule) && Spans(states, t, j, k)
    ensures |states[j].log| <= m < |states[k].log|
    ensures states[k].log[m] == Entry(t, PcOf(states[j], t).call, PcOf(states[k], t).result)
    ensures PcOf(states[k], t).call == PcOf(states[j], t).call
    ensures forall n :: |states[j].log| <= n < |states[k].log| && states[k].log[n].tid == t ==> n == m
  {
    hide Step, LockOf, Combine;
    NotYetLogged(states, schedule, t, j, k - 1);
    StepLogs(states[k - 1], schedule[k - 1], states[k]);
    assert Started(PcOf(states[k - 1], t)) && schedule[k - 1] == t;
    StepKeepsCall(states[k - 1], t, states[k]);
    m := |states[k - 1].log|;
  }

  /** Unlock order respects real time: a call that has returned before another begins
      stands before it in the log. */
  lemma RealTimeOrder(states: seq<State>, schedule: seq<Tid>, t: Tid, j: nat, k: nat, u: Tid, j': nat, k': nat)
      returns (m: nat, n: nat)
    requires IsRun(states, schedule) && Spans(states, t, j, k) && Spans(states, u, j', k') && k <= j'
    ensures m < n < |states[k'].log|
    ensures states[k'].log[m] == Entry(t, PcOf(states[j], t).call, PcOf(states[k], t).result)
    ensures states[k'].log[n] == Entry(u, PcOf(states[j'], u).call, PcOf(states[k'], u).result)
  {
    hide Step, LockOf, Combine;
    m := ReturnsAreLogged(states, schedule, t, j, k);
    n := ReturnsAreLogged(states, schedule, u, j', k');
    LogIsStable(states, schedule, k, j');
    LogIsStable(states, schedule, k, k');
  }

  // ------------------------------------------------------ what the log then says

  /** Among the first k logged calls, whatever touches the range uses exactly that range. */
  ghost predicate Alone(log: seq<Entry>, k: nat, a: Range)
    requires k <= |log|
  {
    forall m :: 0 <= m < k && Overlap(log[m].call.at, a) ==> log[m].call.at == a
  }

  /** v is the first value of the range, or was put there whole by one of the first k
      logged calls. */
  ghost predicate Whole(init: Memory, log: seq<Entry>, k: nat, a: Range, v: seq<Byte>)
    requires k <= |log| && InBounds(a, init)
  {
    v == View(init, a) || exists m :: 0 <= m < k && Produces(init, log, m, a, v)
  }

  ghost predicate Produces(init: Memory, log: seq<Entry>, m: nat, a: Range, v: seq<Byte>)
    requires m < |log| && InBounds(a, init)
  {
    log[m].call.at == a && v == Apply(log[m].call.op, View(Replay(init, log[..m]), a)).0
  }

  lemma {:induction false} ReplayIsWhole(init: Memory, log: seq<Entry>, k: nat, a: Range)
    requires k <= |log| && InBounds(a, init) && Alone(log, k, a)
    ensures Whole(init, log, k, a, View(Replay(init, log[..k]), a))
  {
    hide Apply, View, After, Overlap, Replay;
    if k > 0 {
      var n := k - 1;
      ReplayStep(init, log, n);
      ReplayIsWhole(init, log, n, a);
      AfterElsewhere(Replay(init, log[..n]), log[n].call, a);
      if log[n].call.at == a && Sized(log[n].call.op, a.size) {
        AfterHere(Replay(init, log[..n]), log[n].call);
        assert Produces(init, log, n, a, View(Replay(init, log[..k]), a));
      }
    }
    if k == 0 { NoneReplayed(init, log); }
  }

  lemma NoneReplayed(init: Memory, log: seq<Entry>)
    ensures Replay(init, log[..0]) == init
  {}

  lemma ReplayStep(init: Memory, log: seq<Entry>, n: nat)
    requires n < |log|
    ensures Replay(init, log[..n + 1]) == After(Replay(init, log[..n]), log[n].call)
  {
    hide After;
    assert log[..n + 1] == log[..n] + [log[n]];
    ReplayOne(init, log[..n], log[n]);
  }

  /** A call changes no range it does not overlap, nor any when it is out of bounds. */
  lemma AfterElsewhere(m: Memory, c: Call, a: Range)
    requires InBounds(a, m)
    ensures !Overlap(c.at, a) || !InBounds(c.at, m) || !Sized(c.op, c.at.size) ==> View(After(m, c), a) == View(m, a)
  {
    hide Apply, Sized;
    if !Overlap(c.at, a) && InBounds(c.at, m) && Sized(c.op, c.at.size) {
      var r := Apply(c.op, View(m, c.at));
      AfterCall(m, c, r.0, r.1);
      ElsewhereSame(c.at, a, m, After(m, c));
    }
  }

  lemma AfterHere(m: Memory, c: Call)
    requires InBounds(c.at, m) && Sized(c.op, c.at.size)
    ensures View(After(m, c), c.at) == Apply(c.op, View(m, c.at)).0
  {
    var r := Apply(c.op, View(m, c.at));
    AfterCall(m, c, r.0, r.1);
  }

  /** No tearing, in any interleaving: on a range that no call overlaps in part, what a
      call hands back, and what the range holds when nobody is at work on it, is its
      first value or one that a single logged call put there whole. */
  lemma ValuesAreWhole(states: seq<State>, schedule: seq<Tid>, i: nat, a: Range)
    requires IsRun(states, schedule) && i < |states| && Orderly(states, i) && InBounds(a, states[0].mem)
    requires Alone(states[i].log, |states[i].log|, a)
    ensures var init, log := states[0].mem, states[i].log;
      && InBounds(a, states[i].mem)
      && (forall k :: 0 <= k < |log| && log[k].call.at == a && (log[k].result.Old? || log[k].result.Differed?) ==>
            Whole(init, log, k, a, log[k].result.value))
      && ((forall t, x :: Covers(a, x) ==> !InUse(states[i], t, x)) ==>
            Whole(init, log, |log|, a, View(states[i].mem, a)))
  {
    hide Replay, Whole, Combine, Step, LockOf, Explained, View, InUse;
    var init, log := states[0].mem, states[i].log;
    Linearizable(states, schedule, i);
    forall k | 0 <= k < |log| && log[k].call.at == a && (log[k].result.Old? || log[k].result.Differed?)
      ensures Whole(init, log, k, a, log[k].result.value)
    {
      HandedBack(init, log, k);
      ReplayIsWhole(init, log, k, a);
    }
    if forall t, x :: Covers(a, x) ==> !InUse(states[i], t, x) {
      IdleRange(states, schedule, i, a);
      ReplayIsWhole(init, log, |log|, a);
    }
  }

  /** An idle range holds what the sequential run leaves in it. */
  lemma IdleRange(states: seq<State>, schedule: seq<Tid>, i: nat, a: Range)
    requires IsRun(states, schedule) && i < |states| && Orderly(states, i) && InBounds(a, states[0].mem)
    requires forall t, x :: Covers(a, x) ==> !InUse(states[i], t, x)
    ensures var log := states[i].log;
      log[..|log|] == log && InBounds(a, states[i].mem) && View(states[i].mem, a) == View(Replay(states[0].mem, log), a)
  {
    hide Replay, Combine, Step, LockOf, Explained, InUse;
    Linearizable(states, schedule, i);
  }

  /** A value handed back is the one the range had. */
  lemma HandedBack(init: Memory, log: seq<Entry>, k: nat)
    requires k < |log| && Explained(init, log, k) && (log[k].result.Old? || log[k].result.Differed?)
    ensures InBounds(log[k].call.at, Replay(init, log[..k]))
    ensures log[k].result.value == View(Replay(init, log[..k]), log[k].call.at)
  {
    hide Replay, Combine, View;
  }

  lemma BytePower(n: nat)
    requires n > 0
    ensures Words.Pow2(8 * n) == 256 * Words.Pow2(8 * (n - 1))
  {
    hide Words.Pow2;
    Words.SmallPowers();
    Words.Pow2Add(8, 8 * (n - 1));
  }

  lemma {:induction false} NumberOfBytes(x: int, n: nat)
    ensures Number(Bytes(x, n)) == x % Words.Pow2(8 * n)
    decreases n
  {
    hide Words.Pow2;
    if n > 0 {
      NumberOfBytes(x / 256, n - 1);
      BytePower(n);
      Words.DivDiv(x, 256, Words.Pow2(8 * (n - 1)));
    } else {
      Words.SmallPowers();
      assert x % 1 == 0;
    }
  }

  /** What an operation adds to a counter. */
  function Delta(op: Op): int {
    match op
    case Fetch(Add, operand) => Number(operand)
    case Fetch(Sub, operand) => 0 - Number(operand)
    case _ => 0
  }

  /** The sum of what the log adds to a range. */
  function Added(log: seq<Entry>, a: Range): int {
    if log == [] then 0
    else
      var call := log[|log| - 1].call;
      Added(log[..|log| - 1], a) + if call.at == a then Delta(call.op) else 0
  }

  predicate CountsOnly(op: Op) { op.Load? || (op.Fetch? && (op.kind.Add? || op.kind.Sub?)) }

  lemma AddWraps(x: int, y: int, m: int)
    requires m > 0
    ensures (x % m + y) % m == (x + y) % m
  {
    Words.DivModOf(x, m);
    Words.ModAdd(x % m + y, x / m, m);
  }

  lemma CountOne(op: Op, v: seq<Byte>, sum: int)
    requires CountsOnly(op) && Number(v) == sum % Words.Pow2(8 * |v|)
    ensures |Apply(op, v).0| == |v| && Number(Apply(op, v).0) == (sum + Delta(op)) % Words.Pow2(8 * |v|)
  {
    hide Number, Bytes, Words.Pow2;
    if op.Fetch? {
      NumberOfBytes(Number(v) + Delta(op), |v|);
      AddWraps(sum, Delta(op), Words.Pow2(8 * |v|));
    }
  }

  /** Among the logged calls, whatever touches the range counts on exactly that range. */
  ghost predicate CounterAt(log: seq<Entry>, a: Range) {
    forall k :: 0 <= k < |log| && Overlap(log[k].call.at, a) ==>
      log[k].call.at == a && CountsOnly(log[k].call.op) && Sized(log[k].call.op, a.size)
  }

  /** One at a time, the updates of a counter add up. */
  lemma {:induction false} ReplayAddsUp(init: Memory, log: seq<Entry>, a: Range)
    requires InBounds(a, init) && a.size > 0 && CounterAt(log, a)
    ensures Number(View(Replay(init, log), a)) == (Number(View(init, a)) + Added(log, a)) % Words.Pow2(8 * a.size)
  {
    hide Apply, Number, Words.Pow2, CountsOnly, Delta, Sized, After, View;
    if log == [] {
      NumberFits(View(init, a));
      Words.DivUnique(Number(View(init, a)), Words.Pow2(8 * a.size), 0, Number(View(init, a)));
    } else {
      var rest, call := log[..|log| - 1], log[|log| - 1].call;
      ReplayAddsUp(init, rest, a);
      AfterElsewhere(Replay(init, rest), call, a);
      if call.at == a {
        AfterHere(Replay(init, rest), call);
        CountOne(call.op, View(Replay(init, rest), a), Number(View(init, a)) + Added(rest, a));
      }
    }
  }

  lemma {:induction false} NumberFits(bytes: seq<Byte>)
    ensures Number(bytes) < Words.Pow2(8 * |bytes|)
  {
    hide Words.Pow2;
    if bytes != [] {
      NumberFits(bytes[1..]);
      BytePower(|bytes|);
    }
  }

  /** No update is lost, in any interleaving: a counter that is only loaded, added to
      and subtracted from holds, whenever nobody is at work on it, its first value plus
      the sum of all logged operands, modulo its width. */
  lemma UpdatesAddUp(states: seq<State>, schedule: seq<Tid>, i: nat, a: Range)
    requires IsRun(states, schedule) && i < |states| && Orderly(states, i)
    requires InBounds(a, states[0].mem) && a.size > 0 && CounterAt(states[i].log, a)
    requires forall t, x :: Covers(a, x) ==> !InUse(states[i], t, x)
    ensures InBounds(a, states[i].mem)
    ensures Number(View(states[i].mem, a))
         == (Number(View(states[0].mem, a)) + Added(states[i].log, a)) % Words.Pow2(8 * a.size)
  {
    hide Number, Words.Pow2, CounterAt, Added, Replay, LockOf, Step, InUse, View;
    IdleRange(states, schedule, i, a);
    ReplayAddsUp(states[0].mem, states[i].log, a);
  }
}
