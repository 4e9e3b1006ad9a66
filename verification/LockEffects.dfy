/** What each operation of src/compiler-rt/builtins/atomic.c leaves in memory and hands
    back, in every run, without reference to how the model carries it out. */
module LockEffects {
  import opened LockAtomics
  import Words

  // ------------------------------------------------------ one logged call

  /** What the range of logged call k held when its turn came, and what it held then. */
  ghost function Before(init: Memory, log: seq<Entry>, k: nat): (r: seq<Byte>)
    requires k < |log| && InBounds(log[k].call.at, init)
    ensures |r| == log[k].call.at.size
  {
    View(Replay(init, log[..k]), log[k].call.at)
  }

  ghost function Afterwards(init: Memory, log: seq<Entry>, k: nat): (r: seq<Byte>)
    requires k < |log| && InBounds(log[k].call.at, init)
    ensures |r| == log[k].call.at.size
  {
    View(Replay(init, log[..k + 1]), log[k].call.at)
  }

  lemma LoggedCall(init: Memory, log: seq<Entry>, k: nat)
    requires k < |log| && Explained(init, log, k)
    ensures var call := log[k].call;
      && InBounds(call.at, init) && Sized(call.op, call.at.size)
      && Apply(call.op, Before(init, log, k)) == (Afterwards(init, log, k), log[k].result)
  {
    hide Apply, View, After;
    ReplayStep(init, log, k);
    AfterHere(Replay(init, log[..k]), log[k].call);
  }

  /** Bit i of the little-endian number in some bytes. */
  predicate BitOf(bytes: seq<Byte>, i: nat) { Number(bytes) / Words.Pow2(i) % 2 == 1 }

  /** The number a fetch-and, fetch-or or fetch-xor leaves, bit by bit. */
  lemma CombinedBits(kind: Kind, tmp: seq<Byte>, val: seq<Byte>, i: nat)
    requires i < 8 * |tmp|
    ensures kind.BitAnd? ==> (BitOf(Combine(kind, tmp, val), i) <==> BitOf(tmp, i) && BitOf(val, i))
    ensures kind.BitOr? ==> (BitOf(Combine(kind, tmp, val), i) <==> BitOf(tmp, i) || BitOf(val, i))
    ensures kind.BitXor? ==> (BitOf(Combine(kind, tmp, val), i) <==> BitOf(tmp, i) != BitOf(val, i))
  {
    hide Number, Bytes, Words.Pow2, Words.And, Words.Or, Words.Xor;
    var x, y := Number(tmp), Number(val);
    match kind
    case BitAnd => TruncatedBit(Words.And(x, y), |tmp|, i); Words.AndBits(x, y, i);
    case BitOr => TruncatedBit(Words.Or(x, y), |tmp|, i); Words.OrBits(x, y, i);
    case BitXor => TruncatedBit(Words.Xor(x, y), |tmp|, i); Words.XorBits(x, y, i);
    case _ =>
  }

  lemma TruncatedBit(x: nat, n: nat, i: nat)
    requires i < 8 * n
    ensures BitOf(Bytes(x, n), i) <==> Words.Bit(x, i)
  {
    hide Number, Bytes, Words.Pow2;
    NumberOfBytes(x, n);
    Words.LowBits(x, 8 * n, i);
  }

  /** The sum or difference a fetch-add or fetch-sub leaves, modulo the width. */
  lemma CombinedSum(kind: Kind, tmp: seq<Byte>, val: seq<Byte>)
    ensures |Combine(kind, tmp, val)| == |tmp|
    ensures var m := Words.Pow2(8 * |tmp|);
      && (kind.Add? ==> Number(Combine(kind, tmp, val)) == (Number(tmp) + Number(val)) % m)
      && (kind.Sub? ==> Number(Combine(kind, tmp, val)) == (Number(tmp) - Number(val)) % m)
  {
    hide Number, Bytes, Words.Pow2;
    NumberOfBytes(Number(tmp) + Number(val), |tmp|);
    NumberOfBytes(Number(tmp) - Number(val), |tmp|);
  }

  lemma CombinedNumber(kind: Kind, tmp: seq<Byte>, val: seq<Byte>)
    ensures var after, n := Combine(kind, tmp, val), |tmp|;
      match kind
      case Add => Number(after) == (Number(tmp) + Number(val)) % Words.Pow2(8 * n)
      case Sub => Number(after) == (Number(tmp) - Number(val)) % Words.Pow2(8 * n)
      case BitAnd => forall i :: 0 <= i < 8 * n ==> (BitOf(after, i) <==> BitOf(tmp, i) && BitOf(val, i))
      case BitOr => forall i :: 0 <= i < 8 * n ==> (BitOf(after, i) <==> BitOf(tmp, i) || BitOf(val, i))
      case BitXor => forall i :: 0 <= i < 8 * n ==> (BitOf(after, i) <==> BitOf(tmp, i) != BitOf(val, i))
  {
    hide Combine, BitOf, Number, Words.Pow2;
    CombinedSum(kind, tmp, val);
    forall i | 0 <= i < 8 * |tmp|
      ensures kind.BitAnd? ==> (BitOf(Combine(kind, tmp, val), i) <==> BitOf(tmp, i) && BitOf(val, i))
      ensures kind.BitOr? ==> (BitOf(Combine(kind, tmp, val), i) <==> BitOf(tmp, i) || BitOf(val, i))
      ensures kind.BitXor? ==> (BitOf(Combine(kind, tmp, val), i) <==> BitOf(tmp, i) != BitOf(val, i))
    {
      CombinedBits(kind, tmp, val, i);
    }
  }

  // ------------------------------------------------------ of runs

  /** Loads, stores, exchanges and compare-exchanges: what a logged call leaves in its
      range and hands back, from what the calls logged before it left there. */
  lemma CallsDoTheirWork(states: seq<State>, schedule: seq<Tid>, i: nat, k: nat)
    requires IsRun(states, schedule) && i < |states| && Orderly(states, i) && k < |states[i].log|
    ensures InBounds(states[i].log[k].call.at, states[0].mem)
    ensures var init, log := states[0].mem, states[i].log;
      var before, after, result := Before(init, log, k), Afterwards(init, log, k), log[k].result;
      match log[k].call.op
      case Load => after == before && result == Old(before)
      case Store(value) => after == value && result == Nothing
      case Exchange(value) => after == value && result == Old(before)
      case CompareExchange(expected, desired) =>
        if before == expected then after == desired && result == Exchanged
        else after == before && result == Differed(before)
      case Fetch(_, _) => |after| == |before| && result == Old(before)
  {
    hide Before, Afterwards, Replay, Explained, Combine, Step;
    Linearizable(states, schedule, i);
    LoggedCall(states[0].mem, states[i].log, k);
  }

  /** Fetch-and-modify operations: the number a logged call leaves in its range. */
  lemma FetchesCombine(states: seq<State>, schedule: seq<Tid>, i: nat, k: nat)
    requires IsRun(states, schedule) && i < |states| && Orderly(states, i) && k < |states[i].log|
    requires states[i].log[k].call.op.Fetch?
    ensures InBounds(states[i].log[k].call.at, states[0].mem)
    ensures var init, log := states[0].mem, states[i].log;
      var op, n := log[k].call.op, log[k].call.at.size;
      var before, after, m := Before(init, log, k), Afterwards(init, log, k), Words.Pow2(8 * n);
      match op.kind
      case Add => Number(after) == (Number(before) + Number(op.operand)) % m
      case Sub => Number(after) == (Number(before) - Number(op.operand)) % m
      case BitAnd => forall b :: 0 <= b < 8 * n ==> (BitOf(after, b) <==> BitOf(before, b) && BitOf(op.operand, b))
      case BitOr => forall b :: 0 <= b < 8 * n ==> (BitOf(after, b) <==> BitOf(before, b) || BitOf(op.operand, b))
      case BitXor => forall b :: 0 <= b < 8 * n ==> (BitOf(after, b) <==> BitOf(before, b) != BitOf(op.operand, b))
  {
    hide Before, Afterwards, Replay, Explained, Combine, Step, BitOf, Number, Words.Pow2;
    Linearizable(states, schedule, i);
    var init, log := states[0].mem, states[i].log;
    LoggedCall(init, log, k);
    CombinedNumber(log[k].call.op.kind, Before(init, log, k), log[k].call.op.operand);
  }

  /** Bytes outside the range of a logged call are left alone by it. */
  lemma CallsTouchNothingElse(init: Memory, log: seq<Entry>, k: nat, x: nat)
    requires k < |log| && Explained(init, log, k) && x < |init| && !Covers(log[k].call.at, x)
    ensures Replay(init, log[..k + 1])[x] == Replay(init, log[..k])[x]
  {
    hide Apply, View;
    ReplayStep(init, log, k);
    var m, call := Replay(init, log[..k]), log[k].call;
    AfterCall(m, call, Apply(call.op, View(m, call.at)).0, log[k].result);
  }

  // ------------------------------------------------------ calls get started

  /** Any thread between calls may begin any call on a range of memory whose operands
      have the size of the range. */
  lemma CallsCanBegin(s: State, t: Tid, call: Call)
    requires !Started(PcOf(s, t)) && call.at.ptr + call.at.size <= |s.mem|
    requires match call.op
      case Load => true
      case Store(value) => |value| == call.at.size
      case Exchange(value) => |value| == call.at.size
      case CompareExchange(expected, desired) => |expected| == |desired| == call.at.size
      case Fetch(_, operand) => |operand| == call.at.size
    ensures exists s' :: Step(s, t, s') && Started(PcOf(s', t)) && PcOf(s', t).call == call
  {
    hide LockOf;
    var s' := At(s, t, Spinning(call, 0));
    assert Begins(s, t, s', call);
    assert Step(s, t, s') && PcOf(s', t).call == call;
  }

  /** A waiting thread can take its lock whenever the lock is free, may also fail to
      without a reason, and tries again. */
  lemma WaitersCanEnter(states: seq<State>, schedule: seq<Tid>, i: nat, t: Tid)
    requires IsRun(states, schedule) && i < |states|
    ensures var s := states[i];
      && (PcOf(s, t).Spinning? ==> exists s' :: Step(s, t, s') && PcOf(s', t).Failed?)
      && (PcOf(s, t).Failed? ==> exists s' :: Step(s, t, s') && PcOf(s', t).Spinning?)
      && (PcOf(s, t).Spinning? && s.locks[LockOf(PcOf(s, t).call.at.ptr)] == 0 ==>
            exists s' :: Step(s, t, s') && Critical(PcOf(s', t)))
  {
    hide LockOf;
    RunKeepsControl(states, schedule, i);
    var s := states[i];
    assert Shaped(PcOf(s, t), s.mem);
    if PcOf(s, t).Failed? {
      assert Step(s, t, At(s, t, Spinning(PcOf(s, t).call, 0)));
    } else if PcOf(s, t).Spinning? {
      var call := PcOf(s, t).call;
      var l := LockOf(call.at.ptr);
      assert Step(s, t, At(s, t, Failed(call, s.locks[l])));
      if s.locks[l] == 0 { assert Step(s, t, At(s, t, Enter(call)).(locks := s.locks[l := 1])); }
    }
  }

  /** A step reads or writes one byte of memory at most, so calls interleave at every byte:
      memory changes at one address, and a copy under way grows by one byte. */
  lemma OneByteAtATime(s: State, t: Tid, s': State, x: nat, y: nat)
    requires Step(s, t, s') && x < |s.mem| && y < |s.mem|
    ensures |s'.mem| == |s.mem|
    ensures s'.mem[x] != s.mem[x] && s'.mem[y] != s.mem[y] ==> x == y
    ensures PcOf(s, t).Reading? && PcOf(s', t).Reading? ==> |PcOf(s', t).buffer| == |PcOf(s, t).buffer| + 1
    ensures PcOf(s, t).Comparing? && PcOf(s', t).Comparing? ==> PcOf(s', t).k == PcOf(s, t).k + 1
    ensures !PcOf(s, t).Writing? ==> s'.mem == s.mem
  {
    hide LockOf, Combine;
  }
}
