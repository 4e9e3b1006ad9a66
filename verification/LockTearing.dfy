/** Why the locked operations of src/compiler-rt/builtins/atomic.c need overlapping
    ranges to start in one line: a run in which two stores mix. */
module LockTearing {
  import opened LockTable
  import opened LockAtomics

  /** Ranges that overlap across a line can use two locks. */
  lemma LinesApart()
    ensures Overlap(Range(15, 3), Range(16, 3)) && !SameLine(Range(15, 3), Range(16, 3))
    ensures LockOf(15) == 0 && LockOf(16) == 1
  {
    hide LockFor;
    LowLock(15);
    LowLock(16);
  }

  const FIRST: Call := Call(Store([1, 1, 1]), Range(15, 3))
  const SECOND: Call := Call(Store([2, 2, 2]), Range(16, 3))

  /** A state of the two threads below, over nineteen bytes of memory. */
  function Two(tail: seq<Byte>, lock0: nat, lock1: nat, pc0: Pc, pc1: Pc, log: seq<Entry>): State {
    State(seq(15, _ => 0) + tail, seq(SPINLOCK_COUNT, _ => 0)[0 := lock0][1 := lock1], map[0 := pc0, 1 := pc1], log)
  }

  function InFirst(k: nat): Pc { Writing(FIRST, [1, 1, 1], k, Nothing) }
  function InSecond(k: nat): Pc { Writing(SECOND, [2, 2, 2], k, Nothing) }

  lemma FirstWrites(tail: seq<Byte>, k: nat, tail': seq<Byte>, other: Pc)
    requires |tail| == 4 && k < 3 && tail' == tail[k := 1]
    ensures Step(Two(tail, 1, 1, InFirst(k), other, []), 0, Two(tail', 1, 1, InFirst(k + 1), other, []))
  {
    hide LockOf;
    var s := Two(tail, 1, 1, InFirst(k), other, []);
    assert s.mem[15 + k := 1] == seq(15, _ => 0) + tail';
    assert s.pc[0 := InFirst(k + 1)] == map[0 := InFirst(k + 1), 1 := other];
  }

  lemma SecondWrites(tail: seq<Byte>, k: nat, tail': seq<Byte>, other: Pc)
    requires |tail| == 4 && k < 3 && tail' == tail[k + 1 := 2]
    ensures Step(Two(tail, 1, 1, other, InSecond(k), []), 1, Two(tail', 1, 1, other, InSecond(k + 1), []))
  {
    hide LockOf;
    var s := Two(tail, 1, 1, other, InSecond(k), []);
    assert s.mem[16 + k := 2] == seq(15, _ => 0) + tail';
    assert s.pc[1 := InSecond(k + 1)] == map[0 := other, 1 := InSecond(k + 1)];
  }

  lemma Done(tail: seq<Byte>, other: Pc)
    requires |tail| == 4
    ensures Step(Two(tail, 1, 1, InFirst(3), other, []), 0, Two(tail, 1, 1, Unlocking(FIRST, Nothing), other, []))
    ensures Step(Two(tail, 1, 1, other, InSecond(3), []), 1, Two(tail, 1, 1, other, Unlocking(SECOND, Nothing), []))
  {
    hide LockOf;
    var s, u := Two(tail, 1, 1, InFirst(3), other, []), Two(tail, 1, 1, other, InSecond(3), []);
    assert s.pc[0 := Unlocking(FIRST, Nothing)] == map[0 := Unlocking(FIRST, Nothing), 1 := other];
    assert u.pc[1 := Unlocking(SECOND, Nothing)] == map[0 := other, 1 := Unlocking(SECOND, Nothing)];
  }

  /** Both stores begin and take their locks. */
  lemma TornStart() returns (states: seq<State>, schedule: seq<Tid>)
    ensures IsRun(states, schedule) && states[0].mem == seq(19, _ => 0)
    ensures states[|states| - 1] == Two([0, 0, 0, 0], 1, 1, InFirst(0), InSecond(0), [])
  {
    hide LockOf, IsRun;
    LinesApart();
    var tail: seq<Byte> := [0, 0, 0, 0];
    var s0 := State(seq(15, _ => 0) + tail, seq(SPINLOCK_COUNT, _ => 0), map[], []);
    var s1 := At(s0, 0, Spinning(FIRST, 0));
    var s2 := Two(tail, 0, 0, Spinning(FIRST, 0), Spinning(SECOND, 0), []);
    var s3 := Two(tail, 1, 0, InFirst(0), Spinning(SECOND, 0), []);
    states, schedule := [s0], [];
    NoSteps(s0);
    assert Begins(s0, 0, s1, FIRST);
    Extend(states, schedule, 0, s1);
    states, schedule := states + [s1], schedule + [0];
    assert s2 == At(s1, 1, Spinning(SECOND, 0));
    assert Begins(s1, 1, s2, SECOND);
    Extend(states, schedule, 1, s2);
    states, schedule := states + [s2], schedule + [1];
    Taken(tail);
    Extend(states, schedule, 0, s3);
    states, schedule := states + [s3], schedule + [0];
    var s4 := Two(tail, 1, 1, InFirst(0), InSecond(0), []);
    Extend(states, schedule, 1, s4);
    states, schedule := states + [s4], schedule + [1];
  }

  lemma NoSteps(s: State)
    requires Init(s)
    ensures IsRun([s], [])
  {}

  lemma Taken(tail: seq<Byte>)
    ensures Step(Two(tail, 0, 0, Spinning(FIRST, 0), Spinning(SECOND, 0), []), 0,
                 Two(tail, 1, 0, InFirst(0), Spinning(SECOND, 0), []))
    ensures Step(Two(tail, 1, 0, InFirst(0), Spinning(SECOND, 0), []), 1,
                 Two(tail, 1, 1, InFirst(0), InSecond(0), []))
  {
    LinesApart();
    hide LockOf;
    var s := Two(tail, 0, 0, Spinning(FIRST, 0), Spinning(SECOND, 0), []);
    assert s.pc[0 := InFirst(0)] == map[0 := InFirst(0), 1 := Spinning(SECOND, 0)];
    var u := Two(tail, 1, 0, InFirst(0), Spinning(SECOND, 0), []);
    assert u.pc[1 := InSecond(0)] == map[0 := InFirst(0), 1 := InSecond(0)];
  }

  lemma Released(tail: seq<Byte>)
    ensures var log := [Entry(0, FIRST, Nothing)];
      && Step(Two(tail, 1, 1, Unlocking(FIRST, Nothing), Unlocking(SECOND, Nothing), []), 0,
              Two(tail, 0, 1, Returned(FIRST, Nothing), Unlocking(SECOND, Nothing), log))
      && Step(Two(tail, 0, 1, Returned(FIRST, Nothing), Unlocking(SECOND, Nothing), log), 1,
              Two(tail, 0, 0, Returned(FIRST, Nothing), Returned(SECOND, Nothing), log + [Entry(1, SECOND, Nothing)]))
  {
    LinesApart();
    hide LockOf;
    var s := Two(tail, 1, 1, Unlocking(FIRST, Nothing), Unlocking(SECOND, Nothing), []);
    assert s.pc[0 := Returned(FIRST, Nothing)] == map[0 := Returned(FIRST, Nothing), 1 := Unlocking(SECOND, Nothing)];
    assert s.locks[0 := 0] == seq(SPINLOCK_COUNT, _ => 0)[0 := 0][1 := 1];
    var log := [Entry(0, FIRST, Nothing)];
    var u := Two(tail, 0, 1, Returned(FIRST, Nothing), Unlocking(SECOND, Nothing), log);
    assert u.pc[1 := Returned(SECOND, Nothing)] == map[0 := Returned(FIRST, Nothing), 1 := Returned(SECOND, Nothing)];
    assert u.locks[1 := 0] == seq(SPINLOCK_COUNT, _ => 0)[0 := 0][1 := 0];
  }

  /** A run with one more step. */
  lemma Extend(states: seq<State>, schedule: seq<Tid>, t: Tid, s': State)
    requires IsRun(states, schedule) && Step(states[|states| - 1], t, s')
    ensures IsRun(states + [s'], schedule + [t])
  {
    hide Step;
  }

  lemma OneMore(states: seq<State>, schedule: seq<Tid>, t: Tid, s': State)
      returns (states': seq<State>, schedule': seq<Tid>)
    requires IsRun(states, schedule) && Step(states[|states| - 1], t, s')
    ensures IsRun(states', schedule') && states'[|states'| - 1] == s' && states'[0] == states[0]
  {
    hide Step;
    Extend(states, schedule, t, s');
    states', schedule' := states + [s'], schedule + [t];
  }

  /** The two stores write alternately: bytes 15 to 18 end as 1, 2, 1, 2. */
  lemma TornWrites() returns (states: seq<State>, schedule: seq<Tid>)
    ensures IsRun(states, schedule) && states[0].mem == seq(19, _ => 0)
    ensures states[|states| - 1] == Two([1, 2, 1, 2], 1, 1, InFirst(3), InSecond(3), [])
  {
    hide IsRun, Step, Two;
    states, schedule := TornStart();
    FirstWrites([0, 0, 0, 0], 0, [1, 0, 0, 0], InSecond(0));
    states, schedule := OneMore(states, schedule, 0, Two([1, 0, 0, 0], 1, 1, InFirst(1), InSecond(0), []));
    FirstWrites([1, 0, 0, 0], 1, [1, 1, 0, 0], InSecond(0));
    states, schedule := OneMore(states, schedule, 0, Two([1, 1, 0, 0], 1, 1, InFirst(2), InSecond(0), []));
    SecondWrites([1, 1, 0, 0], 0, [1, 2, 0, 0], InFirst(2));
    states, schedule := OneMore(states, schedule, 1, Two([1, 2, 0, 0], 1, 1, InFirst(2), InSecond(1), []));
    SecondWrites([1, 2, 0, 0], 1, [1, 2, 2, 0], InFirst(2));
    states, schedule := OneMore(states, schedule, 1, Two([1, 2, 2, 0], 1, 1, InFirst(2), InSecond(2), []));
    SecondWrites([1, 2, 2, 0], 2, [1, 2, 2, 2], InFirst(2));
    states, schedule := OneMore(states, schedule, 1, Two([1, 2, 2, 2], 1, 1, InFirst(2), InSecond(3), []));
    FirstWrites([1, 2, 2, 2], 2, [1, 2, 1, 2], InSecond(3));
    states, schedule := OneMore(states, schedule, 0, Two([1, 2, 1, 2], 1, 1, InFirst(3), InSecond(3), []));
  }

  /** A run whose memory is that of neither order of its two stores. */
  lemma StoresMix() returns (states: seq<State>, schedule: seq<Tid>)
    ensures IsRun(states, schedule)
    ensures var s, init := states[|states| - 1], states[0].mem;
      && (forall t :: !Critical(PcOf(s, t)))
      && s.log == [Entry(0, FIRST, Nothing), Entry(1, SECOND, Nothing)]
      && s.mem != Replay(init, s.log) && s.mem != Replay(init, [s.log[1], s.log[0]])
  {
    states, schedule := TornFinish();
    var tail: seq<Byte> := [1, 2, 1, 2];
    var mixed := seq(15, _ => 0) + tail;
    assert mixed[16] == 2 && mixed[17] == 1;
    InOrder(states[0].mem);
  }

  lemma TornFinish() returns (states: seq<State>, schedule: seq<Tid>)
    ensures IsRun(states, schedule) && states[0].mem == seq(19, _ => 0)
    ensures states[|states| - 1] == Two([1, 2, 1, 2], 0, 0, Returned(FIRST, Nothing), Returned(SECOND, Nothing),
                                        [Entry(0, FIRST, Nothing), Entry(1, SECOND, Nothing)])
  {
    hide IsRun, Step, Two;
    states, schedule := TornWrites();
    var tail: seq<Byte> := [1, 2, 1, 2];
    Done(tail, InSecond(3));
    states, schedule := OneMore(states, schedule, 0, Two(tail, 1, 1, Unlocking(FIRST, Nothing), InSecond(3), []));
    Done(tail, Unlocking(FIRST, Nothing));
    states, schedule := OneMore(states, schedule, 1,
      Two(tail, 1, 1, Unlocking(FIRST, Nothing), Unlocking(SECOND, Nothing), []));
    Released(tail);
    var log := [Entry(0, FIRST, Nothing)];
    assert log + [Entry(1, SECOND, Nothing)] == [Entry(0, FIRST, Nothing), Entry(1, SECOND, Nothing)];
    states, schedule := OneMore(states, schedule, 0,
      Two(tail, 0, 1, Returned(FIRST, Nothing), Unlocking(SECOND, Nothing), log));
    states, schedule := OneMore(states, schedule, 1,
      Two(tail, 0, 0, Returned(FIRST, Nothing), Returned(SECOND, Nothing), log + [Entry(1, SECOND, Nothing)]));
  }

  /** What either order of the stores leaves in bytes 16 and 17. */
  lemma InOrder(init: Memory)
    requires |init| == 19
    ensures var a, b := Entry(0, FIRST, Nothing), Entry(1, SECOND, Nothing);
      Replay(init, [a, b])[17] == 2 && Replay(init, [b, a])[16] == 1
  {
    var a, b := Entry(0, FIRST, Nothing), Entry(1, SECOND, Nothing);
    LastCall(init, a, b);
    LastCall(init, b, a);
  }

  lemma LastCall(init: Memory, a: Entry, b: Entry)
    ensures Replay(init, [a, b]) == After(After(init, a.call), b.call)
  {
    hide After;
    ReplayOne(init, [], a);
    ReplayOne(init, [a], b);
    assert [] + [a] == [a] && [a] + [b] == [a, b];
  }
}
