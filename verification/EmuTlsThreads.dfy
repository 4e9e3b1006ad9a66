/** Emulated TLS as a whole process sees it, src/compiler-rt/builtins/emutls.c: any
    number of threads call __emutls_get_address for any controls and end, over one
    allocator. Each step is what EmuTlsArray.ThreadStorage.GetAddress or Shutdown does. */
module EmuTlsThreads {
  import opened Words
  import opened EmuTlsArray
  import Indices = EmuTlsIndex

  type Tid = nat

  /** What a control says of its object; the control itself is named by its index. */
  datatype Control = Control(size: nat, align: nat)

  datatype Thread = Thread(slots: seq<nat>, sizes: map<nat, nat>)

  datatype Process = Process(blocks: map<nat, nat>, words: map<nat, nat>, threads: map<Tid, Thread>, ended: set<Tid>)

  datatype Event = Get(tid: Tid, index: nat, chunk: nat, address: nat) | End(tid: Tid)

  function ThreadOf(s: Process, t: Tid): Thread { if t in s.threads then s.threads[t] else Thread([], map[]) }

  function ViewOf(s: Process, t: Tid): Storage {
    Storage(ThreadOf(s, t).slots, ThreadOf(s, t).sizes, s.blocks, s.words)
  }

  ghost predicate Init(s: Process) { s == Process(map[], map[], map[], {}) }

  ghost predicate Step(s: Process, e: Event, s': Process, controls: nat -> Control) {
    && e.tid !in s.ended
    && match e
       case Get(t, index, chunk, address) =>
         var size, align := controls(index).size, controls(index).align;
         && 1 <= index < INDEX_BOUND
         && (Missing(ThreadOf(s, t).slots, index) ==> CanAllocate(chunk, ChunkSize(size, align), s.blocks))
         && Obtains(ViewOf(s, t), index, size, align, chunk, ViewOf(s', t), Some(address))
         && s' == s.(blocks := s'.blocks, words := s'.words, threads := s.threads[t := ThreadOf(s', t)])
       case End(t) =>
         s' == s.(blocks := s.blocks - ChunksOf(ThreadOf(s, t).slots, s.words), ended := s.ended + {t})
  }

  // ------------------------------------------------------ invariant

  /** A live thread's objects are stored, at the sizes of their controls. */
  ghost predicate ThreadInv(s: Process, t: Tid, controls: nat -> Control) {
    && Stored(ThreadOf(s, t).slots, ThreadOf(s, t).sizes, s.blocks, s.words)
    && (forall k :: k in ThreadOf(s, t).sizes ==> ThreadOf(s, t).sizes[k] == controls(k + 1).size)
  }

  /** No block serves both lists of slots. */
  ghost predicate NothingShared(mine: seq<nat>, other: seq<nat>, words: map<nat, nat>) {
    forall i, j :: 0 <= i < |mine| && 0 <= j < |other| && mine[i] != 0 && other[j] != 0 ==>
      ChunkOf(mine[i], words) != ChunkOf(other[j], words)
  }

  ghost predicate Owns(s: Process, t: Tid, chunk: nat) {
    t !in s.ended && chunk in ChunksOf(ThreadOf(s, t).slots, s.words)
  }

  ghost predicate EachThread(s: Process, controls: nat -> Control) {
    forall t :: t !in s.ended ==> ThreadInv(s, t, controls)
  }

  ghost predicate EachPair(s: Process) {
    forall t, u :: t !in s.ended && u !in s.ended && t != u ==>
      NothingShared(ThreadOf(s, t).slots, ThreadOf(s, u).slots, s.words)
  }

  ghost predicate EachBlock(s: Process) {
    forall c :: c in s.blocks ==> exists t :: Owns(s, t, c)
  }

  ghost predicate Inv(s: Process, controls: nat -> Control) {
    ProperBlocks(s.blocks) && EachThread(s, controls) && EachPair(s) && EachBlock(s)
  }

  // ------------------------------------------------------ a new object

  /** Room made for an index fills no slot, so everything about the slots stays. */
  lemma RoomKeeps(slots: seq<nat>, index: nat, sizes: map<nat, nat>, blocks: map<nat, nat>, words: map<nat, nat>)
    requires 1 <= index < INDEX_BOUND && Stored(slots, sizes, blocks, words)
    ensures var room := WithRoom(slots, index);
      && slots <= room && index <= |room| && Stored(room, sizes, blocks, words)
      && forall i :: |slots| <= i < |room| ==> room[i] == 0
  {
    hide NewDataArraySize, ObjectAt;
    NewSizeFits(index);
    GrowthKeepsStored(slots, WithRoom(slots, index), sizes, blocks, words);
  }

  /** Carving an object out of a fresh block leaves every stored object in its block. */
  lemma BlocksKept(slots: seq<nat>, sizes: map<nat, nat>, blocks: map<nat, nat>, words: map<nat, nat>,
                   chunk: nat, n: nat, base: nat)
    requires Stored(slots, sizes, blocks, words) && ApartFromAll(chunk, n, blocks)
    requires chunk + POINTER_SIZE <= base <= chunk + n
    ensures var words' := words[base - POINTER_SIZE := chunk];
      && Stored(slots, sizes, blocks[chunk := n], words')
      && ChunkOf(base, words') == chunk
      && forall i :: 0 <= i < |slots| && slots[i] != 0 ==>
           ChunkOf(slots[i], words') == ChunkOf(slots[i], words) != chunk
  {
    AllocationPreserves(slots, sizes, blocks, words, chunk, n, base);
    var words' := words[base - POINTER_SIZE := chunk];
    forall i | 0 <= i < |slots| && slots[i] != 0
      ensures ChunkOf(slots[i], words') == ChunkOf(slots[i], words) != chunk
    {
      assert ObjectAt(slots[i], i, sizes, blocks, words);
    }
  }

  /** The slots of thread t before and after an allocation: the same but for slot k. */
  ghost predicate Filled(before: seq<nat>, after: seq<nat>, k: nat, base: nat) {
    && k < |after| && |before| <= |after| && after[k] == base
    && forall i :: 0 <= i < |after| && i != k ==> after[i] == if i < |before| then before[i] else 0
  }

  lemma StillNothingShared(mine: seq<nat>, other: seq<nat>, words: map<nat, nat>,
                           mine': seq<nat>, words': map<nat, nat>, k: nat, base: nat, chunk: nat)
    requires NothingShared(mine, other, words) && Filled(mine, mine', k, base)
    requires ChunkOf(base, words') == chunk
    requires forall i :: 0 <= i < |mine| && mine[i] != 0 ==> ChunkOf(mine[i], words') == ChunkOf(mine[i], words)
    requires forall i :: 0 <= i < |other| && other[i] != 0 ==>
      ChunkOf(other[i], words') == ChunkOf(other[i], words) != chunk
    ensures NothingShared(mine', other, words') && NothingShared(other, mine', words')
  {
    hide ChunkOf;
  }

  /** What an allocating call of thread t leaves behind. */
  ghost predicate Allocates(s: Process, t: Tid, index: nat, chunk: nat, base: nat, s': Process, control: Control) {
    var n := ChunkSize(control.size, control.align);
    && 1 <= index < INDEX_BOUND && Missing(ThreadOf(s, t).slots, index) && CanAllocate(chunk, n, s.blocks)
    && chunk + POINTER_SIZE <= base && base + control.size <= chunk + n
    && index <= |WithRoom(ThreadOf(s, t).slots, index)|
    && s' == s.(blocks := s.blocks[chunk := n], words := s.words[base - POINTER_SIZE := chunk],
                threads := s.threads[t := Thread(WithRoom(ThreadOf(s, t).slots, index)[index - 1 := base],
                                                 ThreadOf(s, t).sizes[index - 1 := control.size])])
  }

  /** A call returns a stored address and changes nothing, or allocates. */
  lemma GetCases(s: Process, e: Event, s': Process, controls: nat -> Control)
    requires e.Get? && Step(s, e, s', controls)
    ensures e.index > 0
    ensures var mine := ThreadOf(s, e.tid).slots;
      if Missing(mine, e.index) then Allocates(s, e.tid, e.index, e.chunk, e.address, s', controls(e.index))
      else e.address == mine[e.index - 1] != 0 && (forall t :: ThreadOf(s', t) == ThreadOf(s, t))
           && s'.blocks == s.blocks && s'.words == s.words && s'.ended == s.ended
  {
    hide WithRoom, ChunkSize, Aligned, PowerOfTwo, CanAllocate;
  }

  lemma FilledRoom(slots: seq<nat>, index: nat, base: nat)
    requires 1 <= index < INDEX_BOUND && Missing(slots, index)
    requires var room := WithRoom(slots, index);
      slots <= room && index <= |room| && forall i :: |slots| <= i < |room| ==> room[i] == 0
    ensures Filled(slots, WithRoom(slots, index)[index - 1 := base], index - 1, base)
  {
    hide WithRoom;
  }

  lemma AllocateFills(s: Process, t: Tid, index: nat, chunk: nat, base: nat, s': Process, controls: nat -> Control)
    requires Inv(s, controls) && Allocates(s, t, index, chunk, base, s', controls(index)) && t !in s.ended
    ensures index > 0 && base > 0 && s'.ended == s.ended
    ensures forall u :: u != t ==> ThreadOf(s', u) == ThreadOf(s, u)
    ensures Filled(ThreadOf(s, t).slots, ThreadOf(s', t).slots, index - 1, base)
  {
    hide WithRoom, ChunkSize, Stored, NothingShared, Owns, ChunkOf, ProperBlocks, CanAllocate, Filled, Missing;
    var mine := ThreadOf(s, t);
    assert ThreadInv(s, t, controls);
    RoomKeeps(mine.slots, index, mine.sizes, s.blocks, s.words);
    FilledRoom(mine.slots, index, base);
  }

  lemma ProperBlock(blocks: map<nat, nat>, chunk: nat, n: nat)
    requires ProperBlocks(blocks) && CanAllocate(chunk, n, blocks)
    ensures ProperBlocks(blocks[chunk := n])
  {}

  lemma AllocateKeepsThread(s: Process, t: Tid, index: nat, chunk: nat, base: nat, s': Process,
                            controls: nat -> Control, u: Tid)
    requires Inv(s, controls) && Allocates(s, t, index, chunk, base, s', controls(index))
    requires t !in s.ended && u !in s.ended
    ensures ThreadInv(s', u, controls)
  {
    hide WithRoom, ChunkSize, Stored, NothingShared, Owns, ChunkOf, ProperBlocks;
    var n := ChunkSize(controls(index).size, controls(index).align);
    assert ThreadInv(s, u, controls) && ThreadInv(s, t, controls);
    if u == t {
      var mine := ThreadOf(s, t);
      RoomKeeps(mine.slots, index, mine.sizes, s.blocks, s.words);
      FilledRoom(mine.slots, index, 0);
      var size := controls(index).size;
      NewObject(WithRoom(mine.slots, index), mine.sizes, s.blocks, s.words, chunk, n, base, index - 1, size);
    } else {
      BlocksKept(ThreadOf(s, u).slots, ThreadOf(s, u).sizes, s.blocks, s.words, chunk, n, base);
    }
  }

  lemma AllocateSharesNothing(s: Process, t: Tid, index: nat, chunk: nat, base: nat, s': Process,
                              controls: nat -> Control, u: Tid, v: Tid)
    requires Inv(s, controls) && Allocates(s, t, index, chunk, base, s', controls(index))
    requires t !in s.ended && u !in s.ended && v !in s.ended && u != v
    ensures NothingShared(ThreadOf(s', u).slots, ThreadOf(s', v).slots, s'.words)
  {
    hide WithRoom, ChunkSize, Stored, Owns, ChunkOf, ProperBlocks, Filled;
    var n := ChunkSize(controls(index).size, controls(index).align);
    assert ThreadInv(s, u, controls) && ThreadInv(s, v, controls) && ThreadInv(s, t, controls);
    var mine, a, b := ThreadOf(s, t), ThreadOf(s, u), ThreadOf(s, v);
    assert NothingShared(a.slots, b.slots, s.words) && NothingShared(b.slots, a.slots, s.words);
    BlocksKept(a.slots, a.sizes, s.blocks, s.words, chunk, n, base);
    BlocksKept(b.slots, b.sizes, s.blocks, s.words, chunk, n, base);
    RoomKeeps(mine.slots, index, mine.sizes, s.blocks, s.words);
    FilledRoom(mine.slots, index, base);
    hide NothingShared;
    if t == u {
      StillNothingShared(a.slots, b.slots, s.words, ThreadOf(s', u).slots, s'.words, index - 1, base, chunk);
    } else if t == v {
      StillNothingShared(b.slots, a.slots, s.words, ThreadOf(s', v).slots, s'.words, index - 1, base, chunk);
    } else {
      StillApart(a.slots, b.slots, s.words, s'.words);
    }
  }

  /** Threads that take no part in a step. */
  lemma StillApart(a: seq<nat>, b: seq<nat>, words: map<nat, nat>, words': map<nat, nat>)
    requires NothingShared(a, b, words)
    requires forall i :: 0 <= i < |a| && a[i] != 0 ==> ChunkOf(a[i], words') == ChunkOf(a[i], words)
    requires forall i :: 0 <= i < |b| && b[i] != 0 ==> ChunkOf(b[i], words') == ChunkOf(b[i], words)
    ensures NothingShared(a, b, words')
  {
    hide ChunkOf;
  }

  lemma AllocateKeepsOwner(s: Process, t: Tid, index: nat, chunk: nat, base: nat, s': Process, controls: nat -> Control,
                           u: Tid, c: nat)
    requires Inv(s, controls) && Allocates(s, t, index, chunk, base, s', controls(index))
    requires t !in s.ended && Owns(s, u, c)
    ensures Owns(s', u, c)
  {
    hide Inv, Owns, ThreadInv, WithRoom, Stored, ChunkOf, ProperBlocks, Filled, Missing, CanAllocate, ChunkSize;
    AllocateFills(s, t, index, chunk, base, s', controls);
    LiveThread(s, u, c, controls);
    var theirs := ThreadOf(s, u);
    StoredThread(s, u, controls);
    BlockApart(s, chunk, ChunkSize(controls(index).size, controls(index).align));
    var n := ChunkSize(controls(index).size, controls(index).align);
    BlocksKept(theirs.slots, theirs.sizes, s.blocks, s.words, chunk, n, base);
    if u == t { FilledKeeps(theirs.slots, ThreadOf(s', u).slots, index - 1, base, index); }
    StillOwns(s, u, s', c);
  }

  lemma LiveThread(s: Process, u: Tid, c: nat, controls: nat -> Control)
    requires Inv(s, controls) && Owns(s, u, c)
    ensures u !in s.ended && ThreadInv(s, u, controls)
  {
    hide ThreadInv, ChunksOf, ProperBlocks;
  }

  lemma BlockApart(s: Process, chunk: nat, n: nat)
    requires CanAllocate(chunk, n, s.blocks)
    ensures ApartFromAll(chunk, n, s.blocks)
  {}

  lemma AllocateKeepsOwners(s: Process, t: Tid, index: nat, chunk: nat, base: nat, s': Process,
                            controls: nat -> Control, c: nat)
    requires Inv(s, controls) && Allocates(s, t, index, chunk, base, s', controls(index))
    requires t !in s.ended && c in s'.blocks
    ensures exists u :: Owns(s', u, c)
  {
    if c == chunk {
      AllocatorOwns(s, t, index, chunk, base, s', controls);
      assert Owns(s', t, c);
    } else {
      var u := OwnerOf(s, c, controls);
      AllocateKeepsOwner(s, t, index, chunk, base, s', controls, u, c);
    }
  }

  lemma OwnerOf(s: Process, c: nat, controls: nat -> Control) returns (u: Tid)
    requires Inv(s, controls) && c in s.blocks
    ensures Owns(s, u, c)
  {
    hide Owns, ProperBlocks, ThreadInv;
    u :| Owns(s, u, c);
  }

  lemma AllocatorOwns(s: Process, t: Tid, index: nat, chunk: nat, base: nat, s': Process, controls: nat -> Control)
    requires Inv(s, controls) && Allocates(s, t, index, chunk, base, s', controls(index)) && t !in s.ended
    ensures Owns(s', t, chunk)
  {
    hide Inv, WithRoom, CanAllocate, ChunkSize, Missing, Owns;
    AllocateFills(s, t, index, chunk, base, s', controls);
    OwnsNew(s', t, index - 1, base, chunk);
  }

  lemma StoredThread(s: Process, u: Tid, controls: nat -> Control)
    requires ThreadInv(s, u, controls)
    ensures Stored(ThreadOf(s, u).slots, ThreadOf(s, u).sizes, s.blocks, s.words)
  {}

  ghost predicate KeepsSlots(before: seq<nat>, after: seq<nat>) {
    |before| <= |after| && forall i :: 0 <= i < |before| && before[i] != 0 ==> after[i] == before[i]
  }

  lemma FilledKeeps(before: seq<nat>, after: seq<nat>, k: nat, base: nat, index: nat)
    requires Filled(before, after, k, base) && index == k + 1 && Missing(before, index)
    ensures KeepsSlots(before, after)
  {}

  lemma OwnsNew(s: Process, t: Tid, k: nat, base: nat, chunk: nat)
    requires t !in s.ended && base > 0 && ChunkOf(base, s.words) == chunk
    requires k < |ThreadOf(s, t).slots| && ThreadOf(s, t).slots[k] == base
    ensures Owns(s, t, chunk)
  {
    hide ChunkOf;
  }

  lemma StillOwns(s: Process, u: Tid, s': Process, c: nat)
    requires Owns(s, u, c) && u !in s'.ended && KeepsSlots(ThreadOf(s, u).slots, ThreadOf(s', u).slots)
    requires forall i :: 0 <= i < |ThreadOf(s, u).slots| && ThreadOf(s, u).slots[i] != 0 ==>
      ChunkOf(ThreadOf(s, u).slots[i], s'.words) == ChunkOf(ThreadOf(s, u).slots[i], s.words)
    ensures Owns(s', u, c)
  {
    hide ChunkOf;
    var slots := ThreadOf(s, u).slots;
    var i :| 0 <= i < |slots| && slots[i] != 0 && c == ChunkOf(slots[i], s.words);
    assert ThreadOf(s', u).slots[i] == slots[i];
  }

  lemma AllocateKeepsInv(s: Process, t: Tid, index: nat, chunk: nat, base: nat, s': Process, controls: nat -> Control)
    requires Inv(s, controls) && Allocates(s, t, index, chunk, base, s', controls(index)) && t !in s.ended
    ensures Inv(s', controls)
  {
    hide Stored, NothingShared, CanAllocate, ChunkSize, WithRoom, ChunksOf, ThreadInv, Owns, Inv;
    ProperAfter(s, t, index, chunk, base, s', controls);
    assert EachThread(s', controls) by {
      forall u | u !in s'.ended ensures ThreadInv(s', u, controls) {
        AllocateKeepsThread(s, t, index, chunk, base, s', controls, u);
      }
    }
    assert EachPair(s') by {
      forall u, v | u !in s'.ended && v !in s'.ended && u != v
        ensures NothingShared(ThreadOf(s', u).slots, ThreadOf(s', v).slots, s'.words)
      {
        AllocateSharesNothing(s, t, index, chunk, base, s', controls, u, v);
      }
    }
    assert EachBlock(s') by {
      forall c | c in s'.blocks ensures exists u :: Owns(s', u, c) {
        AllocateKeepsOwners(s, t, index, chunk, base, s', controls, c);
      }
    }
    InvOf(s', controls);
  }

  lemma ProperAfter(s: Process, t: Tid, index: nat, chunk: nat, base: nat, s': Process, controls: nat -> Control)
    requires Inv(s, controls) && Allocates(s, t, index, chunk, base, s', controls(index))
    ensures ProperBlocks(s'.blocks) && s'.ended == s.ended
  {
    hide ProperBlocks, CanAllocate, ChunkSize, WithRoom;
    ProperBlock(s.blocks, chunk, ChunkSize(controls(index).size, controls(index).align));
  }

  lemma InvOf(s: Process, controls: nat -> Control)
    requires ProperBlocks(s.blocks) && EachThread(s, controls) && EachPair(s) && EachBlock(s)
    ensures Inv(s, controls)
  {}

  lemma SameKeepsInv(s: Process, s': Process, controls: nat -> Control)
    requires Inv(s, controls) && s'.blocks == s.blocks && s'.words == s.words && s'.ended == s.ended
    requires forall t :: ThreadOf(s', t) == ThreadOf(s, t)
    ensures Inv(s', controls)
  {
    hide Stored, NothingShared, ProperBlocks, ChunksOf;
    forall u | u !in s'.ended ensures ThreadInv(s', u, controls) { assert ThreadInv(s, u, controls); }
    forall c | c in s'.blocks ensures exists u :: Owns(s', u, c) {
      var u :| Owns(s, u, c);
      assert Owns(s', u, c);
    }
  }

  lemma GetKeepsInv(s: Process, e: Event, s': Process, controls: nat -> Control)
    requires Inv(s, controls) && e.Get? && Step(s, e, s', controls)
    ensures Inv(s', controls)
  {
    hide Inv, Step, Allocates, Missing;
    GetCases(s, e, s', controls);
    NotEnded(s, e, s', controls);
    if Missing(ThreadOf(s, e.tid).slots, e.index) {
      AllocateKeepsInv(s, e.tid, e.index, e.chunk, e.address, s', controls);
    } else {
      SameKeepsInv(s, s', controls);
    }
  }

  lemma NotEnded(s: Process, e: Event, s': Process, controls: nat -> Control)
    requires Step(s, e, s', controls)
    ensures e.tid !in s.ended
  {}

  // ------------------------------------------------------ a thread that ends

  /** Freeing one thread's blocks touches no other thread's. */
  lemma StillStored(mine: seq<nat>, other: seq<nat>, sizes: map<nat, nat>, blocks: map<nat, nat>, words: map<nat, nat>)
    requires Stored(other, sizes, blocks, words) && NothingShared(other, mine, words)
    ensures Stored(other, sizes, blocks - ChunksOf(mine, words), words)
  {
    forall j | 0 <= j < |other| && other[j] != 0
      ensures ObjectAt(other[j], j, sizes, blocks - ChunksOf(mine, words), words)
    {
      assert ObjectAt(other[j], j, sizes, blocks, words);
      assert ChunkOf(other[j], words) !in ChunksOf(mine, words);
    }
  }

  lemma EndKeepsInv(s: Process, e: Event, s': Process, controls: nat -> Control)
    requires Inv(s, controls) && e.End? && Step(s, e, s', controls)
    ensures Inv(s', controls)
  {
    hide Stored, NothingShared, ChunkOf, ChunksOf, Separate;
    forall u | u !in s'.ended ensures ThreadInv(s', u, controls) {
      assert ThreadInv(s, u, controls);
      StillStored(ThreadOf(s, e.tid).slots, ThreadOf(s, u).slots, ThreadOf(s, u).sizes, s.blocks, s.words);
    }
    assert ProperBlocks(s'.blocks) by { StillProper(s.blocks, ChunksOf(ThreadOf(s, e.tid).slots, s.words)); }
    hide ProperBlocks, ThreadInv;
    forall c | c in s'.blocks ensures exists u :: Owns(s', u, c) {
      var u :| Owns(s, u, c);
      assert Owns(s', u, c);
    }
  }

  lemma StillProper(blocks: map<nat, nat>, freed: set<nat>)
    requires ProperBlocks(blocks)
    ensures ProperBlocks(blocks - freed)
  {}

  // ------------------------------------------------------ whole runs

  ghost predicate IsRun(states: seq<Process>, events: seq<Event>, controls: nat -> Control) {
    && |states| == |events| + 1
    && Init(states[0])
    && forall i :: 0 <= i < |events| ==> Step(states[i], events[i], states[i + 1], controls)
  }

  lemma {:induction false} RunKeepsInv(states: seq<Process>, events: seq<Event>, controls: nat -> Control, i: nat)
    requires IsRun(states, events, controls) && i < |states|
    ensures Inv(states[i], controls)
  {
    hide Step;
    if i == 0 {
      InitInv(states[0], controls);
    } else {
      RunKeepsInv(states, events, controls, i - 1);
      if events[i - 1].Get? {
        GetKeepsInv(states[i - 1], events[i - 1], states[i], controls);
      } else {
        EndKeepsInv(states[i - 1], events[i - 1], states[i], controls);
      }
    }
  }

  lemma InitInv(s: Process, controls: nat -> Control)
    requires Init(s)
    ensures Inv(s, controls)
  {}

  /** The address in slot k, NULL where the array does not reach. */
  function SlotIn(slots: seq<nat>, k: nat): nat { if k < |slots| then slots[k] else 0 }
  function SlotOf(s: Process, t: Tid, k: nat): nat { SlotIn(ThreadOf(s, t).slots, k) }

  lemma FilledSlots(before: seq<nat>, after: seq<nat>, k: nat, base: nat)
    requires Filled(before, after, k, base)
    ensures forall i :: SlotIn(after, i) == if i == k then base else SlotIn(before, i)
  {}

  /** A step neither empties nor changes a slot in use, fills at most the one asked
      for, and returns what that slot then holds. */
  lemma StepSlots(s: Process, e: Event, s': Process, controls: nat -> Control, t: Tid)
    requires Inv(s, controls) && Step(s, e, s', controls) && t !in s'.ended
    ensures t !in s.ended
    ensures forall k :: SlotOf(s, t, k) != 0 ==> SlotOf(s', t, k) == SlotOf(s, t, k)
    ensures forall k :: SlotOf(s', t, k) != SlotOf(s, t, k) ==> e.Get? && e.tid == t && k == e.index - 1
    ensures e.Get? && e.tid == t ==> e.index > 0 && SlotOf(s', t, e.index - 1) == e.address != 0
  {
    hide Inv, Step, SlotIn, Allocates, Missing, WithRoom;
    NotEnded(s, e, s', controls);
    if e.Get? {
      GetCases(s, e, s', controls);
      MissingSlot(ThreadOf(s, e.tid).slots, e.index);
      if Missing(ThreadOf(s, e.tid).slots, e.index) {
        AllocateFills(s, e.tid, e.index, e.chunk, e.address, s', controls);
        hide Filled;
        FilledSlots(ThreadOf(s, e.tid).slots, ThreadOf(s', e.tid).slots, e.index - 1, e.address);
      }
    } else {
      EndKeepsThreads(s, e, s', controls);
    }
  }

  lemma EndKeepsThreads(s: Process, e: Event, s': Process, controls: nat -> Control)
    requires e.End? && Step(s, e, s', controls)
    ensures s'.threads == s.threads && s.ended <= s'.ended
  {}

  lemma MissingSlot(slots: seq<nat>, index: nat)
    requires index > 0
    ensures Missing(slots, index) <==> SlotIn(slots, index - 1) == 0
    ensures !Missing(slots, index) ==> SlotIn(slots, index - 1) == slots[index - 1]
  {}

  /** The thread whose call this is has not ended by state j. */
  ghost predicate Obtained(states: seq<Process>, events: seq<Event>, i: nat, j: nat) {
    i < |events| && events[i].Get? && i < j < |states| && events[i].tid !in states[j].ended && events[i].index > 0
  }

  /** While its thread lives, the slot of a control holds the address that the call
      returned. */
  lemma {:induction false} SlotStays(states: seq<Process>, events: seq<Event>, controls: nat -> Control, i: nat, j: nat)
    requires IsRun(states, events, controls) && Obtained(states, events, i, j)
    ensures SlotOf(states[j], events[i].tid, events[i].index - 1) == events[i].address != 0
    decreases j
  {
    hide Step, Inv, SlotOf;
    var t := events[i].tid;
    RunKeepsInv(states, events, controls, j - 1);
    StepSlots(states[j - 1], events[j - 1], states[j], controls, t);
    if i < j - 1 {
      SlotStays(states, events, controls, i, j - 1);
    }
  }

  lemma CallerLives(states: seq<Process>, events: seq<Event>, controls: nat -> Control, i: nat)
    requires IsRun(states, events, controls) && i < |events|
    ensures events[i].tid !in states[i].ended && (events[i].Get? ==> events[i].index > 0)
  {
    assert Step(states[i], events[i], states[i + 1], controls);
  }

  /** However many calls, growths and threads lie between, a thread's calls for one
      control all return one address. */
  lemma SameAddressForever(states: seq<Process>, events: seq<Event>, controls: nat -> Control, i: nat, j: nat)
    requires IsRun(states, events, controls) && i < j < |events| && events[i].Get? && events[j].Get?
    requires events[i].tid == events[j].tid && events[i].index == events[j].index
    ensures events[i].address == events[j].address
  {
    hide Step, Inv, SlotOf;
    CallerLives(states, events, controls, i);
    CallerLives(states, events, controls, j);
    SlotStays(states, events, controls, i, j);
    RunKeepsInv(states, events, controls, j);
    assert Step(states[j], events[j], states[j + 1], controls);
    StillLives(states[j], events[j], states[j + 1], controls);
    StepSlots(states[j], events[j], states[j + 1], controls, events[j].tid);
  }

  lemma StillLives(s: Process, e: Event, s': Process, controls: nat -> Control)
    requires Step(s, e, s', controls) && e.Get?
    ensures e.tid !in s'.ended
  {}

  /** A slot of a live thread is NULL exactly when the thread never asked for it. */
  lemma {:induction false} OnlyRequested(states: seq<Process>, events: seq<Event>, controls: nat -> Control,
                                           j: nat, t: Tid, k: nat)
    requires IsRun(states, events, controls) && j < |states| && t !in states[j].ended
    ensures SlotOf(states[j], t, k) != 0 <==>
      exists i :: 0 <= i < j && events[i].Get? && events[i].tid == t && events[i].index == k + 1
  {
    hide Step, Inv;
    if j > 0 {
      RunKeepsInv(states, events, controls, j - 1);
      StepSlots(states[j - 1], events[j - 1], states[j], controls, t);
      OnlyRequested(states, events, controls, j - 1, t, k);
    }
  }

  ghost predicate SameObject(e: Event, f: Event)
    requires e.Get? && f.Get?
  {
    e.tid == f.tid && e.index == f.index
  }

  /** In every reachable state the objects that live threads have obtained are apart,
      header words included, unless they are one control's object in one thread. */
  lemma ObjectsOfThreadsDisjoint(states: seq<Process>, events: seq<Event>, controls: nat -> Control,
                                 i: nat, j: nat, k: nat)
    requires IsRun(states, events, controls) && Obtained(states, events, i, k) && Obtained(states, events, j, k)
    requires !SameObject(events[i], events[j])
    ensures var e, f := events[i], events[j];
      && e.address >= POINTER_SIZE && f.address >= POINTER_SIZE && e.address != f.address
      && Disjoint(e.address - POINTER_SIZE, POINTER_SIZE + controls(e.index).size,
                  f.address - POINTER_SIZE, POINTER_SIZE + controls(f.index).size)
  {
    hide Step, SlotOf, Stored;
    var e, f, s := events[i], events[j], states[k];
    RunKeepsInv(states, events, controls, k);
    ObjectLives(states, events, controls, i, k);
    ObjectLives(states, events, controls, j, k);
    var p, q := ChunkOf(e.address, s.words), ChunkOf(f.address, s.words);
    assert p != q by {
      hide Inv;
      BlocksDiffer(states, events, controls, i, j, k);
    }
    assert Disjoint(p, s.blocks[p], q, s.blocks[q]);
  }

  /** No object is freed while its thread lives: it lies, behind its
      header, in a block not yet freed. */
  lemma ObjectLives(states: seq<Process>, events: seq<Event>, controls: nat -> Control, i: nat, k: nat)
    requires IsRun(states, events, controls) && Obtained(states, events, i, k)
    ensures var e, s := events[i], states[k]; var chunk := ChunkOf(e.address, s.words);
      && chunk in s.blocks && 0 < chunk && chunk + POINTER_SIZE <= e.address
      && e.address + controls(e.index).size <= chunk + s.blocks[chunk] < TWO64
  {
    hide Step;
    var e, s := events[i], states[k];
    RunKeepsInv(states, events, controls, k);
    SlotStays(states, events, controls, i, k);
    assert ThreadInv(s, e.tid, controls);
    var mine := ThreadOf(s, e.tid);
    assert ObjectAt(mine.slots[e.index - 1], e.index - 1, mine.sizes, s.blocks, s.words);
  }

  lemma BlocksDiffer(states: seq<Process>, events: seq<Event>, controls: nat -> Control, i: nat, j: nat, k: nat)
    requires IsRun(states, events, controls) && Obtained(states, events, i, k) && Obtained(states, events, j, k)
    requires !SameObject(events[i], events[j])
    ensures ChunkOf(events[i].address, states[k].words) != ChunkOf(events[j].address, states[k].words)
  {
    hide Step, Stored, ChunkOf, ThreadInv, ProperBlocks;
    var e, f, s := events[i], events[j], states[k];
    RunKeepsInv(states, events, controls, k);
    SlotStays(states, events, controls, i, k);
    SlotStays(states, events, controls, j, k);
    var mine, theirs := ThreadOf(s, e.tid), ThreadOf(s, f.tid);
    assert ThreadInv(s, e.tid, controls);
    assert e.tid != f.tid ==> NothingShared(mine.slots, theirs.slots, s.words);
    hide Inv;
    if e.tid == f.tid {
      StoredThread(s, e.tid, controls);
      SlotsDiffer(mine.slots, mine.sizes, s.blocks, s.words, e.index - 1, f.index - 1);
    }
  }

  lemma SlotsDiffer(slots: seq<nat>, sizes: map<nat, nat>, blocks: map<nat, nat>, words: map<nat, nat>, i: nat, j: nat)
    requires Stored(slots, sizes, blocks, words)
    requires i < |slots| && j < |slots| && i != j && slots[i] != 0 && slots[j] != 0
    ensures ChunkOf(slots[i], words) != ChunkOf(slots[j], words)
  {
    assert ObjectAt(slots[i], i, sizes, blocks, words) && ObjectAt(slots[j], j, sizes, blocks, words);
  }

  /** When every thread that obtained something has ended, every block is freed. */
  lemma NothingLeaks(states: seq<Process>, events: seq<Event>, controls: nat -> Control, k: nat)
    requires IsRun(states, events, controls) && k < |states|
    requires forall i :: 0 <= i < k && events[i].Get? ==> events[i].tid in states[k].ended
    ensures states[k].blocks == map[]
  {
    hide Step;
    var s := states[k];
    RunKeepsInv(states, events, controls, k);
    forall c ensures c !in s.blocks {
      if c in s.blocks {
        var t :| Owns(s, t, c);
        var slots := ThreadOf(s, t).slots;
        var i :| 0 <= i < |slots| && slots[i] != 0 && c == ChunkOf(slots[i], s.words);
        OnlyRequested(states, events, controls, k, t, i);
      }
    }
  }

  // ------------------------------------------------------ alignment

  /** An address that meets a control's alignment: always that of a pointer. */
  predicate Meets(address: nat, align: nat) {
    && address % 8 == 0
    && (align >= 8 ==> And(align, align - 1) == 0 && address % align == 0)
    && (align > 0 && And(align, align - 1) == 0 ==> address % align == 0)
  }

  lemma NewAddressMeets(s: Process, e: Event, s': Process, controls: nat -> Control)
    requires Step(s, e, s', controls) && e.Get? && e.index > 0 && Missing(ThreadOf(s, e.tid).slots, e.index)
    ensures Meets(e.address, controls(e.index).align)
  {
    hide Obtains, Missing, And;
    var size, align := controls(e.index).size, controls(e.index).align;
    NewObjectMeets(ViewOf(s, e.tid), e.index, size, align, e.chunk, ViewOf(s', e.tid), Some(e.address));
  }

  lemma {:induction false} SlotsMeet(states: seq<Process>, events: seq<Event>, controls: nat -> Control,
                                     j: nat, t: Tid, k: nat)
    requires IsRun(states, events, controls) && j < |states| && t !in states[j].ended && SlotOf(states[j], t, k) != 0
    ensures Meets(SlotOf(states[j], t, k), controls(k + 1).align)
    decreases j
  {
    hide Step, Inv, Meets, SlotIn, Missing;
    if j > 0 {
      var s, e, s' := states[j - 1], events[j - 1], states[j];
      RunKeepsInv(states, events, controls, j - 1);
      StepSlots(s, e, s', controls, t);
      if SlotOf(s, t, k) != 0 {
        SlotsMeet(states, events, controls, j - 1, t, k);
      } else {
        MissingSlot(ThreadOf(s, t).slots, e.index);
        NewAddressMeets(s, e, s', controls);
      }
    } else {
      assert false by { NothingYet(states[0], t, k); }
    }
  }

  lemma NothingYet(s: Process, t: Tid, k: nat)
    requires Init(s)
    ensures SlotOf(s, t, k) == 0
  {}

  /** Every address a call returns meets the alignment its control asks for. */
  lemma AddressesAligned(states: seq<Process>, events: seq<Event>, controls: nat -> Control, i: nat)
    requires IsRun(states, events, controls) && i < |events| && events[i].Get?
    ensures var a, align := events[i].address, controls(events[i].index).align;
      && a % 8 == 0
      && (align >= 8 ==> And(align, align - 1) == 0 && a % align == 0)
      && (align > 0 && And(align, align - 1) == 0 ==> a % align == 0)
  {
    hide Step, Inv, SlotOf, And;
    CallerLives(states, events, controls, i);
    assert Step(states[i], events[i], states[i + 1], controls);
    StillLives(states[i], events[i], states[i + 1], controls);
    SlotStays(states, events, controls, i, i + 1);
    SlotsMeet(states, events, controls, i + 1, events[i].tid, events[i].index - 1);
  }

  // ------------------------------------------------------ with the index allocator

  /** Calls of one thread whose indices the allocator handed out, in any run of its own:
      they return one address exactly when they name the same control variable. */
  lemma AddressNamesControl(states: seq<Process>, events: seq<Event>, controls: nat -> Control, i: nat, j: nat,
                            calls: seq<Indices.State>, schedule: seq<Tid>, m: nat, n: nat, u: Tid, v: Tid)
    requires IsRun(states, events, controls) && i < |events| && j < |events| && events[i].Get? && events[j].Get?
    requires events[i].tid == events[j].tid
    requires Indices.IsRun(calls, schedule) && m < |calls| && n < |calls|
    requires Indices.PcOf(calls[m], u).Returned? && Indices.PcOf(calls[n], v).Returned?
    requires events[i].index == Indices.PcOf(calls[m], u).index && events[j].index == Indices.PcOf(calls[n], v).index
    ensures events[i].address == events[j].address <==>
            Indices.PcOf(calls[m], u).control == Indices.PcOf(calls[n], v).control
  {
    hide Indices.Step, Step, Disjoint;
    Indices.CallsAgree(calls, schedule, m, n, u, v);
    if i <= j {
      SameAddressIffSameIndex(states, events, controls, i, j);
    } else {
      SameAddressIffSameIndex(states, events, controls, j, i);
    }
  }

  lemma SameAddressIffSameIndex(states: seq<Process>, events: seq<Event>, controls: nat -> Control, i: nat, j: nat)
    requires IsRun(states, events, controls) && i <= j < |events| && events[i].Get? && events[j].Get?
    requires events[i].tid == events[j].tid
    ensures events[i].address == events[j].address <==> events[i].index == events[j].index
  {
    hide Step, Disjoint;
    if i < j {
      if events[i].index == events[j].index {
        SameAddressForever(states, events, controls, i, j);
      } else {
        CallerLives(states, events, controls, i);
        CallerLives(states, events, controls, j);
        assert Step(states[j], events[j], states[j + 1], controls);
        StillLives(states[j], events[j], states[j + 1], controls);
        ObjectsOfThreadsDisjoint(states, events, controls, i, j, j + 1);
      }
    }
  }
}
