/** The per-thread storage of src/compiler-rt/builtins/emutls.c: aligned objects with
    the allocator's pointer stored in front of them, and the growable array of their
    addresses. Addresses are numbers; 0 is NULL. */
module EmuTlsArray {
  import opened Words
  import EmuTlsIndex

  const POINTER_SIZE: nat := 8

  /** EmuTlsIndex.IndexFits: indices stay below this. */
  const INDEX_BOUND: nat := EmuTlsIndex.INDEX_BOUND

  datatype Option<T> = None | Some(value: T)

  // ------------------------------------------------------ arithmetic

  /** emutls_new_data_array_size: room for index slots, one word short of a multiple
      of sixteen. */
  function NewDataArraySize(index: nat): nat {
    (And((index + 1 + 15) % TWO64, TWO64 - 1 - 15) - 1) % TWO64
  }

  /** emutls_asize: the bytes of an array of n slots and its size field. */
  function Asize(n: nat): nat { (n * POINTER_SIZE + POINTER_SIZE) % TWO64 }

  lemma RoundDown(x: nat)
    requires x < TWO64
    ensures And(x, TWO64 - 1 - 15) == x - x % 16
  {
    hide And, Pow2;
    Pow2Values();
    SmallPowers();
    assert Pow2(4) == 16 by { Pow2Add(2, 2); }
    AndHighMask(x, 4, 64);
  }

  /** x & ~(2^k - 1) in a word of w bits clears the low k bits. */
  lemma AndHighMask(x: nat, k: nat, w: nat)
    requires k <= w && x < Pow2(w)
    ensures Pow2(k) <= Pow2(w)
    ensures And(x, Pow2(w) - Pow2(k)) == x - x % Pow2(k)
  {
    hide And, Pow2;
    HighMaskClears(x, k, w);
  }

  lemma {:induction false} HighMaskClears(x: nat, k: nat, w: nat)
    requires k <= w && x < Pow2(w)
    ensures Pow2(k) <= Pow2(w)
    ensures And(x, Pow2(w) - Pow2(k)) + LowPart(x, Pow2(k)) == x
  {
    hide *;
    Pow2Mono(k, w);
    if k == 0 {
      FullMask(x, w);
    } else {
      Doubled(w);
      Doubled(k);
      HalfBelow(x, Pow2(w - 1));
      HighMaskClears(x / 2, k - 1, w - 1);
      HighMaskStep(x, Pow2(w - 1), Pow2(k - 1));
    }
  }

  lemma FullMask(x: nat, w: nat)
    requires x < Pow2(w)
    ensures Pow2(0) == 1 && And(x, Pow2(w) - 1) == x && LowPart(x, 1) == 0
  {
    hide And;
    AndMask(x, w);
    DivUnique(x, Pow2(w), 0, x);
  }

  lemma HalfBelow(x: nat, p: nat)
    requires x < 2 * p
    ensures x / 2 < p
  {}

  lemma HighMaskStep(x: nat, p: nat, q: nat)
    requires 0 < q <= p && And(x / 2, p - q) + LowPart(x / 2, q) == x / 2
    ensures And(x, 2 * p - 2 * q) + LowPart(x, 2 * q) == x
  {
    hide And;
    AndHalf(x, 2 * p - 2 * q);
    HalfMask(p, q);
    RemainderOfHalf(x, q);
  }

  lemma HalfMask(p: int, q: int)
    ensures (2 * p - 2 * q) / 2 == p - q && (2 * p - 2 * q) % 2 == 0
  {}

  lemma RemainderOfHalf(x: nat, q: nat)
    requires q > 0
    ensures x % (2 * q) == 2 * (x / 2 % q) + x % 2
  {
    DivDiv(x, 2, q);
  }

  /** The smallest such size: never below the index, at most fifteen above it. The
      two wrap-arounds at the very top of the range cancel. */
  lemma NewSizeFits(index: nat)
    requires 1 <= index < TWO64
    ensures var n := NewDataArraySize(index);
      n < TWO64 && (n + 1) % 16 == 0 && index <= n <= index + 15
  {
    hide And;
    RoundDown((index + 16) % TWO64);
    RoundUp(index);
  }

  lemma RoundUp(index: nat)
    requires 1 <= index < TWO64
    ensures var x := (index + 16) % TWO64; var n := (x - x % 16 - 1) % TWO64;
      n < TWO64 && (n + 1) % 16 == 0 && index <= n <= index + 15
  {}

  /** The byte count of the array does not wrap for any index that can be given out. */
  lemma AsizeFits(index: nat)
    requires 1 <= index < INDEX_BOUND
    ensures Asize(NewDataArraySize(index)) == POINTER_SIZE * (NewDataArraySize(index) + 1)
  {
    hide NewDataArraySize;
    NewSizeFits(index);
  }

  predicate PowerOfTwo(a: nat) { a > 0 && And(a, a - 1) == 0 }

  /** What alignment asks of an address. */
  predicate Aligned(address: nat, align: nat) { align > 0 && address % align == 0 }

  /** base = (chunk + extra) & ~(align - 1) is aligned, and leaves room for a pointer
      in front of it and for the object behind it. */
  lemma AlignedBase(chunk: nat, align: nat, size: nat)
    requires PowerOfTwo(align) && align >= POINTER_SIZE
    requires chunk + (align - 1 + POINTER_SIZE) + size < TWO64
    ensures align < TWO64
    ensures var base := And(chunk + (align - 1 + POINTER_SIZE), TWO64 - align);
      && Aligned(base, align)
      && chunk + POINTER_SIZE <= base && base + size <= chunk + (align - 1 + POINTER_SIZE) + size
  {
    hide And, Pow2;
    Pow2Values();
    PowerOfTwoTest(align);
    var x := chunk + (align - 1 + POINTER_SIZE);
    if Ctz(align) >= 64 { Pow2Mono(64, Ctz(align)); }
    AndHighMask(x, Ctz(align), 64);
    ClearLow(x, align);
  }

  lemma ClearLow(x: nat, a: nat)
    requires a > 0
    ensures (x - x % a) % a == 0 && x - x % a > x - a
  {
    DivModOf(x, a);
    MulDiv(x / a, a);
  }

  // ------------------------------------------------------ the allocator's view

  ghost predicate Disjoint(p: nat, n: nat, q: nat, m: nat) { p + n <= q || q + m <= p }

  ghost predicate ApartFromAll(chunk: nat, n: nat, blocks: map<nat, nat>) {
    forall p :: p in blocks ==> chunk != p && Disjoint(p, blocks[p], chunk, n)
  }

  ghost predicate Separate(blocks: map<nat, nat>) {
    forall p, q :: p in blocks && q in blocks && p != q ==> Disjoint(p, blocks[p], q, blocks[q])
  }

  ghost predicate ProperBlocks(blocks: map<nat, nat>) {
    (forall p :: p in blocks ==> 0 < p && p + blocks[p] < TWO64) && Separate(blocks)
  }

  /** What malloc promises: a non-null block apart from all others. */
  ghost predicate CanAllocate(chunk: nat, n: nat, blocks: map<nat, nat>) {
    0 < chunk && chunk + n < TWO64 && ApartFromAll(chunk, n, blocks)
  }

  /** Blocks obtained from malloc and not yet freed, with their lengths, and the
      pointer words emutls stores in them. */
  class Heap {
    var blocks: map<nat, nat>
    var words: map<nat, nat>

    constructor ()
      ensures Valid() && blocks == map[] && words == map[]
    {
      blocks, words := map[], map[];
    }

    ghost predicate Valid()
      reads this
    {
      ProperBlocks(blocks)
    }

    /** emutls_memalign_alloc; object is the address malloc returns. */
    method MemalignAlloc(align: nat, size: nat, chunk: nat) returns (base: nat)
      requires Valid() && PowerOfTwo(align) && align >= POINTER_SIZE
      requires CanAllocate(chunk, align - 1 + POINTER_SIZE + size, blocks)
      modifies this
      ensures Valid()
      ensures Aligned(base, align)
      ensures chunk + POINTER_SIZE <= base && base + size <= chunk + (align - 1 + POINTER_SIZE + size)
      ensures blocks == old(blocks)[chunk := align - 1 + POINTER_SIZE + size]
      ensures words == old(words)[base - POINTER_SIZE := chunk]
    {
      AlignedBase(chunk, align, size);
      blocks := blocks[chunk := align - 1 + POINTER_SIZE + size];
      base := And(chunk + (align - 1 + POINTER_SIZE), TWO64 - align);
      words := words[base - POINTER_SIZE := chunk];
    }

    /** emutls_memalign_free: the block to free is named by the word before base. */
    method MemalignFree(base: nat)
      requires Valid() && base >= POINTER_SIZE
      requires base - POINTER_SIZE in words && words[base - POINTER_SIZE] in blocks
      modifies this`blocks
      ensures Valid()
      ensures blocks == old(blocks) - {words[base - POINTER_SIZE]}
    {
      blocks := blocks - {words[base - POINTER_SIZE]};
    }
  }

  // ------------------------------------------------------ one thread's slots

  /** Every nonzero slot is the address of an object inside a live chunk of its own,
      with the chunk's address in the word in front of the object. */
  ghost predicate Stored(slots: seq<nat>, sizes: map<nat, nat>, blocks: map<nat, nat>, words: map<nat, nat>) {
    && (forall i :: 0 <= i < |slots| && slots[i] != 0 ==> ObjectAt(slots[i], i, sizes, blocks, words))
    && (forall i, j :: 0 <= i < j < |slots| && slots[i] != 0 && slots[j] != 0 ==>
          words[slots[i] - POINTER_SIZE] != words[slots[j] - POINTER_SIZE])
  }

  ghost predicate ObjectAt(address: nat, i: nat, sizes: map<nat, nat>, blocks: map<nat, nat>, words: map<nat, nat>) {
    && address >= POINTER_SIZE && address - POINTER_SIZE in words && i in sizes
    && var chunk := words[address - POINTER_SIZE];
    && chunk in blocks
    && chunk + POINTER_SIZE <= address && address + sizes[i] <= chunk + blocks[chunk]
  }

  /** Carving a new object out of a fresh chunk disturbs no thread's slots. */
  lemma AllocationPreserves(slots: seq<nat>, sizes: map<nat, nat>, blocks: map<nat, nat>, words: map<nat, nat>,
                            chunk: nat, n: nat, base: nat)
    requires Stored(slots, sizes, blocks, words)
    requires ApartFromAll(chunk, n, blocks)
    requires chunk + POINTER_SIZE <= base <= chunk + n
    ensures Stored(slots, sizes, blocks[chunk := n], words[base - POINTER_SIZE := chunk])
    ensures forall i :: 0 <= i < |slots| && slots[i] != 0 ==>
      ObjectAt(slots[i], i, sizes, blocks, words) && slots[i] != base
      && words[slots[i] - POINTER_SIZE] != chunk
  {
    var blocks', words' := blocks[chunk := n], words[base - POINTER_SIZE := chunk];
    forall i | 0 <= i < |slots| && slots[i] != 0
      ensures slots[i] - POINTER_SIZE != base - POINTER_SIZE && ObjectAt(slots[i], i, sizes, blocks, words)
      ensures ObjectAt(slots[i], i, sizes, blocks', words')
      ensures words'[slots[i] - POINTER_SIZE] == words[slots[i] - POINTER_SIZE] != chunk
    {
      assert ObjectAt(slots[i], i, sizes, blocks, words);
      var p := words[slots[i] - POINTER_SIZE];
      assert Disjoint(p, blocks[p], chunk, n);
    }
  }

  /** Filling an empty slot with an object whose chunk no other slot uses. */
  lemma FillSlot(slots: seq<nat>, sizes: map<nat, nat>, blocks: map<nat, nat>, words: map<nat, nat>,
                 k: nat, base: nat, size: nat)
    requires Stored(slots, sizes, blocks, words) && k < |slots| && slots[k] == 0
    requires ObjectAt(base, k, sizes[k := size], blocks, words)
    requires forall i :: 0 <= i < |slots| && slots[i] != 0 ==>
      ObjectAt(slots[i], i, sizes, blocks, words) && words[slots[i] - POINTER_SIZE] != words[base - POINTER_SIZE]
    ensures Stored(slots[k := base], sizes[k := size], blocks, words)
  {
    var slots' := slots[k := base];
    forall i | 0 <= i < |slots'| && slots'[i] != 0
      ensures ObjectAt(slots'[i], i, sizes[k := size], blocks, words)
    {
      if i != k { assert ObjectAt(slots[i], i, sizes, blocks, words); }
    }
  }

  lemma IsPower(a: nat)
    requires a > 0
    ensures PowerOfTwo(a) <==> And(a, a - 1) == 0
  {}

  /** A new object in a fresh chunk fills an empty slot. */
  lemma NewObject(slots: seq<nat>, sizes: map<nat, nat>, blocks: map<nat, nat>, words: map<nat, nat>,
                  chunk: nat, n: nat, base: nat, k: nat, size: nat)
    requires Stored(slots, sizes, blocks, words) && k < |slots| && slots[k] == 0
    requires ApartFromAll(chunk, n, blocks)
    requires chunk + POINTER_SIZE <= base && base + size <= chunk + n
    ensures Stored(slots[k := base], sizes[k := size], blocks[chunk := n], words[base - POINTER_SIZE := chunk])
  {
    AllocationPreserves(slots, sizes, blocks, words, chunk, n, base);
    FillSlot(slots, sizes, blocks[chunk := n], words[base - POINTER_SIZE := chunk], k, base, size);
  }

  /** Growing the array keeps what is stored. */
  lemma GrowthKeepsStored(before: seq<nat>, after: seq<nat>,
                          sizes: map<nat, nat>, blocks: map<nat, nat>, words: map<nat, nat>)
    requires Stored(before, sizes, blocks, words) && before <= after
    requires forall i :: |before| <= i < |after| ==> after[i] == 0
    ensures Stored(after, sizes, blocks, words)
  {
    hide ObjectAt;
    forall i | 0 <= i < |after| && after[i] != 0
      ensures i < |before| && after[i] == before[i]
    {}
  }

  /** The slots with NULLs appended up to n of them. */
  function Grown(slots: seq<nat>, n: nat): seq<nat> {
    if |slots| >= n then slots else slots + seq(n - |slots|, _ => 0)
  }

  /** Making room fills no slot. */
  lemma RoomSlot(slots: seq<nat>, index: nat)
    requires 1 <= index < TWO64
    ensures index <= |WithRoom(slots, index)|
    ensures WithRoom(slots, index)[index - 1] == if Missing(slots, index) then 0 else slots[index - 1]
    ensures !Missing(slots, index) ==> WithRoom(slots, index) == slots
  {
    NewSizeFits(index);
  }

  function EffectiveAlign(align: nat): nat { if align < POINTER_SIZE then POINTER_SIZE else align }

  /** The length of the block malloc is asked for. */
  function ChunkSize(size: nat, align: nat): nat { EffectiveAlign(align) - 1 + POINTER_SIZE + size }

  /** A thread's slots with the sizes of its objects, and the allocator's state. */
  datatype Storage = Storage(slots: seq<nat>, sizes: map<nat, nat>, blocks: map<nat, nat>, words: map<nat, nat>)

  /** The array after emutls_get_address_array. */
  function WithRoom(slots: seq<nat>, index: nat): seq<nat> {
    if index <= |slots| then slots else Grown(slots, NewDataArraySize(index))
  }

  /** Nothing is stored for this index yet, so an object must be made. */
  predicate Missing(slots: seq<nat>, index: nat)
    requires index > 0
  {
    index > |slots| || slots[index - 1] == 0
  }

  /** What __emutls_get_address does. A stored address is returned and nothing changes
      but the room; else the new object lies in the block malloc returned, aligned,
      behind a word that holds the block's address, and its slot is filled. None is
      the abort on an alignment that is not a power of two. */
  ghost predicate Obtains(s: Storage, index: nat, size: nat, align: nat, chunk: nat, s': Storage, address: Option<nat>)
    requires index > 0
  {
    var room := WithRoom(s.slots, index);
    && index <= |room|
    && if !Missing(s.slots, index) then
         address == Some(s.slots[index - 1]) && s' == s
       else if !PowerOfTwo(EffectiveAlign(align)) then
         address == None && s' == s.(slots := room)
       else
         && address.Some?
         && var base := address.value;
         && Aligned(base, EffectiveAlign(align))
         && chunk + POINTER_SIZE <= base && base + size <= chunk + ChunkSize(size, align)
         && s' == Storage(room[index - 1 := base], s.sizes[index - 1 := size],
                          s.blocks[chunk := ChunkSize(size, align)], s.words[base - POINTER_SIZE := chunk])
  }

  /** A new object in terms of what the control asks for: at least pointer alignment,
      and a block of alignment - 1 + 8 + size bytes; the call aborts exactly on an
      alignment of 8 or more that is not a power of two. */
  lemma NewObjectMeets(s: Storage, index: nat, size: nat, align: nat, chunk: nat, s': Storage, address: Option<nat>)
    requires index > 0 && Missing(s.slots, index) && Obtains(s, index, size, align, chunk, s', address)
    ensures address.None? <==> align >= 8 && And(align, align - 1) != 0
    ensures address.None? ==> s'.blocks == s.blocks && s'.words == s.words
    ensures address.Some? ==>
      && address.value % 8 == 0
      && (align >= 8 ==> address.value % align == 0)
      && (align > 0 && And(align, align - 1) == 0 ==> address.value % align == 0)
      && s'.blocks == s.blocks[chunk := (if align < 8 then 8 else align) - 1 + 8 + size]
  {
    hide WithRoom, And;
    EightIsPower();
    if address.Some? {
      if align >= 8 {
        PowerOfEight(align);
        Multiple(address.value, align, 8);
      } else if align > 0 && And(align, align - 1) == 0 {
        SmallPower(align);
        Multiple(address.value, 8, align);
      }
    }
  }

  lemma EightIsPower()
    ensures And(8, 7) == 0
  {}

  /** A power of two below 8 divides 8, and one from 8 on is divided by it. */
  lemma SmallPower(a: nat)
    requires 0 < a < 8 && And(a, a - 1) == 0
    ensures 8 % a == 0
  {
    assert And(3, 2) == 2 && And(5, 4) == 4 && And(6, 5) == 4 && And(7, 6) == 6;
  }

  lemma PowerOfEight(a: nat)
    requires a >= 8 && PowerOfTwo(a)
    ensures a % 8 == 0
  {
    hide And, Pow2;
    PowerOfTwoTest(a);
    SmallPowers();
    var k := Ctz(a);
    Doubled(3);
    if k < 3 { Pow2Mono(k, 3); } else {
      Pow2Add(k - 3, 3);
      MulDiv(Pow2(k - 3), 8);
    }
  }

  lemma Multiple(x: nat, a: nat, b: nat)
    requires a > 0 && b > 0 && x % a == 0 && a % b == 0
    ensures x % b == 0
  {
    DivModOf(x, a);
    DivModOf(a, b);
    MulAssoc(x / a, a / b, b);
    MulDiv(x / a * (a / b), b);
  }

  /** A thread's emutls_address_array, null until the first use. */
  class ThreadStorage {
    var data: array?<nat>
    const heap: Heap
    ghost var sizes: map<nat, nat>

    constructor (heap: Heap)
      requires heap.Valid()
      ensures Valid() && this.heap == heap && Slots() == []
    {
      data := null;
      this.heap := heap;
      sizes := map[];
    }

    ghost function Slots(): seq<nat>
      reads this, data
    {
      if data == null then [] else data[..]
    }

    ghost predicate Valid()
      reads this, data, heap
    {
      && heap.Valid()
      && Stored(Slots(), sizes, heap.blocks, heap.words)
      && (data != null ==> (data.Length + 1) % 16 == 0)
    }

    ghost function View(): Storage
      reads this, data, heap
    {
      Storage(Slots(), sizes, heap.blocks, heap.words)
    }

    /** emutls_get_address_array: room for the index; what was stored stays stored,
        and every new slot is NULL. */
    method GetAddressArray(index: nat)
      requires Valid() && 1 <= index < INDEX_BOUND
      modifies this`data
      ensures Valid() && data != null && index <= data.Length
      ensures Slots() == WithRoom(old(Slots()), index)
      ensures data == old(data) || fresh(data)
    {
      hide And, ObjectAt;
      NewSizeFits(index);
      AsizeFits(index);
      hide NewDataArraySize;
      if data == null {
        var newSize := NewDataArraySize(index);
        var fresh' := new nat[newSize](_ => 0);
        data := fresh';
        assert Slots() == fresh'[..];
      } else if index > data.Length {
        var origSize := data.Length;
        var newSize := NewDataArraySize(index);
        ghost var before := Slots();
        var grown := new nat[newSize](_ => 0);
        forall i | 0 <= i < origSize { grown[i] := data[i]; }
        data := grown;
        assert Slots()[..origSize] == before;
        GrowthKeepsStored(before, Slots(), sizes, heap.blocks, heap.words);
      }
    }

    /** __emutls_get_address for a control with this index, size and alignment; chunk
        is what malloc returns if an object must be made. */
    method GetAddress(index: nat, size: nat, align: nat, chunk: nat) returns (address: Option<nat>)
      requires Valid() && 1 <= index < INDEX_BOUND
      requires Missing(Slots(), index) && PowerOfTwo(EffectiveAlign(align)) ==>
        CanAllocate(chunk, ChunkSize(size, align), heap.blocks)
      modifies this, data, heap
      ensures Valid() && (data == old(data) || fresh(data))
      ensures Obtains(old(View()), index, size, align, chunk, View(), address)
    {
      hide And, ObjectAt, Stored, Aligned, PowerOfTwo, ApartFromAll, Heap.Valid, Grown, NewDataArraySize;
      RoomSlot(Slots(), index);
      GetAddressArray(index);
      ghost var slots := Slots();
      var k := index - 1;
      if data[k] == 0 {
        var effective := if align < POINTER_SIZE then POINTER_SIZE else align;
        IsPower(effective);
        if And(effective, effective - 1) != 0 {
          return None;
        }
        ghost var blocks, words := heap.blocks, heap.words;
        var base := heap.MemalignAlloc(effective, size, chunk);
        NewObject(slots, sizes, blocks, words, chunk, effective - 1 + POINTER_SIZE + size, base, k, size);
        data[k] := base;
        sizes := sizes[k := size];
        assert Slots() == slots[k := base];
      }
      address := Some(data[k]);
    }

    /** emutls_shutdown: frees each chunk of this thread once, and nothing else. */
    method Shutdown()
      requires Valid()
      modifies heap`blocks
      ensures heap.Valid()
      ensures heap.blocks == old(heap.blocks) - ChunksOf(Slots(), heap.words)
    {
      hide ObjectAt;
      if data != null {
        var i := 0;
        while i < data.Length
          invariant 0 <= i <= data.Length
          invariant heap.Valid()
          invariant heap.blocks == old(heap.blocks) - ChunksOf(data[..i], heap.words)
        {
          ChunksStep(data[..], i, sizes, old(heap.blocks), heap.words);
          if data[i] != 0 {
            heap.MemalignFree(data[i]);
          }
          i := i + 1;
        }
        assert data[..i] == data[..];
      }
    }
  }

  /** The block an address was carved from, named by the word in front of it. */
  function ChunkOf(address: nat, words: map<nat, nat>): nat {
    if address >= POINTER_SIZE && address - POINTER_SIZE in words then words[address - POINTER_SIZE] else 0
  }

  /** The blocks that the objects of these slots live in. */
  ghost function ChunksOf(slots: seq<nat>, words: map<nat, nat>): set<nat> {
    set i | 0 <= i < |slots| && slots[i] != 0 :: ChunkOf(slots[i], words)
  }

  /** The chunk of slot i is live and belongs to none of the slots before it. */
  lemma ChunksStep(slots: seq<nat>, i: nat, sizes: map<nat, nat>, blocks: map<nat, nat>, words: map<nat, nat>)
    requires Stored(slots, sizes, blocks, words) && i < |slots|
    ensures ChunksOf(slots[..i + 1], words)
         == ChunksOf(slots[..i], words) + if slots[i] != 0 then {ChunkOf(slots[i], words)} else {}
    ensures slots[i] != 0 ==>
      (&& slots[i] >= POINTER_SIZE && slots[i] - POINTER_SIZE in words
       && words[slots[i] - POINTER_SIZE] in blocks && words[slots[i] - POINTER_SIZE] !in ChunksOf(slots[..i], words))
  {
    var before, after := slots[..i], slots[..i + 1];
    assert after == before + [slots[i]];
    forall c | c in ChunksOf(before, words) ensures c in ChunksOf(after, words) {
      var k :| 0 <= k < i && before[k] != 0 && c == ChunkOf(before[k], words);
      assert after[k] == before[k];
    }
    if slots[i] != 0 {
      assert after[i] == slots[i];
      assert ObjectAt(slots[i], i, sizes, blocks, words);
      forall k | 0 <= k < i && slots[k] != 0
        ensures ChunkOf(slots[k], words) != ChunkOf(slots[i], words)
      {
        assert ObjectAt(slots[k], k, sizes, blocks, words);
      }
    }
  }
}
