/**
 * `blender::generational_arena::Arena`
 * (source/blender/blenlib/BLI_generational_arena.hh): a growable vector of
 * slots, each either free or occupied, with a free list threaded through the
 * free slots. `reserve` and the insertions update the arena in place.
 */
module GenerationalArena {
  import opened CInt
  import opened Wrappers
  import opened ArenaSlots

  /** What `reserve`'s loop bound does as written, in `uint64_t` arithmetic:
      the number of slots it appends. With `new_cap == 0` (only reachable on
      an empty arena) `new_cap - 1` wraps around. */
  function AsWrittenReserveAppendCount(newCap: nat, size: nat): nat
    requires newCap < U64_MODULUS && size < U64_MODULUS
  {
    if newCap < size then 0
    else
      var bound := (newCap - 1) % U64_MODULUS;
      (if bound > size then bound - size else 0) + 1
  }

  /** For every capacity other than 0 the loop as written appends what the
      corrected `Arena.Reserve` appends. */
  lemma AsWrittenReserveAgreesForPositiveCapacity(newCap: nat, size: nat)
    requires 0 < newCap < U64_MODULUS && size <= newCap
    ensures AsWrittenReserveAppendCount(newCap, size) == Max(newCap, size + 1) - size
  {
  }

  /** `reserve(0)` on an empty arena, which the source reaches in two ways:
      `Arena(0)` reserves its size, and `insert` on an empty arena reserves
      `data.size() * 2`. Either way the loop as written would append 2^64
      slots instead of one. */
  lemma AsWrittenReserveZeroOnEmptyArenaWraps()
    ensures AsWrittenReserveAppendCount(0, 0) == U64_MODULUS
  {
  }

  /** The loop of `reserve`: the free slots appended at positions `start` up
      to `newCap - 2`, each naming the next (none when `newCap <= start + 1`). */
  method ChainedSlots<T>(start: nat, newCap: nat) returns (links: seq<Entry<T>>)
    ensures links == Links(start, Max(newCap, start + 1) - start - 1)
  {
    links := [];
    var i := start;
    while i + 1 < newCap
      invariant start <= i && (i < newCap || i == start)
      invariant links == Links(start, i - start)
    {
      LinksSnoc<T>(start, i - start);
      links := links + [EntryNoExist(Some(i + 1))];
      i := i + 1;
    }
  }

  class Arena<T> {
    var data: seq<Entry<T>>
    var nextFreeHead: Option<nat>
    var generation: nat
    var length: nat
    /** The free list, from `next_free_head` on. */
    ghost var free: seq<nat>

    ghost predicate Valid()
      reads this
    {
      SlotsValid(data, free, nextFreeHead, generation, length)
    }

    /** `Arena()`. The source leaves `generation` and `length` to their
        default initialisation; they start at 0 here. */
    constructor ()
      ensures Valid()
      ensures data == [] && nextFreeHead == None && generation == 0 && length == 0
    {
      data := [];
      nextFreeHead := None;
      generation := 0;
      length := 0;
      free := [];
    }

    /** `Arena(size)`: reserves `size` slots on an empty arena. With the
        corrected `Reserve` that is `max(size, 1)` free slots; for `size == 0`
        the source's loop wraps around instead (see
        `AsWrittenReserveZeroOnEmptyArenaWraps`). */
    constructor WithCapacity(size: nat)
      ensures Valid()
      ensures |data| == Max(size, 1) && nextFreeHead == Some(0) && generation == 0 && length == 0
      ensures forall i :: 0 <= i < |data| ==> data[i].EntryNoExist?
    {
      data := [];
      nextFreeHead := None;
      generation := 0;
      length := 0;
      free := [];
      new;
      GrownFromEmpty<T>(size);
      Reserve(size);
    }

    /** `reserve(new_cap)`: grows the slot vector to at least `new_cap` slots
        (and always by at least one), chaining the new slots in order in front
        of the old free list. A capacity below the current size changes
        nothing. The loop bound is kept free of the `new_cap - 1` wrap-around
        of the source (see `AsWrittenReserveAppendCount`). */
    method Reserve(newCap: nat)
      requires Valid()
      modifies this`data, this`nextFreeHead, this`free
      ensures Valid()
      ensures data == Grown(old(data), old(nextFreeHead), newCap)
      ensures nextFreeHead == (if newCap < old(|data|) then old(nextFreeHead) else Some(old(|data|)))
      ensures free == (if newCap < old(|data|) then old(free) else Span(old(|data|), |data| - old(|data|)) + old(free))
      ensures newCap >= old(|data|) ==> |data| == Max(newCap, old(|data|) + 1)
      ensures forall ix: Index :: Get(old(data), ix).Some? ==> Get(data, ix) == Get(old(data), ix)
    {
      if newCap < |data| {
        return;
      }
      var oldNextFreeHead := nextFreeHead;
      var start := |data|;
      var links := ChainedSlots(start, newCap);
      var slots := data + links + [EntryNoExist(oldNextFreeHead)];
      assert slots == Grown(data, nextFreeHead, newCap);
      GrownShape(data, nextFreeHead, newCap);
      GetStableUnderGrowth(data, nextFreeHead, newCap);
      ReserveKeepsInvariant(data, free, nextFreeHead, generation, length, newCap);
      free := Span(start, |slots| - start) + free;
      data := slots;
      nextFreeHead := Some(start);
    }

    /** `try_insert(value)`: fills the slot at the head of the free list with
        the value under the current generation, or reports that no slot is
        free. */
    method TryInsert(value: T) returns (r: Option<Index>)
      requires Valid()
      modifies this`data, this`nextFreeHead, this`length, this`free
      ensures Valid()
      ensures r.None? <==> forall i :: 0 <= i < old(|data|) ==> old(data[i]).EntryExist?
      ensures old(nextFreeHead).None? ==>
        r == None && data == old(data) && nextFreeHead == old(nextFreeHead) && length == old(length)
      ensures old(nextFreeHead).Some? ==>
        var loc := old(nextFreeHead).value;
        && loc < old(|data|)
        && old(data[loc]).EntryNoExist?
        && r == Some(Index(loc, generation))
        && data == old(data)[loc := EntryExist(value, generation)]
        && nextFreeHead == old(data[loc]).nextFree
        && length == old(length) + 1
        && Get(data, r.value) == Some(value)
      ensures forall ix: Index :: Get(old(data), ix).Some? ==> Get(data, ix) == Get(old(data), ix)
    {
      NoFreeHeadIffFull(data, free, nextFreeHead, generation, length);
      if nextFreeHead.Some? {
        var loc := nextFreeHead.value;
        FillKeepsInvariant(data, free, nextFreeHead, generation, length, value);
        GetStableUnderFill(data, loc, EntryExist(value, generation));
        match data[loc] {
          case EntryNoExist(next) =>
            nextFreeHead := next;
            data := data[loc := EntryExist(value, generation)];
          case EntryExist(_, _) =>
            // the free list is corrupted; the invariant rules this out
            assert false;
        }
        length := length + 1;
        free := free[1..];
        return Some(Index(loc, generation));
      }
      return None;
    }

    /** `insert(value)`: fills a free slot, first growing the arena to twice
        its size (and by at least one slot) if none is free. It always
        succeeds: the returned index looks up the inserted value, the
        occupied count grows by one, and every index that looked up a value
        before still looks up the same value. */
    method Insert(value: T) returns (index: Index)
      requires Valid()
      modifies this`data, this`nextFreeHead, this`length, this`free
      ensures Valid()
      ensures Get(data, index) == Some(value)
      ensures index.generation == generation
      ensures length == old(length) + 1
      ensures forall ix: Index :: Get(old(data), ix).Some? ==> Get(data, ix) == Get(old(data), ix)
      ensures old(nextFreeHead).Some? ==> |data| == old(|data|) && index.index == old(nextFreeHead).value
      ensures old(nextFreeHead).None? ==> |data| == Max(2 * old(|data|), old(|data|) + 1)
    {
      var r := TryInsert(value);
      if r.None? {
        Reserve(|data| * 2);
        r := TryInsert(value);
      }
      index := r.value;
    }
  }
}
