/**
 * The value layer of `blender::generational_arena::Arena`
 * (source/blender/blenlib/BLI_generational_arena.hh): the slot and index
 * types, the lookups, which are pure functions of the slot sequence, and the
 * invariant that ties the free list to the slots, with the facts about how
 * `reserve` and `try_insert` change the slots.
 */
module ArenaSlots {
  import opened CInt
  import opened Wrappers

  /** `Index`: a slot position and the generation it was handed out under.
      Its `get_raw()` is the pair of the two fields. */
  datatype Index = Index(index: nat, generation: nat)

  /** `Entry = std::variant<EntryNoExist, EntryExist>`. */
  datatype Entry<T> =
    | EntryNoExist(nextFree: Option<nat>)
    | EntryExist(value: T, generation: nat)

  /** The number of occupied slots. */
  function CountOccupied<T>(data: seq<Entry<T>>): nat
  {
    if data == [] then 0
    else CountOccupied(data[..|data| - 1]) + (if data[|data| - 1].EntryExist? then 1 else 0)
  }

  /** `get(index)`: the value stored under `index`, if its slot exists, is
      occupied and carries the index's generation. */
  function Get<T>(data: seq<Entry<T>>, index: Index): (r: Option<T>)
    ensures r.Some? <==>
      index.index < |data| && data[index.index].EntryExist? && data[index.index].generation == index.generation
    ensures r.Some? ==> r.value == data[index.index].value
  {
    if index.index >= |data| then None
    else match data[index.index]
      case EntryNoExist(_) => None
      case EntryExist(value, generation) =>
        if index.generation != generation then None else Some(value)
  }

  /** `get_no_gen(index)`: the slot at a position, if the position exists. */
  function GetNoGen<T>(data: seq<Entry<T>>, index: nat): (r: Option<Entry<T>>)
    ensures r.None? <==> index >= |data|
    ensures r.Some? ==> r.value == data[index]
  {
    if index >= |data| then None else Some(data[index])
  }

  /** `get_no_gen_index(index)`: the full `Index` of an occupied slot. */
  function GetNoGenIndex<T>(data: seq<Entry<T>>, index: nat): (r: Option<Index>)
    ensures r.Some? <==> index < |data| && data[index].EntryExist?
    ensures r.Some? ==> r.value == Index(index, data[index].generation)
  {
    if index >= |data| then None
    else match data[index]
      case EntryNoExist(_) => None
      case EntryExist(_, generation) => Some(Index(index, generation))
  }

  /** `get_no_gen_index` finds exactly the indices `get` accepts: completing a
      bare position to an `Index` and looking it up yields the slot's value,
      and every `Index` that `get` accepts is the one `get_no_gen_index`
      gives for its position. */
  lemma GetNoGenIndexMatchesGet<T>(data: seq<Entry<T>>, index: Index)
    ensures GetNoGenIndex(data, index.index).Some? ==>
      Get(data, GetNoGenIndex(data, index.index).value) == Some(data[index.index].value)
    ensures Get(data, index).Some? ==> GetNoGenIndex(data, index.index) == Some(index)
  {
  }

  lemma {:induction false} CountOccupiedAppend<T>(data: seq<Entry<T>>, extra: seq<Entry<T>>)
    ensures CountOccupied(data + extra) == CountOccupied(data) + CountOccupied(extra)
    decreases |extra|
  {
    if extra != [] {
      var last := extra[|extra| - 1];
      assert (data + extra)[..|data + extra| - 1] == data + extra[..|extra| - 1];
      CountOccupiedAppend(data, extra[..|extra| - 1]);
    } else {
      assert data + extra == data;
    }
  }

  lemma {:induction false} CountOccupiedAllFree<T>(extra: seq<Entry<T>>)
    requires forall k :: 0 <= k < |extra| ==> extra[k].EntryNoExist?
    ensures CountOccupied(extra) == 0
    decreases |extra|
  {
    if extra != [] {
      CountOccupiedAllFree(extra[..|extra| - 1]);
    }
  }

  /** Filling a free slot adds one occupied slot. */
  lemma CountOccupiedFill<T>(data: seq<Entry<T>>, i: nat, e: Entry<T>)
    requires i < |data| && data[i].EntryNoExist? && e.EntryExist?
    ensures CountOccupied(data[i := e]) == CountOccupied(data) + 1
  {
    var data' := data[i := e];
    assert data == data[..i] + [data[i]] + data[i + 1..];
    assert data' == data[..i] + [e] + data[i + 1..];
    CountOccupiedAppend(data[..i] + [data[i]], data[i + 1..]);
    CountOccupiedAppend(data[..i], [data[i]]);
    CountOccupiedAppend(data[..i] + [e], data[i + 1..]);
    CountOccupiedAppend(data[..i], [e]);
    assert CountOccupied([data[i]]) == 0 by {
      assert [data[i]][..0] == [];
    }
    assert CountOccupied([e]) == 1 by {
      assert [e][..0] == [];
    }
  }

  /** The free list threads through in-range free slots, each naming the
      next; the last names none. */
  ghost predicate FreeChain<T>(data: seq<Entry<T>>, free: seq<nat>)
  {
    && (forall k :: 0 <= k < |free| ==> free[k] < |data|)
    && (forall k {:trigger data[free[k]]} :: 0 <= k < |free| ==> data[free[k]] == EntryNoExist(NextOf(free, k)))
  }

  /** The free-list entry after position `k`, if any. */
  function NextOf(free: seq<nat>, k: nat): Option<nat>
  {
    if k + 1 < |free| then Some(free[k + 1]) else None
  }

  /** The free list visits no slot twice, so following it ends. */
  ghost predicate Distinct(free: seq<nat>)
  {
    forall k, l :: 0 <= k < l < |free| ==> free[k] != free[l]
  }

  /** Every free slot is on the free list. */
  ghost predicate ReachesAllFree<T>(data: seq<Entry<T>>, free: seq<nat>)
  {
    forall i :: 0 <= i < |data| && data[i].EntryNoExist? ==> i in free
  }

  /** No occupied slot carries a generation beyond the arena's. */
  ghost predicate GenerationsBounded<T>(data: seq<Entry<T>>, generation: nat)
  {
    forall i :: 0 <= i < |data| && data[i].EntryExist? ==> data[i].generation <= generation
  }

  /** The arena's invariant over its parts: the free list starts at `head`
      and is a chain, without repetition, through exactly the free slots;
      `length` counts the occupied slots. */
  ghost predicate SlotsValid<T>(data: seq<Entry<T>>, free: seq<nat>, head: Option<nat>,
                                generation: nat, length: nat)
  {
    && head == (if free == [] then None else Some(free[0]))
    && FreeChain(data, free)
    && Distinct(free)
    && ReachesAllFree(data, free)
    && GenerationsBounded(data, generation)
    && length == CountOccupied(data)
  }

  /** `newData` is `oldData` followed by the slots `reserve` appends: each
      naming the next, the last naming the old free-list head. */
  ghost predicate IsGrowth<T>(oldData: seq<Entry<T>>, newData: seq<Entry<T>>, oldHead: Option<nat>)
  {
    && |oldData| < |newData|
    && newData[..|oldData|] == oldData
    && (forall j :: |oldData| <= j < |newData| - 1 ==> newData[j] == EntryNoExist(Some(j + 1)))
    && newData[|newData| - 1] == EntryNoExist(oldHead)
  }

  /** The first `count` slots `reserve` appends at `start`, each naming the
      next. */
  function Links<T>(start: nat, count: nat): (r: seq<Entry<T>>)
    ensures |r| == count
    ensures forall k :: 0 <= k < count ==> r[k] == EntryNoExist(Some(start + k + 1))
  {
    seq(count, k requires 0 <= k < count => EntryNoExist(Some(start + k + 1)))
  }

  lemma LinksSnoc<T>(start: nat, count: nat)
    ensures Links<T>(start, count + 1) == Links<T>(start, count) + [EntryNoExist(Some(start + count + 1))]
  {
  }

  lemma LinksGrowth<T>(data: seq<Entry<T>>, count: nat, head: Option<nat>)
    ensures IsGrowth(data, data + Links(|data|, count) + [EntryNoExist(head)], head)
  {
    var newData := data + Links(|data|, count) + [EntryNoExist(head)];
    assert newData[..|data|] == data;
    forall j | |data| <= j < |newData| - 1
      ensures newData[j] == EntryNoExist(Some(j + 1))
    {
      assert newData[j] == Links<T>(|data|, count)[j - |data|];
    }
  }

  /** The positions `start .. start + count - 1` in order. */
  function Span(start: nat, count: nat): (r: seq<nat>)
    ensures |r| == count
    ensures forall k :: 0 <= k < count ==> r[k] == start + k
  {
    seq(count, k requires 0 <= k < count => start + k)
  }

  lemma GrowthChain<T>(oldData: seq<Entry<T>>, newData: seq<Entry<T>>, free: seq<nat>)
    requires FreeChain(oldData, free)
    requires IsGrowth(oldData, newData, if free == [] then None else Some(free[0]))
    ensures FreeChain(newData, Span(|oldData|, |newData| - |oldData|) + free)
  {
    var start := |oldData|;
    var added := Span(start, |newData| - start);
    var f := added + free;
    forall k | 0 <= k < |f|
      ensures f[k] < |newData| && newData[f[k]] == EntryNoExist(NextOf(f, k))
    {
      if k < |added| {
        assert f[k] == start + k;
        if k + 1 < |added| {
          assert NextOf(f, k) == Some(start + k + 1);
          assert newData[start + k] == EntryNoExist(Some(start + k + 1));
        } else {
          assert NextOf(f, k) == (if free == [] then None else Some(free[0]));
          assert start + k == |newData| - 1;
        }
      } else {
        var m := k - |added|;
        assert f[k] == free[m];
        assert newData[..start][free[m]] == oldData[free[m]];
        assert oldData[free[m]] == EntryNoExist(NextOf(free, m));
        assert NextOf(f, k) == NextOf(free, m);
      }
    }
    assert FreeChain(newData, f);
  }

  lemma GrowthDistinct(start: nat, count: nat, free: seq<nat>)
    requires Distinct(free)
    requires forall k :: 0 <= k < |free| ==> free[k] < start
    ensures Distinct(Span(start, count) + free)
  {
    var added := Span(start, count);
    var f := added + free;
    forall k, l | 0 <= k < l < |f|
      ensures f[k] != f[l]
    {
      if l >= |added| && k < |added| {
        assert f[l] == free[l - |added|] < start <= f[k];
      } else if k >= |added| {
        assert f[k] == free[k - |added|] && f[l] == free[l - |added|];
      }
    }
  }

  lemma GrowthReachesAllFree<T>(oldData: seq<Entry<T>>, newData: seq<Entry<T>>, free: seq<nat>)
    requires ReachesAllFree(oldData, free)
    requires |oldData| < |newData| && newData[..|oldData|] == oldData
    ensures ReachesAllFree(newData, Span(|oldData|, |newData| - |oldData|) + free)
  {
    var start := |oldData|;
    var f := Span(start, |newData| - start) + free;
    forall i | 0 <= i < |newData| && newData[i].EntryNoExist?
      ensures i in f
    {
      if i < start {
        assert newData[..start][i] == oldData[i];
        assert i in free;
        var k :| 0 <= k < |free| && free[k] == i;
        assert f[k + |newData| - start] == i;
      } else {
        assert f[i - start] == i;
      }
    }
  }

  lemma GrowthCount<T>(oldData: seq<Entry<T>>, newData: seq<Entry<T>>, head: Option<nat>, generation: nat)
    requires IsGrowth(oldData, newData, head)
    requires GenerationsBounded(oldData, generation)
    ensures CountOccupied(newData) == CountOccupied(oldData)
    ensures GenerationsBounded(newData, generation)
  {
    var start := |oldData|;
    var tail := newData[start..];
    assert newData == oldData + tail;
    forall k | 0 <= k < |tail|
      ensures tail[k].EntryNoExist?
    {
      assert tail[k] == newData[start + k];
    }
    CountOccupiedAppend(oldData, tail);
    CountOccupiedAllFree(tail);
    forall i | 0 <= i < |newData| && newData[i].EntryExist?
      ensures newData[i].generation <= generation
    {
      assert i < start;
      assert newData[..start][i] == oldData[i];
    }
  }

  /** The slots after `reserve(newCap)`: unchanged when `newCap` is below
      the size, otherwise the old slots followed by `max(newCap, size + 1) -
      size` free slots, each naming the next and the last naming `head`. */
  function Grown<T>(data: seq<Entry<T>>, head: Option<nat>, newCap: nat): seq<Entry<T>>
  {
    if newCap < |data| then data
    else data + Links(|data|, Max(newCap, |data| + 1) - |data| - 1) + [EntryNoExist(head)]
  }

  /** `reserve` never loses or changes a slot, and grows the arena to
      `max(newCap, size + 1)` slots exactly when `newCap` is not below the
      size. */
  lemma GrownShape<T>(data: seq<Entry<T>>, head: Option<nat>, newCap: nat)
    ensures newCap < |data| ==> Grown(data, head, newCap) == data
    ensures newCap >= |data| ==>
      |Grown(data, head, newCap)| == Max(newCap, |data| + 1) && IsGrowth(data, Grown(data, head, newCap), head)
  {
    if newCap >= |data| {
      LinksGrowth(data, Max(newCap, |data| + 1) - |data| - 1, head);
    }
  }

  /** Growing the slot vector as `reserve` does keeps the invariant, with the
      new slots, in order, in front of the old free list. */
  lemma GrowthKeepsInvariant<T>(oldData: seq<Entry<T>>, newData: seq<Entry<T>>, free: seq<nat>,
                                head: Option<nat>, generation: nat, length: nat)
    requires SlotsValid(oldData, free, head, generation, length)
    requires IsGrowth(oldData, newData, head)
    ensures SlotsValid(newData, Span(|oldData|, |newData| - |oldData|) + free, Some(|oldData|),
                       generation, length)
  {
    GrowthChain(oldData, newData, free);
    GrowthDistinct(|oldData|, |newData| - |oldData|, free);
    GrowthReachesAllFree(oldData, newData, free);
    GrowthCount(oldData, newData, head, generation);
  }

  /** `reserve(newCap)` with `newCap` not below the size keeps the invariant. */
  lemma ReserveKeepsInvariant<T>(data: seq<Entry<T>>, free: seq<nat>, head: Option<nat>,
                                 generation: nat, length: nat, newCap: nat)
    requires SlotsValid(data, free, head, generation, length)
    requires newCap >= |data|
    ensures SlotsValid(Grown(data, head, newCap),
                       Span(|data|, |Grown(data, head, newCap)| - |data|) + free, Some(|data|),
                       generation, length)
  {
    GrownShape(data, head, newCap);
    GrowthKeepsInvariant(data, Grown(data, head, newCap), free, head, generation, length);
  }

  lemma FillChain<T>(data: seq<Entry<T>>, free: seq<nat>, e: Entry<T>)
    requires FreeChain(data, free) && Distinct(free) && free != []
    ensures FreeChain(data[free[0] := e], free[1..])
  {
    var data' := data[free[0] := e];
    var free' := free[1..];
    forall k | 0 <= k < |free'|
      ensures free'[k] < |data'| && data'[free'[k]] == EntryNoExist(NextOf(free', k))
    {
      assert free'[k] == free[k + 1] != free[0];
      assert data'[free'[k]] == data[free[k + 1]];
      assert data[free[k + 1]] == EntryNoExist(NextOf(free, k + 1));
      assert NextOf(free', k) == NextOf(free, k + 1);
    }
    assert FreeChain(data', free');
  }

  lemma FillDistinct(free: seq<nat>)
    requires Distinct(free) && free != []
    ensures Distinct(free[1..])
  {
    var free' := free[1..];
    forall k, l | 0 <= k < l < |free'|
      ensures free'[k] != free'[l]
    {
      assert free'[k] == free[k + 1] && free'[l] == free[l + 1];
    }
  }

  lemma FillReachesAllFree<T>(data: seq<Entry<T>>, free: seq<nat>, e: Entry<T>)
    requires ReachesAllFree(data, free) && free != [] && free[0] < |data| && e.EntryExist?
    ensures ReachesAllFree(data[free[0] := e], free[1..])
  {
    var data' := data[free[0] := e];
    var free' := free[1..];
    forall i | 0 <= i < |data'| && data'[i].EntryNoExist?
      ensures i in free'
    {
      assert i != free[0] && data[i] == data'[i];
      var k :| 0 <= k < |free| && free[k] == i;
      assert k > 0;
      assert free'[k - 1] == i;
    }
  }

  /** Filling the slot at the head of the free list, as `try_insert` does,
      keeps the invariant with that slot taken off the list and one more
      occupied slot. */
  lemma FillKeepsInvariant<T>(data: seq<Entry<T>>, free: seq<nat>, head: Option<nat>,
                              generation: nat, length: nat, value: T)
    requires SlotsValid(data, free, head, generation, length)
    requires head.Some?
    ensures free != [] && free[0] == head.value
    ensures head.value < |data| && data[head.value].EntryNoExist?
    ensures SlotsValid(data[head.value := EntryExist(value, generation)], free[1..],
                       data[head.value].nextFree, generation, length + 1)
  {
    var loc := head.value;
    var e := EntryExist(value, generation);
    assert free != [] && free[0] == loc;
    assert loc < |data| && data[loc] == EntryNoExist(NextOf(free, 0));
    FillChain(data, free, e);
    FillDistinct(free);
    FillReachesAllFree(data, free, e);
    CountOccupiedFill(data, loc, e);
    assert GenerationsBounded(data[loc := e], generation);
  }

  /** Reserving in an empty arena yields `max(size, 1)` slots, all free. */
  lemma GrownFromEmpty<T>(size: nat)
    ensures |Grown<T>([], None, size)| == Max(size, 1)
    ensures forall i :: 0 <= i < |Grown<T>([], None, size)| ==> Grown<T>([], None, size)[i].EntryNoExist?
  {
    var g := Grown<T>([], None, size);
    GrownShape<T>([], None, size);
    forall i | 0 <= i < |g|
      ensures g[i].EntryNoExist?
    {
      if i < |g| - 1 {
        assert g[i] == EntryNoExist(Some(i + 1));
      }
    }
  }

  /** Growing the slot vector leaves every lookup that succeeded unchanged. */
  lemma GetStableUnderGrowth<T>(data: seq<Entry<T>>, head: Option<nat>, newCap: nat)
    ensures forall ix: Index :: Get(data, ix).Some? ==> Get(Grown(data, head, newCap), ix) == Get(data, ix)
  {
    GrownShape(data, head, newCap);
    forall ix: Index | Get(data, ix).Some?
      ensures Get(Grown(data, head, newCap), ix) == Get(data, ix)
    {
      if newCap >= |data| {
        assert Grown(data, head, newCap)[..|data|][ix.index] == data[ix.index];
      }
    }
  }

  /** Filling a free slot leaves every lookup that succeeded unchanged. */
  lemma GetStableUnderFill<T>(data: seq<Entry<T>>, i: nat, e: Entry<T>)
    requires i < |data| && data[i].EntryNoExist?
    ensures forall ix: Index :: Get(data, ix).Some? ==> Get(data[i := e], ix) == Get(data, ix)
  {
  }

  /** Under the invariant the free list is empty exactly when every slot is
      occupied, so `try_insert` fails only on a full arena. */
  lemma NoFreeHeadIffFull<T>(data: seq<Entry<T>>, free: seq<nat>, head: Option<nat>,
                             generation: nat, length: nat)
    requires SlotsValid(data, free, head, generation, length)
    ensures head.None? <==> forall i :: 0 <= i < |data| ==> data[i].EntryExist?
  {
    if head.Some? {
      assert data[free[0]].EntryNoExist?;
    } else {
      assert free == [];
    }
  }
}
