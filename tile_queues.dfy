/**
 * The per-device tile queues of the scheduler's tile layer
 * (`state.render_tiles` and `state.denoising_tiles` in
 * intern/cycles/render/tile.cpp, one list of tile indices per device): which
 * queue `next_tile` takes from, and what the loops that fill the queues leave
 * in each queue.
 */
module TileQueues {
  import opened Wrappers
  import opened Tiles

  /** Every tile of `tiles` names a device below `count`. */
  predicate DevicesBelow(tiles: seq<Tile>, count: nat)
  {
    forall j :: 0 <= j < |tiles| ==> tiles[j].device < count
  }

  /** Every queued index names a tile below `count`. */
  predicate QueuedBelow(queues: seq<seq<nat>>, count: nat)
  {
    forall i, k :: 0 <= i < |queues| && 0 <= k < |queues[i]| ==> queues[i][k] < count
  }

  /** Two tile sequences of the same length whose tiles belong to the same devices. */
  predicate SameDevices(t1: seq<Tile>, t2: seq<Tile>)
  {
    |t1| == |t2| && forall j :: 0 <= j < |t1| ==> t1[j].device == t2[j].device
  }

  /** Two tile sequences that differ at most in the tiles' states and buffers. */
  predicate SameSlots(t1: seq<Tile>, t2: seq<Tile>)
  {
    && SameDevices(t1, t2)
    && forall j :: 0 <= j < |t1| ==> t1[j].index == t2[j].index
  }

  /** Tile `i` of `state.tiles` is the tile with index `i`. */
  predicate IndexedInPlace(tiles: seq<Tile>)
  {
    forall i :: 0 <= i < |tiles| ==> tiles[i].index == i
  }

  /** What holds of the tiles and both kinds of queues between operations:
      tiles sit at their own index, belong to a device that has queues, and
      queues hold only tile positions. */
  predicate TilesValid(tiles: seq<Tile>, renderTiles: seq<seq<nat>>, denoisingTiles: seq<seq<nat>>)
  {
    && IndexedInPlace(tiles)
    && DevicesBelow(tiles, |renderTiles|) && DevicesBelow(tiles, |denoisingTiles|)
    && QueuedBelow(renderTiles, |tiles|) && QueuedBelow(denoisingTiles, |tiles|)
  }

  /** Changing only states and buffers keeps the invariant. */
  lemma SameSlotsKeepValid(t1: seq<Tile>, t2: seq<Tile>, renderTiles: seq<seq<nat>>, denoisingTiles: seq<seq<nat>>)
    requires TilesValid(t1, renderTiles, denoisingTiles) && SameSlots(t1, t2)
    ensures TilesValid(t2, renderTiles, denoisingTiles)
  {
  }

  /** The first non-empty queue at or after `from`. */
  function FirstNonEmpty(queues: seq<seq<nat>>, from: nat): (r: Option<nat>)
    ensures r.Some? ==> from <= r.value < |queues| && queues[r.value] != []
    ensures r.Some? ==> forall i :: from <= i < r.value ==> queues[i] == []
    ensures r.None? <==> forall i :: from <= i < |queues| ==> queues[i] == []
    decreases |queues| - from
  {
    if from >= |queues| then None
    else if queues[from] != [] then Some(from)
    else FirstNonEmpty(queues, from + 1)
  }

  /** The queue `next_tile` takes a tile from. With the device preserved, only
      the device's own queue is looked at; otherwise the first non-empty
      queue, so that no earlier queue holds a tile. */
  function PickQueue(queues: seq<seq<nat>>, device: nat, preserve: bool): (r: Option<nat>)
    ensures r.Some? ==> r.value < |queues| && queues[r.value] != []
    ensures preserve ==> (r.Some? <==> device < |queues| && queues[device] != [])
    ensures preserve && r.Some? ==> r.value == device
    ensures !preserve ==> (r.None? <==> forall i :: 0 <= i < |queues| ==> queues[i] == [])
    ensures !preserve && r.Some? ==> forall i :: 0 <= i < r.value ==> queues[i] == []
  {
    if preserve then (if device < |queues| && queues[device] != [] then Some(device) else None)
    else FirstNonEmpty(queues, 0)
  }

  /** The loop shared by both halves of `next_tile`: starting at the device's
      queue when the device is preserved and at the first queue otherwise,
      skip empty queues (unless preserving) and take the front of the first
      non-empty one. */
  method PopFront(queues: seq<seq<nat>>, device: nat, preserve: bool)
    returns (r: Option<nat>, rest: seq<seq<nat>>)
    ensures var q := PickQueue(queues, device, preserve);
      && (q.None? ==> r.None? && rest == queues)
      && (q.Some? ==> r == Some(queues[q.value][0]) && rest == queues[q.value := queues[q.value][1..]])
  {
    r, rest := None, queues;
    var logical := if preserve then device else 0;
    while logical < |queues|
      invariant preserve ==> logical == device
      invariant !preserve ==> forall i :: 0 <= i < logical && i < |queues| ==> queues[i] == []
      decreases |queues| - logical
    {
      if queues[logical] == [] {
        if preserve {
          break;
        }
        logical := logical + 1;
        continue;
      }
      r := Some(queues[logical][0]);
      rest := queues[logical := queues[logical][1..]];
      break;
    }
  }

  /** Every queued tile index, queue after queue. */
  function Flatten(queues: seq<seq<nat>>): seq<nat>
  {
    if queues == [] then [] else queues[0] + Flatten(queues[1..])
  }

  /** Replacing one queue changes the queued indices by exactly the difference
      between the old and the new queue. */
  lemma {:induction false} FlattenUpdate(queues: seq<seq<nat>>, i: nat, s: seq<nat>)
    requires i < |queues|
    ensures multiset(Flatten(queues[i := s])) + multiset(queues[i]) == multiset(Flatten(queues)) + multiset(s)
    decreases i
  {
    var a, b := multiset(queues[i]), multiset(s);
    if i == 0 {
      assert queues[i := s][1..] == queues[1..];
      var c := multiset(Flatten(queues[1..]));
      assert Flatten(queues[i := s]) == s + Flatten(queues[1..]);
      assert multiset(Flatten(queues[i := s])) == b + c;
      assert multiset(Flatten(queues)) == a + c;
      assert b + c + a == a + c + b;
    } else {
      assert queues[i := s][1..] == queues[1..][i - 1 := s];
      FlattenUpdate(queues[1..], i - 1, s);
      assert queues[i] == queues[1..][i - 1];
      var h := multiset(queues[0]);
      var u, v := multiset(Flatten(queues[1..][i - 1 := s])), multiset(Flatten(queues[1..]));
      assert u + a == v + b;
      assert Flatten(queues[i := s]) == queues[0] + Flatten(queues[1..][i - 1 := s]);
      assert multiset(Flatten(queues[i := s])) == h + u;
      assert multiset(Flatten(queues)) == h + v;
      assert h + u + a == h + (u + a) == h + (v + b) == h + v + b;
    }
  }

  /** Taking the front of a queue hands out exactly one queued index: what is
      left queued is what was queued, less that one index. */
  lemma PopHandsOutOne(queues: seq<seq<nat>>, device: nat, preserve: bool)
    requires PickQueue(queues, device, preserve).Some?
    ensures var i := PickQueue(queues, device, preserve).value;
      multiset(Flatten(queues[i := queues[i][1..]])) + multiset{queues[i][0]} == multiset(Flatten(queues))
  {
    var i := PickQueue(queues, device, preserve).value;
    FlattenUpdate(queues, i, queues[i][1..]);
    assert queues[i] == [queues[i][0]] + queues[i][1..];
    var m, x, r := multiset(Flatten(queues[i := queues[i][1..]])), multiset{queues[i][0]}, multiset(queues[i][1..]);
    assert multiset(queues[i]) == x + r;
    assert m + (x + r) == multiset(Flatten(queues)) + r;
    assert m + x + r == m + (x + r);
    forall e
      ensures (m + x)[e] == multiset(Flatten(queues))[e]
    {
      assert (m + x + r)[e] == (multiset(Flatten(queues)) + r)[e];
    }
  }

  /** The indices of `ns` whose tile belongs to `dev`, in the order of `ns`. */
  function OnDevice(tiles: seq<Tile>, ns: seq<nat>, dev: nat): (r: seq<nat>)
    requires forall k :: 0 <= k < |ns| ==> ns[k] < |tiles|
    ensures forall n :: n in r <==> n in ns && tiles[n].device == dev
  {
    if ns == [] then []
    else (if tiles[ns[0]].device == dev then [ns[0]] else []) + OnDevice(tiles, ns[1..], dev)
  }

  lemma {:induction false} OnDeviceAppend(tiles: seq<Tile>, a: seq<nat>, b: seq<nat>, dev: nat)
    requires forall k :: 0 <= k < |a| ==> a[k] < |tiles|
    requires forall k :: 0 <= k < |b| ==> b[k] < |tiles|
    ensures OnDevice(tiles, a + b, dev) == OnDevice(tiles, a, dev) + OnDevice(tiles, b, dev)
    decreases |a|
  {
    if a != [] {
      assert (a + b)[1..] == a[1..] + b;
      OnDeviceAppend(tiles, a[1..], b, dev);
    } else {
      assert a + b == b;
    }
  }

  /** Only the devices of the tiles matter. */
  lemma {:induction false} OnDeviceSameDevices(t1: seq<Tile>, t2: seq<Tile>, ns: seq<nat>, dev: nat)
    requires SameDevices(t1, t2)
    requires forall k :: 0 <= k < |ns| ==> ns[k] < |t1|
    ensures OnDevice(t1, ns, dev) == OnDevice(t2, ns, dev)
    decreases |ns|
  {
    if ns != [] {
      OnDeviceSameDevices(t1, t2, ns[1..], dev);
    }
  }

  /** The `index` fields of the tiles of `dev`, in the order of `tiles`. */
  function IndicesOnDevice(tiles: seq<Tile>, dev: nat): (r: seq<nat>)
    ensures forall j :: 0 <= j < |tiles| && tiles[j].device == dev ==> tiles[j].index in r
    ensures forall n :: n in r ==> exists j :: 0 <= j < |tiles| && tiles[j].device == dev && tiles[j].index == n
  {
    if tiles == [] then []
    else
      var last := tiles[|tiles| - 1];
      IndicesOnDevice(tiles[..|tiles| - 1], dev) + (if last.device == dev then [last.index] else [])
  }

  /** Taking the front of a queue leaves every queued index below the bound it was below. */
  lemma PopKeepsBound(queues: seq<seq<nat>>, device: nat, preserve: bool, count: nat)
    requires QueuedBelow(queues, count) && PickQueue(queues, device, preserve).Some?
    ensures var i := PickQueue(queues, device, preserve).value;
      QueuedBelow(queues[i := queues[i][1..]], count) && queues[i][0] < count
  {
  }
}
