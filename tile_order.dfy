/**
 * `TileComparator` of intern/cycles/render/tile.cpp (compiled out): the order
 * in which `gen_tiles` sorts a device's render queue, and the stable sort
 * (`std::list::sort`) it sorts with. The comparator is shown to compare a key
 * of each tile lexicographically, so it is a strict weak order, as the sort
 * requires.
 */
module TileOrdering {
  import opened Tiles

  /** The comparator on two tiles: the squared distance of the tile's centre
      from the image centre for `TILE_CENTER`, otherwise a comparison of the
      corners along the order's main axis, then along the other axis. The
      `TILE_HILBERT_SPIRAL` order falls to the bottom-to-top comparison. */
  predicate Precedes(order: TileOrder, center: Pos, a: Tile, b: Tile)
  {
    match order
    case Center => CenterDistance(center, a) < CenterDistance(center, b)
    case LeftToRight => if a.x == b.x then a.y < b.y else a.x < b.x
    case RightToLeft => if a.x == b.x then a.y < b.y else a.x > b.x
    case TopToBottom => if a.y == b.y then a.x < b.x else a.y > b.y
    case _ => if a.y == b.y then a.x < b.x else a.y < b.y
  }

  /** The squared distance between the image centre and the tile's centre,
      rounded down to a pixel (`w / 2` for a positive width). */
  function CenterDistance(center: Pos, t: Tile): int
  {
    var dx := center.x - (t.x + t.w / 2);
    var dy := center.y - (t.y + t.h / 2);
    dx * dx + dy * dy
  }

  /** A sort key: two integers compared lexicographically. */
  datatype Key = Key(major: int, minor: int)

  predicate KeyLess(a: Key, b: Key)
  {
    a.major < b.major || (a.major == b.major && a.minor < b.minor)
  }

  /** The key each order sorts by. */
  function SortKey(order: TileOrder, center: Pos, t: Tile): Key
  {
    match order
    case Center => Key(CenterDistance(center, t), 0)
    case LeftToRight => Key(t.x, t.y)
    case RightToLeft => Key(-t.x, t.y)
    case TopToBottom => Key(-t.y, t.x)
    case _ => Key(t.y, t.x)
  }

  /** The comparator is the lexicographic comparison of the tiles' keys. */
  lemma PrecedesIsKeyOrder(order: TileOrder, center: Pos, a: Tile, b: Tile)
    ensures Precedes(order, center, a, b) <==> KeyLess(SortKey(order, center, a), SortKey(order, center, b))
  {
  }

  /** The comparator is a strict weak order: irreflexive, transitive, and two
      tiles neither of which precedes the other compare alike with a third. */
  lemma PrecedesIsStrictWeakOrder(order: TileOrder, center: Pos, a: Tile, b: Tile, c: Tile)
    ensures !Precedes(order, center, a, a)
    ensures Precedes(order, center, a, b) && Precedes(order, center, b, c) ==> Precedes(order, center, a, c)
    ensures !Precedes(order, center, a, b) && !Precedes(order, center, b, a) ==>
      (Precedes(order, center, a, c) <==> Precedes(order, center, b, c))
      && (Precedes(order, center, c, a) <==> Precedes(order, center, c, b))
  {
    PrecedesIsKeyOrder(order, center, a, b);
    PrecedesIsKeyOrder(order, center, b, a);
    PrecedesIsKeyOrder(order, center, b, c);
    PrecedesIsKeyOrder(order, center, c, b);
    PrecedesIsKeyOrder(order, center, a, c);
    PrecedesIsKeyOrder(order, center, c, a);
  }

  /** The axis orders tell any two tiles with different corners apart. */
  lemma AxisOrdersAreTotal(order: TileOrder, center: Pos, a: Tile, b: Tile)
    requires order != Center && (a.x != b.x || a.y != b.y)
    ensures Precedes(order, center, a, b) || Precedes(order, center, b, a)
  {
  }

  /** Every listed index names a tile. */
  predicate AllBelow(l: seq<nat>, count: nat)
  {
    forall k :: 0 <= k < |l| ==> l[k] < count
  }

  /** No tile of the list precedes one listed before it. */
  predicate Sorted(tiles: seq<Tile>, order: TileOrder, center: Pos, l: seq<nat>)
    requires AllBelow(l, |tiles|)
  {
    forall i, j :: 0 <= i < j < |l| ==> !Precedes(order, center, tiles[l[j]], tiles[l[i]])
  }

  /** Inserts `x` in front of the first listed tile that it precedes, behind
      every tile that compares alike. */
  function Insert(tiles: seq<Tile>, order: TileOrder, center: Pos, x: nat, l: seq<nat>): (r: seq<nat>)
    requires x < |tiles| && AllBelow(l, |tiles|)
    ensures multiset(r) == multiset(l) + multiset{x} && |r| == |l| + 1 && AllBelow(r, |tiles|)
    ensures Sorted(tiles, order, center, l) ==> Sorted(tiles, order, center, r)
  {
    if l == [] then [x]
    else if Precedes(order, center, tiles[x], tiles[l[0]]) then
      InsertInFront(tiles, order, center, x, l);
      [x] + l
    else
      var rest := Insert(tiles, order, center, x, l[1..]);
      assert l == [l[0]] + l[1..];
      InsertBehind(tiles, order, center, x, l, rest);
      [l[0]] + rest
  }

  /** `x` in front of a sorted list whose head it precedes keeps it sorted. */
  lemma InsertInFront(tiles: seq<Tile>, order: TileOrder, center: Pos, x: nat, l: seq<nat>)
    requires x < |tiles| && AllBelow(l, |tiles|) && l != []
    requires Precedes(order, center, tiles[x], tiles[l[0]])
    ensures Sorted(tiles, order, center, l) ==> Sorted(tiles, order, center, [x] + l)
  {
    if Sorted(tiles, order, center, l) {
      var r := [x] + l;
      forall i, j | 0 <= i < j < |r|
        ensures !Precedes(order, center, tiles[r[j]], tiles[r[i]])
      {
        if i == 0 {
          PrecedesIsKeyOrder(order, center, tiles[x], tiles[l[0]]);
          PrecedesIsKeyOrder(order, center, tiles[l[0]], tiles[l[j - 1]]);
          PrecedesIsKeyOrder(order, center, tiles[l[j - 1]], tiles[x]);
        }
      }
    }
  }

  /** The head of a sorted list that `x` does not precede stays in front of
      the rest with `x` inserted. */
  lemma InsertBehind(tiles: seq<Tile>, order: TileOrder, center: Pos, x: nat, l: seq<nat>, rest: seq<nat>)
    requires x < |tiles| && AllBelow(l, |tiles|) && l != [] && AllBelow(rest, |tiles|)
    requires !Precedes(order, center, tiles[x], tiles[l[0]])
    requires multiset(rest) == multiset(l[1..]) + multiset{x}
    requires Sorted(tiles, order, center, l[1..]) ==> Sorted(tiles, order, center, rest)
    ensures Sorted(tiles, order, center, l) ==> Sorted(tiles, order, center, [l[0]] + rest)
  {
    if Sorted(tiles, order, center, l) {
      assert Sorted(tiles, order, center, l[1..]);
      var r := [l[0]] + rest;
      forall j | 0 < j < |r|
        ensures !Precedes(order, center, tiles[r[j]], tiles[l[0]])
      {
        assert r[j] == rest[j - 1];
        assert rest[j - 1] in multiset(rest);
        assert r[j] == x || r[j] in l[1..];
        if r[j] != x {
          var k :| 0 <= k < |l[1..]| && l[1..][k] == r[j];
          assert l[k + 1] == r[j];
        }
      }
    }
  }

  /** `tile_list->sort(TileComparator(...))`: the list sorted stably by the
      comparator, by insertion of each element behind the earlier ones it
      does not precede. */
  function SortList(tiles: seq<Tile>, order: TileOrder, center: Pos, l: seq<nat>): (r: seq<nat>)
    requires AllBelow(l, |tiles|)
    ensures multiset(r) == multiset(l) && |r| == |l| && AllBelow(r, |tiles|)
    ensures Sorted(tiles, order, center, r)
  {
    if l == [] then []
    else
      var init := l[..|l| - 1];
      assert l == init + [l[|l| - 1]];
      Insert(tiles, order, center, l[|l| - 1], SortList(tiles, order, center, init))
  }

  /** The sort reads only the tiles it is given indices of, so tiles appended
      later change nothing. */
  lemma {:induction false} SortListOfPrefix(tiles: seq<Tile>, more: seq<Tile>, order: TileOrder, center: Pos, l: seq<nat>)
    requires AllBelow(l, |tiles|)
    ensures SortList(tiles + more, order, center, l) == SortList(tiles, order, center, l)
    decreases |l|
  {
    if l != [] {
      var init := l[..|l| - 1];
      SortListOfPrefix(tiles, more, order, center, init);
      InsertOfPrefix(tiles, more, order, center, l[|l| - 1], SortList(tiles, order, center, init));
    }
  }

  lemma {:induction false} InsertOfPrefix(tiles: seq<Tile>, more: seq<Tile>, order: TileOrder, center: Pos, x: nat, l: seq<nat>)
    requires x < |tiles| && AllBelow(l, |tiles|)
    ensures Insert(tiles + more, order, center, x, l) == Insert(tiles, order, center, x, l)
    decreases |l|
  {
    if l != [] {
      InsertOfPrefix(tiles, more, order, center, x, l[1..]);
    }
  }
}
