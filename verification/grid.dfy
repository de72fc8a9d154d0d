/** The sparse world map of the ant simulation: a map from position to tile,
    the rectangle of materialised territory, and the read-only views (nests,
    ants, work queue) and the removal sweep of one tick. */
module Grid {
  import opened Geometry
  import opened Outcomes
  import FoodSource

  /** An ant, as far as the grid sees it: only its position is read. */
  datatype Ant = Ant(pos: Pos)

  /** The tile variants the map holds. A nest owns its ants. */
  datatype Kind =
    | Plain
    | Food(source: FoodSource.Source)
    | Obstacle
    | Nest(ants: seq<Ant>)

  datatype Tile = Tile(pos: Pos, kind: Kind)

  /** The grid: the sparse map and its bounds `start` (lower-left) and `end`
      (upper-right). */
  datatype World = World(tiles: map<Pos, Tile>, start: Pos, end: Pos)

  /** An element of the work queue. */
  datatype Entity = TileEntity(tile: Tile) | AntEntity(ant: Ant)

  /** Every tile is stored under its own position, as `putTile` keys it. */
  ghost predicate WellKeyed(m: map<Pos, Tile>) {
    forall p :: p in m ==> m[p].pos == p
  }

  ghost predicate Distinct<T>(s: seq<T>) {
    forall i, j :: 0 <= i < j < |s| ==> s[i] != s[j]
  }

  /** `order` is one iteration of the hash map's key set: every key exactly
      once, in an order the model leaves open. */
  ghost predicate Enumerates(order: seq<Pos>, keys: set<Pos>) {
    Distinct(order) && forall p :: p in order <==> p in keys
  }

  /** The tile `new Tile(position)` creates: an empty plain cell. */
  function DefaultTile(p: Pos): (t: Tile)
    ensures t.pos == p && t.kind.Plain?
  {
    Tile(p, Plain)
  }

  // ---------------------------------------------------------------------
  // Construction and the generator's writes

  /** One `putTile` per placed tile, in order, skipping tiles outside `r`:
      the generator's effect on a rectangle. A later tile at the same
      position overwrites an earlier one. */
  function Stamp(m: map<Pos, Tile>, r: Rect, placed: seq<Tile>): (m': map<Pos, Tile>)
    ensures m.Keys <= m'.Keys
    ensures forall p :: p in m' && p !in m ==> InRect(p, r)
    ensures forall p :: p in m && !InRect(p, r) ==> m'[p] == m[p]
    ensures forall i :: 0 <= i < |placed| && InRect(placed[i].pos, r) ==> placed[i].pos in m'
    ensures WellKeyed(m) ==> WellKeyed(m')
    decreases |placed|
  {
    if placed == [] then m
    else
      var t := placed[0];
      var m1 := if InRect(t.pos, r) then m[t.pos := t] else m;
      Stamp(m1, r, placed[1..])
  }

  /** `new Grid(width, height)`: bounds centred on the origin computed with
      Java's truncating division, then the generator fills that rectangle.
      The random entity counts are folded into `placed`. */
  function New(width: int, height: int, placed: seq<Tile>): (w: World)
    requires width > 0 && height > 0
    ensures w.start == Pos(-w.end.x, -w.end.y)
    ensures 2 * w.end.x <= width < 2 * w.end.x + 2
    ensures 2 * w.end.y <= height < 2 * w.end.y + 2
    ensures w.start.x <= w.end.x && w.start.y <= w.end.y
    ensures WellKeyed(w.tiles)
    ensures forall p :: p in w.tiles ==> InBounds(p, w.start, w.end)
  {
    var start := Pos(TruncDiv(-1 * width, 2), TruncDiv(-1 * height, 2));
    var end := Pos(TruncDiv(width, 2), TruncDiv(height, 2));
    TruncDivIsOdd(width, 2);
    TruncDivIsOdd(height, 2);
    World(Stamp(map[], Rect(start, end), placed), start, end)
  }

  // ---------------------------------------------------------------------
  // Accessors

  /** `putTile`: stores the tile under its own position. */
  function PutTile(w: World, t: Tile): (r: World)
    ensures r.tiles.Keys == w.tiles.Keys + {t.pos}
    ensures r.tiles[t.pos] == t
    ensures forall q :: q in w.tiles && q != t.pos ==> r.tiles[q] == w.tiles[q]
    ensures r.start == w.start && r.end == w.end
    ensures WellKeyed(w.tiles) ==> WellKeyed(r.tiles)
  {
    w.(tiles := w.tiles[t.pos := t])
  }

  /** The grid after a `getTile` call, and the tile it returned. */
  datatype Lookup = Lookup(world: World, tile: Tile)

  /** `getTile`: the stored tile, or a default tile that is inserted under
      exactly `p` and returned. Nothing already stored changes. */
  function GetTile(w: World, p: Pos): (r: Lookup)
    ensures p in r.world.tiles && r.world.tiles[p] == r.tile
    ensures r.world.tiles.Keys == w.tiles.Keys + {p}
    ensures forall q :: q in w.tiles ==> r.world.tiles[q] == w.tiles[q]
    ensures p !in w.tiles ==> r.tile == DefaultTile(p)
    ensures r.world.start == w.start && r.world.end == w.end
    ensures WellKeyed(w.tiles) ==> WellKeyed(r.world.tiles)
  {
    if p in w.tiles then Lookup(w, w.tiles[p])
    else
      var t := DefaultTile(p);
      Lookup(PutTile(w, t), t)
  }

  /** On a present key `getTile` is a pure read. */
  lemma GetTilePresentIsRead(w: World, p: Pos)
    requires p in w.tiles
    ensures GetTile(w, p) == Lookup(w, w.tiles[p])
  {
    var r := GetTile(w, p);
    assert r.world.tiles == w.tiles;
  }

  /** Lazy densification: a second `getTile` of the same position returns
      the same tile and changes nothing further. */
  lemma GetTileTwice(w: World, p: Pos)
    ensures GetTile(GetTile(w, p).world, p) == GetTile(w, p)
  {
    var r := GetTile(w, p);
    GetTilePresentIsRead(r.world, p);
  }

  /** `getTile` after `putTile` reads the stored tile back and inserts
      nothing. */
  lemma PutThenGetReadsBack(w: World, t: Tile)
    ensures GetTile(PutTile(w, t), t.pos) == Lookup(PutTile(w, t), t)
  {
    GetTilePresentIsRead(PutTile(w, t), t.pos);
  }

  /** `removeTile`: deletes the key `tile.getPosition()` and nothing else. */
  function RemoveTile(w: World, t: Tile): (r: World)
    ensures r.tiles.Keys == w.tiles.Keys - {t.pos}
    ensures forall q :: q in r.tiles ==> r.tiles[q] == w.tiles[q]
    ensures r.start == w.start && r.end == w.end
  {
    w.(tiles := w.tiles - {t.pos})
  }

  /** Removing an absent tile is a no-op, hence removal is idempotent. */
  lemma RemoveTileIdempotent(w: World, t: Tile)
    ensures t.pos !in w.tiles ==> RemoveTile(w, t) == w
    ensures RemoveTile(RemoveTile(w, t), t) == RemoveTile(w, t)
  {
    if t.pos !in w.tiles {
      assert RemoveTile(w, t).tiles == w.tiles;
    }
    assert RemoveTile(RemoveTile(w, t), t).tiles == RemoveTile(w, t).tiles;
  }

  /** `removeTile` undoes a `putTile` at a position that was free. */
  lemma PutThenRemoveRestores(w: World, t: Tile)
    requires t.pos !in w.tiles
    ensures RemoveTile(PutTile(w, t), t) == w
  {
    assert RemoveTile(PutTile(w, t), t).tiles == w.tiles;
  }

  /** `generateFoodSources` and `generateNests`: the generator run once more
      over the current bounds, with its output `placed`. */
  function Populate(w: World, placed: seq<Tile>): (r: World)
    ensures r.start == w.start && r.end == w.end
    ensures w.tiles.Keys <= r.tiles.Keys
    ensures forall p :: p in r.tiles && p !in w.tiles ==> InBounds(p, w.start, w.end)
    ensures forall p :: p in w.tiles && !InBounds(p, w.start, w.end) ==> r.tiles[p] == w.tiles[p]
    ensures WellKeyed(w.tiles) ==> WellKeyed(r.tiles)
  {
    w.(tiles := Stamp(w.tiles, Rect(w.start, w.end), placed))
  }

  // ---------------------------------------------------------------------
  // The removal sweep of one tick

  /** The removal decision for one tile: a nest is asked whether its colony
      has terminated, a food source applies its own `update`, and plain
      tiles and obstacles report through `otherExpires`. */
  function Expires(t: Tile, nestDone: Tile -> bool, otherExpires: Tile -> bool): (r: bool)
    ensures t.kind.Food? ==> (r <==> t.kind.source.foodAmount < 0)
    ensures t.kind.Nest? ==> (r <==> nestDone(t))
  {
    match t.kind
    case Nest(_) => nestDone(t)
    case Food(s) => FoodSource.Update(s)
    case _ => otherExpires(t)
  }

  /** The keys collected in `removingItems`: a terminated nest contributes its
      own position, any other expiring tile the key it is stored under. */
  function Removals(m: map<Pos, Tile>, nestDone: Tile -> bool, otherExpires: Tile -> bool): (r: set<Pos>)
    ensures WellKeyed(m) ==> forall p :: p in r <==> p in m && Expires(m[p], nestDone, otherExpires)
  {
    (set p | p in m && m[p].kind.Nest? && nestDone(m[p]) :: m[p].pos)
    + (set p | p in m && !m[p].kind.Nest? && Expires(m[p], nestDone, otherExpires))
  }

  /** The map after the removal step of `update`. */
  function Sweep(m: map<Pos, Tile>, nestDone: Tile -> bool, otherExpires: Tile -> bool): (r: map<Pos, Tile>)
    ensures r.Keys <= m.Keys
    ensures forall p :: p in r ==> r[p] == m[p]
    ensures forall p :: p in m && !m[p].kind.Nest? && Expires(m[p], nestDone, otherExpires) ==> p !in r
    ensures forall p :: p in m && m[p].kind.Nest? && nestDone(m[p]) ==> m[p].pos !in r
  {
    m - Removals(m, nestDone, otherExpires)
  }

  /** On a well-keyed map the sweep removes exactly the tiles whose update
      reports expiry, whatever order the two passes visit them in. */
  lemma SweepRemovesExactlyExpired(m: map<Pos, Tile>, nestDone: Tile -> bool, otherExpires: Tile -> bool)
    requires WellKeyed(m)
    ensures forall p :: p in Sweep(m, nestDone, otherExpires) <==> p in m && !Expires(m[p], nestDone, otherExpires)
    ensures WellKeyed(Sweep(m, nestDone, otherExpires))
  {
  }

  /** A food source survives a tick exactly while its counter is not
      negative, so a source at exactly zero is kept one more tick. */
  lemma FoodSurvivesWhileNotNegative(m: map<Pos, Tile>, nestDone: Tile -> bool, otherExpires: Tile -> bool, p: Pos)
    requires WellKeyed(m)
    requires p in m && m[p].kind.Food?
    ensures p in Sweep(m, nestDone, otherExpires) <==> m[p].kind.source.foodAmount >= 0
  {
    SweepRemovesExactlyExpired(m, nestDone, otherExpires);
  }

  // ---------------------------------------------------------------------
  // Read-only views: nests, ants and the work queue

  /** The scent `getCurrentStink(null)` reports: the food source's own value,
      and `stinkOf` for the tile kinds whose scent is not part of the model. */
  function Stink(t: Tile, stinkOf: Tile -> real): real {
    match t.kind
    case Food(s) => FoodSource.CurrentStink(s, None)
    case _ => stinkOf(t)
  }

  predicate IsLowScent(t: Tile, stinkOf: Tile -> real) {
    Stink(t, stinkOf) <= 1.0
  }

  /** Which tiles a pass over the map keeps. */
  datatype Selector = Nests | LowScent(stinkOf: Tile -> real) | SalientScent(stinkOf: Tile -> real)

  predicate Selects(sel: Selector, t: Tile) {
    match sel
    case Nests => t.kind.Nest?
    case LowScent(f) => IsLowScent(t, f)
    case SalientScent(f) => !IsLowScent(t, f)
  }

  /** One `map.forEach` pass that appends the selected tiles, visiting the
      keys in `order`. */
  function Collect(m: map<Pos, Tile>, order: seq<Pos>, sel: Selector): (r: seq<Tile>)
    requires forall p :: p in order ==> p in m
    ensures |r| <= |order|
    ensures forall t :: t in r ==> Selects(sel, t) && exists p :: p in order && m[p] == t
    ensures forall p :: p in order && Selects(sel, m[p]) ==> m[p] in r
  {
    if order == [] then []
    else
      var t := m[order[0]];
      (if Selects(sel, t) then [t] else []) + Collect(m, order[1..], sel)
  }

  /** On a well-keyed map visited in a duplicate-free order, each selected
      tile is collected exactly once and every other tile not at all. */
  lemma {:induction false} CollectCountsOnce(m: map<Pos, Tile>, order: seq<Pos>, sel: Selector, p: Pos)
    requires WellKeyed(m) && Distinct(order)
    requires forall q :: q in order ==> q in m
    requires p in m
    ensures multiset(Collect(m, order, sel))[m[p]] == if p in order && Selects(sel, m[p]) then 1 else 0
  {
    if order != [] {
      var q := order[0];
      assert forall r :: r in order[1..] ==> r in order;
      DistinctTail(order);
      CollectCountsOnce(m, order[1..], sel, p);
      assert Collect(m, order, sel) == (if Selects(sel, m[q]) then [m[q]] else []) + Collect(m, order[1..], sel);
      if q != p {
        assert m[q] != m[p] by {
          assert m[q].pos == q && m[p].pos == p;
        }
        assert p in order <==> p in order[1..] by {
          assert order == [q] + order[1..];
        }
      }
    }
  }

  /** The low-scent pass and the salient pass together visit every key once. */
  lemma {:induction false} ScentPassesSplitOrder(m: map<Pos, Tile>, order: seq<Pos>, stinkOf: Tile -> real)
    requires forall p :: p in order ==> p in m
    ensures |Collect(m, order, LowScent(stinkOf))| + |Collect(m, order, SalientScent(stinkOf))| == |order|
  {
    if order != [] {
      assert forall r :: r in order[1..] ==> r in order;
      ScentPassesSplitOrder(m, order[1..], stinkOf);
    }
  }

  /** The tail of a duplicate-free sequence is duplicate-free and does not
      hold the head. */
  lemma DistinctTail<T>(s: seq<T>)
    requires Distinct(s) && s != []
    ensures Distinct(s[1..]) && s[0] !in s[1..]
  {
    forall i, j | 0 <= i < j < |s[1..]|
      ensures s[1..][i] != s[1..][j]
    {
      assert s[1..][i] == s[i + 1] && s[1..][j] == s[j + 1];
    }
    forall i | 0 <= i < |s[1..]|
      ensures s[1..][i] != s[0]
    {
      assert s[1..][i] == s[i + 1];
    }
  }

  /** A duplicate-free sequence has as many distinct elements as entries. */
  lemma {:induction false} DistinctCardinality<T>(s: seq<T>)
    requires Distinct(s)
    ensures |set x | x in s| == |s|
  {
    if s != [] {
      DistinctTail(s);
      DistinctCardinality(s[1..]);
      assert (set x | x in s) == {s[0]} + (set x | x in s[1..]) by {
        assert s == [s[0]] + s[1..];
      }
    }
  }

  /** An enumeration of the keys is as long as the map. */
  lemma EnumerationLength(m: map<Pos, Tile>, order: seq<Pos>)
    requires Enumerates(order, m.Keys)
    ensures |order| == |m|
  {
    DistinctCardinality(order);
    assert (set x | x in order) == m.Keys;
  }

  /** `getNests`: the nest tiles of the map in iteration order. */
  function GetNests(m: map<Pos, Tile>, order: seq<Pos>): (r: seq<Tile>)
    requires Enumerates(order, m.Keys)
    ensures forall t :: t in r ==> t.kind.Nest? && exists p :: p in m && m[p] == t
    ensures forall p :: p in m && m[p].kind.Nest? ==> m[p] in r
  {
    Collect(m, order, Nests)
  }

  /** On a well-keyed map every nest tile is listed exactly once. */
  lemma GetNestsListsEachNestOnce(m: map<Pos, Tile>, order: seq<Pos>, p: Pos)
    requires Enumerates(order, m.Keys) && WellKeyed(m)
    requires p in m && m[p].kind.Nest?
    ensures multiset(GetNests(m, order))[m[p]] == 1
  {
    CollectCountsOnce(m, order, Nests, p);
  }

  /** The ants of a list of nests, concatenated in list order. */
  function AntsOfNests(nests: seq<Tile>): (r: seq<Ant>)
    ensures forall a :: a in r <==> exists i :: 0 <= i < |nests| && nests[i].kind.Nest? && a in nests[i].kind.ants
  {
    if nests == [] then []
    else
      (if nests[0].kind.Nest? then nests[0].kind.ants else []) + AntsOfNests(nests[1..])
  }

  /** `getAnts`: every ant of every nest on the grid. */
  function GetAnts(m: map<Pos, Tile>, order: seq<Pos>): (r: seq<Ant>)
    requires Enumerates(order, m.Keys)
    ensures forall a :: a in r <==> exists p :: p in m && m[p].kind.Nest? && a in m[p].kind.ants
  {
    var nests := GetNests(m, order);
    var r := AntsOfNests(nests);
    assert forall a :: a in r ==> exists p :: p in m && m[p].kind.Nest? && a in m[p].kind.ants by {
      forall a | a in r
        ensures exists p :: p in m && m[p].kind.Nest? && a in m[p].kind.ants
      {
        var i :| 0 <= i < |nests| && nests[i].kind.Nest? && a in nests[i].kind.ants;
        assert nests[i] in nests;
        var p :| p in m && m[p] == nests[i];
      }
    }
    assert forall a :: (exists p :: p in m && m[p].kind.Nest? && a in m[p].kind.ants) ==> a in r by {
      forall a | exists p :: p in m && m[p].kind.Nest? && a in m[p].kind.ants
        ensures a in r
      {
        var p :| p in m && m[p].kind.Nest? && a in m[p].kind.ants;
        assert m[p] in nests;
        var i :| 0 <= i < |nests| && nests[i] == m[p];
      }
    }
    r
  }

  function AsEntities(ts: seq<Tile>): (r: seq<Entity>)
    ensures |r| == |ts|
    ensures forall i :: 0 <= i < |r| ==> r[i] == TileEntity(ts[i])
  {
    if ts == [] then [] else [TileEntity(ts[0])] + AsEntities(ts[1..])
  }

  function AntEntities(ants: seq<Ant>): (r: seq<Entity>)
    ensures |r| == |ants|
    ensures forall i :: 0 <= i < |r| ==> r[i] == AntEntity(ants[i])
  {
    if ants == [] then [] else [AntEntity(ants[0])] + AntEntities(ants[1..])
  }

  /** The ants of a queue, in queue order. */
  function AntsOf(es: seq<Entity>): seq<Ant> {
    if es == [] then []
    else (if es[0].AntEntity? then [es[0].ant] else []) + AntsOf(es[1..])
  }

  /** The position of an entity's bucket in the queue: faint-scent tiles
      first, then ants, then every other tile. */
  function Bucket(e: Entity, stinkOf: Tile -> real): int {
    match e
    case TileEntity(t) => if IsLowScent(t, stinkOf) then 0 else 2
    case AntEntity(_) => 1
  }

  /** Three groups of constant, increasing buckets concatenate into a queue
      whose buckets never decrease. */
  lemma BucketsConcatSorted(a: seq<Entity>, b: seq<Entity>, c: seq<Entity>, stinkOf: Tile -> real)
    requires forall e :: e in a ==> Bucket(e, stinkOf) == 0
    requires forall e :: e in b ==> Bucket(e, stinkOf) == 1
    requires forall e :: e in c ==> Bucket(e, stinkOf) == 2
    ensures forall i, j :: 0 <= i < j < |a + b + c| ==> Bucket((a + b + c)[i], stinkOf) <= Bucket((a + b + c)[j], stinkOf)
  {
    var r := a + b + c;
    forall i | 0 <= i < |r|
      ensures Bucket(r[i], stinkOf) == if i < |a| then 0 else if i < |a| + |b| then 1 else 2
    {
      if i < |a| {
        assert r[i] == a[i];
      } else if i < |a| + |b| {
        assert r[i] == b[i - |a|];
      } else {
        assert r[i] == c[i - |a| - |b|];
      }
    }
  }

  /** Wrapping selected tiles keeps their bucket. */
  lemma TileBuckets(ts: seq<Tile>, stinkOf: Tile -> real, low: bool)
    requires forall t :: t in ts ==> IsLowScent(t, stinkOf) == low
    ensures forall e :: e in AsEntities(ts) ==> Bucket(e, stinkOf) == if low then 0 else 2
  {
    forall e | e in AsEntities(ts)
      ensures Bucket(e, stinkOf) == if low then 0 else 2
    {
      var i :| 0 <= i < |AsEntities(ts)| && AsEntities(ts)[i] == e;
      assert ts[i] in ts;
    }
  }

  /** `queue`: tiles of scent at most 1, then all ants, then the remaining
      tiles. It holds every tile and every ant, grouped by bucket. */
  function Queue(m: map<Pos, Tile>, order: seq<Pos>, stinkOf: Tile -> real): (r: seq<Entity>)
    requires Enumerates(order, m.Keys)
    ensures |r| == |m| + |GetAnts(m, order)|
    ensures forall i, j :: 0 <= i < j < |r| ==> Bucket(r[i], stinkOf) <= Bucket(r[j], stinkOf)
  {
    var lowTiles := Collect(m, order, LowScent(stinkOf));
    var otherTiles := Collect(m, order, SalientScent(stinkOf));
    var ants := AntEntities(GetAnts(m, order));
    ScentPassesSplitOrder(m, order, stinkOf);
    EnumerationLength(m, order);
    TileBuckets(lowTiles, stinkOf, true);
    TileBuckets(otherTiles, stinkOf, false);
    BucketsConcatSorted(AsEntities(lowTiles), ants, AsEntities(otherTiles), stinkOf);
    AsEntities(lowTiles) + ants + AsEntities(otherTiles)
  }

  lemma {:induction false} AsEntitiesCount(ts: seq<Tile>, t: Tile)
    ensures multiset(AsEntities(ts))[TileEntity(t)] == multiset(ts)[t]
  {
    if ts != [] {
      AsEntitiesCount(ts[1..], t);
      assert ts == [ts[0]] + ts[1..];
      assert AsEntities(ts) == [TileEntity(ts[0])] + AsEntities(ts[1..]);
    }
  }

  /** On a well-keyed map, every tile occurs in the queue exactly once. */
  lemma QueueHoldsEachTileOnce(m: map<Pos, Tile>, order: seq<Pos>, stinkOf: Tile -> real, p: Pos)
    requires Enumerates(order, m.Keys) && WellKeyed(m)
    requires p in m
    ensures multiset(Queue(m, order, stinkOf))[TileEntity(m[p])] == 1
  {
    var lowTiles := Collect(m, order, LowScent(stinkOf));
    var otherTiles := Collect(m, order, SalientScent(stinkOf));
    var ants := AntEntities(GetAnts(m, order));
    CollectCountsOnce(m, order, LowScent(stinkOf), p);
    CollectCountsOnce(m, order, SalientScent(stinkOf), p);
    AsEntitiesCount(lowTiles, m[p]);
    AsEntitiesCount(otherTiles, m[p]);
    assert TileEntity(m[p]) !in ants;
    assert Queue(m, order, stinkOf) == AsEntities(lowTiles) + ants + AsEntities(otherTiles);
  }

  lemma {:induction false} AntsOfConcat(a: seq<Entity>, b: seq<Entity>)
    ensures AntsOf(a + b) == AntsOf(a) + AntsOf(b)
  {
    if a == [] {
      assert a + b == b;
    } else {
      assert (a + b)[0] == a[0];
      assert (a + b)[1..] == a[1..] + b;
      AntsOfConcat(a[1..], b);
    }
  }

  lemma {:induction false} AntsOfTiles(ts: seq<Tile>)
    ensures AntsOf(AsEntities(ts)) == []
  {
    if ts != [] {
      assert AsEntities(ts)[1..] == AsEntities(ts[1..]);
      AntsOfTiles(ts[1..]);
    }
  }

  lemma {:induction false} AntsOfAnts(ants: seq<Ant>)
    ensures AntsOf(AntEntities(ants)) == ants
  {
    if ants != [] {
      assert AntEntities(ants)[1..] == AntEntities(ants[1..]);
      AntsOfAnts(ants[1..]);
    }
  }

  /** The ants in the queue are exactly `getAnts()`, in the same order. */
  lemma QueueAntsAreGetAnts(m: map<Pos, Tile>, order: seq<Pos>, stinkOf: Tile -> real)
    requires Enumerates(order, m.Keys)
    ensures AntsOf(Queue(m, order, stinkOf)) == GetAnts(m, order)
  {
    var lowTiles := Collect(m, order, LowScent(stinkOf));
    var otherTiles := Collect(m, order, SalientScent(stinkOf));
    var ants := GetAnts(m, order);
    AntsOfParts(lowTiles, ants, otherTiles);
  }

  /** The ants of a queue assembled from two tile groups around an ant
      group are exactly that ant group. */
  lemma AntsOfParts(low: seq<Tile>, ants: seq<Ant>, other: seq<Tile>)
    ensures AntsOf(AsEntities(low) + AntEntities(ants) + AsEntities(other)) == ants
  {
    AntsOfConcat(AsEntities(low) + AntEntities(ants), AsEntities(other));
    AntsOfConcat(AsEntities(low), AntEntities(ants));
    AntsOfTiles(low);
    AntsOfTiles(other);
    AntsOfAnts(ants);
  }

  /** In a queue ordered by bucket, food sources (bucket 2, scent 100) come
      after ants (bucket 1). */
  lemma FoodAfterAntsInBucketOrder(r: seq<Entity>, stinkOf: Tile -> real)
    requires forall i, j :: 0 <= i < j < |r| ==> Bucket(r[i], stinkOf) <= Bucket(r[j], stinkOf)
    ensures forall i, j :: 0 <= i < |r| && 0 <= j < |r| && r[i].TileEntity? && r[i].tile.kind.Food? && r[j].AntEntity? ==> j < i
  {
    forall i, j | 0 <= i < |r| && 0 <= j < |r| && r[i].TileEntity? && r[i].tile.kind.Food? && r[j].AntEntity?
      ensures j < i
    {
      assert Stink(r[i].tile, stinkOf) > 1.0;
      assert Bucket(r[i], stinkOf) == 2;
      assert Bucket(r[j], stinkOf) == 1;
    }
  }

  /** A food source's scent of 100 puts it after every ant in the queue. */
  lemma FoodQueuedAfterAnts(m: map<Pos, Tile>, order: seq<Pos>, stinkOf: Tile -> real)
    requires Enumerates(order, m.Keys)
    ensures var r := Queue(m, order, stinkOf);
            forall i, j :: 0 <= i < |r| && 0 <= j < |r| && r[i].TileEntity? && r[i].tile.kind.Food? && r[j].AntEntity? ==> j < i
  {
    FoodAfterAntsInBucketOrder(Queue(m, order, stinkOf), stinkOf);
  }
}
