/** World growth: after each tick, every side of the materialised rectangle
    whose boundary line holds an ant moves outward by one chunk, and the
    generator is asked to populate the strip that was added. Also the whole
    tick (`Grid.update`): removal sweep, then chunk generation. */
module Chunks {
  import opened Geometry
  import opened Grid

  const ChunkSize: int := 20

  /** Which of the four sides (`extendSides[0..3]`) grow this tick. */
  datatype Sides = Sides(left: bool, right: bool, bottom: bool, top: bool) {
    predicate Any() {
      left || right || bottom || top
    }
  }

  /** The four `anyMatch` tests: a side grows iff some ant lies exactly on
      its boundary line. */
  function Triggered(start: Pos, end: Pos, ants: seq<Ant>): (sides: Sides)
    ensures sides.Any() <==> exists a :: a in ants && OnBoundary(a.pos, start, end)
  {
    Sides(
      exists a | a in ants :: a.pos.x == start.x,
      exists a | a in ants :: a.pos.x == end.x,
      exists a | a in ants :: a.pos.y == start.y,
      exists a | a in ants :: a.pos.y == end.y)
  }

  /** `p` lies on one of the four boundary lines of the bounds. */
  predicate OnBoundary(p: Pos, start: Pos, end: Pos) {
    p.x == start.x || p.x == end.x || p.y == start.y || p.y == end.y
  }

  /** `p` lies strictly inside the bounds, off every boundary line. */
  predicate Interior(p: Pos, start: Pos, end: Pos) {
    start.x < p.x < end.x && start.y < p.y < end.y
  }

  /** Bounds as they evolve through the four branches, and the rectangles
      handed to the generator so far. */
  datatype Plan = Plan(start: Pos, end: Pos, strips: seq<Rect>)

  /** The bounds span at least one cell. */
  ghost predicate Ordered(p: Plan) {
    p.start.x <= p.end.x && p.start.y <= p.end.y
  }

  /** Every strip lies inside the grown bounds. */
  ghost predicate StripsInside(p: Plan) {
    forall i :: 0 <= i < |p.strips| ==> InBounds(p.strips[i].lo, p.start, p.end) && InBounds(p.strips[i].hi, p.start, p.end)
  }

  /** The generator is asked to populate `p`. */
  predicate Covered(strips: seq<Rect>, p: Pos) {
    exists i :: 0 <= i < |strips| && InRect(p, strips[i])
  }

  function ExtendLeft(p: Plan): (r: Plan)
    ensures r.start == Pos(p.start.x - ChunkSize, p.start.y) && r.end == p.end
    ensures forall q :: Interior(q, p.start, p.end) && !Covered(p.strips, q) ==> !Covered(r.strips, q)
    ensures p.strips <= r.strips && |r.strips| == |p.strips| + 1
    ensures forall q :: InBounds(q, r.start, r.end) && !InBounds(q, p.start, p.end) ==> InRect(q, r.strips[|p.strips|])
    ensures Ordered(p) && StripsInside(p) ==> Ordered(r) && StripsInside(r)
  {
    var newStart := Pos(p.start.x - ChunkSize, p.start.y);
    Plan(newStart, p.end, p.strips + [Rect(newStart, Pos(p.start.x, p.end.y))])
  }

  /** The right-hand branch as written: the strip runs from the old
      `endPoint.x` to the old `endPoint`, so it is a single column. */
  function ExtendRightAsWritten(p: Plan): (r: Plan)
    ensures r.start == p.start && r.end == Pos(p.end.x + ChunkSize, p.end.y)
    ensures forall q :: Interior(q, p.start, p.end) && !Covered(p.strips, q) ==> !Covered(r.strips, q)
    ensures p.strips <= r.strips && |r.strips| == |p.strips| + 1
    ensures forall q :: InRect(q, r.strips[|p.strips|]) ==> q.x == p.end.x
    ensures Ordered(p) && StripsInside(p) ==> Ordered(r) && StripsInside(r)
  {
    var newEnd := Pos(p.end.x + ChunkSize, p.end.y);
    Plan(p.start, newEnd, p.strips + [Rect(Pos(p.end.x, p.start.y), p.end)])
  }

  /** The right-hand branch with the strip reaching the new `endPoint`. */
  function ExtendRight(p: Plan): (r: Plan)
    ensures r.start == p.start && r.end == Pos(p.end.x + ChunkSize, p.end.y)
    ensures forall q :: Interior(q, p.start, p.end) && !Covered(p.strips, q) ==> !Covered(r.strips, q)
    ensures p.strips <= r.strips && |r.strips| == |p.strips| + 1
    ensures forall q :: InBounds(q, r.start, r.end) && !InBounds(q, p.start, p.end) ==> InRect(q, r.strips[|p.strips|])
    ensures Ordered(p) && StripsInside(p) ==> Ordered(r) && StripsInside(r)
  {
    var newEnd := Pos(p.end.x + ChunkSize, p.end.y);
    Plan(p.start, newEnd, p.strips + [Rect(Pos(p.end.x, p.start.y), newEnd)])
  }

  function ExtendBottom(p: Plan): (r: Plan)
    ensures r.start == Pos(p.start.x, p.start.y - ChunkSize) && r.end == p.end
    ensures forall q :: Interior(q, p.start, p.end) && !Covered(p.strips, q) ==> !Covered(r.strips, q)
    ensures p.strips <= r.strips && |r.strips| == |p.strips| + 1
    ensures forall q :: InBounds(q, r.start, r.end) && !InBounds(q, p.start, p.end) ==> InRect(q, r.strips[|p.strips|])
    ensures Ordered(p) && StripsInside(p) ==> Ordered(r) && StripsInside(r)
  {
    var newStart := Pos(p.start.x, p.start.y - ChunkSize);
    Plan(newStart, p.end, p.strips + [Rect(newStart, Pos(p.end.x, p.start.y))])
  }

  function ExtendTop(p: Plan): (r: Plan)
    ensures r.start == p.start && r.end == Pos(p.end.x, p.end.y + ChunkSize)
    ensures forall q :: Interior(q, p.start, p.end) && !Covered(p.strips, q) ==> !Covered(r.strips, q)
    ensures p.strips <= r.strips && |r.strips| == |p.strips| + 1
    ensures forall q :: InBounds(q, r.start, r.end) && !InBounds(q, p.start, p.end) ==> InRect(q, r.strips[|p.strips|])
    ensures Ordered(p) && StripsInside(p) ==> Ordered(r) && StripsInside(r)
  {
    var newEnd := Pos(p.end.x, p.end.y + ChunkSize);
    Plan(p.start, newEnd, p.strips + [Rect(Pos(p.start.x, p.end.y), newEnd)])
  }

  /** The bounds update of `generateNewChunks`, which is the same in both
      versions: each triggered side moves its own coordinate out by exactly
      one chunk, and nothing else moves. */
  ghost predicate GrownBy(start: Pos, end: Pos, sides: Sides, newStart: Pos, newEnd: Pos) {
    && newStart.x == start.x - (if sides.left then ChunkSize else 0)
    && newEnd.x == end.x + (if sides.right then ChunkSize else 0)
    && newStart.y == start.y - (if sides.bottom then ChunkSize else 0)
    && newEnd.y == end.y + (if sides.top then ChunkSize else 0)
  }

  /** The four branches of `generateNewChunks` as written. */
  function PlanChunksAsWritten(start: Pos, end: Pos, sides: Sides): (p: Plan)
    ensures GrownBy(start, end, sides, p.start, p.end)
    ensures start.x <= end.x && start.y <= end.y ==> StripsInside(p)
  {
    var p0 := Plan(start, end, []);
    var p1 := if sides.left then ExtendLeft(p0) else p0;
    var p2 := if sides.right then ExtendRightAsWritten(p1) else p1;
    var p3 := if sides.bottom then ExtendBottom(p2) else p2;
    if sides.top then ExtendTop(p3) else p3
  }

  /** The four branches with the corrected right-hand strip. */
  function PlanChunks(start: Pos, end: Pos, sides: Sides): (p: Plan)
    ensures GrownBy(start, end, sides, p.start, p.end)
    ensures start.x <= end.x && start.y <= end.y ==> StripsInside(p)
  {
    var p0 := Plan(start, end, []);
    var p1 := if sides.left then ExtendLeft(p0) else p0;
    var p2 := if sides.right then ExtendRight(p1) else p1;
    var p3 := if sides.bottom then ExtendBottom(p2) else p2;
    if sides.top then ExtendTop(p3) else p3
  }

  /** With the corrected right-hand strip, every position the grown bounds
      add is inside some strip handed to the generator. */
  lemma PlanCoversNewTerritory(start: Pos, end: Pos, sides: Sides, q: Pos)
    requires start.x <= end.x && start.y <= end.y
    requires InBounds(q, PlanChunks(start, end, sides).start, PlanChunks(start, end, sides).end)
    requires !InBounds(q, start, end)
    ensures Covered(PlanChunks(start, end, sides).strips, q)
  {
    var p0 := Plan(start, end, []);
    var p1 := if sides.left then ExtendLeft(p0) else p0;
    var p2 := if sides.right then ExtendRight(p1) else p1;
    var p3 := if sides.bottom then ExtendBottom(p2) else p2;
    var p4 := if sides.top then ExtendTop(p3) else p3;
    assert p4 == PlanChunks(start, end, sides);
    // Each strip, once handed out, stays in the list.
    assert p1.strips <= p2.strips <= p3.strips <= p4.strips;
    if q.y > end.y {
      var i := |p3.strips|;
      assert InRect(q, p4.strips[i]);
    } else if q.y < start.y {
      var i := |p2.strips|;
      assert InRect(q, p4.strips[i]);
    } else if q.x < start.x {
      assert InRect(q, p4.strips[0]);
    } else {
      var i := |p1.strips|;
      assert InRect(q, p4.strips[i]);
    }
  }

  /** As written, the right-hand strip misses the new territory: on bounds at
      least three rows high, the column just right of the old edge grows into
      the bounds but is in no strip the generator is asked to fill. */
  lemma RightStripAsWrittenMissesNewColumn(start: Pos, end: Pos, sides: Sides)
    requires sides.right
    requires start.x <= end.x && start.y + 2 <= end.y
    ensures var p := PlanChunksAsWritten(start, end, sides);
            var q := Pos(end.x + 1, start.y + 1);
            InBounds(q, p.start, p.end) && !InBounds(q, start, end) && !Covered(p.strips, q)
  {
    var q := Pos(end.x + 1, start.y + 1);
    var p0 := Plan(start, end, []);
    var p1 := if sides.left then ExtendLeft(p0) else p0;
    var p2 := if sides.right then ExtendRightAsWritten(p1) else p1;
    var p3 := if sides.bottom then ExtendBottom(p2) else p2;
    var p4 := if sides.top then ExtendTop(p3) else p3;
    assert p4 == PlanChunksAsWritten(start, end, sides);
    forall i | 0 <= i < |p4.strips|
      ensures !InRect(q, p4.strips[i])
    {
      if i < |p1.strips| {
        assert p4.strips[i] == p1.strips[i];
      } else if i < |p2.strips| {
        assert p4.strips[i] == p2.strips[i];
      } else if i < |p3.strips| {
        assert p4.strips[i] == p3.strips[i];
      }
    }
  }

  /** No strip of the corrected planner reaches a position strictly inside
      the old bounds: chunk generation only touches the boundary lines and
      the new territory. */
  lemma StripsAvoidInterior(start: Pos, end: Pos, sides: Sides, q: Pos)
    requires Interior(q, start, end)
    ensures !Covered(PlanChunks(start, end, sides).strips, q)
  {
    var p0 := Plan(start, end, []);
    var p1 := if sides.left then ExtendLeft(p0) else p0;
    var p2 := if sides.right then ExtendRight(p1) else p1;
    var p3 := if sides.bottom then ExtendBottom(p2) else p2;
    assert Interior(q, p1.start, p1.end) && !Covered(p1.strips, q);
    assert Interior(q, p2.start, p2.end) && !Covered(p2.strips, q);
    assert Interior(q, p3.start, p3.end) && !Covered(p3.strips, q);
  }

  /** The same for the planner as written. */
  lemma StripsAsWrittenAvoidInterior(start: Pos, end: Pos, sides: Sides, q: Pos)
    requires Interior(q, start, end)
    ensures !Covered(PlanChunksAsWritten(start, end, sides).strips, q)
  {
    var p0 := Plan(start, end, []);
    var p1 := if sides.left then ExtendLeft(p0) else p0;
    var p2 := if sides.right then ExtendRightAsWritten(p1) else p1;
    var p3 := if sides.bottom then ExtendBottom(p2) else p2;
    assert Interior(q, p1.start, p1.end) && !Covered(p1.strips, q);
    assert Interior(q, p2.start, p2.end) && !Covered(p2.strips, q);
    assert Interior(q, p3.start, p3.end) && !Covered(p3.strips, q);
  }

  /** The generator applied to each strip in turn. */
  function StampAll(m: map<Pos, Tile>, strips: seq<Rect>, gen: Rect -> seq<Tile>): (m': map<Pos, Tile>)
    ensures m.Keys <= m'.Keys
    ensures forall p :: p in m' && p !in m ==> Covered(strips, p)
    ensures forall p :: p in m && !Covered(strips, p) ==> m'[p] == m[p]
    ensures WellKeyed(m) ==> WellKeyed(m')
    decreases |strips|
  {
    if strips == [] then m
    else
      var m1 := Stamp(m, strips[0], gen(strips[0]));
      var r := StampAll(m1, strips[1..], gen);
      assert forall p :: Covered(strips[1..], p) ==> Covered(strips, p) by {
        forall p | Covered(strips[1..], p)
          ensures Covered(strips, p)
        {
          var i :| 0 <= i < |strips[1..]| && InRect(p, strips[1..][i]);
          assert InRect(p, strips[i + 1]);
        }
      }
      r
  }

  /** `generateNewChunks` with the corrected right-hand strip, given the ants
      `getAnts()` returns and the generator's output for each strip. */
  function GenerateNewChunks(w: World, ants: seq<Ant>, gen: Rect -> seq<Tile>): (r: World)
    ensures !Triggered(w.start, w.end, ants).Any() ==> r == w
    ensures GrownBy(w.start, w.end, Triggered(w.start, w.end, ants), r.start, r.end)
    ensures w.tiles.Keys <= r.tiles.Keys
    ensures w.start.x <= w.end.x && w.start.y <= w.end.y ==>
              forall p :: p in r.tiles && p !in w.tiles ==> InBounds(p, r.start, r.end)
    ensures WellKeyed(w.tiles) ==> WellKeyed(r.tiles)
    ensures forall p :: p in w.tiles && Interior(p, w.start, w.end) ==> r.tiles[p] == w.tiles[p]
  {
    var sides := Triggered(w.start, w.end, ants);
    if !sides.Any() then w
    else
      var plan := PlanChunks(w.start, w.end, sides);
      var tiles := StampAll(w.tiles, plan.strips, gen);
      assert forall p :: p in w.tiles && Interior(p, w.start, w.end) ==> tiles[p] == w.tiles[p] by {
        forall p | p in w.tiles && Interior(p, w.start, w.end)
          ensures tiles[p] == w.tiles[p]
        {
          StripsAvoidInterior(w.start, w.end, sides, p);
        }
      }
      assert w.start.x <= w.end.x && w.start.y <= w.end.y ==>
               forall p :: p in tiles && p !in w.tiles ==> InBounds(p, plan.start, plan.end) by {
        if w.start.x <= w.end.x && w.start.y <= w.end.y {
          forall p | p in tiles && p !in w.tiles
            ensures InBounds(p, plan.start, plan.end)
          {
            var i :| 0 <= i < |plan.strips| && InRect(p, plan.strips[i]);
          }
        }
      }
      World(tiles, plan.start, plan.end)
  }

  /** `generateNewChunks` as written, with the one-column right-hand strip. */
  function GenerateNewChunksAsWritten(w: World, ants: seq<Ant>, gen: Rect -> seq<Tile>): (r: World)
    ensures !Triggered(w.start, w.end, ants).Any() ==> r == w
    ensures GrownBy(w.start, w.end, Triggered(w.start, w.end, ants), r.start, r.end)
    ensures w.tiles.Keys <= r.tiles.Keys
    ensures WellKeyed(w.tiles) ==> WellKeyed(r.tiles)
    ensures forall p :: p in w.tiles && Interior(p, w.start, w.end) ==> r.tiles[p] == w.tiles[p]
  {
    var sides := Triggered(w.start, w.end, ants);
    if !sides.Any() then w
    else
      var plan := PlanChunksAsWritten(w.start, w.end, sides);
      var tiles := StampAll(w.tiles, plan.strips, gen);
      assert forall p :: p in w.tiles && Interior(p, w.start, w.end) ==> tiles[p] == w.tiles[p] by {
        forall p | p in w.tiles && Interior(p, w.start, w.end)
          ensures tiles[p] == w.tiles[p]
        {
          StripsAsWrittenAvoidInterior(w.start, w.end, sides, p);
        }
      }
      World(tiles, plan.start, plan.end)
  }

  /** Bounds never shrink: `startPoint` components never increase and
      `endPoint` components never decrease. */
  lemma GenerateNewChunksOnlyGrows(w: World, ants: seq<Ant>, gen: Rect -> seq<Tile>)
    ensures GenerateNewChunks(w, ants, gen).start.x <= w.start.x
    ensures GenerateNewChunks(w, ants, gen).start.y <= w.start.y
    ensures GenerateNewChunks(w, ants, gen).end.x >= w.end.x
    ensures GenerateNewChunks(w, ants, gen).end.y >= w.end.y
  {
  }

  /** One tick of `Grid.update` as written: the removal sweep, then chunk
      generation (with the one-column right-hand strip) driven by the ants
      of the nests that survived. `order` is the iteration order of the
      swept map. */
  function Update(w: World, nestDone: Tile -> bool, otherExpires: Tile -> bool,
                  order: seq<Pos>, gen: Rect -> seq<Tile>): (r: World)
    requires Enumerates(order, Sweep(w.tiles, nestDone, otherExpires).Keys)
    ensures r.start.x <= w.start.x && r.start.y <= w.start.y
    ensures r.end.x >= w.end.x && r.end.y >= w.end.y
    ensures Sweep(w.tiles, nestDone, otherExpires).Keys <= r.tiles.Keys
    ensures WellKeyed(w.tiles) ==> WellKeyed(r.tiles)
    ensures forall p :: p in Sweep(w.tiles, nestDone, otherExpires) && Interior(p, w.start, w.end) ==> r.tiles[p] == w.tiles[p]
  {
    var swept := Sweep(w.tiles, nestDone, otherExpires);
    assert WellKeyed(w.tiles) ==> WellKeyed(swept);
    GenerateNewChunksAsWritten(w.(tiles := swept), GetAnts(swept, order), gen)
  }

  /** The tick with the corrected right-hand strip: in addition, every tile
      it adds lies within the grown bounds. */
  function UpdateCorrected(w: World, nestDone: Tile -> bool, otherExpires: Tile -> bool,
                           order: seq<Pos>, gen: Rect -> seq<Tile>): (r: World)
    requires Enumerates(order, Sweep(w.tiles, nestDone, otherExpires).Keys)
    ensures r.start.x <= w.start.x && r.start.y <= w.start.y
    ensures r.end.x >= w.end.x && r.end.y >= w.end.y
    ensures Sweep(w.tiles, nestDone, otherExpires).Keys <= r.tiles.Keys
    ensures w.start.x <= w.end.x && w.start.y <= w.end.y ==>
              forall p :: p in r.tiles && p !in w.tiles ==> InBounds(p, r.start, r.end)
    ensures WellKeyed(w.tiles) ==> WellKeyed(r.tiles)
    ensures forall p :: p in Sweep(w.tiles, nestDone, otherExpires) && Interior(p, w.start, w.end) ==> r.tiles[p] == w.tiles[p]
  {
    var swept := Sweep(w.tiles, nestDone, otherExpires);
    assert WellKeyed(w.tiles) ==> WellKeyed(swept);
    GenerateNewChunks(w.(tiles := swept), GetAnts(swept, order), gen)
  }

  /** On a well-keyed grid, a tile whose update does not report expiry is
      still present after the tick: the sweep keeps it and chunk generation
      only adds or overwrites. */
  lemma UpdateRemovesOnlyExpired(w: World, nestDone: Tile -> bool, otherExpires: Tile -> bool,
                                 order: seq<Pos>, gen: Rect -> seq<Tile>, p: Pos)
    requires Enumerates(order, Sweep(w.tiles, nestDone, otherExpires).Keys)
    requires WellKeyed(w.tiles)
    requires p in w.tiles
    ensures !Expires(w.tiles[p], nestDone, otherExpires) ==> p in Update(w, nestDone, otherExpires, order, gen).tiles
  {
    SweepRemovesExactlyExpired(w.tiles, nestDone, otherExpires);
  }
}
