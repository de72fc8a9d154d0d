# Ant simulation grid, formicarium registry and linked list — a Dafny model

This project models, in Dafny, the core of a Java course project about ants.
It has two parts:

- **The ant simulation world.** `Grid` is a sparse, growing map from positions
  to tiles: plain cells, food sources, obstacles and nests that own ants. The
  model covers:
  - the constructor's bounds;
  - the lazy `getTile`, and `putTile` / `removeTile`;
  - the removal sweep of one `update` tick;
  - the read-only views `getNests`, `getAnts` and `queue`;
  - `generateNewChunks`, the chunk extension that grows the world by 20
    cells on every side where an ant stands on the boundary line.

  `FoodSource` is a Java `int` counter of food. It starts at 200.
  `decreaseFoodAmount` and `update` report on that counter, and `update`
  reports one tick late.
- **The formicarium exercise.** This part has three pieces:
  - `OurLinkedList`: a singly linked list with a separate `size` counter,
    and an iterator;
  - `Institute`: a duplicate-free registry of formicaria kept in such a
    list;
  - the formicarium `Nest` (Aufgabe4): fixed compatibility ranges, a one-shot
    iterator over itself, and `equals`/`hashCode` that delegate to the
    compatibility.

Every mutating Java method becomes a pure function that returns the new state.
Java exceptions and `null` results become `Result`/`Option` values (module
`Outcomes`). Inputs the Java code draws from places this model does not
contain are passed in as parameters:

- the hash map's iteration order is `order`, constrained by `Grid.Enumerates`
  to list every key exactly once;
- the random generator's output is `placed` or `gen`;
- a nest's colony-termination decision is `nestDone`;
- the update outcome of plain tiles and obstacles is `otherExpires`;
- the scent of non-food tiles is `stinkOf`;
- a formicarium's `getName` is `nameOf`;
- the compatibility's `hashCode` is `hash`.

Modules, one per source component:

- `Outcomes`;
- `Geometry`, for positions and Java's truncating division;
- `FoodSource`;
- `Grid`;
- `Chunks`, for `generateNewChunks` and the whole `update` tick;
- `LinkedList`;
- `Institute`;
- `FormicariumNest`.

The model follows the code where its documentation says otherwise, and makes
one fact about chunk growth explicit:

- **FoodSource `update`.** Its Javadoc (`FoodSource.java:54`) says it returns
  true "if there is foodAmount left". The code returns `foodAmount < 0`,
  which asks the grid to remove the source.
- **Chunk strips.** Every one of the four strips handed to the generator
  includes the old boundary line on its side. The left, bottom and top
  strips start or end on it. The right strip as written is exactly the old
  edge column, and the corrected one starts at that column. The generator
  may therefore overwrite tiles on the old boundary line. Only tiles
  strictly inside the old bounds are left alone.

## Model

| member | source | states |
|---|---|---|
| `Geometry.TruncDiv` | Aufgabe1-3/Grid.java:25-26 | Java's `/` by a positive divisor: the quotient's magnitude is the floor of the magnitude ratio, with the dividend's sign (rounds toward zero) |
| `Geometry.TruncDivIsOdd` | Aufgabe1-3/Grid.java:25-26 | `(-a)/d == -(a/d)` in Java, which is why the grid's start corner is exactly the negated end corner |
| `Geometry.TruncDivDiffersFromEuclidean` | Aufgabe1-3/Grid.java:25-26 | `-5 / 2` is -2 in Java but -3 under Dafny's `/`, so the constructor must not use Dafny's division |
| `Grid.DefaultTile` | Aufgabe1-3/Grid.java:154 | `new Tile(position)` is a plain cell at exactly that position |
| `FoodSource.New` | Aufgabe1-3/FoodSource.java:10-19 | a new food source holds 200 units |
| `FoodSource.DecreaseFoodAmount` | Aufgabe1-3/FoodSource.java:46-49 | one unit is taken (a Java `int` wraps from MIN_VALUE to MAX_VALUE); the result says whether a positive amount is left |
| `FoodSource.Update` | Aufgabe1-3/FoodSource.java:57-59 | the tick asks for removal exactly when the amount is below zero, so a source at exactly 0 is kept, despite the Javadoc that says "true if there is foodAmount left" |
| `FoodSource.CurrentStink` | Aufgabe1-3/FoodSource.java:27-29 | a food source always smells 100, whichever nest asks, so it is never a faint-scent tile |
| `FoodSource.DecreaseTimesLowersBy` | Aufgabe1-3/FoodSource.java:46-49 | without wrap-around, k harvests lower the amount by exactly k |
| `FoodSource.RemovalFirstAfterOneMoreHarvest` | Aufgabe1-3/FoodSource.java:46-59 | a source with q units asks for removal after k ≤ q+1 harvests iff k = q+1: a source at exactly zero is kept |
| `FoodSource.NewSourceRemovedAfter201` | Aufgabe1-3/FoodSource.java:10-59 | a new source is not removed during its first 200 harvests and is removed after the 201st |
| `FoodSource.LastUnitLingersOneTick` | Aufgabe1-3/FoodSource.java:46-59 | taking the last unit reports "empty" while `update` still keeps the source; one more harvest makes it ask for removal |
| `FoodSource.WrapAroundRevivesSource` | Aufgabe1-3/FoodSource.java:46-59 | harvesting a source at Integer.MIN_VALUE wraps it to MAX_VALUE: it reports food again and is no longer removed |
| `Grid.Stamp` | Aufgabe1-3/Grid.java:36-37 | the generator's writes touch only positions inside its rectangle, add every placed tile inside it, keep older keys, and store each tile under its own position |
| `Grid.New` | Aufgabe1-3/Grid.java:24-37 | the bounds are centred (start = −end), `end` is half the width/height rounded down, start ≤ end, and every generated tile lies within the bounds under its own position |
| `Grid.PutTile` | Aufgabe1-3/Grid.java:177-179 | the tile is stored under its own position; every other entry and the bounds are unchanged |
| `Grid.GetTile` | Aufgabe1-3/Grid.java:151-159 | returns the stored tile; an absent position gets a fresh default tile stored under exactly that position; no existing entry changes |
| `Grid.GetTilePresentIsRead` | Aufgabe1-3/Grid.java:151-159 | on a present position `getTile` changes nothing |
| `Grid.GetTileTwice` | Aufgabe1-3/Grid.java:151-159 | a second `getTile` of the same position returns the same tile and changes nothing further |
| `Grid.PutThenGetReadsBack` | Aufgabe1-3/Grid.java:151-179 | `getTile` after `putTile` returns the tile that was put and inserts nothing |
| `Grid.RemoveTile` | Aufgabe1-3/Grid.java:167-169 | exactly the tile's position leaves the map; the rest and the bounds are unchanged |
| `Grid.RemoveTileIdempotent` | Aufgabe1-3/Grid.java:167-169 | removing an absent tile has no effect, so a second removal changes nothing |
| `Grid.PutThenRemoveRestores` | Aufgabe1-3/Grid.java:167-179 | `removeTile` undoes a `putTile` at a free position |
| `Grid.Expires` | Aufgabe1-3/Grid.java:63-80 | the removal decision per tile: a nest by its colony termination, a food source iff its amount is below zero |
| `Grid.Removals` | Aufgabe1-3/Grid.java:63-80 | on a well-keyed map, `removingItems` holds exactly the positions whose tile expires |
| `Grid.Populate` | Aufgabe1-3/Grid.java:261-274 | `generateFoodSources`/`generateNests` keep the bounds, add tiles only inside them, and leave tiles outside them alone |
| `Grid.Sweep` | Aufgabe1-3/Grid.java:63-82 | the sweep only deletes; every expiring non-nest tile and every terminated nest's position is gone |
| `Grid.SweepRemovesExactlyExpired` | Aufgabe1-3/Grid.java:63-82 | on a well-keyed map, a position survives iff its tile's update does not report expiry |
| `Grid.FoodSurvivesWhileNotNegative` | Aufgabe1-3/Grid.java:72-82 | a food tile survives the sweep iff its amount is ≥ 0 |
| `Grid.Collect` | Aufgabe1-3/Grid.java:94-98 | one `map.forEach` pass yields only selected tiles of the map, and every selected tile of the visited keys |
| `Grid.CollectCountsOnce` | Aufgabe1-3/Grid.java:94-98 | over a duplicate-free key order, each selected tile appears exactly once and unselected ones never |
| `Grid.ScentPassesSplitOrder` | Aufgabe1-3/Grid.java:128-134 | the faint-scent and salient-scent lists together are as long as the map |
| `Grid.GetNests` | Aufgabe1-3/Grid.java:91-101 | the result holds exactly the nest tiles of the map |
| `Grid.GetNestsListsEachNestOnce` | Aufgabe1-3/Grid.java:91-101 | each nest is listed exactly once |
| `Grid.AntsOfNests` | Aufgabe1-3/Grid.java:110 | the concatenated ants are exactly the ants owned by some listed nest |
| `Grid.GetAnts` | Aufgabe1-3/Grid.java:108-112 | an ant is returned iff some nest on the grid owns it |
| `Grid.Queue` | Aufgabe1-3/Grid.java:123-142 | the queue holds one entry per tile plus one per ant, ordered faint-scent tiles, then ants, then the other tiles |
| `Grid.QueueHoldsEachTileOnce` | Aufgabe1-3/Grid.java:123-142 | every tile of the map occurs in the queue exactly once |
| `Grid.QueueAntsAreGetAnts` | Aufgabe1-3/Grid.java:123-142 | the ants in the queue are `getAnts()`, in the same order |
| `Grid.FoodQueuedAfterAnts` | Aufgabe1-3/Grid.java:123-142 | every food source is queued after every ant |
| `Chunks.PlanChunksAsWritten` | Aufgabe1-3/Grid.java:186-255 | each triggered side moves out by exactly 20 cells and no other coordinate moves; every strip lies inside the new bounds |
| `Chunks.Triggered` | Aufgabe1-3/Grid.java:190-200 | some side grows iff some ant lies on one of the four boundary lines |
| `Chunks.ExtendLeft` | Aufgabe1-3/Grid.java:204-215 | the left branch moves start.x out by exactly 20 and no other coordinate, keeps earlier strips, and its strip covers every position the growth adds; interior positions stay uncovered |
| `Chunks.ExtendRightAsWritten` | Aufgabe1-3/Grid.java:217-228 | the right branch as written moves end.x out by exactly 20 and no other coordinate, but its strip holds only the old edge column x = end.x |
| `Chunks.ExtendRight` | Aufgabe1-3/Grid.java:217-228 | the corrected right branch moves end.x out by exactly 20 and no other coordinate, and its strip covers every position the growth adds |
| `Chunks.ExtendBottom` | Aufgabe1-3/Grid.java:230-241 | the bottom branch moves start.y out by exactly 20 and no other coordinate, and its strip covers every position the growth adds |
| `Chunks.ExtendTop` | Aufgabe1-3/Grid.java:243-254 | the top branch moves end.y out by exactly 20 and no other coordinate, and its strip covers every position the growth adds |
| `Chunks.PlanChunks` | Aufgabe1-3/Grid.java:186-255 | the same bounds growth, with the right-hand strip reaching the new right edge |
| `Chunks.PlanCoversNewTerritory` | Aufgabe1-3/Grid.java:204-254 | with the corrected strip, every position the growth adds lies in some strip handed to the generator |
| `Chunks.RightStripAsWrittenMissesNewColumn` | Aufgabe1-3/Grid.java:217-228 | as written, the column just right of the old right edge is in the new bounds but in no generated strip |
| `Chunks.StripsAvoidInterior` | Aufgabe1-3/Grid.java:204-254 | no strip of the corrected branches reaches a position strictly inside the old bounds |
| `Chunks.StripsAsWrittenAvoidInterior` | Aufgabe1-3/Grid.java:204-254 | no strip as written reaches a position strictly inside the old bounds |
| `Chunks.StampAll` | Aufgabe1-3/Grid.java:202-254 | the generator calls only add positions inside the strips and leave tiles outside them alone |
| `Chunks.GenerateNewChunks` | Aufgabe1-3/Grid.java:186-255 | the corrected version: with no ant on a boundary line nothing changes; otherwise the bounds grow by the triggered sides, no key is lost, new keys lie within the new bounds, and tiles strictly inside the old bounds are unchanged |
| `Chunks.GenerateNewChunksAsWritten` | Aufgabe1-3/Grid.java:186-255 | as written: the same trigger and bounds growth, no key lost, tiles still stored under their own positions, and tiles strictly inside the old bounds unchanged |
| `Chunks.GenerateNewChunksOnlyGrows` | Aufgabe1-3/Grid.java:204-254 | the start corner never increases and the end corner never decreases |
| `Chunks.Update` | Aufgabe1-3/Grid.java:56-84 | one tick as written (sweep, then `generateNewChunks` with the one-column right strip): the bounds only grow, every key that survives the sweep is still present, tiles stay stored under their own positions, and surviving tiles strictly inside the old bounds keep their value, while tiles on the old boundary line may be overwritten by the generator |
| `Chunks.UpdateCorrected` | Aufgabe1-3/Grid.java:56-84 | the same tick with the corrected right strip and the same guarantees; in addition, every tile it adds lies within the grown bounds |
| `Chunks.UpdateRemovesOnlyExpired` | Aufgabe1-3/Grid.java:56-84 | a tile whose update does not report expiry is still present after the tick |
| `LinkedList.Empty` | Aufgabe6/OurLinkedList.java:33-36 | a new list has no elements and a consistent counter |
| `LinkedList.AppendNode` | Aufgabe6/OurLinkedList.java:44-53 | walking to the last node and linking behind it appends the item |
| `LinkedList.Add` | Aufgabe6/OurLinkedList.java:43-55 | the item goes to the end, the earlier elements are kept, and the counter grows by one |
| `LinkedList.ChainContains` | Aufgabe6/OurLinkedList.java:63-72 | the walk finds the item iff it is an element |
| `LinkedList.Contains` | Aufgabe6/OurLinkedList.java:63-72 | true iff some element equals the item |
| `LinkedList.Get` | Aufgabe6/OurLinkedList.java:80-90 | returns the element at an index in `[0, size)` and null otherwise, on every list whose counter does not exceed its node count, including one left by the as-written iterator `remove()` on a list not changed while the iterator was open |
| `LinkedList.FirstIndex` | Aufgabe6/OurLinkedList.java:102-103 | the position of the first element equal to the item |
| `LinkedList.ChainRemoveFirst` | Aufgabe6/OurLinkedList.java:98-116 | unlinks the first equal node; reports whether one was found and otherwise leaves the chain as it was |
| `LinkedList.Remove` | Aufgabe6/OurLinkedList.java:98-116 | returns true iff the item is present; deletes only its first occurrence and lowers the counter; an absent item changes nothing |
| `LinkedList.AddThenRemoveRestores` | Aufgabe6/OurLinkedList.java:43-116 | `remove` undoes an `add` of an item the list did not hold |
| `LinkedList.ChainRemoveAt` | Aufgabe6/OurLinkedList.java:127-137 | unlinking node i deletes exactly element i and keeps the others in order |
| `LinkedList.RemoveAt` | Aufgabe6/OurLinkedList.java:123-139 | throws IndexOutOfBounds iff the index is outside `[0, size)`; otherwise deletes exactly that element, lowers the counter, and keeps the counter bounded (and exact if it was) |
| `LinkedList.ChainSet` | Aufgabe6/OurLinkedList.java:150-154 | replaces element i and nothing else |
| `LinkedList.Set` | Aufgabe6/OurLinkedList.java:146-155 | throws IndexOutOfBounds iff the index is outside `[0, size)`; otherwise replaces only that element and leaves the counter alone |
| `LinkedList.Size` | Aufgabe6/OurLinkedList.java:161-163 | the number of elements when the counter is consistent; while the counter does not exceed the node count, never more than the number of elements |
| `LinkedList.Iterator` | Aufgabe6/OurLinkedList.java:170-174 | a new iterator starts at the head with nothing returned yet |
| `LinkedList.HasNext` | Aufgabe6/OurLinkedList.java:181-183 | true iff elements remain |
| `LinkedList.Next` | Aufgabe6/OurLinkedList.java:190-199 | throws NoSuchElement iff nothing remains; otherwise returns the next element and advances by one |
| `LinkedList.AdvanceYieldsInOrder` | Aufgabe6/OurLinkedList.java:190-199 | k calls of `next()` return the next k elements in order |
| `LinkedList.IterationVisitsListInOrder` | Aufgabe6/OurLinkedList.java:170-199 | a for-each over the list visits exactly its elements in order, then `next()` throws |
| `LinkedList.IterRemoveAsWritten` | Aufgabe6/OurLinkedList.java:206-217 | `remove()` throws IllegalState iff `next()` has not been called since the last removal; the counter never exceeds the node count afterwards |
| `LinkedList.IterRemoveAsWrittenBreaksSize` | Aufgabe6/OurLinkedList.java:206-217 | as written, `remove()` keeps every element but lowers `size` |
| `LinkedList.IterRemoveAsWrittenOnSingleton` | Aufgabe6/OurLinkedList.java:206-217 | on `[x]`, `next()` then `remove()` leaves `[x]` with `size()` 0 |
| `LinkedList.IterRemove` | Aufgabe6/OurLinkedList.java:206-217 | the corrected `remove()` deletes exactly the element the last `next()` returned and keeps the counter and the iterator consistent |
| `Institute.New` | Aufgabe6/Institute.java:11-14 | a new institute has its name and no formicaria |
| `Institute.Add` | Aufgabe6/Institute.java:20-24 | a present formicarium changes nothing; an absent one is appended; the registry stays duplicate-free |
| `Institute.Remove` | Aufgabe6/Institute.java:37-39 | deletes the first equal formicarium and keeps the others in insertion order (one copy fewer; the only one in a duplicate-free registry); an absent one changes nothing |
| `Institute.AddThenRemoveRestores` | Aufgabe6/Institute.java:20-39 | `remove` undoes an `add` of a new formicarium |
| `Institute.ReplayKeepsRegistryDistinct` | Aufgabe6/Institute.java:20-39 | any sequence of `add`/`remove` keeps the registry duplicate-free and its counter consistent |
| `Institute.RegistriesFromNewAreDistinct` | Aufgabe6/Institute.java:11-39 | every registry built from a new institute is duplicate-free |
| `Institute.FirstNamed` | Aufgabe6/Institute.java:45-54 | the reference answer: none iff no formicarium has the name, else the first in order that has it |
| `Institute.GetByName` | Aufgabe6/Institute.java:45-54 | the for-each over the registry's iterator returns exactly that first match, or null |
| `FormicariumNest.NewNest` | Aufgabe4/Nest.java:10-23 | size [0, 20], temperature [5, 30], humidity [30, 80], time WEEK |
| `FormicariumNest.Equals` | Aufgabe4/Nest.java:80-85 | `equals` is true on the nest itself, false for null and for another object of another class, and for another nest true iff the compatibilities are equal |
| `FormicariumNest.HashCode` | Aufgabe4/Nest.java:88-90 | the hash code depends only on the compatibility: every nest with the same compatibility gets the same hash |
| `FormicariumNest.EqualsCharacterised` | Aufgabe4/Nest.java:80-85 | `equals` is reflexive, false for null and other classes, and between nests true iff the compatibilities are equal |
| `FormicariumNest.EqualsIsEquivalence` | Aufgabe4/Nest.java:80-85 | between nests `equals` is symmetric and transitive |
| `FormicariumNest.EqualNestsHashEqually` | Aufgabe4/Nest.java:80-90 | equal nests have equal hash codes |
| `FormicariumNest.NewNestsAreEqual` | Aufgabe4/Nest.java:10-90 | any two new nests are equal and hash alike |
| `FormicariumNest.Iterator` | Aufgabe4/Nest.java:39-41 | the iterator has exactly one item left, the nest itself |
| `FormicariumNest.HasNext` | Aufgabe4/Nest.java:59-61 | true iff an item remains |
| `FormicariumNest.Next` | Aufgabe4/Nest.java:70-76 | throws NoSuchElement iff nothing remains; otherwise returns the remaining item and leaves nothing |
| `FormicariumNest.IteratorYieldsNestOnce` | Aufgabe4/Nest.java:39-76 | the nest's iterator yields the nest exactly once, then throws |

## Left out

- Randomness: the generator's random counts and placements are the inputs `placed`/`gen`. The generator's internals are not part of this model; only its effect is, which is writing tiles inside the given rectangle.
- Parallel streams and the concurrent map: the two passes of `update` are modelled as one deterministic sweep. The result does not depend on the visiting order. The `CopyOnWriteArrayList` and `ConcurrentHashMap` mechanics are not modelled.
- The per-tile `update()` side effects are not modelled. These include moving ants, scent decay and spawning inside nests. Only the removal decision is modelled (`nestDone`, `FoodSource.Update`, `otherExpires`), and the sweep itself keeps tile payloads unchanged.
- Nest.update in Aufgabe1-3 (nest update and ant termination): not part of this model. Its outcome is the input `nestDone`.
- Floating-point scent values are modelled as `real`; colours (`getColor`) and logging (`System.out.println`) are left out.
- `getMap` is a plain accessor and is left out.
- Tile, Ant, Vector, Generator, Compatibility, Formicarium and FormicariumPart are not part of this model:
  - a tile is a position plus a variant tag;
  - an ant is a position;
  - `Compatibility.equals` is structural equality;
  - `Compatibility.hashCode` is the parameter `hash`.
- `toString` of the institute, `getFormicariums` (an accessor), ACSCalculatorOptions, AlreadySetException and the test drivers are left out.
- Object identity is a reference number, `ref`, and an object with the same reference as a nest is that nest (`FormicariumNest.SameRefSameObject`). Nothing is said about objects that break this.
- `LinkedList.Contains`: element equality is Dafny's `==` where Java calls the stored element's `equals`. A type parameter stands for its values up to `equals`, so elements that are `equals`-equal must be the same value.
- `LinkedList.Remove`: the same equality, for the same reason.
- `Institute.Add`, `Institute.Remove`: the same equality. A registry of Aufgabe4 nests must therefore be instantiated with their compatibilities, not with `FormicariumNest.Nest` values, whose references differ.
- `FormicariumNest.EqualsIsEquivalence`, `FormicariumNest.NewNestsAreEqual`: these hold because `Compatibility` is compared structurally, by the values of its ranges and time unit. Compatibility.java is not part of this model. If its `equals` compared the `int[]` arrays by reference, two new nests would not be equal.
- The list's and the institute's `size` counters are unbounded integers. A Java `int` overflow after 2^31 additions is not modelled.
- `LinkedList.Get`: requires that the counter does not exceed the node count. Every list operation keeps this, and so does the as-written iterator `remove()` as long as the list is not changed while the iterator is open (see the `LinkedList.Iterator` line below). A larger counter is not covered; Java would hit a NullPointerException on it.
- `LinkedList.RemoveAt`, `LinkedList.Set`: the same requires, for the same reason.
- `LinkedList.Iterator`, `LinkedList.IterRemoveAsWritten`: an iterator carries its own copy of the list, so iterators are modelled only for lists that are not changed outside the iterator while it is open. Java's iterator works on the list's live `head`, `size` and node links. For example, on `[a]`, `next()`, then `add(b)`, `add(c)`, then the iterator's `remove()` sets `a.next = null`. That unlinks b and c while `size` drops from 3 to 2, and a later `get(1)` throws a NullPointerException.
- Null elements: the list and the registry hold no null element. In Java, `contains` and `remove` call `equals` on each stored element (`OurLinkedList.java:66`, `103`), so a stored null makes them throw a NullPointerException. `Institute.add(null)` followed by any `add` does this. `getByName` likewise calls `getName().equals(name)` (`Institute.java:49`) and throws when a stored formicarium has a null name.
- `Chunks.GenerateNewChunksOnlyGrows`, `Chunks.Update`, `Chunks.UpdateCorrected`: the bounds arithmetic `± chunkSize` (`Grid.java:206`, `220`, `232`, `246`) is on unbounded integers. Vector is not part of this model; if its coordinates are Java `int`s, a side wraps around after about 10^8 extensions, and "the bounds only grow" fails there.
- `LinkedList.IterRemove`: requires the well-formedness of iterators produced by `iterator()`/`next()`, so iterators that are built by hand are not covered.
- `Chunks.GenerateNewChunks`, `Chunks.UpdateCorrected`: say that new keys lie within the new bounds only when the old bounds are non-empty (start ≤ end), which every constructed grid satisfies.
- `Grid.GetNests`: the iteration order of the map is not pinned down. Only the contents, and that each nest is listed once, are stated.
- `Grid.Queue`: same for the order within each bucket.

## Findings

| source | as written | input that shows it | evidently intended | confidence | as-written member | corrected member |
|---|---|---|---|---|---|---|
| Aufgabe1-3/Grid.java:222-223 | the right-hand strip handed to the generator runs from `(endPoint.x, startPoint.y)` to the old `endPoint`, a single column on the old edge | bounds (-5,-5)..(5,5) with an ant at x = 5: the bounds grow to x = 25, but (6,-4) lies in no strip: the columns x = 6..24 over the old rows are never handed to the generator | the strip should end at the new end point, as the top branch's strip does | not executed | `Chunks.PlanChunksAsWritten`, `Chunks.Update`, `Chunks.RightStripAsWrittenMissesNewColumn` | `Chunks.PlanChunks`, `Chunks.UpdateCorrected`, `Chunks.PlanCoversNewTerritory` |
| Aufgabe6/OurLinkedList.java:210-216 | the iterator's `remove()` sets `prev.next = current`, but `prev` is the node just returned and already links to `current`, so nothing is unlinked while the list is not changed between `next()` and `remove()`; `size--` runs anyway | list `[x]`: `next()` then `remove()` leaves `[x]` in the list while `size()` returns 0 | unlink the node last returned by `next()` and keep `size` equal to the node count | not executed | `LinkedList.IterRemoveAsWritten`, `LinkedList.IterRemoveAsWrittenOnSingleton` | `LinkedList.IterRemove` |
