/** The formicarium `Nest`: a fixed compatibility record, a one-shot iterator
    over itself, and `equals`/`hashCode` delegated to the compatibility. */
module FormicariumNest {
  import opened Outcomes

  /** An `int[2]` holding a lower and an upper limit. */
  datatype Range = Range(low: int, high: int)

  /** The time unit of a compatibility; the model needs only `WEEK`. */
  datatype ETime = Week | OtherTime(unit: string)

  /** `Compatibility`, compared structurally. */
  datatype Compatibility = Compatibility(size: Range, temperature: Range, humidity: Range, time: ETime)

  /** A nest object: its reference (object identity) and its compatibility. */
  datatype Nest = Nest(ref: nat, compatibility: Compatibility)

  /** The argument of `equals(Object)`: a nest, or an object of another class. */
  datatype Obj = NestObj(nest: Nest) | OtherObj(ref: nat)

  function RefOf(o: Obj): nat {
    match o
    case NestObj(n) => n.ref
    case OtherObj(r) => r
  }

  /** One reference denotes one object: an object sharing `n`'s reference is
      `n` itself. */
  ghost predicate SameRefSameObject(n: Nest, o: Obj) {
    RefOf(o) == n.ref ==> o == NestObj(n)
  }

  /** `new Nest()` with reference `ref`: size [0, 20], temperature [5, 30],
      humidity [30, 80], time `WEEK`. */
  function NewNest(ref: nat): (n: Nest)
    ensures n.ref == ref
    ensures n.compatibility.size == Range(0, 20)
    ensures n.compatibility.temperature == Range(5, 30)
    ensures n.compatibility.humidity == Range(30, 80)
    ensures n.compatibility.time == Week
  {
    // `size[0]` keeps Java's default value 0.
    Nest(ref, Compatibility(Range(0, 20), Range(5, 30), Range(30, 80), Week))
  }

  /** `equals(o)`: identity, then null and class checks, then the
      compatibilities. */
  function Equals(n: Nest, o: Option<Obj>): (r: bool)
    ensures o == Some(NestObj(n)) ==> r
    ensures o.None? ==> !r
    ensures o.Some? && o.value.OtherObj? && o.value.ref != n.ref ==> !r
    ensures o.Some? && o.value.NestObj? && o.value.nest.ref != n.ref ==>
              (r <==> n.compatibility == o.value.nest.compatibility)
  {
    if o.Some? && RefOf(o.value) == n.ref then true
    else if o.None? || !o.value.NestObj? then false
    else n.compatibility == o.value.nest.compatibility
  }

  /** `hashCode()`: the compatibility's hash, whose definition is not part of
      this model and is given as `hash`. */
  function HashCode(n: Nest, hash: Compatibility -> int): (h: int)
    ensures forall m: Nest :: m.compatibility == n.compatibility ==> h == hash(m.compatibility)
  {
    hash(n.compatibility)
  }

  /** `equals` is reflexive and false for null and for objects of another
      class; between nests it holds iff the compatibilities agree. */
  lemma EqualsCharacterised(n: Nest, o: Obj)
    requires SameRefSameObject(n, o)
    ensures Equals(n, Some(NestObj(n)))
    ensures !Equals(n, None)
    ensures o.OtherObj? ==> !Equals(n, Some(o))
    ensures o.NestObj? ==> (Equals(n, Some(o)) <==> n.compatibility == o.nest.compatibility)
  {
  }

  /** Between nests `equals` is symmetric and transitive. */
  lemma EqualsIsEquivalence(a: Nest, b: Nest, c: Nest)
    requires SameRefSameObject(a, NestObj(b)) && SameRefSameObject(b, NestObj(c))
    requires SameRefSameObject(a, NestObj(c))
    ensures Equals(a, Some(NestObj(b))) <==> Equals(b, Some(NestObj(a)))
    ensures Equals(a, Some(NestObj(b))) && Equals(b, Some(NestObj(c))) ==> Equals(a, Some(NestObj(c)))
  {
  }

  /** Equal nests have equal hash codes, whatever the compatibility hash. */
  lemma EqualNestsHashEqually(a: Nest, b: Nest, hash: Compatibility -> int)
    requires SameRefSameObject(a, NestObj(b))
    requires Equals(a, Some(NestObj(b)))
    ensures HashCode(a, hash) == HashCode(b, hash)
  {
  }

  /** Any two new nests are equal and hash alike: they share the constants. */
  lemma NewNestsAreEqual(r1: nat, r2: nat, hash: Compatibility -> int)
    ensures Equals(NewNest(r1), Some(NestObj(NewNest(r2))))
    ensures HashCode(NewNest(r1), hash) == HashCode(NewNest(r2), hash)
  {
  }

  // ---------------------------------------------------------------------
  // NestIterator

  datatype NestIterator<P> = NestIterator(hasNext: bool, item: P)

  /** The iterator after `next()`, and the element returned. */
  datatype NestStep<P> = NestStep(iter: NestIterator<P>, item: P)

  /** The items the iterator has still to return. */
  function Remaining<P>(it: NestIterator<P>): seq<P> {
    if it.hasNext then [it.item] else []
  }

  /** `iterator()`: a `NestIterator` over the nest itself. */
  function Iterator(n: Nest): (it: NestIterator<Nest>)
    ensures Remaining(it) == [n]
  {
    NestIterator(true, n)
  }

  function HasNext<P>(it: NestIterator<P>): (b: bool)
    ensures b <==> Remaining(it) != []
  {
    it.hasNext
  }

  /** `next()`: the item once, then `NoSuchElementException`. */
  function Next<P>(it: NestIterator<P>): (r: Result<NestStep<P>>)
    ensures r.Ok? <==> Remaining(it) != []
    ensures r.Err? ==> r.fault == NoSuchElement
    ensures r.Ok? ==> r.value.item == Remaining(it)[0] && Remaining(r.value.iter) == Remaining(it)[1..]
  {
    if !it.hasNext then Err(NoSuchElement)
    else Ok(NestStep(it.(hasNext := false), it.item))
  }

  /** A nest's iterator yields the nest exactly once: the first `next()`
      returns it and exhausts the iterator, the second throws. */
  lemma IteratorYieldsNestOnce(n: Nest)
    ensures HasNext(Iterator(n))
    ensures Next(Iterator(n)).Ok? && Next(Iterator(n)).value.item == n
    ensures !HasNext(Next(Iterator(n)).value.iter)
    ensures Next(Next(Iterator(n)).value.iter) == Err(NoSuchElement)
  {
  }
}
