/** `OurLinkedList`: a singly linked list of nodes with a separately kept
    `size` counter, and its iterator. The node chain is an immutable
    datatype; each mutating operation returns the list it leaves behind.
    Element equality (`equals`) is Dafny's `==` on the element type. */
module LinkedList {
  import opened Outcomes

  /** The node chain from `head`; `Nil` is the null reference. */
  datatype Chain<T> = Nil | Node(data: T, next: Chain<T>)

  datatype List<T> = List(head: Chain<T>, size: int)

  /** The elements of a chain, in link order. */
  function Elems<T>(c: Chain<T>): seq<T> {
    match c
    case Nil => []
    case Node(d, n) => [d] + Elems(n)
  }

  /** The class invariant: the counter equals the number of nodes. */
  predicate Valid<T>(l: List<T>) {
    l.size == |Elems(l.head)|
  }

  /** The weaker fact every operation keeps, including the iterator's
      `remove()` as written: the counter never exceeds the node count, so
      an index below `size` always reaches a node. */
  predicate CounterBounded<T>(l: List<T>) {
    l.size <= |Elems(l.head)|
  }

  /** `new OurLinkedList()`. */
  function Empty<T>(): (l: List<T>)
    ensures Valid(l) && CounterBounded(l) && Elems(l.head) == []
  {
    List(Nil, 0)
  }

  /** Walks to the last node and links a new node behind it. */
  function AppendNode<T>(c: Chain<T>, x: T): (r: Chain<T>)
    ensures Elems(r) == Elems(c) + [x]
  {
    match c
    case Nil => Node(x, Nil)
    case Node(d, n) => Node(d, AppendNode(n, x))
  }

  /** `add`: the item goes to the end, everything before it stays. */
  function Add<T>(l: List<T>, x: T): (r: List<T>)
    ensures Elems(r.head) == Elems(l.head) + [x]
    ensures r.size == l.size + 1
    ensures Valid(l) ==> Valid(r)
    ensures CounterBounded(l) ==> CounterBounded(r)
  {
    List(AppendNode(l.head, x), l.size + 1)
  }

  function ChainContains<T(==)>(c: Chain<T>, x: T): (b: bool)
    ensures b <==> x in Elems(c)
  {
    match c
    case Nil => false
    case Node(d, n) => d == x || ChainContains(n, x)
  }

  /** `contains`: some element equals the item. The list is not touched
      (the result carries no list). */
  function Contains<T(==)>(l: List<T>, x: T): (b: bool)
    ensures b <==> x in Elems(l.head)
  {
    ChainContains(l.head, x)
  }

  /** `get`: walks `index` nodes; an index outside `[0, size)` gives null. */
  method Get<T>(l: List<T>, index: int) returns (r: Option<T>)
    requires CounterBounded(l)
    ensures 0 <= index < l.size ==> r == Some(Elems(l.head)[index])
    ensures !(0 <= index < l.size) ==> r == None
  {
    if index < 0 || index >= l.size {
      return None;
    }
    var current := l.head;
    var i := 0;
    while i < index
      invariant 0 <= i <= index
      invariant Elems(current) == Elems(l.head)[i..]
    {
      current := current.next;
      i := i + 1;
    }
    return Some(current.data);
  }

  /** The position of the first occurrence of `x`. */
  function FirstIndex<T(==)>(s: seq<T>, x: T): (k: nat)
    requires x in s
    ensures k < |s| && s[k] == x && x !in s[..k]
  {
    if s[0] == x then 0
    else
      var k := FirstIndex(s[1..], x);
      assert s[..k + 1] == [s[0]] + s[1..][..k];
      1 + k
  }

  /** Deleting one position of `[d] + t` past the head deletes it from `t`. */
  lemma DeleteBehindHead<T>(d: T, t: seq<T>, k: nat)
    requires k < |t|
    ensures ([d] + t)[..k + 1] + ([d] + t)[k + 2..] == [d] + (t[..k] + t[k + 1..])
  {
  }

  /** The chain after unlinking the first node holding `x`, and whether one
      was found. */
  function ChainRemoveFirst<T(==)>(c: Chain<T>, x: T): (r: (Chain<T>, bool))
    ensures r.1 <==> x in Elems(c)
    ensures !r.1 ==> r.0 == c
    ensures r.1 ==> Elems(r.0) == Elems(c)[..FirstIndex(Elems(c), x)] + Elems(c)[FirstIndex(Elems(c), x) + 1..]
  {
    match c
    case Nil => (Nil, false)
    case Node(d, n) =>
      if d == x then (n, true)
      else
        var rest := ChainRemoveFirst(n, x);
        if rest.1 then
          var t := Elems(n);
          assert Elems(c) == [d] + t;
          assert ([d] + t)[1..] == t;
          assert FirstIndex(Elems(c), x) == 1 + FirstIndex(t, x);
          DeleteBehindHead(d, t, FirstIndex(t, x));
          (Node(d, rest.0), true)
        else (c, false)
  }

  /** The list after `remove(item)` and its boolean result. */
  datatype Removal<T> = Removal(list: List<T>, removed: bool)

  /** `remove(item)`: unlinks only the first equal element; an absent item
      leaves the list as it was. */
  function Remove<T(==)>(l: List<T>, x: T): (r: Removal<T>)
    ensures r.removed <==> x in Elems(l.head)
    ensures !r.removed ==> r.list == l
    ensures r.removed ==>
              var s := Elems(l.head);
              var k := FirstIndex(s, x);
              Elems(r.list.head) == s[..k] + s[k + 1..] && r.list.size == l.size - 1
    ensures Valid(l) ==> Valid(r.list)
    ensures CounterBounded(l) ==> CounterBounded(r.list)
  {
    var c := ChainRemoveFirst(l.head, x);
    if c.1 then Removal(List(c.0, l.size - 1), true) else Removal(l, false)
  }

  /** `remove` undoes an `add` of an item the list did not hold yet. */
  lemma AddThenRemoveRestores<T>(l: List<T>, x: T)
    requires x !in Elems(l.head)
    ensures Remove(Add(l, x), x).removed
    ensures Elems(Remove(Add(l, x), x).list.head) == Elems(l.head)
    ensures Remove(Add(l, x), x).list.size == l.size
  {
    var s := Elems(l.head);
    var k := FirstIndex(s + [x], x);
    assert k == |s|;
    assert (s + [x])[..|s|] == s;
  }

  function ChainRemoveAt<T>(c: Chain<T>, i: nat): (r: Chain<T>)
    requires i < |Elems(c)|
    ensures Elems(r) == Elems(c)[..i] + Elems(c)[i + 1..]
  {
    if i == 0 then c.next
    else
      assert Elems(c)[1..] == Elems(c.next);
      Node(c.data, ChainRemoveAt(c.next, i - 1))
  }

  /** `removeAt(index)`: throws for an index outside `[0, size)`, otherwise
      unlinks exactly that element and keeps the order of the rest. */
  function RemoveAt<T>(l: List<T>, index: int): (r: Result<List<T>>)
    requires CounterBounded(l)
    ensures r.Err? <==> index < 0 || index >= l.size
    ensures r.Err? ==> r.fault == IndexOutOfBounds
    ensures r.Ok? ==>
              && CounterBounded(r.value)
              && (Valid(l) ==> Valid(r.value))
              && r.value.size == l.size - 1
              && Elems(r.value.head) == Elems(l.head)[..index] + Elems(l.head)[index + 1..]
  {
    if index < 0 || index >= l.size then Err(IndexOutOfBounds)
    else Ok(List(ChainRemoveAt(l.head, index), l.size - 1))
  }

  function ChainSet<T>(c: Chain<T>, i: nat, x: T): (r: Chain<T>)
    requires i < |Elems(c)|
    ensures Elems(r) == Elems(c)[i := x]
  {
    if i == 0 then Node(x, c.next)
    else
      assert Elems(c)[1..] == Elems(c.next);
      Node(c.data, ChainSet(c.next, i - 1, x))
  }

  /** `set(index, item)`: throws for an index outside `[0, size)`,
      otherwise replaces only that element. */
  function Set<T>(l: List<T>, index: int, x: T): (r: Result<List<T>>)
    requires CounterBounded(l)
    ensures r.Err? <==> index < 0 || index >= l.size
    ensures r.Err? ==> r.fault == IndexOutOfBounds
    ensures r.Ok? ==> r.value.size == l.size && Elems(r.value.head) == Elems(l.head)[index := x]
    ensures r.Ok? ==> CounterBounded(r.value) && (Valid(l) ==> Valid(r.value))
  {
    if index < 0 || index >= l.size then Err(IndexOutOfBounds)
    else Ok(List(ChainSet(l.head, index, x), l.size))
  }

  /** `size()`: on a valid list, the number of elements. */
  function Size<T>(l: List<T>): (n: int)
    ensures Valid(l) ==> n == |Elems(l.head)|
    ensures CounterBounded(l) ==> n <= |Elems(l.head)|
  {
    l.size
  }

  // ---------------------------------------------------------------------
  // The iterator

  /** The anonymous iterator's fields: the list it belongs to, the node
      `current` to return next, `prev` (the node returned last, `Nil` for
      null) and the `lastReturned` flag. */
  datatype Iter<T> = Iter(list: List<T>, current: Chain<T>, prev: Chain<T>, lastReturned: bool)

  /** The iterator after `next()`, and the element returned. */
  datatype Step<T> = Step(iter: Iter<T>, item: T)

  /** What holds of every iterator the list hands out and `next` advances:
      `current` is a tail of the list, and after a `next` the node `prev`
      holds the element just before that tail and links to `current`. */
  ghost predicate IterWF<T>(it: Iter<T>) {
    var s := Elems(it.list.head);
    var rest := |Elems(it.current)|;
    && rest <= |s|
    && Elems(it.current) == s[|s| - rest..]
    && (it.lastReturned ==>
          && it.prev.Node?
          && it.prev.next == it.current
          && rest < |s|
          && s[|s| - rest - 1] == it.prev.data)
  }

  /** `iterator()`: positioned at the head, nothing returned yet. */
  function Iterator<T>(l: List<T>): (it: Iter<T>)
    ensures IterWF(it)
    ensures it.list == l && Elems(it.current) == Elems(l.head) && !it.lastReturned
  {
    Iter(l, l.head, Nil, false)
  }

  function HasNext<T>(it: Iter<T>): (b: bool)
    ensures b <==> Elems(it.current) != []
  {
    it.current.Node?
  }

  /** `next()`: the element at `current`, or `NoSuchElementException` once
      the chain is exhausted. */
  function Next<T>(it: Iter<T>): (r: Result<Step<T>>)
    ensures r.Err? <==> !HasNext(it)
    ensures r.Err? ==> r.fault == NoSuchElement
    ensures r.Ok? ==>
              && r.value.item == Elems(it.current)[0]
              && Elems(r.value.iter.current) == Elems(it.current)[1..]
              && r.value.iter.list == it.list
              && r.value.iter.lastReturned
    ensures r.Ok? && IterWF(it) ==> IterWF(r.value.iter)
  {
    if !HasNext(it) then Err(NoSuchElement)
    else
      var s := Elems(it.list.head);
      assert Elems(it.current)[1..] == Elems(it.current.next);
      assert IterWF(it) ==> s[|s| - |Elems(it.current)|..][1..] == s[|s| - |Elems(it.current)| + 1..];
      Ok(Step(Iter(it.list, it.current.next, it.current, true), it.current.data))
  }

  /** `k` calls of `next()`, with the elements they return. */
  function Advance<T>(it: Iter<T>, k: nat): Result<(Iter<T>, seq<T>)>
    decreases k
  {
    if k == 0 then Ok((it, []))
    else
      match Next(it)
      case Err(f) => Err(f)
      case Ok(step) =>
        match Advance(step.iter, k - 1)
        case Err(f) => Err(f)
        case Ok(rest) => Ok((rest.0, [step.item] + rest.1))
  }

  /** While elements remain, `k` calls of `next()` succeed and return the
      next `k` elements in list order. */
  lemma {:induction false} AdvanceYieldsInOrder<T>(it: Iter<T>, k: nat)
    requires k <= |Elems(it.current)|
    ensures Advance(it, k).Ok?
    ensures Advance(it, k).value.1 == Elems(it.current)[..k]
    ensures Elems(Advance(it, k).value.0.current) == Elems(it.current)[k..]
    ensures Advance(it, k).value.0.list == it.list
    decreases k
  {
    if k > 0 {
      var step := Next(it).value;
      AdvanceYieldsInOrder(step.iter, k - 1);
      assert Elems(it.current)[..k] == [Elems(it.current)[0]] + Elems(it.current)[1..][..k - 1];
    }
  }

  /** A fresh iterator over a valid list returns its elements in order;
      `hasNext` holds before each of the first `size` calls and fails after
      them, and one more `next()` throws `NoSuchElementException`. */
  lemma IterationVisitsListInOrder<T>(l: List<T>)
    requires Valid(l)
    ensures Advance(Iterator(l), l.size).Ok?
    ensures Advance(Iterator(l), l.size).value.1 == Elems(l.head)
    ensures !HasNext(Advance(Iterator(l), l.size).value.0)
    ensures Next(Advance(Iterator(l), l.size).value.0) == Err(NoSuchElement)
    ensures forall k: nat :: k < l.size ==> Advance(Iterator(l), k).Ok? && HasNext(Advance(Iterator(l), k).value.0)
  {
    AdvanceYieldsInOrder(Iterator(l), l.size);
    forall k: nat | k < l.size
      ensures Advance(Iterator(l), k).Ok? && HasNext(Advance(Iterator(l), k).value.0)
    {
      AdvanceYieldsInOrder(Iterator(l), k);
    }
  }

  /** The iterator's `remove()` as written. After a `next()`, `prev` is the
      node just returned, and `prev.next = current` relinks it to the node it
      already points to: no node is unlinked, yet `size` drops by one. */
  function IterRemoveAsWritten<T>(it: Iter<T>): (r: Result<Iter<T>>)
    ensures r.Err? && r.fault == IllegalState <==> !it.lastReturned
    ensures r.Ok? && CounterBounded(it.list) ==> CounterBounded(r.value.list)
  {
    if !it.lastReturned then Err(IllegalState)
    else if it.prev == Nil then
      match it.list.head
      case Nil => Err(NullPointer)
      case Node(_, n) => Ok(it.(list := List(n, it.list.size - 1), lastReturned := false))
    else
      Ok(it.(list := it.list.(size := it.list.size - 1), lastReturned := false))
  }

  /** After any `next()`, the as-written `remove()` keeps every element but
      lowers the counter, so `size` no longer matches the node count. */
  lemma IterRemoveAsWrittenBreaksSize<T>(it: Iter<T>)
    requires IterWF(it) && it.lastReturned && Valid(it.list)
    ensures IterRemoveAsWritten(it).Ok?
    ensures Elems(IterRemoveAsWritten(it).value.list.head) == Elems(it.list.head)
    ensures IterRemoveAsWritten(it).value.list.size == it.list.size - 1
    ensures !Valid(IterRemoveAsWritten(it).value.list)
  {
  }

  /** The concrete case: on the list `[x]`, `next()` then `remove()` leaves
      the node in place while `size()` reports 0. */
  lemma IterRemoveAsWrittenOnSingleton<T>(x: T)
    ensures var it := Next(Iterator(Add(Empty(), x))).value.iter;
            var r := IterRemoveAsWritten(it).value.list;
            r.size == 0 && Elems(r.head) == [x]
  {
  }

  /** `remove()` that unlinks the element returned by the last `next()`:
      it throws `IllegalStateException` unless `next()` was called since the
      last removal, and otherwise deletes exactly that element. */
  function IterRemove<T>(it: Iter<T>): (r: Result<Iter<T>>)
    requires IterWF(it)
    ensures r.Err? <==> !it.lastReturned
    ensures r.Err? ==> r.fault == IllegalState
    ensures r.Ok? ==>
              var s := Elems(it.list.head);
              var k := |s| - |Elems(it.current)| - 1;
              && 0 <= k < |s|
              && s[k] == it.prev.data
              && Elems(r.value.list.head) == s[..k] + s[k + 1..]
              && r.value.list.size == it.list.size - 1
              && r.value.current == it.current
              && !r.value.lastReturned
              && IterWF(r.value)
    ensures r.Ok? && Valid(it.list) ==> Valid(r.value.list)
    ensures r.Ok? && CounterBounded(it.list) ==> CounterBounded(r.value.list)
  {
    if !it.lastReturned then Err(IllegalState)
    else
      var s := Elems(it.list.head);
      var k := |s| - |Elems(it.current)| - 1;
      var head := ChainRemoveAt(it.list.head, k);
      assert (s[..k] + s[k + 1..])[k..] == s[k + 1..];
      Ok(Iter(List(head, it.list.size - 1), it.current, Nil, false))
  }
}
