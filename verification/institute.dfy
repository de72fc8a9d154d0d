/** `Institute`: a named registry of formicaria kept in an `OurLinkedList`,
    which `add` keeps free of duplicates. A formicarium is any value with
    Dafny equality standing for its `equals`; its `getName` is the function
    `nameOf`. */
module Institute {
  import opened Outcomes
  import LL = LinkedList

  datatype Institute<F> = Institute(name: string, formicaria: LL.List<F>)

  /** The formicaria in insertion order. */
  function Members<F>(inst: Institute<F>): seq<F> {
    LL.Elems(inst.formicaria.head)
  }

  ghost predicate NoDuplicates<F>(s: seq<F>) {
    forall i, j :: 0 <= i < j < |s| ==> s[i] != s[j]
  }

  /** `new Institute(name)`: no formicaria yet. */
  function New<F>(name: string): (inst: Institute<F>)
    ensures inst.name == name
    ensures Members(inst) == [] && LL.Valid(inst.formicaria)
  {
    Institute(name, LL.Empty())
  }

  /** `add`: appends the formicarium unless an equal one is already there. */
  function Add<F(==)>(inst: Institute<F>, f: F): (r: Institute<F>)
    ensures f in Members(inst) ==> r == inst
    ensures f !in Members(inst) ==> Members(r) == Members(inst) + [f]
    ensures f !in Members(inst) ==> r.formicaria.size == inst.formicaria.size + 1
    ensures f in Members(r) && r.name == inst.name
    ensures NoDuplicates(Members(inst)) ==> NoDuplicates(Members(r))
    ensures LL.Valid(inst.formicaria) ==> LL.Valid(r.formicaria)
  {
    if LL.Contains(inst.formicaria, f) then inst
    else inst.(formicaria := LL.Add(inst.formicaria, f))
  }

  /** `remove`: deletes the first equal formicarium, if there is one, and
      keeps the others in insertion order; on a duplicate-free registry that
      is the only equal one. An absent formicarium changes nothing. */
  function Remove<F(==)>(inst: Institute<F>, f: F): (r: Institute<F>)
    ensures f !in Members(inst) ==> r == inst
    ensures f in Members(inst) ==>
              var k := LL.FirstIndex(Members(inst), f);
              Members(r) == Members(inst)[..k] + Members(inst)[k + 1..]
    ensures f in Members(inst) ==> multiset(Members(r)) == multiset(Members(inst)) - multiset{f}
    ensures NoDuplicates(Members(inst)) ==> f !in Members(r) && NoDuplicates(Members(r))
    ensures LL.Valid(inst.formicaria) ==> LL.Valid(r.formicaria)
  {
    DeleteFirst(Members(inst), f);
    inst.(formicaria := LL.Remove(inst.formicaria, f).list)
  }

  /** Deleting the first occurrence of `f` removes one copy of it; on a
      duplicate-free sequence it removes the only one. */
  lemma DeleteFirst<F>(s: seq<F>, f: F)
    ensures f in s ==>
              var k := LL.FirstIndex(s, f);
              && multiset(s[..k] + s[k + 1..]) == multiset(s) - multiset{f}
              && (NoDuplicates(s) ==> f !in s[..k] + s[k + 1..] && NoDuplicates(s[..k] + s[k + 1..]))
  {
    if f in s {
      DeleteOne(s, LL.FirstIndex(s, f));
    }
  }

  /** `remove` undoes an `add` of a formicarium the registry did not hold. */
  lemma AddThenRemoveRestores<F>(inst: Institute<F>, f: F)
    requires f !in Members(inst)
    ensures Members(Remove(Add(inst, f), f)) == Members(inst)
    ensures Remove(Add(inst, f), f).formicaria.size == inst.formicaria.size
  {
    LL.AddThenRemoveRestores(inst.formicaria, f);
  }

  /** Deleting position `k` removes one copy of `s[k]`; on a duplicate-free
      sequence it removes the only one. */
  lemma DeleteOne<F>(s: seq<F>, k: nat)
    requires k < |s|
    ensures multiset(s[..k] + s[k + 1..]) == multiset(s) - multiset{s[k]}
    ensures NoDuplicates(s) ==> s[k] !in s[..k] + s[k + 1..] && NoDuplicates(s[..k] + s[k + 1..])
  {
    assert s == s[..k] + [s[k]] + s[k + 1..];
    if NoDuplicates(s) {
      DeleteKeepsDistinct(s, k);
    }
  }

  lemma DeleteKeepsDistinct<F>(s: seq<F>, k: nat)
    requires k < |s| && NoDuplicates(s)
    ensures s[k] !in s[..k] + s[k + 1..]
    ensures NoDuplicates(s[..k] + s[k + 1..])
  {
    var d := s[..k] + s[k + 1..];
    assert forall i :: 0 <= i < |d| ==> d[i] == s[if i < k then i else i + 1];
  }

  /** A change to the registry through its public operations. */
  datatype Op<F> = AddOp(f: F) | RemoveOp(f: F)

  function Apply<F(==)>(inst: Institute<F>, op: Op<F>): Institute<F> {
    match op
    case AddOp(f) => Add(inst, f)
    case RemoveOp(f) => Remove(inst, f)
  }

  function Replay<F(==)>(inst: Institute<F>, ops: seq<Op<F>>): Institute<F>
    decreases |ops|
  {
    if ops == [] then inst else Replay(Apply(inst, ops[0]), ops[1..])
  }

  /** With `add` as the only way in, a registry never holds two equal
      formicaria, and its counter stays equal to its length. */
  lemma {:induction false} ReplayKeepsRegistryDistinct<F>(inst: Institute<F>, ops: seq<Op<F>>)
    requires NoDuplicates(Members(inst)) && LL.Valid(inst.formicaria)
    ensures NoDuplicates(Members(Replay(inst, ops)))
    ensures LL.Valid(Replay(inst, ops).formicaria)
    decreases |ops|
  {
    if ops != [] {
      ReplayKeepsRegistryDistinct(Apply(inst, ops[0]), ops[1..]);
    }
  }

  /** Every registry built from a new institute is duplicate-free. */
  lemma RegistriesFromNewAreDistinct<F>(name: string, ops: seq<Op<F>>)
    ensures NoDuplicates(Members(Replay(New<F>(name), ops)))
  {
    ReplayKeepsRegistryDistinct(New<F>(name), ops);
  }

  /** The first element of `s`, in order, whose name is `name`. */
  function FirstNamed<F>(s: seq<F>, name: string, nameOf: F -> string): (r: Option<F>)
    ensures r.None? <==> forall i :: 0 <= i < |s| ==> nameOf(s[i]) != name
    ensures r.Some? ==>
              exists i :: && 0 <= i < |s|
                          && s[i] == r.value
                          && nameOf(s[i]) == name
                          && forall j :: 0 <= j < i ==> nameOf(s[j]) != name
  {
    if s == [] then None
    else if nameOf(s[0]) == name then Some(s[0])
    else
      var r := FirstNamed(s[1..], name, nameOf);
      assert r.Some? ==> exists i :: && 0 <= i < |s|
                                   && s[i] == r.value
                                   && nameOf(s[i]) == name
                                   && forall j :: 0 <= j < i ==> nameOf(s[j]) != name by {
        if r.Some? {
          var i :| && 0 <= i < |s[1..]|
                   && s[1..][i] == r.value
                   && nameOf(s[1..][i]) == name
                   && forall j :: 0 <= j < i ==> nameOf(s[1..][j]) != name;
          assert s[i + 1] == r.value;
          assert forall j :: 0 <= j < i + 1 ==> nameOf(s[j]) != name by {
            forall j | 0 <= j < i + 1
              ensures nameOf(s[j]) != name
            {
              if j > 0 {
                assert s[j] == s[1..][j - 1];
              }
            }
          }
        }
      }
      assert r.None? <==> forall i :: 0 <= i < |s| ==> nameOf(s[i]) != name by {
        assert forall i :: 0 < i < |s| ==> s[i] == s[1..][i - 1];
      }
      r
  }

  /** `getByName`: a for-each over the registry's iterator that returns the
      first formicarium with the given name, or null. */
  method GetByName<F>(inst: Institute<F>, name: string, nameOf: F -> string) returns (r: Option<F>)
    ensures r == FirstNamed(Members(inst), name, nameOf)
  {
    var it := LL.Iterator(inst.formicaria);
    while LL.HasNext(it)
      invariant FirstNamed(LL.Elems(it.current), name, nameOf) == FirstNamed(Members(inst), name, nameOf)
      decreases |LL.Elems(it.current)|
    {
      var next := LL.Next(it);
      var step := next.value;
      if nameOf(step.item) == name {
        return Some(step.item);
      }
      it := step.iter;
    }
    return None;
  }
}
