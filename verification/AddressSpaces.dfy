/** Address spaces share object states between forked states and copy them on write. The owner of an
object state is the epoch in which it was made writeable; each fork starts a new epoch on both sides.
*/
module AddressSpaces {
  import opened Expressions
  import opened ObjectStates

  /** The bindings of an address space, by address. */
  type Table = map<nat, ObjectState>

  /** At epoch `key`, no object state is owned by an epoch yet to come. */
  ghost predicate Sound(m: Table, key: nat)
    reads m.Values`copyOnWriteOwner
  {
    0 < key && forall k | k in m :: 0 < m[k].copyOnWriteOwner <= key
  }

  /** An object state bound in both tables has one address and, unless the tables are the same one, an
      owner below both epochs. */
  ghost predicate Apart(m: Table, n: Table, same: bool, mKey: nat, nKey: nat)
    reads m.Values`copyOnWriteOwner
  {
    forall k, l | k in m && l in n && m[k] == n[l] ::
      k == l && (!same ==> m[k].copyOnWriteOwner < mKey && m[k].copyOnWriteOwner < nKey)
  }

  /** Every object state bound in one of the spaces. */
  ghost function ObjectsOf(spaces: set<AddressSpace>): set<ObjectState>
    reads spaces`objects
  {
    set s, k | s in spaces && k in s.objects :: s.objects[k]
  }

  /** The ownership of object states by the address spaces of all states. */
  ghost predicate Owned(spaces: set<AddressSpace>)
    reads spaces, ObjectsOf(spaces)`copyOnWriteOwner
  {
    && (forall s | s in spaces :: Sound(s.objects, s.cowKey))
    && (forall s, t | s in spaces && t in spaces :: Apart(s.objects, t.objects, s == t, s.cowKey, t.cowKey))
  }

  /** Plain memory: the bytes at each address that has an object. */
  type Memory = map<nat, seq<nat>>

  /** Every bound object state is valid. */
  ghost predicate ValidTable(m: Table)
    reads m.Values
    ensures ValidTable(m) ==> forall k | k in m :: m[k].Valid() && m[k].Shape()
  {
    forall k | k in m :: m[k].Valid()
  }

  /** The addresses of the read-only objects. */
  ghost function Protected(m: Table): set<nat>
    reads m.Values`readOnly
  {
    set k | k in m && m[k].readOnly
  }

  /** The plain memory that a table stands for under `a`. */
  ghost function MemoryOf(m: Table, a: Assignment): (r: Memory)
    reads m.Values
    requires ValidTable(m)
    ensures r.Keys == m.Keys && forall k | k in m :: m[k].Shape() && r[k] == m[k].Contents(a)
  {
    hide ObjectState.Contents, ObjectState.Shape;
    map k | k in m :: assert m[k].Valid(); m[k].Contents(a)
  }

  /** Memory as a function of the assignment. */
  type View = imap<Assignment, Memory>

  ghost function ViewOf(m: Table): (v: View)
    reads m.Values
  {
    imap a: Assignment :: if ValidTable(m) then MemoryOf(m, a) else map[]
  }

  /** All that can be told of a table from outside: its memory under every assignment, and what is read-only. */
  datatype Picture = Picture(view: View, protected: set<nat>)

  ghost function PictureOf(m: Table): (p: Picture)
    reads m.Values
  {
    Picture(ViewOf(m), Protected(m))
  }

  lemma ViewAt(m: Table)
    requires ValidTable(m)
    ensures forall a: Assignment :: a in ViewOf(m) && ViewOf(m)[a] == MemoryOf(m, a)
  {
    hide ValidTable;
  }

  class AddressSpace {
    var cowKey: nat
    var objects: Table

    constructor ()
      ensures cowKey == 1 && objects == map[]
    {
      cowKey, objects := 1, map[];
    }

    /** The copy made by a fork, which moves both spaces to a new epoch. */
    constructor Copy(b: AddressSpace, ghost spaces: set<AddressSpace>)
      requires Owned(spaces) && b in spaces
      modifies b`cowKey
      ensures Owned(spaces + {this}) && this !in spaces
      ensures objects == b.objects && cowKey == b.cowKey == old(b.cowKey) + 1
    {
      hide Apart, Sound;
      ghost var key := b.cowKey;
      b.cowKey := b.cowKey + 1;
      cowKey, objects := b.cowKey, b.objects;
      new;
      ForkOwned(spaces, b, this, key);
    }

    /** Bind an object state without an owner. */
    method BindObject(mo: nat, os: ObjectState, ghost spaces: set<AddressSpace>)
      requires Owned(spaces) && this in spaces && os.Valid() && os.copyOnWriteOwner == 0
      modifies this`objects, os`copyOnWriteOwner
      ensures Owned(spaces) && objects == old(objects)[mo := os] && os.copyOnWriteOwner == cowKey
      ensures os.Valid() && forall a: Assignment :: os.Contents(a) == old(os.Contents(a))
      ensures Exclusive(spaces, this, mo)
    {
      hide Apart, ObjectState.Valid, ObjectState.Contents;
      NotBound(spaces, os);
      hide Sound;
      os.SetOwner(cowKey);
      objects := objects[mo := os];
      BindOwned(spaces, this, mo, os, old(objects));
    }

    method UnbindObject(mo: nat, ghost spaces: set<AddressSpace>)
      requires Owned(spaces) && this in spaces
      modifies this`objects
      ensures Owned(spaces) && objects == old(objects) - {mo}
    {
      hide Apart, Sound;
      forall t | t in spaces
        ensures Sound(objects - {mo}, cowKey) && Apart(objects - {mo}, objects - {mo}, true, cowKey, cowKey)
        ensures t != this ==> Apart(objects - {mo}, t.objects, false, cowKey, t.cowKey)
        ensures t != this ==> Apart(t.objects, objects - {mo}, false, t.cowKey, cowKey)
      {
        assert Sound(objects, cowKey) && Apart(objects, objects, true, cowKey, cowKey);
        FewerBindings(objects, t.objects, mo, cowKey, t.cowKey);
      }
      objects := objects - {mo};
    }

    /** The object state at `mo`, or a copy in its place when this epoch does not own it. No other
        binding has the result. */
    method GetWriteable(mo: nat, ghost spaces: set<AddressSpace>) returns (os: ObjectState)
      requires Owned(spaces) && this in spaces && mo in objects && objects[mo].Valid() && !objects[mo].readOnly
      modifies this`objects
      ensures Owned(spaces) && os.Valid() && objects == old(objects)[mo := os] && os.copyOnWriteOwner == cowKey
      ensures os == old(objects[mo]) || fresh(os)
      ensures os.size == old(objects[mo].size) && !os.readOnly
      ensures forall a: Assignment :: os.Contents(a) == old(objects[mo].Contents(a))
      ensures Exclusive(spaces, this, mo)
    {
      hide Apart, Sound, ObjectState.Valid, ObjectState.Contents, Exclusive;
      os := objects[mo];
      if cowKey == os.copyOnWriteOwner {
        OwnerExclusive(spaces, this, mo);
        return;
      }
      os := new ObjectState.Copy(os);
      NotBound(spaces, os);
      os.SetOwner(cowKey);
      objects := objects[mo := os];
      BindOwned(spaces, this, mo, os, old(objects));
    }

    /** While its objects hold the bytes they held, a space stands for the memory it stood for. */
    twostate lemma SameMemory(a: Assignment)
      requires objects == old(objects) && old(ValidTable(objects)) && ValidTable(objects)
      requires forall k | k in objects :: objects[k].Contents(a) == old(objects[k].Contents(a))
      ensures MemoryOf(objects, a) == old(MemoryOf(objects, a))
    {
      hide ValidTable, ObjectState.Valid, ObjectState.Contents, ObjectState.Shape;
    }

    /** Views follow memories. */
    twostate lemma SameView()
      requires old(ValidTable(objects)) && ValidTable(objects)
      requires forall a: Assignment :: MemoryOf(objects, a) == old(MemoryOf(objects, a))
      ensures ViewOf(objects) == old(ViewOf(objects))
    {
      hide ValidTable, MemoryOf;
    }

    /** While its objects hold the bytes they held, the view stays. */
    twostate lemma KeepsView()
      requires objects == old(objects) && old(ValidTable(objects)) && ValidTable(objects)
      requires forall k, a: Assignment | k in objects :: objects[k].Contents(a) == old(objects[k].Contents(a))
      ensures ViewOf(objects) == old(ViewOf(objects))
    {
      hide ValidTable, ViewOf, MemoryOf, ObjectState.Valid, ObjectState.Contents, ObjectState.Shape;
      forall a: Assignment ensures MemoryOf(objects, a) == old(MemoryOf(objects, a)) {
        SameMemory(a);
      }
      SameView();
    }

    /** One object is a new one with the same bytes. */
    twostate lemma OneReplaced(mo: nat)
      requires mo in objects && mo in old(objects) && objects == old(objects)[mo := objects[mo]] && old(ValidTable(objects)) && ValidTable(objects)
      requires forall k, a: Assignment | k in objects :: objects[k].Contents(a) == old(objects[k].Contents(a))
      ensures forall a: Assignment :: MemoryOf(objects, a) == old(MemoryOf(objects, a))
    {
      hide ValidTable, ObjectState.Valid, ObjectState.Contents, ObjectState.Shape;
    }

    /** One object changed, or is a new one. */
    twostate lemma OneObject(mo: nat)
      requires mo in objects && objects == old(objects)[mo := objects[mo]] && old(ValidTable(objects)) && ValidTable(objects)
      requires forall k, a: Assignment | k in objects && k != mo :: objects[k].Contents(a) == old(objects[k].Contents(a))
      ensures forall a: Assignment :: MemoryOf(objects, a) == old(MemoryOf(objects, a))[mo := objects[mo].Contents(a)]
    {
      hide ValidTable, ObjectState.Valid, ObjectState.Contents, ObjectState.Shape;
    }
  }

  lemma FewerBindings(m: Table, n: Table, mo: nat, mKey: nat, nKey: nat)
    ensures Sound(m, mKey) ==> Sound(m - {mo}, mKey)
    ensures Apart(m, m, true, mKey, mKey) ==> Apart(m - {mo}, m - {mo}, true, mKey, mKey)
    ensures Apart(m, n, false, mKey, nKey) ==> Apart(m - {mo}, n, false, mKey, nKey)
    ensures Apart(n, m, false, nKey, mKey) ==> Apart(n, m - {mo}, false, nKey, mKey)
  {
  }

  /** No other binding has the object state that `s` has at `mo`. */
  ghost predicate Exclusive(spaces: set<AddressSpace>, s: AddressSpace, mo: nat)
    reads s, spaces
    requires mo in s.objects
  {
    forall t, k | t in spaces && k in t.objects && (t != s || k != mo) :: t.objects[k] != s.objects[mo]
  }

  /** An object state without an owner is bound nowhere. */
  lemma NotBound(spaces: set<AddressSpace>, os: ObjectState)
    requires Owned(spaces) && os.copyOnWriteOwner == 0
    ensures forall s, k | s in spaces && k in s.objects :: s.objects[k] != os
  {
    hide Apart;
  }

  /** What the current epoch owns is bound once. */
  lemma OwnerExclusive(spaces: set<AddressSpace>, s: AddressSpace, mo: nat)
    requires Owned(spaces) && s in spaces && mo in s.objects && s.objects[mo].copyOnWriteOwner == s.cowKey
    ensures Exclusive(spaces, s, mo)
  {
    hide Sound;
    forall t, k | t in spaces && k in t.objects && (t != s || k != mo) ensures t.objects[k] != s.objects[mo] {
      assert Apart(s.objects, t.objects, s == t, s.cowKey, t.cowKey);
    }
  }

  /** Binding an object state found nowhere else keeps the ownership in order. */
  lemma BindOwned(spaces: set<AddressSpace>, s: AddressSpace, mo: nat, os: ObjectState, before: Table)
    requires s in spaces && s.objects == before[mo := os] && os.copyOnWriteOwner == s.cowKey
    requires os !in before.Values && forall t, k | t in spaces && t != s && k in t.objects :: t.objects[k] != os
    requires Sound(before, s.cowKey) && Apart(before, before, true, s.cowKey, s.cowKey)
    requires forall t | t in spaces && t != s :: Sound(t.objects, t.cowKey)
    requires forall t | t in spaces && t != s :: Apart(before, t.objects, false, s.cowKey, t.cowKey)
    requires forall t | t in spaces && t != s :: Apart(t.objects, before, false, t.cowKey, s.cowKey)
    requires forall t, u | t in spaces && u in spaces && t != s && u != s :: Apart(t.objects, u.objects, t == u, t.cowKey, u.cowKey)
    ensures Owned(spaces) && Exclusive(spaces, s, mo)
  {
    hide Sound, Apart;
    BindSelf(before, mo, os, s.cowKey);
    forall t | t in spaces && t != s
      ensures Apart(s.objects, t.objects, false, s.cowKey, t.cowKey) && Apart(t.objects, s.objects, false, t.cowKey, s.cowKey)
    {
      BindApart(before, mo, os, t.objects, s.cowKey, t.cowKey);
    }
  }

  lemma BindSelf(m: Table, mo: nat, os: ObjectState, key: nat)
    requires os !in m.Values && os.copyOnWriteOwner == key && Sound(m, key) && Apart(m, m, true, key, key)
    ensures Sound(m[mo := os], key) && Apart(m[mo := os], m[mo := os], true, key, key)
    ensures forall k | k in m && k != mo :: m[k] != os
  {
  }

  lemma BindApart(m: Table, mo: nat, os: ObjectState, n: Table, mKey: nat, nKey: nat)
    requires (forall k | k in n :: n[k] != os) && Apart(m, n, false, mKey, nKey) && Apart(n, m, false, nKey, mKey)
    ensures Apart(m[mo := os], n, false, mKey, nKey) && Apart(n, m[mo := os], false, nKey, mKey)
  {
  }

  /** A fork keeps the ownership in order. */
  lemma ForkOwned(spaces: set<AddressSpace>, b: AddressSpace, n: AddressSpace, key: nat)
    requires b in spaces && n !in spaces && n.objects == b.objects && b.cowKey == n.cowKey == key + 1
    requires forall s | s in spaces :: Sound(s.objects, if s == b then key else s.cowKey)
    requires forall s, t | s in spaces && t in spaces ::
      Apart(s.objects, t.objects, s == t, if s == b then key else s.cowKey, if t == b then key else t.cowKey)
    ensures Owned(spaces + {n})
  {
    forall s | s in spaces ensures Sound(s.objects, s.cowKey) {
      assert Sound(s.objects, if s == b then key else s.cowKey);
    }
    forall s, t | s in spaces && t in spaces ensures Apart(s.objects, t.objects, s == t, s.cowKey, t.cowKey) {
      assert Apart(s.objects, t.objects, s == t, if s == b then key else s.cowKey, if t == b then key else t.cowKey);
    }
    forall s | s in spaces
      ensures Apart(s.objects, n.objects, false, s.cowKey, n.cowKey) && Apart(n.objects, s.objects, false, n.cowKey, s.cowKey)
    {
      assert Sound(b.objects, key);
      assert Apart(s.objects, b.objects, s == b, if s == b then key else s.cowKey, key);
    }
    assert Sound(b.objects, key) && Apart(b.objects, b.objects, true, key, key);
  }
}
