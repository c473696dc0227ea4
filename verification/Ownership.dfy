/** Runs over any number of small-buffer arrays: every block has one owner. */
module Ownership {
  import opened MachineWords
  import opened SmallData

  type Block = array<Byte>

  /** No block has two owners, and every live block has one. */
  ghost predicate OneOwnerEach(owned: map<Sdo, set<Block>>, live: set<Block>) {
    && (forall o: Sdo | o in owned :: owned[o] <= live)
    && (forall a: Sdo, b: Sdo | a in owned && b in owned && a != b :: owned[a] !! owned[b])
    && (forall block | block in live :: exists o: Sdo :: o in owned && block in owned[o])
  }

  /** One array exchanges its blocks for new ones. */
  lemma Exchanged(owned: map<Sdo, set<Block>>, live: set<Block>, o: Sdo, blocks: set<Block>)
    requires OneOwnerEach(owned, live) && o in owned && (blocks !! live || blocks == owned[o])
    ensures OneOwnerEach(owned[o := blocks], live - owned[o] + blocks)
  {
    var after, kept := owned[o := blocks], live - owned[o];
    forall block | block in kept + blocks
      ensures exists p: Sdo :: p in after && block in after[p]
    {
      if block in blocks {
        assert block in after[o];
      } else {
        var p: Sdo :| p in owned && block in owned[p];
        assert p != o && block in after[p];
      }
    }
  }

  lemma Joined(owned: map<Sdo, set<Block>>, live: set<Block>, o: Sdo, blocks: set<Block>)
    requires OneOwnerEach(owned, live) && o !in owned && blocks !! live
    ensures OneOwnerEach(owned[o := blocks], live + blocks)
  {
    var after := owned[o := blocks];
    forall block | block in live + blocks
      ensures exists p: Sdo :: p in after && block in after[p]
    {
      if block in blocks {
        assert block in after[o];
      } else {
        var p: Sdo :| p in owned && block in owned[p];
        assert p != o && block in after[p];
      }
    }
  }

  lemma Left(owned: map<Sdo, set<Block>>, live: set<Block>, o: Sdo)
    requires OneOwnerEach(owned, live) && o in owned
    ensures OneOwnerEach(owned - {o}, live - owned[o])
  {
    var after := owned - {o};
    forall block | block in live - owned[o]
      ensures exists p: Sdo :: p in after && block in after[p]
    {
      var p: Sdo :| p in owned && block in owned[p];
      assert p in after && block in after[p];
    }
  }

  /** Two arrays exchange their blocks. */
  lemma Swapped(owned: map<Sdo, set<Block>>, live: set<Block>, a: Sdo, b: Sdo)
    requires OneOwnerEach(owned, live) && a in owned && b in owned
    ensures OneOwnerEach(owned[a := owned[b]][b := owned[a]], live)
  {
    var after := owned[a := owned[b]][b := owned[a]];
    forall block | block in live
      ensures exists p: Sdo :: p in after && block in after[p]
    {
      var p: Sdo :| p in owned && block in owned[p];
      var q := if p == a then b else if p == b then a else p;
      assert q in after && block in after[q];
    }
  }

  /** The array is in order and owns these blocks. */
  ghost predicate Holds(o: Sdo, memory: Memory, smallSize: nat, blocks: set<Block>)
    reads o
  {
    o.Valid() && o.memory == memory && o.smallSize == smallSize && o.Owned() == blocks
  }

  class Arrays {
    const memory: Memory
    const smallSize: nat
    ghost var owned: map<Sdo, set<Block>>

    ghost predicate Valid()
      reads this, memory, owned.Keys
    {
      && OneOwnerEach(owned, memory.live)
      && forall o: Sdo | o in owned :: Holds(o, memory, smallSize, owned[o])
    }

    constructor (grants: nat -> bool, smallSize: nat)
      ensures Valid() && owned == map[] && fresh(memory) && this.smallSize == smallSize
      ensures memory.grants == grants && memory.requests == 0
    {
      memory := new Memory(grants);
      this.smallSize := smallSize;
      owned := map[];
    }

    /** Once every array is gone, every block has been freed. */
    lemma NothingLeaks()
      requires Valid() && owned == map[]
      ensures memory.live == {}
    {
    }

    lemma Known(o: Sdo)
      requires Valid() && o in owned
      ensures o.Valid() && o.memory == memory && o.smallSize == smallSize
      ensures o.Owned() == owned[o] && owned[o] <= memory.live
    {
    }

    lemma Disjoint(o: Sdo, other: Sdo)
      requires Valid() && o in owned && other in owned
      ensures o != other ==> o.Owned() !! other.Owned()
    {
    }

    lemma Pack()
      requires OneOwnerEach(owned, memory.live)
      requires forall o: Sdo | o in owned :: Holds(o, memory, smallSize, owned[o])
      ensures Valid()
    {
    }

    lemma Parts()
      requires Valid()
      ensures OneOwnerEach(owned, memory.live)
      ensures forall o: Sdo | o in owned :: Holds(o, memory, smallSize, owned[o])
    {
    }

    lemma NowHolds(o: Sdo)
      requires o.Valid() && o.memory == memory && o.smallSize == smallSize
      ensures Holds(o, memory, smallSize, o.Owned())
    {
    }

    lemma Broken(o: Sdo)
      requires o in owned && !o.Valid()
      ensures !Valid()
    {
    }

    lemma WithinCapacity(o: Sdo, wanted: nat)
      ensures wanted <= o.capacity ==> !o.Fails(wanted)
    {
    }

    method Resize(o: Sdo, size: nat) returns (ok: bool)
      requires Valid() && o in owned
      modifies this`owned, o, memory
      ensures ok <==> !old(o.Fails(size))
      ensures ok <==> Valid()
      ensures owned.Keys == old(owned.Keys)
      ensures ok ==> o.size == size
      ensures size <= old(o.capacity) ==>
                && ok && o.capacity == old(o.capacity) && o.Buffer() == old(o.Buffer())
                && owned == old(owned) && unchanged(memory)
      ensures size > old(o.capacity) ==> o.capacity == size && memory.requests == old(memory.requests) + 1
      ensures !ok ==> o.Owned() == old(o.Owned())
    {
      hide *;
      Parts();
      Known(o);
      ghost var live := memory.live;
      WithinCapacity(o, size);
      ok := o.Resize(size);
      if ok {
        Exchanged(owned, live, o, o.Owned());
        owned := owned[o := o.Owned()];
        NowHolds(o);
        Pack();
      } else {
        Broken(o);
      }
    }

    method Reserve(o: Sdo, capacity: nat) returns (ok: bool)
      requires Valid() && o in owned
      modifies this`owned, o, memory
      ensures ok <==> !old(o.Fails(capacity))
      ensures ok <==> Valid()
      ensures owned.Keys == old(owned.Keys)
      ensures o.size == old(o.size)
      ensures capacity <= old(o.capacity) ==>
                ok && unchanged(o) && o.Buffer() == old(o.Buffer()) && owned == old(owned) && unchanged(memory)
      ensures capacity > old(o.capacity) ==> o.capacity == capacity && memory.requests == old(memory.requests) + 1
    {
      hide *;
      Parts();
      Known(o);
      Storage(o);
      ghost var live := memory.live;
      WithinCapacity(o, capacity);
      ok := o.Reserve(capacity);
      if ok {
        StillValid(o);
        Exchanged(owned, live, o, o.Owned());
        owned := owned[o := o.Owned()];
        NowHolds(o);
        Pack();
      } else {
        Storage(o);
        Broken(o);
      }
    }

    lemma Storage(o: Sdo)
      ensures o.Valid() ==> o.StorageOk() && o.size <= o.capacity
    {
    }

    lemma StillValid(o: Sdo)
      requires o.StorageOk() && o.size <= o.capacity
      ensures o.Valid()
    {
    }

    /** Constructs an array; a failed allocation leaves nothing behind. */
    method Construct(size: nat) returns (o: Sdo?)
      requires Valid()
      modifies this`owned, memory
      ensures Valid()
      ensures o == null <==> size > smallSize && !memory.grants(old(memory.requests))
      ensures o == null ==> owned == old(owned)
      ensures o != null ==> fresh(o) && owned.Keys == old(owned.Keys) + {o} && o.size == size
      ensures o != null ==> o.smallSize == smallSize && o.capacity == if size > smallSize then size else smallSize
      ensures o != null && size <= smallSize ==> o.Owned() == {}
    {
      hide *;
      Parts();
      ghost var live := memory.live;
      var made := new Sdo(memory, smallSize);
      FailsAtFirst(made, size);
      var ok := made.Resize(size);
      if ok {
        Join(made, live);
        return made;
      }
      assert memory.live == live;
      Pack();
      return null;
    }

    lemma FailsAtFirst(o: Sdo, size: nat)
      requires o.memory == memory && o.capacity == smallSize
      ensures o.Fails(size) <==> size > smallSize && !memory.grants(memory.requests)
    {
    }

    ghost method Join(o: Sdo, live: set<Block>)
      requires OneOwnerEach(owned, live) && forall p: Sdo | p in owned :: Holds(p, memory, smallSize, owned[p])
      requires o !in owned && o.Valid() && o.memory == memory && o.smallSize == smallSize
      requires o.Owned() !! live && memory.live == live + o.Owned()
      modifies this`owned
      ensures Valid() && owned.Keys == old(owned.Keys) + {o}
    {
      hide *;
      Joined(owned, live, o, o.Owned());
      owned := owned[o := o.Owned()];
      NowHolds(o);
      Pack();
    }

    method CopyConstruct(other: Sdo) returns (o: Sdo?)
      requires Valid() && other in owned
      modifies this`owned, memory
      ensures Valid()
      ensures o == null <==> other.size > smallSize && !memory.grants(old(memory.requests))
      ensures o == null ==> owned == old(owned)
      ensures o != null ==> fresh(o) && owned.Keys == old(owned.Keys) + {o}
      ensures other.Valid() && other.Contents() == old(other.Contents())
      ensures o != null ==> o.Valid() && o.Contents() == other.Contents()
    {
      hide *;
      Parts();
      Known(other);
      ghost var live := memory.live;
      var made := new Sdo(memory, smallSize);
      FailsAtFirst(made, other.size);
      var ok := made.CopyFrom(other);
      if ok {
        Join(made, live);
        return made;
      }
      assert memory.live == live;
      Pack();
      return null;
    }

    method MoveConstruct(other: Sdo) returns (o: Sdo)
      requires Valid() && other in owned
      modifies this`owned, memory, other
      ensures Valid() && unchanged(memory)
      ensures fresh(o) && owned.Keys == old(owned.Keys) + {o}
      ensures o.Valid() && o.Contents() == old(other.Contents())
    {
      hide *;
      Parts();
      Known(other);
      o := new Sdo(memory, smallSize);
      Joined(owned, memory.live, o, {});
      owned := owned[o := {}];
      NowHolds(o);
      assert memory.live + {} == memory.live;
      Pack();
      MoveAssign(o, other);
    }

    method MoveAssign(o: Sdo, other: Sdo)
      requires Valid() && o in owned && other in owned
      modifies this`owned, o, other, o.Owned(), memory
      ensures Valid() && unchanged(memory)
      ensures owned.Keys == old(owned.Keys)
      ensures o.Valid() && o.Contents() == old(other.Contents())
    {
      hide *;
      Parts();
      Known(o);
      Known(other);
      Disjoint(o, other);
      ghost var small := other.storage.Data?;
      o.MoveFrom(other);
      if !small {
        Swapped(owned, memory.live, o, other);
        owned := owned[o := owned[other]][other := owned[o]];
      }
      NowHolds(o);
      NowHolds(other);
      Pack();
    }

    method CopyAssign(o: Sdo, other: Sdo) returns (ok: bool)
      requires Valid() && o in owned && other in owned
      modifies this`owned, o, o.Owned(), memory
      ensures ok <==> !old(o.Fails(other.size))
      ensures ok <==> Valid()
      ensures owned.Keys == old(owned.Keys)
      ensures ok ==> o.Valid() && o.Contents() == old(other.Contents())
      ensures ok && o != other ==> other.Valid() && other.Contents() == old(other.Contents())
    {
      hide *;
      Parts();
      Known(o);
      Known(other);
      Disjoint(o, other);
      ghost var live := memory.live;
      ok := o.CopyFrom(other);
      if ok {
        Exchanged(owned, live, o, o.Owned());
        owned := owned[o := o.Owned()];
        NowHolds(o);
        Pack();
      } else {
        Broken(o);
      }
    }

    method Destroy(o: Sdo)
      requires Valid() && o in owned
      modifies this`owned, memory
      ensures Valid() && owned.Keys == old(owned.Keys) - {o}
    {
      hide *;
      Parts();
      Known(o);
      Left(owned, memory.live, o);
      o.Destroy();
      owned := owned - {o};
      Pack();
    }
  }

  /** A run without memory: an array that fits its small buffer asks for one byte more,
      and then claims a block although it has none. */
  method GrowWithoutMemory(smallSize: nat) returns (arrays: Arrays, o: Sdo)
    ensures o in arrays.owned && !arrays.Valid()
    ensures o.capacity == smallSize + 1 && o.smallSize == smallSize && o.Owned() == {}
  {
    arrays := new Arrays(_ => false, smallSize);
    var made := arrays.Construct(smallSize);
    o := made;
    arrays.FailsAtFirst(o, smallSize + 1);
    var ok := arrays.Resize(o, smallSize + 1);
  }
}
