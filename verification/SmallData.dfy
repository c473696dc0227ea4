/** The small-buffer array, the allocator beneath it, and who owns which block. */
module SmallData {
  import opened MachineWords

  const POINTER_SIZE: nat := 8

  /** How many of the small bytes a pointer covers. */
  function Covered(smallSize: nat): (n: nat)
    ensures n <= smallSize
  {
    if smallSize < POINTER_SIZE then smallSize else POINTER_SIZE
  }

  /** new[] and delete[]. Which requests succeed is up to the environment. */
  class Memory {
    ghost var live: set<array<Byte>>
    const grants: nat -> bool
    var requests: nat

    constructor (grants: nat -> bool)
      ensures live == {} && requests == 0 && this.grants == grants
    {
      this.grants := grants;
      live, requests := {}, 0;
    }

    /** A block with arbitrary contents, or null when the request fails. */
    method New(size: nat) returns (block: array?<Byte>)
      modifies this
      ensures requests == old(requests) + 1
      ensures block != null <==> grants(old(requests))
      ensures block != null ==> fresh(block) && block.Length == size && live == old(live) + {block}
      ensures block == null ==> live == old(live)
    {
      requests := requests + 1;
      if !grants(requests - 1) {
        return null;
      }
      block := new Byte[size];
      live := live + {block};
    }

    /** Only a live block may be freed, so none is freed twice. */
    method Delete(block: array<Byte>)
      requires block in live
      modifies this
      ensures live == old(live) - {block} && requests == old(requests)
    {
      live := live - {block};
    }
  }

  /** The union: the small bytes, or a pointer that covers the first of them. */
  datatype Union = Data(bytes: seq<Byte>) | Ptr(block: array<Byte>, rest: seq<Byte>)

  /** Exchanging `d_ptr` exchanges no more than the bytes that a pointer covers. */
  function SwapPointers(a: Union, b: Union): (Union, Union)
    requires b.Ptr?
  {
    match a
    case Ptr(block, rest) => (Ptr(b.block, rest), Ptr(block, b.rest))
    case Data(bytes) => (Ptr(b.block, bytes[Covered(|bytes|)..]), Data(bytes[..Covered(|bytes|)] + b.rest))
  }

  /** The buffer once its first `k` bytes are the source's. */
  ghost function Overwritten(buffer: seq<Byte>, source: seq<Byte>, k: nat): (bytes: seq<Byte>)
    requires k <= |source| && k <= |buffer|
    ensures |bytes| == |buffer|
  {
    source[..k] + buffer[k..]
  }

  lemma OverwriteNext(buffer: seq<Byte>, source: seq<Byte>, k: nat)
    requires k < |source| && k < |buffer|
    ensures Overwritten(buffer, source, k + 1) == Overwritten(buffer, source, k)[k := source[k]]
  {
  }

  lemma OverwriteEnds(buffer: seq<Byte>, source: seq<Byte>, k: nat)
    requires k <= |source| && k <= |buffer|
    ensures Overwritten(buffer, source, 0) == buffer
    ensures Overwritten(buffer, source, k) == source[..k] + buffer[k..]
    ensures Overwritten(buffer, source, k)[..k] == source[..k]
  {
  }

  lemma OverwriteSame(buffer: seq<Byte>, size: nat, k: nat)
    requires k < size <= |buffer|
    ensures Overwritten(buffer, buffer[..size], k)[k] == buffer[k] == buffer[..size][k]
  {
  }

  class Sdo {
    const memory: Memory
    const smallSize: nat
    var capacity: nat
    var size: nat
    var storage: Union

    /** The capacity says which member of the union is in use. */
    ghost predicate StorageOk()
      reads this
    {
      match storage
      case Data(bytes) => capacity == smallSize == |bytes|
      case Ptr(block, rest) => capacity == block.Length > smallSize && |rest| == smallSize - Covered(smallSize)
    }

    ghost predicate Valid()
      reads this
    {
      StorageOk() && size <= capacity
    }

    /** The heap block that this object must free. */
    ghost function Owned(): (blocks: set<array<Byte>>)
      reads this
    {
      match storage
      case Data(_) => {}
      case Ptr(block, _) => {block}
    }

    /** All bytes up to the capacity. */
    ghost function Buffer(): (bytes: seq<Byte>)
      reads this, Owned()
    {
      match storage
      case Data(bytes) => bytes
      case Ptr(block, _) => block[..]
    }

    ghost function Contents(): (bytes: seq<Byte>)
      requires Valid()
      reads this, Owned()
    {
      Buffer()[..size]
    }

    /** No bytes, all of the small buffer zero. */
    constructor (memory: Memory, smallSize: nat)
      ensures Valid() && this.memory == memory && this.smallSize == smallSize
      ensures size == 0 && capacity == smallSize && Owned() == {}
      ensures storage.Data? && forall b | b in storage.bytes :: b == 0
      ensures Contents() == []
    {
      this.memory, this.smallSize := memory, smallSize;
      capacity, size := smallSize, 0;
      storage := Data(seq(smallSize, _ => 0));
    }

    /** Whether growing to `wanted` needs memory and gets none. */
    ghost predicate Fails(wanted: nat)
      reads this`capacity, memory`requests
    {
      wanted > capacity && !memory.grants(memory.requests)
    }

    /** Growing replaces the block, and the bytes are lost. After a failed allocation the
        object claims a block that it does not have. */
    method Reserve(wanted: nat) returns (ok: bool)
      requires StorageOk() && Owned() <= memory.live
      modifies this`capacity, this`storage, memory
      ensures ok <==> !old(Fails(wanted))
      ensures ok <==> StorageOk()
      ensures wanted <= old(capacity) ==> unchanged(this) && Owned() == old(Owned()) && unchanged(memory)
      ensures wanted > old(capacity) ==> capacity == wanted && memory.requests == old(memory.requests) + 1
      ensures ok ==> memory.live == old(memory.live) - old(Owned()) + Owned()
      ensures ok && wanted > old(capacity) ==> fresh(Owned()) && storage.Ptr?
      ensures !ok ==> Owned() == old(Owned()) && memory.live == old(memory.live) - old(Owned())
    {
      if capacity >= wanted {
        return true;
      }
      if capacity > smallSize {
        memory.Delete(storage.block);
      }
      capacity := wanted;
      var block := memory.New(capacity);
      if block == null {
        return false;
      }
      storage := Ptr(block, if storage.Data? then storage.bytes[Covered(smallSize)..] else storage.rest);
      return true;
    }

    /** Bytes survive only while the capacity suffices. */
    method Resize(newSize: nat) returns (ok: bool)
      requires Valid() && Owned() <= memory.live
      modifies this`capacity, this`size, this`storage, memory
      ensures ok <==> !old(Fails(newSize))
      ensures ok <==> Valid()
      ensures size == newSize
      ensures newSize <= old(capacity) ==>
                && capacity == old(capacity) && storage == old(storage) && unchanged(memory)
                && Owned() == old(Owned()) && Buffer() == old(Buffer())
      ensures newSize > old(capacity) ==> capacity == newSize && memory.requests == old(memory.requests) + 1
      ensures ok ==> memory.live == old(memory.live) - old(Owned()) + Owned()
      ensures ok && newSize > old(capacity) ==> fresh(Owned()) && storage.Ptr?
      ensures !ok ==> Owned() == old(Owned()) && memory.live == old(memory.live) - old(Owned())
    {
      size := newSize;
      if capacity >= size {
        return true;
      }
      ok := Reserve(newSize);
    }

    function At(k: nat): Byte
      requires StorageOk() && k < capacity
      reads this, Owned()
    {
      if capacity <= smallSize then storage.bytes[k] else storage.block[k]
    }

    method Put(k: nat, b: Byte)
      requires StorageOk() && k < capacity
      modifies this`storage, Owned()
      ensures StorageOk() && Owned() == old(Owned())
      ensures Buffer() == old(Buffer())[k := b]
    {
      if capacity <= smallSize {
        storage := Data(storage.bytes[k := b]);
      } else {
        storage.block[k] := b;
      }
    }

    /** The destructor. */
    method Destroy()
      requires Valid() && Owned() <= memory.live
      modifies memory
      ensures memory.live == old(memory.live) - Owned() && memory.requests == old(memory.requests)
    {
      if capacity > smallSize {
        memory.Delete(storage.block);
      }
    }

    /** Copies the other array's bytes, which it keeps. */
    method CopyFrom(other: Sdo) returns (ok: bool)
      requires Valid() && other.Valid() && smallSize == other.smallSize && Owned() <= memory.live
      requires other != this ==> Owned() !! other.Owned()
      modifies this`capacity, this`size, this`storage, memory, Owned()
      ensures ok <==> !old(Fails(other.size))
      ensures ok <==> Valid()
      ensures ok ==> Contents() == old(other.Contents())
      ensures ok && other != this ==> unchanged(other) && other.Contents() == old(other.Contents())
      ensures other.size <= old(capacity) ==> capacity == old(capacity) && Owned() == old(Owned()) && unchanged(memory)
      ensures ok ==> memory.live == old(memory.live) - old(Owned()) + Owned()
      ensures ok && other.size > old(capacity) ==> fresh(Owned())
      ensures !ok ==> memory.live == old(memory.live) - old(Owned())
    {
      ok := Resize(other.size);
      if ok {
        CopyBytes(other);
      }
    }

    /** The loop of the copy: `std::copy` onto an array of the same size. */
    method CopyBytes(other: Sdo)
      requires Valid() && other.Valid() && size == other.size
      requires other != this ==> Owned() !! other.Owned()
      modifies this`storage, Owned()
      ensures Valid() && Owned() == old(Owned())
      ensures Contents() == old(other.Contents())
      ensures other != this ==> other.Contents() == old(other.Contents())
    {
      hide Overwritten, Buffer, StorageOk, At;
      ghost var source, before := other.Contents(), Buffer();
      CapacityIsBuffer();
      other.CapacityIsBuffer();
      OverwriteEnds(before, source, size);
      var k := 0;
      while k < size
        invariant 0 <= k <= size && StorageOk() && other.StorageOk()
        invariant Owned() == old(Owned())
        invariant Buffer() == Overwritten(before, source, k)
        invariant other != this ==> Owned() !! other.Owned() && other.Buffer() == old(other.Buffer())
      {
        OverwriteNext(before, source, k);
        ByteIs(other, k);
        if other == this {
          OverwriteSame(before, size, k);
        }
        Put(k, other.At(k));
        k := k + 1;
      }
      assert source[..size] == source;
    }

    /** Takes the other array's block if it has one, and copies small bytes otherwise. It
        never allocates. */
    method MoveFrom(other: Sdo)
      requires Valid() && other.Valid() && smallSize == other.smallSize && memory == other.memory
      requires Owned() <= memory.live && (other != this ==> Owned() !! other.Owned())
      modifies this`capacity, this`size, this`storage, other`capacity, other`size, other`storage, memory, Owned()
      ensures unchanged(memory)
      ensures Valid() && other.Valid()
      ensures Contents() == old(other.Contents())
      ensures old(other.storage).Data? ==>
                Owned() == old(Owned()) && other.Owned() == old(other.Owned()) && (other != this ==> unchanged(other))
      ensures old(other.storage).Ptr? ==> Owned() == old(other.Owned()) && other.Owned() == old(Owned())
      ensures old(other.storage).Ptr? && other != this ==>
                && other.size == old(size) && other.capacity == old(capacity)
                && other.storage == SwapPointers(old(storage), old(other.storage)).1
    {
      if other.capacity == smallSize {
        var ok := CopyFrom(other);
        return;
      }
      capacity, other.capacity := other.capacity, capacity;
      size, other.size := other.size, size;
      var swapped := SwapPointers(storage, other.storage);
      storage := swapped.0;
      other.storage := swapped.1;
    }

    lemma ContentsAre()
      requires Valid()
      ensures size <= |Buffer()| && Contents() == Buffer()[..size]
    {
    }

    lemma CapacityIsEnough()
      requires Valid()
      ensures capacity >= smallSize
    {
    }

    lemma CapacityIsBuffer()
      requires StorageOk()
      ensures |Buffer()| == capacity
    {
    }

    static lemma ByteIs(o: Sdo, k: nat)
      requires o.StorageOk() && k < o.capacity
      ensures k < |o.Buffer()| && o.At(k) == o.Buffer()[k]
    {
    }
  }
}
