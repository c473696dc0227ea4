/** The query for a socket's own address. */
module LocalAddress {
  import opened MachineWords
  import opened Options
  import opened SmallData

  /** The small size of an address's buffer. */
  const SDO_SIZE: nat := 32
  const SIZE_OF_SOCKADDR: nat := 16

  /** The kernel's answers, one for each query: the address, or an error. */
  type Answers = a: nat -> Option<seq<Byte>> | forall k :: a(k).Some? ==> |a(k).value| < UINT32
    witness _ => None

  /** A socket. */
  class Socket {
    const answers: Answers
    var queries: nat

    constructor (answers: Answers)
      ensures this.answers == answers && queries == 0
    {
      this.answers := answers;
      queries := 0;
    }

    /** Writes as much of the address as fits and reports its full length. `None` is -1. */
    method GetSockName(address: Sdo, len: nat) returns (res: Option<nat>)
      requires address.Valid() && address.size != 0 && len == address.capacity
      modifies this, address`storage, address.Owned()
      ensures queries == old(queries) + 1
      ensures address.Valid() && address.Owned() == old(address.Owned())
      ensures var answer := answers(old(queries));
              if answer.None? then res == None && address.Buffer() == old(address.Buffer())
              else
                && res == Some(|answer.value|)
                && (|answer.value| <= len ==>
                      address.Buffer() == answer.value + old(address.Buffer())[|answer.value|..])
                && (|answer.value| > len ==> address.Buffer() == answer.value[..len])
    {
      var answer := answers(queries);
      queries := queries + 1;
      if answer.None? {
        return None;
      }
      hide Overwritten;
      ghost var before := address.Buffer();
      address.CapacityIsBuffer();
      var n := if |answer.value| <= len then |answer.value| else len;
      OverwriteEnds(before, answer.value, n);
      Write(address, answer.value, n);
      return Some(|answer.value|);
    }

    /** Writes the first `n` bytes of the source to the buffer. */
    static method Write(address: Sdo, source: seq<Byte>, n: nat)
      requires address.Valid() && n <= |source| && n <= address.capacity == |address.Buffer()|
      modifies address`storage, address.Owned()
      ensures address.Valid() && address.Owned() == old(address.Owned())
      ensures address.Buffer() == Overwritten(old(address.Buffer()), source, n)
    {
      hide Overwritten, Sdo.Buffer, Sdo.StorageOk;
      ghost var before := address.Buffer();
      OverwriteEnds(before, source, 0);
      var k := 0;
      while k < n
        invariant 0 <= k <= n && address.StorageOk() && address.Owned() == old(address.Owned())
        invariant address.Buffer() == Overwritten(before, source, k)
      {
        OverwriteNext(before, source, k);
        address.Put(k, source[k]);
        k := k + 1;
      }
    }

    /** The answer is too long for a buffer of this capacity. */
    ghost predicate TooLong(k: nat, capacity: nat) {
      answers(k).Some? && |answers(k).value| > capacity
    }

    /** The capacity that query `k` finds when the first query is number `first`. */
    ghost function CapacityAt(first: nat, k: nat): nat {
      if k > first && answers(k - 1).Some? then |answers(k - 1).value| else SDO_SIZE
    }

    /** The queries before `q` were all too long for the buffer of their time. */
    ghost predicate AllTooLong(first: nat, q: nat) {
      forall k: nat {:trigger CapacityAt(first, k)} | first <= k < q :: TooLong(k, CapacityAt(first, k))
    }

    /** The kernel gives query `first` and the ones after it the same answer. */
    ghost predicate FixedFrom(first: nat) {
      forall k: nat | k > first :: answers(k) == answers(first)
    }

    /** With a fixed address the loop ends after one query, or after two when the address
        does not fit into the small buffer. */
    lemma AtMostTwoQueries(first: nat, q: nat, outcome: Outcome)
      requires FixedFrom(first) && Settled(first, q, outcome) && outcome != BadAlloc
      ensures q == first + if TooLong(first, SDO_SIZE) then 2 else 1
    {
      assert CapacityAt(first, first) == SDO_SIZE;
      assert answers(first + 1) == answers(first);
      assert TooLong(first, SDO_SIZE) ==> !TooLong(first + 1, CapacityAt(first, first + 1));
    }

    /** The answer cannot be the size of an address. */
    ghost predicate TooShort(k: nat) {
      answers(k).Some? && 0 < |answers(k).value| < SIZE_OF_SOCKADDR
    }

    /** A first answer of two bytes, as an unnamed Unix socket has, fails the assertion. */
    lemma UnnamedFails(first: nat, q: nat, outcome: Outcome)
      requires answers(first).Some? && |answers(first).value| == 2 && Settled(first, q, outcome)
      ensures outcome == AssertionFailed && q == first + 1
    {
      assert CapacityAt(first, first) == SDO_SIZE;
    }

    /** The length of a fixed address decides the outcome and the number of queries: with up
        to 32 bytes no memory is needed, and one to fifteen bytes fail the assertion. */
    lemma FixedAddressByLength(first: nat, q: nat, outcome: Outcome)
      requires FixedFrom(first) && Settled(first, q, outcome)
      ensures answers(first).None? ==> outcome == Returned && q == first + 1
      ensures answers(first).Some? ==>
                var n := |answers(first).value|;
                && (n == 0 || 16 <= n <= 32 ==> outcome == Returned && q == first + 1)
                && (1 <= n <= 15 ==> outcome == AssertionFailed && q == first + 1)
                && (n > 32 ==> (outcome == Returned && q == first + 2) || (outcome == BadAlloc && q == first + 1))
    {
      assert CapacityAt(first, first) == 32;
      assert answers(first + 1) == answers(first);
      assert TooLong(first, 32) ==> !TooLong(first + 1, CapacityAt(first, first + 1));
    }

    /** The address that query `k` reports, empty after an error. */
    ghost function Answer(k: nat): seq<Byte> {
      if answers(k).Some? then answers(k).value else []
    }

    /** The address, or what stopped the query. The last query is the first one whose answer
        fits into the buffer that the answer before it asked for. */
    method LocalAddress(memory: Memory) returns (outcome: Outcome, address: Sdo)
      modifies this, memory
      ensures fresh(address) && address.memory == memory
      ensures Settled(old(queries), queries, outcome)
      ensures outcome == BadAlloc ==> memory.requests > 0 && !memory.grants(memory.requests - 1)
      ensures outcome == Returned ==>
                && address.Valid() && address.Owned() <= memory.live
                && address.Contents() == Answer(queries - 1)
    {
      hide TooLong, TooShort, Answer, Settled, StillAsking;
      hide Sdo.Valid, Sdo.StorageOk, Sdo.Owned, Sdo.Contents, Sdo.Buffer;
      address := new Sdo(memory, SDO_SIZE);
      var sized := address.Resize(SIZE_OF_SOCKADDR);
      var loop := true;
      outcome := Returned;
      ghost var first := queries;
      NoneYet(first);
      while loop
        invariant outcome == Returned ==> address.Valid() && address.Owned() <= memory.live
        invariant fresh(address) && fresh(address.Owned()) && address.memory == memory && address.smallSize == SDO_SIZE
        invariant loop ==> outcome == Returned && address.size != 0 && StillAsking(first, queries, address.capacity)
        invariant outcome == BadAlloc ==> memory.requests > 0 && !memory.grants(memory.requests - 1)
        invariant !loop ==> Settled(first, queries, outcome)
        invariant !loop && outcome == Returned ==> queries > 0 && address.Contents() == Answer(queries - 1)
        decreases if loop then 1 else 0, UINT32 - address.capacity
      {
        ghost var q, capacity := queries, address.capacity;
        outcome, loop := Pass(address);
        AfterPass(first, q, capacity, outcome, loop);
      }
    }

    /** The answers from `first` to before `q` were too long, and the buffer now has the size
        that the last of them asked for. */
    ghost predicate StillAsking(first: nat, q: nat, capacity: nat) {
      first <= q && AllTooLong(first, q) && SDO_SIZE <= capacity == CapacityAt(first, q)
    }

    /** How the queries from `first` to before `q` end. */
    ghost predicate Settled(first: nat, q: nat, outcome: Outcome) {
      && first < q && AllTooLong(first, q - 1)
      && (outcome != BadAlloc <==> !TooLong(q - 1, CapacityAt(first, q - 1)))
      && (outcome == AssertionFailed <==> TooShort(q - 1))
    }

    lemma NoneYet(first: nat)
      ensures StillAsking(first, first, SDO_SIZE)
    {
    }

    lemma AfterPass(first: nat, q: nat, capacity: nat, outcome: Outcome, loop: bool)
      requires StillAsking(first, q, capacity) && (outcome == AssertionFailed <==> TooShort(q))
      requires outcome == BadAlloc ==> TooLong(q, capacity)
      requires outcome != BadAlloc ==> (loop <==> TooLong(q, capacity))
      requires outcome != Returned ==> !loop
      ensures loop ==> StillAsking(first, q + 1, |Answer(q)|) && capacity < |Answer(q)| < UINT32
      ensures !loop ==> Settled(first, q + 1, outcome)
    {
    }

    /** One pass of the loop: ask, and make room for the answer. An error empties the
        address; the flag says that the answer did not fit and must be asked for again. */
    method Pass(address: Sdo) returns (outcome: Outcome, loop: bool)
      requires address.Valid() && address.Owned() <= address.memory.live && address.size != 0
      requires address.smallSize == SDO_SIZE
      modifies this, address`capacity, address`size, address`storage, address.Owned(), address.memory
      ensures queries == old(queries) + 1
      ensures outcome == AssertionFailed <==> TooShort(old(queries))
      ensures outcome != BadAlloc ==> (loop <==> TooLong(old(queries), old(address.capacity)))
      ensures outcome == BadAlloc ==>
                && address.memory.requests > 0 && !address.memory.grants(address.memory.requests - 1)
                && TooLong(old(queries), old(address.capacity))
      ensures outcome != Returned ==> !loop && address.Owned() == old(address.Owned())
      ensures outcome == Returned ==>
                && address.Valid() && address.Owned() <= address.memory.live
                && (fresh(address.Owned()) || address.Owned() == old(address.Owned()))
                && if loop then address.size == address.capacity == |Answer(old(queries))|
                   else address.Contents() == Answer(old(queries))
    {
      hide Sdo.StorageOk, Sdo.Owned, Sdo.Buffer;
      outcome, loop := Returned, false;
      address.CapacityIsEnough();
      var len := address.capacity;
      var res := GetSockName(address, len);
      if res.None? {
        var empty := new Sdo(address.memory, SDO_SIZE);
        address.MoveFrom(empty);
        return;
      }
      len := res.value;
      if !(len == 0 || len >= SIZE_OF_SOCKADDR) {
        return AssertionFailed, false;
      }
      loop := len > address.capacity;
      var ok := address.Resize(len);
      if !ok {
        return BadAlloc, false;
      }
      address.ContentsAre();
    }
  }

  /** IPv4 and IPv6 sockets have addresses of 16 and 28 bytes; one query gets them. */
  method InternetSocket(name: seq<Byte>) returns (outcome: Outcome, socket: Socket, address: Sdo)
    requires |name| == 16 || |name| == 28
    ensures fresh(socket) && fresh(address)
    ensures outcome == Returned && socket.queries == 1 && address.Valid() && address.Contents() == name
  {
    socket := new Socket(_ => Some(name));
    var memory := new Memory(_ => true);
    outcome, address := socket.LocalAddress(memory);
    socket.FixedAddressByLength(0, socket.queries, outcome);
  }

  /** The assertion is the one in `address::resize`. */
  datatype Outcome = Returned | AssertionFailed | BadAlloc

  /** An unnamed Unix socket: its address is the two bytes of the family alone. */
  method UnnamedUnixSocket() returns (outcome: Outcome)
    ensures outcome == AssertionFailed
  {
    var socket := new Socket(_ => Some([1, 0]));
    var memory := new Memory(_ => true);
    var address;
    outcome, address := socket.LocalAddress(memory);
    socket.UnnamedFails(0, socket.queries, outcome);
  }
}
