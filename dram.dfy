/** One LiteDRAM-native-style channel of the external DRAM model (`DramState`
    and the command, write-data and read-data handling in main_smp.cpp).
    Commands and write data are accepted unconditionally. A read command
    fetches its 16-byte block at once and queues the response; a write
    command queues its address until its write-data beat arrives; a beat
    commits only the lanes its byte-enable mask selects. */
module Dram {
  import opened Words
  import opened SparseMemory
  import opened Packing
  import opened WriteTrace

  const DramBase: U32 := 0x8000_0000
  /** Bytes per 128-bit DRAM word; a command's address is a word index. */
  const WordBytes: nat := 16

  /** The byte address of word `idx`: `kDramBase + idx * kDramWordBytes` in `uint32_t`. */
  function BlockAddr(idx: U32): U32
  {
    Wrap32(DramBase + Wrap32(idx * WordBytes))
  }

  /** Block addresses are 16-byte aligned, so a block never straddles the
      top of the address space. */
  lemma BlockAligned(idx: U32)
    ensures BlockAddr(idx) % WordBytes == 0 && BlockAddr(idx) + WordBytes <= Two32
  {
    var m := idx * WordBytes;
    var q := m / Two32;
    var k := idx - q * 0x1000_0000;
    assert Wrap32(m) == 16 * k;
    var s := DramBase + 16 * k;
    if s >= Two32 {
      DivMod(s, Two32, 1, s - Two32);
      k := k - 0x1000_0000;
    }
    assert BlockAddr(idx) == 16 * (0x800_0000 + k);
    DivMod(BlockAddr(idx), 16, 0x800_0000 + k, 0);
  }

  /** A queued read response: the block address and its four data words. */
  datatype ReadResp = ReadResp(addr: U32, words: seq<U32>)

  /** The 16 bytes at addr, addr+1, ... (wrapping), as the memory holds them. */
  function ReadBlock(store: Store, addr: U32): (bytes: seq<Byte>)
    ensures |bytes| == WordBytes
  {
    seq<Byte>(WordBytes, i requires 0 <= i < WordBytes => Lookup(store, Wrap32(addr + i)))
  }

  /** The response a read command of word `idx` queues. */
  function ReadResponse(store: Store, idx: U32): ReadResp
  {
    ReadResp(BlockAddr(idx), Pack(ReadBlock(store, BlockAddr(idx))))
  }

  /** The memory after lanes 0 .. n-1 of a beat, each stored only when its mask bit is set. */
  function CommitLanes(store: Store, addr: U32, bytes: seq<Byte>, mask: U16, n: nat): Store
    requires n <= |bytes| == WordBytes
  {
    if n == 0 then store
    else
      var before := CommitLanes(store, addr, bytes, mask, n - 1);
      if Lane(mask, n - 1) then before[Wrap32(addr + n - 1) := bytes[n - 1]] else before
  }

  /** The memory after a whole write-data beat. */
  function Commit(store: Store, addr: U32, bytes: seq<Byte>, mask: U16): Store
    requires |bytes| == WordBytes
  {
    CommitLanes(store, addr, bytes, mask, WordBytes)
  }

  /** A beat stores byte i at addr+i exactly when mask bit i is set; every
      other address keeps its byte. */
  lemma {:induction false} CommitLanesEffect(store: Store, addr: U32, bytes: seq<Byte>, mask: U16, n: nat, a: U32)
    requires n <= |bytes| == WordBytes
    ensures Lookup(CommitLanes(store, addr, bytes, mask, n), a)
         == (var d := Wrap32(a - addr); if d < n && Lane(mask, d) then bytes[d] else Lookup(store, a))
  {
    if n > 0 {
      CommitLanesEffect(store, addr, bytes, mask, n - 1, a);
      WrapDistance(a, addr, n - 1);
    }
  }

  lemma CommitEffect(store: Store, addr: U32, bytes: seq<Byte>, mask: U16, a: U32)
    requires |bytes| == WordBytes
    ensures Lookup(Commit(store, addr, bytes, mask), a)
         == (var d := Wrap32(a - addr); if d < WordBytes && Lane(mask, d) then bytes[d] else Lookup(store, a))
  {
    CommitLanesEffect(store, addr, bytes, mask, WordBytes, a);
  }

  /** A full-mask beat followed by a read of the same block returns the
      beat's payload: what the core writes it reads back. */
  lemma WriteThenRead(store: Store, idx: U32, words: seq<U32>)
    requires |words| == 4
    ensures ReadResponse(Commit(store, BlockAddr(idx), Unpack(words), 0xFFFF), idx).words == words
  {
    FullBeatReadBack(store, BlockAddr(idx), Unpack(words));
  }

  /** After a full-mask beat, the block at its address holds the beat's bytes. */
  lemma FullBeatReadBack(store: Store, addr: U32, bytes: seq<Byte>)
    requires |bytes| == WordBytes
    ensures ReadBlock(Commit(store, addr, bytes, 0xFFFF), addr) == bytes
  {
    var after := Commit(store, addr, bytes, 0xFFFF);
    forall i | 0 <= i < WordBytes
      ensures ReadBlock(after, addr)[i] == bytes[i]
    {
      CommitEffect(store, addr, bytes, 0xFFFF, Wrap32(addr + i));
      WrapDistance(Wrap32(addr + i), addr, i);
      FullMaskLane(i);
    }
  }

  /** Every bit of 0xFFFF is set. */
  lemma FullMaskLane(i: nat)
    requires i < WordBytes
    ensures Lane(0xFFFF, i)
  {
    assert Pow2(1) == 2 && Pow2(2) == 4 && Pow2(3) == 8 && Pow2(4) == 16;
    assert Pow2(5) == 32 && Pow2(6) == 64 && Pow2(7) == 128 && Pow2(8) == 256;
    assert Pow2(9) == 512 && Pow2(10) == 1024 && Pow2(11) == 2048 && Pow2(12) == 4096;
    assert Pow2(13) == 8192 && Pow2(14) == 16384 && Pow2(15) == 32768;
  }

  /** The two FIFOs of a channel. */
  datatype Queues = Queues(writeAddrQ: seq<U32>, rdataQ: seq<ReadResp>)

  /** What can happen to a channel in a cycle. */
  datatype Event =
    | ReadIssued(resp: ReadResp)  // a read command: its response joins the back of `rdata_q`
    | WriteIssued(addr: U32)      // a write command: its address joins the back of `write_addr_q`
    | ReadTaken                   // valid && ready: the front response leaves
    | BeatTaken                   // a write-data beat: the oldest write address leaves

  function Apply(q: Queues, e: Event): Queues
  {
    match e
    case ReadIssued(resp) => q.(rdataQ := q.rdataQ + [resp])
    case WriteIssued(addr) => q.(writeAddrQ := q.writeAddrQ + [addr])
    case ReadTaken => if q.rdataQ == [] then q else q.(rdataQ := q.rdataQ[1..])
    case BeatTaken => if q.writeAddrQ == [] then q else q.(writeAddrQ := q.writeAddrQ[1..])
  }

  /** The queues after a history of events, oldest first. */
  function Replay(q: Queues, es: seq<Event>): Queues
  {
    if es == [] then q else Apply(Replay(q, es[..|es| - 1]), es[|es| - 1])
  }

  /** The responses the events issue, in issue order. */
  function IssuedReads(es: seq<Event>): seq<ReadResp>
  {
    if es == [] then []
    else IssuedReads(es[..|es| - 1]) + (if es[|es| - 1].ReadIssued? then [es[|es| - 1].resp] else [])
  }

  /** The write addresses the events issue, in issue order. */
  function IssuedWrites(es: seq<Event>): seq<U32>
  {
    if es == [] then []
    else IssuedWrites(es[..|es| - 1]) + (if es[|es| - 1].WriteIssued? then [es[|es| - 1].addr] else [])
  }

  /** The responses handed to the core, in the order they leave. */
  function DeliveredReads(q: Queues, es: seq<Event>): seq<ReadResp>
  {
    if es == [] then []
    else
      var before := Replay(q, es[..|es| - 1]);
      DeliveredReads(q, es[..|es| - 1])
        + (if es[|es| - 1].ReadTaken? && before.rdataQ != [] then [before.rdataQ[0]] else [])
  }

  /** The write addresses the beats consumed, in the order they were used. */
  function CommittedWrites(q: Queues, es: seq<Event>): seq<U32>
  {
    if es == [] then []
    else
      var before := Replay(q, es[..|es| - 1]);
      CommittedWrites(q, es[..|es| - 1])
        + (if es[|es| - 1].BeatTaken? && before.writeAddrQ != [] then [before.writeAddrQ[0]] else [])
  }

  /** Read responses leave in issue order: what has left, followed by what
      is still queued, is what was queued at the start followed by what was issued. */
  lemma {:induction false} ReadsInOrder(q: Queues, es: seq<Event>)
    ensures DeliveredReads(q, es) + Replay(q, es).rdataQ == q.rdataQ + IssuedReads(es)
  {
    if es != [] {
      var init, e := es[..|es| - 1], es[|es| - 1];
      ReadsInOrder(q, init);
      var before := Replay(q, init);
      var issued := if e.ReadIssued? then [e.resp] else [];
      var left := if e.ReadTaken? && before.rdataQ != [] then [before.rdataQ[0]] else [];
      assert DeliveredReads(q, es) == DeliveredReads(q, init) + left;
      assert IssuedReads(es) == IssuedReads(init) + issued;
      assert left + Apply(before, e).rdataQ == before.rdataQ + issued;
      assert Replay(q, es) == Apply(before, e);
      calc {
        DeliveredReads(q, es) + Replay(q, es).rdataQ;
        (DeliveredReads(q, init) + left) + Apply(before, e).rdataQ;
        { Associative(DeliveredReads(q, init), left, Apply(before, e).rdataQ); }
        DeliveredReads(q, init) + (left + Apply(before, e).rdataQ);
        DeliveredReads(q, init) + (before.rdataQ + issued);
        { Associative(DeliveredReads(q, init), before.rdataQ, issued); }
        (DeliveredReads(q, init) + before.rdataQ) + issued;
        (q.rdataQ + IssuedReads(init)) + issued;
        { Associative(q.rdataQ, IssuedReads(init), issued); }
        q.rdataQ + IssuedReads(es);
      }
    }
  }

  /** Write-data beats use the write addresses in the order the commands queued them. */
  lemma {:induction false} WritesInOrder(q: Queues, es: seq<Event>)
    ensures CommittedWrites(q, es) + Replay(q, es).writeAddrQ == q.writeAddrQ + IssuedWrites(es)
  {
    if es != [] {
      var init, e := es[..|es| - 1], es[|es| - 1];
      WritesInOrder(q, init);
      var before := Replay(q, init);
      var issued := if e.WriteIssued? then [e.addr] else [];
      var used := if e.BeatTaken? && before.writeAddrQ != [] then [before.writeAddrQ[0]] else [];
      assert CommittedWrites(q, es) == CommittedWrites(q, init) + used;
      assert IssuedWrites(es) == IssuedWrites(init) + issued;
      assert used + Apply(before, e).writeAddrQ == before.writeAddrQ + issued;
      assert Replay(q, es) == Apply(before, e);
      calc {
        CommittedWrites(q, es) + Replay(q, es).writeAddrQ;
        (CommittedWrites(q, init) + used) + Apply(before, e).writeAddrQ;
        { Associative(CommittedWrites(q, init), used, Apply(before, e).writeAddrQ); }
        CommittedWrites(q, init) + (used + Apply(before, e).writeAddrQ);
        CommittedWrites(q, init) + (before.writeAddrQ + issued);
        { Associative(CommittedWrites(q, init), before.writeAddrQ, issued); }
        (CommittedWrites(q, init) + before.writeAddrQ) + issued;
        (q.writeAddrQ + IssuedWrites(init)) + issued;
        { Associative(q.writeAddrQ, IssuedWrites(init), issued); }
        q.writeAddrQ + IssuedWrites(es);
      }
    }
  }

  /** Replaying two histories one after the other is replaying their concatenation. */
  lemma {:induction false} ReplayAppend(q: Queues, a: seq<Event>, b: seq<Event>)
    ensures Replay(q, a + b) == Replay(Replay(q, a), b)
  {
    if b == [] {
      assert a + b == a;
    } else {
      var init := b[..|b| - 1];
      assert (a + b)[..|a + b| - 1] == a + init;
      ReplayAppend(q, a, init);
    }
  }

  /** The responses delivered over two histories are those of the first,
      then those of the second from the queues the first left. */
  lemma {:induction false} DeliveredAppend(q: Queues, a: seq<Event>, b: seq<Event>)
    ensures DeliveredReads(q, a + b) == DeliveredReads(q, a) + DeliveredReads(Replay(q, a), b)
  {
    if b == [] {
      assert a + b == a;
    } else {
      var init := b[..|b| - 1];
      assert (a + b)[..|a + b| - 1] == a + init;
      assert (a + b)[|a + b| - 1] == b[|b| - 1];
      DeliveredAppend(q, a, init);
      ReplayAppend(q, a, init);
    }
  }

  /** The responses issued over two histories are those of the first, then those of the second. */
  lemma {:induction false} IssuedAppend(a: seq<Event>, b: seq<Event>)
    ensures IssuedReads(a + b) == IssuedReads(a) + IssuedReads(b)
  {
    if b == [] {
      assert a + b == a;
    } else {
      var init := b[..|b| - 1];
      assert (a + b)[..|a + b| - 1] == a + init;
      assert (a + b)[|a + b| - 1] == b[|b| - 1];
      IssuedAppend(a, init);
    }
  }

  /** The write addresses the beats of two histories use: those of the first,
      then those of the second from the queues the first left. */
  lemma {:induction false} CommittedAppend(q: Queues, a: seq<Event>, b: seq<Event>)
    ensures CommittedWrites(q, a + b) == CommittedWrites(q, a) + CommittedWrites(Replay(q, a), b)
  {
    if b == [] {
      assert a + b == a;
    } else {
      var init := b[..|b| - 1];
      assert (a + b)[..|a + b| - 1] == a + init;
      assert (a + b)[|a + b| - 1] == b[|b| - 1];
      CommittedAppend(q, a, init);
      ReplayAppend(q, a, init);
    }
  }

  /** The write addresses issued over two histories are those of the first, then those of the second. */
  lemma {:induction false} IssuedWritesAppend(a: seq<Event>, b: seq<Event>)
    ensures IssuedWrites(a + b) == IssuedWrites(a) + IssuedWrites(b)
  {
    if b == [] {
      assert a + b == a;
    } else {
      var init := b[..|b| - 1];
      assert (a + b)[..|a + b| - 1] == a + init;
      assert (a + b)[|a + b| - 1] == b[|b| - 1];
      IssuedWritesAppend(a, init);
    }
  }

  lemma Associative<T>(a: seq<T>, b: seq<T>, c: seq<T>)
    ensures (a + b) + c == a + (b + c)
  {
  }

  /** From empty queues, the k-th response delivered is the k-th one issued. */
  lemma FirstIssuedFirstDelivered(es: seq<Event>, k: nat)
    requires k < |DeliveredReads(Queues([], []), es)|
    ensures k < |IssuedReads(es)| && DeliveredReads(Queues([], []), es)[k] == IssuedReads(es)[k]
  {
    var q := Queues([], []);
    ReadsInOrder(q, es);
    assert (DeliveredReads(q, es) + Replay(q, es).rdataQ)[k] == DeliveredReads(q, es)[k];
  }

  /** A channel of the DRAM model, with the read-data pins it drives. */
  class DramChannel {
    var writeAddrQ: seq<U32>
    var rdataQ: seq<ReadResp>
    /** `rdata_valid` as last driven. */
    var rdataValid: bool
    /** `rdata_payload_data[0..3]` as last driven; kept when the queue is empty. */
    var rdataPayload: seq<U32>

    function State(): Queues
      reads this
    {
      Queues(writeAddrQ, rdataQ)
    }

    /** Empty queues; the pins start at their reset defaults (valid 0, data 0). */
    constructor ()
      ensures State() == Queues([], []) && !rdataValid && rdataPayload == [0, 0, 0, 0]
    {
      writeAddrQ, rdataQ := [], [];
      rdataValid, rdataPayload := false, [0, 0, 0, 0];
    }

    /** Drive the read-data pins from the queue: valid when a response is
        queued, with the front response's words as payload. */
    method Drive()
      modifies this
      ensures State() == old(State())
      ensures rdataValid <==> rdataQ != []
      ensures rdataQ != [] ==> rdataPayload == rdataQ[0].words
      ensures rdataQ == [] ==> rdataPayload == old(rdataPayload)
    {
      if rdataQ != [] {
        rdataValid := true;
        rdataPayload := rdataQ[0].words;
      } else {
        rdataValid := false;
      }
    }

    /** After the core's evaluation: the front response leaves only when
        valid and ready are both high. */
    method Consume(ready: bool)
      requires rdataValid ==> rdataQ != []
      modifies this
      ensures State() == if rdataValid && ready then Apply(old(State()), ReadTaken) else old(State())
      ensures rdataValid == old(rdataValid) && rdataPayload == old(rdataPayload)
    {
      if rdataValid && ready {
        rdataQ := rdataQ[1..];
      }
    }

    /** An accepted command. A write queues its byte address; a read fetches
        the 16 bytes of the block and queues the packed response. */
    method Command(mem: Memory, idx: U32, we: bool)
      requires mem.Valid()
      modifies this, mem
      ensures mem.Valid() && mem.Contents == old(mem.Contents)
      ensures State() == Apply(old(State()),
        if we then WriteIssued(BlockAddr(idx)) else ReadIssued(ReadResponse(old(mem.Contents), idx)))
      ensures rdataValid == old(rdataValid) && rdataPayload == old(rdataPayload)
    {
      var addr := BlockAddr(idx);
      if we {
        writeAddrQ := writeAddrQ + [addr];
      } else {
        var bytes := FetchBlock(mem, addr);
        rdataQ := rdataQ + [ReadResp(addr, Pack(bytes))];
      }
    }

    /** An accepted write-data beat. With no write address queued it is
        dropped. Otherwise the oldest address is popped, the enabled lanes
        are committed, and the write is reported on the memory trace. */
    method WriteBeat(mem: Memory, time: nat, words: seq<U32>, mask: U16) returns (trace: seq<MemWriteLine>)
      requires mem.Valid() && |words| == 4
      modifies this, mem
      ensures mem.Valid()
      ensures State() == Apply(old(State()), BeatTaken)
      ensures old(writeAddrQ) == [] ==> mem.Contents == old(mem.Contents) && trace == []
      ensures old(writeAddrQ) != [] ==>
        mem.Contents == Commit(old(mem.Contents), old(writeAddrQ)[0], Unpack(words), mask) &&
        trace == WriteLines(time, old(writeAddrQ)[0], Unpack(words), mask)
      ensures rdataValid == old(rdataValid) && rdataPayload == old(rdataPayload)
    {
      trace := [];
      if writeAddrQ != [] {
        var addr := writeAddrQ[0];
        writeAddrQ := writeAddrQ[1..];
        var bytes := Unpack(words);
        StoreLanes(mem, addr, bytes, mask);
        trace := LogMemWriteGroups(time, addr, bytes, mask);
      }
    }
  }

  /** The 16-lane read loop of a read command: `bytes[i] = mem[addr + i]`. */
  method FetchBlock(mem: Memory, addr: U32) returns (bytes: seq<Byte>)
    requires mem.Valid()
    modifies mem
    ensures mem.Valid() && mem.Contents == old(mem.Contents)
    ensures bytes == ReadBlock(mem.Contents, addr)
  {
    var buf := new Byte[WordBytes];
    for i := 0 to WordBytes
      invariant mem.Valid() && mem.Contents == old(mem.Contents)
      invariant forall j :: 0 <= j < i ==> buf[j] == Lookup(mem.Contents, Wrap32(addr + j))
    {
      buf[i] := mem.Read(Wrap32(addr + i));
    }
    bytes := buf[..];
  }

  /** The 16-lane commit loop of a write-data beat: lane i is stored when mask bit i is set. */
  method StoreLanes(mem: Memory, addr: U32, bytes: seq<Byte>, mask: U16)
    requires mem.Valid() && |bytes| == WordBytes
    modifies mem
    ensures mem.Valid() && mem.Contents == Commit(old(mem.Contents), addr, bytes, mask)
  {
    for i := 0 to WordBytes
      invariant mem.Valid() && mem.Contents == CommitLanes(old(mem.Contents), addr, bytes, mask, i)
    {
      if Lane(mask, i) {
        mem.Write(Wrap32(addr + i), bytes[i]);
      }
    }
  }
}
