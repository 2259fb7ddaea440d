/** The peripheral Wishbone slave of the harness (main_smp.cpp, the
    peripheral block of the main loop and the exit-code rules). Every request
    is acknowledged one cycle later, never with an error. A write to the
    tohost address merges the selected bytes into the tohost register and
    ends the run; a read of that address returns the register, any other
    read returns zero. */
module Peripheral {
  import opened Words
  import opened Packing

  const TohostAddr: U32 := 0xF00F_FF20

  /** Exit codes: the test passed, failed, or never wrote tohost. */
  const ExitPass: int := 0
  const ExitFail: int := 1
  const ExitTimeout: int := 2

  /** The core's peripheral bus outputs in one cycle, each read as `uint32_t`. `adr` is a word address. */
  datatype Request = Request(cyc: bool, stb: bool, we: bool, adr: U32, sel: U32, datMosi: U32)

  /** The registers of the slave: the response latched for the next cycle,
      the tohost register, and the run's outcome so far. */
  datatype Bus = Bus(ackNext: bool, errNext: bool, rdataNext: U32, tohost: U32, done: bool, exitCode: int)

  /** The state before the first cycle. */
  const Reset: Bus := Bus(false, false, 0, 0, false, ExitTimeout)

  /** The byte address of a request: `ADR << 2` in `uint32_t`. */
  function ByteAddr(req: Request): U32
  {
    Wrap32(req.adr * 4)
  }

  /** An active write to the tohost address. */
  predicate TohostWrite(req: Request)
  {
    req.cyc && req.stb && req.we && ByteAddr(req) == TohostAddr
  }

  /** The byte-select mask of a request: `SEL & 0xF`. */
  function SelBits(req: Request): U16
  {
    req.sel % 16
  }

  /** Byte `b` of the merge: from `wdata` when SEL bit b is set, else from the register. */
  function Pick(tohost: U32, wdata: U32, sel: U16, b: nat): Byte
    requires b < 4
  {
    if Lane(sel, b) then ByteOf(wdata, b) else ByteOf(tohost, b)
  }

  /** The tohost register with the selected bytes of `wdata` written into it. */
  function Merge(tohost: U32, wdata: U32, sel: U16): U32
  {
    Word(Pick(tohost, wdata, sel, 0), Pick(tohost, wdata, sel, 1),
         Pick(tohost, wdata, sel, 2), Pick(tohost, wdata, sel, 3))
  }

  /** Each byte of the merge comes from `wdata` when its SEL bit is set and
      from the old register otherwise. */
  lemma MergeBytes(tohost: U32, wdata: U32, sel: U16, b: nat)
    requires b < 4
    ensures ByteOf(Merge(tohost, wdata, sel), b) == if Lane(sel, b) then ByteOf(wdata, b) else ByteOf(tohost, b)
  {
    WordLanes(Pick(tohost, wdata, sel, 0), Pick(tohost, wdata, sel, 1),
              Pick(tohost, wdata, sel, 2), Pick(tohost, wdata, sel, 3));
  }

  /** The weight of byte b: `1 << 8b`. */
  function Weight(b: nat): nat
    requires b < 4
  {
    match b
    case 0 => 1
    case 1 => 0x100
    case 2 => 0x1_0000
    case 3 => 0x100_0000
  }

  /** Byte j after the first b passes of the merge loop. */
  function PickBelow(tohost: U32, wdata: U32, sel: U16, b: nat, j: nat): Byte
    requires j < 4
  {
    if j < b then Pick(tohost, wdata, sel, j) else ByteOf(tohost, j)
  }

  /** `merged` holds the merge of bytes 0 .. b-1 and the register's bytes above them. */
  predicate MergedBelow(merged: int, tohost: U32, wdata: U32, sel: U16, b: nat)
  {
    merged == Word(PickBelow(tohost, wdata, sel, b, 0), PickBelow(tohost, wdata, sel, b, 1),
                   PickBelow(tohost, wdata, sel, b, 2), PickBelow(tohost, wdata, sel, b, 3))
  }

  /** One pass of the merge loop: clearing a selected byte and OR-ing in the
      byte of `wdata` (an OR into a cleared byte is an addition) moves the
      merge one byte up; an unselected byte is left alone. */
  lemma MergeStep(tohost: U32, wdata: U32, sel: U16, b: nat, merged: U32)
    requires b < 4 && MergedBelow(merged, tohost, wdata, sel, b)
    ensures ByteOf(merged, b) == ByteOf(tohost, b)
    ensures Lane(sel, b) ==>
      MergedBelow(merged - ByteOf(merged, b) * Weight(b) + ByteOf(wdata, b) * Weight(b), tohost, wdata, sel, b + 1)
    ensures !Lane(sel, b) ==> MergedBelow(merged, tohost, wdata, sel, b + 1)
  {
    WordLanes(PickBelow(tohost, wdata, sel, b, 0), PickBelow(tohost, wdata, sel, b, 1),
              PickBelow(tohost, wdata, sel, b, 2), PickBelow(tohost, wdata, sel, b, 3));
  }

  /** The byte-merge loop of a write: for each selected byte, clear it and OR in the new one. */
  method MergeSel(tohost: U32, wdata: U32, sel: U16) returns (merged: U32)
    ensures merged == Merge(tohost, wdata, sel)
  {
    merged := tohost;
    BytesWord(tohost);
    for b := 0 to 4
      invariant MergedBelow(merged, tohost, wdata, sel, b)
    {
      MergeStep(tohost, wdata, sel, b, merged);
      if Lane(sel, b) {
        merged := merged - ByteOf(merged, b) * Weight(b);         // merged &= ~(0xFF << 8b)
        merged := merged + ByteOf(wdata, b) * Weight(b);          // merged |= byte << 8b
      }
    }
  }

  /** One cycle of the slave: latch the response for the next cycle and
      act on the request the core presents. */
  function Respond(s: Bus, req: Request): (t: Bus)
    ensures t.ackNext == (req.cyc && req.stb) && !t.errNext
    ensures t.done == (s.done || TohostWrite(req))
    ensures !TohostWrite(req) ==> t.tohost == s.tohost && t.exitCode == s.exitCode
  {
    var active := req.cyc && req.stb;
    var t := s.(ackNext := active, errNext := false, rdataNext := 0);
    if !active then t
    else if req.we then
      var merged := Merge(s.tohost, req.datMosi, SelBits(req));
      if ByteAddr(req) == TohostAddr then
        t.(tohost := merged, done := true, exitCode := if merged == 0 then ExitPass else ExitFail)
      else t
    else t.(rdataNext := if ByteAddr(req) == TohostAddr then s.tohost else 0)
  }

  /** The outcome registers agree: before the run ends tohost is still zero
      and the exit code is the timeout code; once it ends, the exit code
      says whether tohost is zero. */
  predicate Consistent(s: Bus)
  {
    (!s.done ==> s.tohost == 0 && s.exitCode == ExitTimeout) &&
    (s.done ==> s.exitCode == if s.tohost == 0 then ExitPass else ExitFail)
  }

  /** The acknowledge of a request comes one cycle later, never with an error. */
  lemma AckLatched(s: Bus, req: Request)
    ensures Respond(s, req).ackNext <==> req.cyc && req.stb
    ensures !Respond(s, req).errNext
  {
  }

  /** A write to tohost ends the run: exit 0 when the merged value is zero, 1 otherwise. */
  lemma TohostWriteEndsRun(s: Bus, req: Request)
    requires TohostWrite(req)
    ensures var t := Respond(s, req);
      t.done && t.tohost == Merge(s.tohost, req.datMosi, SelBits(req)) &&
      (t.exitCode == ExitPass <==> t.tohost == 0) && (t.exitCode == ExitFail <==> t.tohost != 0)
  {
  }

  /** A write anywhere else, a read, or no request at all leaves tohost and
      the outcome alone. */
  lemma OtherRequestsKeepOutcome(s: Bus, req: Request)
    requires !TohostWrite(req)
    ensures var t := Respond(s, req);
      t.tohost == s.tohost && t.done == s.done && t.exitCode == s.exitCode
  {
  }

  /** A read returns tohost at the tohost address and zero everywhere else. */
  lemma ReadData(s: Bus, req: Request)
    requires req.cyc && req.stb && !req.we
    ensures Respond(s, req).rdataNext == if ByteAddr(req) == TohostAddr then s.tohost else 0
  {
  }

  /** Every cycle keeps the outcome registers consistent, and a run that has
      ended stays ended. */
  lemma RespondConsistent(s: Bus, req: Request)
    requires Consistent(s)
    ensures Consistent(Respond(s, req))
    ensures s.done ==> Respond(s, req).done
  {
  }

  lemma ResetConsistent()
    ensures Consistent(Reset)
  {
  }

  /** Every byte of `wdata` that `sel` selects is zero. */
  predicate SelectedBytesZero(wdata: U32, sel: U16)
  {
    (Lane(sel, 0) ==> ByteOf(wdata, 0) == 0) && (Lane(sel, 1) ==> ByteOf(wdata, 1) == 0) &&
    (Lane(sel, 2) ==> ByteOf(wdata, 2) == 0) && (Lane(sel, 3) ==> ByteOf(wdata, 3) == 0)
  }

  /** A merge into a zero register is zero exactly when every selected byte of `wdata` is zero. */
  lemma MergeIntoZero(wdata: U32, sel: U16)
    ensures Merge(0, wdata, sel) == 0 <==> SelectedBytesZero(wdata, sel)
  {
    var p0, p1, p2, p3 := Pick(0, wdata, sel, 0), Pick(0, wdata, sel, 1), Pick(0, wdata, sel, 2), Pick(0, wdata, sel, 3);
    assert SelectedBytesZero(wdata, sel) <==> p0 == 0 && p1 == 0 && p2 == 0 && p3 == 0 by {
      PickFromZero(wdata, sel, 0);
      PickFromZero(wdata, sel, 1);
      PickFromZero(wdata, sel, 2);
      PickFromZero(wdata, sel, 3);
    }
    assert Merge(0, wdata, sel) == 0 <==> p0 == 0 && p1 == 0 && p2 == 0 && p3 == 0 by {
      WordZero(p0, p1, p2, p3);
    }
  }

  /** Only the all-zero bytes make a zero word. */
  lemma WordZero(b0: Byte, b1: Byte, b2: Byte, b3: Byte)
    ensures Word(b0, b1, b2, b3) == 0 <==> b0 == 0 && b1 == 0 && b2 == 0 && b3 == 0
  {
  }

  /** A byte merged into a zero register is zero unless it is selected and non-zero. */
  lemma PickFromZero(wdata: U32, sel: U16, b: nat)
    requires b < 4
    ensures Pick(0, wdata, sel, b) == 0 <==> (Lane(sel, b) ==> ByteOf(wdata, b) == 0)
  {
    assert ByteOf(0, b) == 0;
  }

  /** The first tohost write of a run passes exactly when every byte it
      selects is zero (the register it merges into is still zero). */
  lemma FirstWritePasses(s: Bus, req: Request)
    requires Consistent(s) && !s.done
    requires TohostWrite(req)
    ensures Respond(s, req).exitCode == ExitPass <==> SelectedBytesZero(req.datMosi, SelBits(req))
  {
    MergeIntoZero(req.datMosi, SelBits(req));
  }

  /** The process exit code once the loop stops: the code the run set, or
      2 when tohost was never written. */
  function FinalExitCode(s: Bus): (code: int)
    requires Consistent(s)
    ensures code in {ExitPass, ExitFail, ExitTimeout}
    ensures code == ExitTimeout <==> !s.done
    ensures code == ExitPass <==> s.done && s.tohost == 0
  {
    if !s.done then ExitTimeout else s.exitCode
  }
}
