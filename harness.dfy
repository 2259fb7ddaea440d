/** One iteration of the main loop of main_smp.cpp. The Verilated core is
    not modelled: each cycle the harness drives its inputs (`Drive`), the
    core is evaluated outside the model, and the values it presents on its
    outputs are handed to `Step`. The command and write-data ready signals
    are tied to 1, so every valid command and beat is accepted. */
module Harness {
  import opened Words
  import opened Packing
  import opened SparseMemory
  import opened WriteTrace
  import opened HexLoader
  import opened Dram
  import opened Peripheral

  /** `kMaxCycles`: the loop gives up after this many cycles. */
  const MaxCycles: nat := 20_000_000

  /** A DRAM command port as sampled after evaluation: valid, word index, write flag. */
  datatype CmdPort = CmdPort(valid: bool, idx: U32, we: bool)

  /** A DRAM write-data port: valid, the four payload words, the 16-bit byte enable. */
  datatype WdataPort = WdataPort(valid: bool, data: seq<U32>, mask: U16)

  /** The outputs of one bridge: command, write data, and its read-data ready. */
  datatype DramPorts = DramPorts(cmd: CmdPort, wdata: WdataPort, rdataReady: bool)

  /** Everything the loop samples from the core after the clock edge. */
  datatype CoreOutputs = CoreOutputs(periph: Request, iBus: DramPorts, dBus: DramPorts)

  predicate WellFormed(out: CoreOutputs)
  {
    |out.iBus.wdata.data| == 4 && |out.dBus.wdata.data| == 4
  }

  /** The inputs the loop drives before the clock edge. */
  datatype CoreInputs = CoreInputs(
    ack: bool, err: bool, datMiso: U32,
    iRdataValid: bool, iRdata: seq<U32>,
    dRdataValid: bool, dRdata: seq<U32>)

  /** What one channel's cycle produces: the memory, the queues and the trace lines. */
  datatype ChannelResult = ChannelResult(store: Store, queues: Queues, trace: seq<MemWriteLine>)

  /** The queue event of an accepted command. A read captures the block as memory holds it now. */
  function CommandEvent(store: Store, cmd: CmdPort): Event
  {
    if cmd.we then WriteIssued(BlockAddr(cmd.idx)) else ReadIssued(ReadResponse(store, cmd.idx))
  }

  /** The events of one channel in one cycle, in the order the loop handles them:
      read delivery, then the command, then the write-data beat. */
  function CycleEvents(store: Store, rdataValid: bool, p: DramPorts): seq<Event>
  {
    (if rdataValid && p.rdataReady then [ReadTaken] else [])
      + (if p.cmd.valid then [CommandEvent(store, p.cmd)] else [])
      + (if p.wdata.valid then [BeatTaken] else [])
  }

  /** One channel's cycle, step by step: the front response leaves when
      valid and ready; an accepted command joins its queue; a beat pops the
      oldest write address (possibly the one just queued) and commits the
      enabled lanes there. */
  function ChannelCycle(time: nat, store: Store, q: Queues, rdataValid: bool, p: DramPorts): (r: ChannelResult)
    requires |p.wdata.data| == 4
  {
    var q1 := if rdataValid && p.rdataReady then Apply(q, ReadTaken) else q;
    var q2 := if p.cmd.valid then Apply(q1, CommandEvent(store, p.cmd)) else q1;
    var beat := p.wdata.valid && q2.writeAddrQ != [];
    ChannelResult(
      if beat then Commit(store, q2.writeAddrQ[0], Unpack(p.wdata.data), p.wdata.mask) else store,
      if p.wdata.valid then Apply(q2, BeatTaken) else q2,
      if beat then WriteLines(time, q2.writeAddrQ[0], Unpack(p.wdata.data), p.wdata.mask) else [])
  }

  /** Delivery comes first in a channel's cycle: popping the front
      response and then running the cycle with the pin low is the cycle. */
  lemma DeliveryFirst(time: nat, store: Store, q: Queues, rdataValid: bool, p: DramPorts)
    requires |p.wdata.data| == 4
    ensures ChannelCycle(time, store, if rdataValid && p.rdataReady then Apply(q, ReadTaken) else q, false, p)
         == ChannelCycle(time, store, q, rdataValid, p)
  {
  }

  /** The queues after a channel's cycle are the replay of its events. */
  lemma ChannelCycleReplay(time: nat, store: Store, q: Queues, rdataValid: bool, p: DramPorts)
    requires |p.wdata.data| == 4
    ensures ChannelCycle(time, store, q, rdataValid, p).queues == Replay(q, CycleEvents(store, rdataValid, p))
  {
    var taken: seq<Event> := if rdataValid && p.rdataReady then [ReadTaken] else [];
    var cmd: seq<Event> := if p.cmd.valid then [CommandEvent(store, p.cmd)] else [];
    var beat: seq<Event> := if p.wdata.valid then [BeatTaken] else [];
    ReplaySnoc(q, taken, cmd);
    ReplaySnoc(q, taken + cmd, beat);
    ReplaySnoc(q, [], taken);
    assert [] + taken == taken;
  }

  /** Replaying at most one more event. */
  lemma ReplaySnoc(q: Queues, es: seq<Event>, e: seq<Event>)
    requires |e| <= 1
    ensures Replay(q, es + e) == if e == [] then Replay(q, es) else Apply(Replay(q, es), e[0])
  {
    if e == [] {
      assert es + e == es;
    } else {
      assert (es + e)[..|es + e| - 1] == es;
    }
  }

  /** A write-data beat goes to the oldest write address still waiting: one
      queued in an earlier cycle when there is one, otherwise the address of
      a write command accepted in this same cycle. With neither, the beat is
      dropped and memory is untouched. */
  lemma BeatTargetsOldest(store: Store, q: Queues, rdataValid: bool, p: DramPorts)
    requires |p.wdata.data| == 4 && p.wdata.valid
    ensures var r := ChannelCycle(0, store, q, rdataValid, p);
      (q.writeAddrQ != [] ==>
        r.store == Commit(store, q.writeAddrQ[0], Unpack(p.wdata.data), p.wdata.mask) &&
        r.queues.writeAddrQ == q.writeAddrQ[1..] + (if p.cmd.valid && p.cmd.we then [BlockAddr(p.cmd.idx)] else [])) &&
      (q.writeAddrQ == [] && p.cmd.valid && p.cmd.we ==>
        r.store == Commit(store, BlockAddr(p.cmd.idx), Unpack(p.wdata.data), p.wdata.mask) &&
        r.queues.writeAddrQ == []) &&
      (q.writeAddrQ == [] && !(p.cmd.valid && p.cmd.we) ==>
        r.store == store && r.queues.writeAddrQ == [] && r.trace == [])
  {
    if q.writeAddrQ != [] && p.cmd.valid && p.cmd.we {
      assert (q.writeAddrQ + [BlockAddr(p.cmd.idx)])[1..] == q.writeAddrQ[1..] + [BlockAddr(p.cmd.idx)];
    }
  }

  /** A read command in a cycle sees memory before that cycle's beat: a
      read and a write-data beat of the same channel in the same cycle give
      the old block back. */
  lemma ReadBeforeBeat(store: Store, q: Queues, rdataValid: bool, p: DramPorts)
    requires |p.wdata.data| == 4 && p.cmd.valid && !p.cmd.we
    ensures var r := ChannelCycle(0, store, q, rdataValid, p);
      |r.queues.rdataQ| > 0 && r.queues.rdataQ[|r.queues.rdataQ| - 1] == ReadResponse(store, p.cmd.idx)
  {
  }

  /** What one channel sees in one cycle: the cycle number, memory as the
      channel finds it, its read-data valid pin as driven, and the ports the
      core presents. */
  datatype ChannelInput = ChannelInput(time: nat, store: Store, rdataValid: bool, ports: DramPorts)

  predicate WellFormedRun(run: seq<ChannelInput>)
  {
    forall i | 0 <= i < |run| :: |run[i].ports.wdata.data| == 4
  }

  /** A channel's queues after consecutive cycles, each one a `ChannelCycle`. */
  function RunQueues(q: Queues, run: seq<ChannelInput>): Queues
    requires WellFormedRun(run)
  {
    if run == [] then q
    else
      var c := run[|run| - 1];
      ChannelCycle(c.time, c.store, RunQueues(q, run[..|run| - 1]), c.rdataValid, c.ports).queues
  }

  /** One more cycle extends a run. */
  lemma RunExtends(q: Queues, run: seq<ChannelInput>, c: ChannelInput)
    requires WellFormedRun(run) && |c.ports.wdata.data| == 4
    ensures WellFormedRun(run + [c])
    ensures RunQueues(q, run + [c]) == ChannelCycle(c.time, c.store, RunQueues(q, run), c.rdataValid, c.ports).queues
  {
    assert (run + [c])[..|run|] == run;
  }

  /** The queue events of consecutive cycles, oldest first. */
  function RunEvents(run: seq<ChannelInput>): seq<Event>
  {
    if run == [] then []
    else
      var c := run[|run| - 1];
      RunEvents(run[..|run| - 1]) + CycleEvents(c.store, c.rdataValid, c.ports)
  }

  /** The queues after any number of cycles are the replay of all their
      events, so the in-order lemmas about `Replay` hold across cycles. */
  lemma {:induction false} RunReplay(q: Queues, run: seq<ChannelInput>)
    requires WellFormedRun(run)
    ensures RunQueues(q, run) == Replay(q, RunEvents(run))
  {
    if run != [] {
      var init, c := run[..|run| - 1], run[|run| - 1];
      assert WellFormedRun(init) by {
        forall i | 0 <= i < |init| ensures |init[i].ports.wdata.data| == 4 {
          assert init[i] == run[i];
        }
      }
      RunReplay(q, init);
      ChannelCycleReplay(c.time, c.store, RunQueues(q, init), c.rdataValid, c.ports);
      ReplayAppend(q, RunEvents(init), CycleEvents(c.store, c.rdataValid, c.ports));
    }
  }

  /** However reads, deliveries and writes interleave over the cycles of a
      run, read responses reach the core in the order the read commands were
      accepted: those delivered, followed by those still queued, are those
      queued at the start followed by those issued. */
  lemma RunReadsInOrder(q: Queues, run: seq<ChannelInput>)
    requires WellFormedRun(run)
    ensures DeliveredReads(q, RunEvents(run)) + RunQueues(q, run).rdataQ == q.rdataQ + IssuedReads(RunEvents(run))
  {
    RunReplay(q, run);
    ReadsInOrder(q, RunEvents(run));
  }

  /** Over the cycles of a run, write-data beats use the write addresses in the order the commands queued them. */
  lemma RunWritesInOrder(q: Queues, run: seq<ChannelInput>)
    requires WellFormedRun(run)
    ensures CommittedWrites(q, RunEvents(run)) + RunQueues(q, run).writeAddrQ == q.writeAddrQ + IssuedWrites(RunEvents(run))
  {
    RunReplay(q, run);
    WritesInOrder(q, RunEvents(run));
  }

  /** The responses delivered over a run are those of its earlier cycles,
      then those of its last cycle, taken from the queues the earlier cycles left. */
  lemma RunDeliveredByCycle(q: Queues, run: seq<ChannelInput>)
    requires WellFormedRun(run) && run != []
    ensures var init, c := run[..|run| - 1], run[|run| - 1];
      WellFormedRun(init) &&
      DeliveredReads(q, RunEvents(run))
        == DeliveredReads(q, RunEvents(init)) + DeliveredReads(RunQueues(q, init), CycleEvents(c.store, c.rdataValid, c.ports))
  {
    var init, c := run[..|run| - 1], run[|run| - 1];
    assert WellFormedRun(init) by {
      forall i | 0 <= i < |init| ensures |init[i].ports.wdata.data| == 4 {
        assert init[i] == run[i];
      }
    }
    RunReplay(q, init);
    DeliveredAppend(q, RunEvents(init), CycleEvents(c.store, c.rdataValid, c.ports));
  }

  /** From empty queues, the k-th response the core receives over a run is the k-th read it issued. */
  lemma RunFirstIssuedFirstDelivered(run: seq<ChannelInput>, k: nat)
    requires WellFormedRun(run) && k < |DeliveredReads(Queues([], []), RunEvents(run))|
    ensures k < |IssuedReads(RunEvents(run))|
    ensures DeliveredReads(Queues([], []), RunEvents(run))[k] == IssuedReads(RunEvents(run))[k]
  {
    FirstIssuedFirstDelivered(RunEvents(run), k);
  }

  /** The loop condition on the registers and the cycle count. */
  predicate LoopRuns(s: Bus, cycle: nat)
  {
    !s.done && cycle < MaxCycles
  }

  /** A running loop stops after a cycle exactly when that cycle's request
      is a tohost write or the cycles run out. */
  lemma LoopStops(s: Bus, req: Request, cycle: nat)
    requires LoopRuns(s, cycle)
    ensures LoopRuns(Respond(s, req), cycle + 1) <==> !TohostWrite(req) && cycle + 1 < MaxCycles
  {
    if TohostWrite(req) {
      TohostWriteEndsRun(s, req);
    } else {
      OtherRequestsKeepOutcome(s, req);
    }
  }

  /** The state of the main loop: memory, the two DRAM channels and the peripheral registers. */
  class Simulation {
    const mem: Memory
    const iDram: DramChannel
    const dDram: DramChannel
    var bus: Bus
    var cycle: nat
    /** What each channel has seen since reset, one entry per completed cycle. */
    ghost var iRun: seq<ChannelInput>
    ghost var dRun: seq<ChannelInput>

    /** The memory is well formed, the outcome registers agree, and each
        channel's queues are those its cycles since reset left. */
    ghost predicate Valid()
      reads this, mem, iDram, dDram
    {
      mem.Valid() && iDram != dDram && Consistent(bus) &&
      WellFormedRun(iRun) && iDram.State() == RunQueues(Queues([], []), iRun) &&
      WellFormedRun(dRun) && dDram.State() == RunQueues(Queues([], []), dRun)
    }

    /** The read-data pins of both channels show their queues, as `Drive` leaves them. */
    predicate Driven()
      reads this, iDram, dDram
    {
      (iDram.rdataValid <==> iDram.rdataQ != []) && (dDram.rdataValid <==> dDram.rdataQ != [])
    }

    /** The `while` condition, without `gotFinish`: no tohost write yet and
        cycles left. While it holds the outcome is still open: stopping now
        would give the timeout code. */
    predicate Running()
      reads this
      ensures Running() && Consistent(bus) ==> bus.tohost == 0 && FinalExitCode(bus) == ExitTimeout
    {
      LoopRuns(bus, cycle)
    }

    /** Memory loaded from the image, empty queues, the peripheral at reset. */
    constructor (lines: seq<string>)
      requires LinesReadable(lines)
      ensures Valid() && fresh(mem) && fresh(iDram) && fresh(dDram)
      ensures mem.Contents == Image(lines)
      ensures iDram.State() == Queues([], []) && dDram.State() == Queues([], [])
      ensures bus == Reset && cycle == 0 && iRun == [] && dRun == []
    {
      var m := new Memory();
      LoadHex(lines, m);
      mem := m;
      iDram := new DramChannel();
      dDram := new DramChannel();
      bus := Reset;
      cycle := 0;
      iRun, dRun := [], [];
      ResetConsistent();
    }

    /** The top of the loop body: the latched peripheral response and the
        front of each read queue are driven into the core. */
    method Drive() returns (inputs: CoreInputs)
      requires Valid()
      modifies iDram, dDram
      ensures Valid() && Driven()
      ensures iDram.State() == old(iDram.State()) && dDram.State() == old(dDram.State())
      ensures inputs.ack == bus.ackNext && inputs.err == bus.errNext && inputs.datMiso == bus.rdataNext
      ensures inputs.iRdataValid == (iDram.rdataQ != []) && inputs.dRdataValid == (dDram.rdataQ != [])
      ensures inputs.iRdata == iDram.rdataPayload && inputs.dRdata == dDram.rdataPayload
      ensures inputs.iRdata == if iDram.rdataQ != [] then iDram.rdataQ[0].words else old(iDram.rdataPayload)
      ensures inputs.dRdata == if dDram.rdataQ != [] then dDram.rdataQ[0].words else old(dDram.rdataPayload)
      ensures iRun == old(iRun) && dRun == old(dRun)
    {
      iDram.Drive();
      dDram.Drive();
      inputs := CoreInputs(bus.ackNext, bus.errNext, bus.rdataNext,
        iDram.rdataValid, iDram.rdataPayload, dDram.rdataValid, dDram.rdataPayload);
    }

    /** The peripheral block: latch the response, merge a write into tohost with the byte loop. */
    method ServePeripheral(req: Request)
      modifies this
      ensures bus == Respond(old(bus), req) && cycle == old(cycle)
      ensures iRun == old(iRun) && dRun == old(dRun)
    {
      var active := req.cyc && req.stb;
      var next := bus.(ackNext := active, errNext := false, rdataNext := 0);
      if active {
        var addr := Wrap32(req.adr * 4);
        if req.we {
          var merged := MergeSel(bus.tohost, req.datMosi, req.sel % 16);
          if addr == TohostAddr {
            next := next.(tohost := merged, exitCode := if merged == 0 then ExitPass else ExitFail, done := true);
          }
        } else {
          next := next.(rdataNext := if addr == TohostAddr then bus.tohost else 0);
        }
      }
      bus := next;
    }

    /** The rest of the loop body, given what the core presents after the
        clock edge: both channels deliver, the peripheral answers, each
        channel takes its command and write beat (instruction side first),
        and the cycle count advances. Returns the lines written to the memory trace. */
    method Step(out: CoreOutputs) returns (trace: seq<MemWriteLine>)
      requires Valid() && Driven() && WellFormed(out)
      modifies this, mem, iDram, dDram
      ensures Valid()
      ensures bus == Respond(old(bus), out.periph) && cycle == old(cycle) + 1
      ensures var i := ChannelCycle(old(cycle), old(mem.Contents), old(iDram.State()), old(iDram.rdataValid), out.iBus);
        var d := ChannelCycle(old(cycle), i.store, old(dDram.State()), old(dDram.rdataValid), out.dBus);
        mem.Contents == d.store && iDram.State() == i.queues && dDram.State() == d.queues &&
        trace == i.trace + d.trace
      ensures iRun == old(iRun) + [ChannelInput(old(cycle), old(mem.Contents), old(iDram.rdataValid), out.iBus)]
      ensures dRun == old(dRun) + [ChannelInput(old(cycle),
        ChannelCycle(old(cycle), old(mem.Contents), old(iDram.State()), old(iDram.rdataValid), out.iBus).store,
        old(dDram.rdataValid), out.dBus)]
      ensures iDram.rdataValid == old(iDram.rdataValid) && iDram.rdataPayload == old(iDram.rdataPayload)
      ensures dDram.rdataValid == old(dDram.rdataValid) && dDram.rdataPayload == old(dDram.rdataPayload)
      ensures old(Running()) ==> (Running() <==> !TohostWrite(out.periph) && cycle < MaxCycles)
    {
      ghost var store, iQueues, dQueues := mem.Contents, iDram.State(), dDram.State();
      ghost var iValid, dValid, bus0, wasRunning := iDram.rdataValid, dDram.rdataValid, bus, Running();
      iDram.Consume(out.iBus.rdataReady);
      dDram.Consume(out.dBus.rdataReady);
      ServePeripheral(out.periph);
      RespondConsistent(bus0, out.periph);
      DeliveryFirst(cycle, store, iQueues, iValid, out.iBus);
      var iTrace := ServeChannel(iDram, mem, cycle, out.iBus);
      DeliveryFirst(cycle, mem.Contents, dQueues, dValid, out.dBus);
      ghost var dStore := mem.Contents;
      var dTrace := ServeChannel(dDram, mem, cycle, out.dBus);
      trace := iTrace + dTrace;
      ghost var iIn := ChannelInput(cycle, store, iValid, out.iBus);
      ghost var dIn := ChannelInput(cycle, dStore, dValid, out.dBus);
      RunExtends(Queues([], []), iRun, iIn);
      RunExtends(Queues([], []), dRun, dIn);
      iRun, dRun := iRun + [iIn], dRun + [dIn];
      if wasRunning {
        LoopStops(bus0, out.periph, cycle);
      }
      cycle := cycle + 1;
    }

    /** After the loop: exit 2 when tohost was never written, else the code the write set. */
    method Finish() returns (code: int)
      requires Valid()
      ensures code == FinalExitCode(bus)
    {
      code := bus.exitCode;
      if !bus.done {
        code := ExitTimeout;
      }
    }
  }

  /** A channel's command and write-data handling, after its delivery. */
  method ServeChannel(ch: DramChannel, mem: Memory, time: nat, p: DramPorts) returns (trace: seq<MemWriteLine>)
    requires mem.Valid() && |p.wdata.data| == 4
    modifies ch, mem
    ensures mem.Valid() && ch.rdataValid == old(ch.rdataValid) && ch.rdataPayload == old(ch.rdataPayload)
    ensures var r := ChannelCycle(time, old(mem.Contents), old(ch.State()), false, p);
      mem.Contents == r.store && ch.State() == r.queues && trace == r.trace
  {
    if p.cmd.valid {
      ch.Command(mem, p.cmd.idx, p.cmd.we);
    }
    trace := [];
    if p.wdata.valid {
      trace := ch.WriteBeat(mem, time, p.wdata.data, p.wdata.mask);
    }
  }
}
