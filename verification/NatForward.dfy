/** nat_forward_vignat.c and the receive loop of nf_main.c: what happens to each packet. */
module NatForward {
  import opened Words
  import opened Flow
  import opened NatSpec
  import opened NatBook
  import opened FM = FlowManager

  /** A packet buffer, rewritten in place. */
  class Mbuf {
    var frame: Frame

    constructor (frame: Frame)
      ensures this.frame == frame
    {
      this.frame := frame;
    }
  }

  /** `nf_core_process`: every packet is one step of the abstract NAT. */
  method NfCoreProcess(fm: FlowManager, device: u8, mbuf: Mbuf, now: u32) returns (dstDevice: u8)
    requires fm.Valid() && fm.NoneLater(now) && mbuf !in fm.Repr
    modifies fm.Repr, mbuf
    ensures fm.Valid() && fm.NoneLater(now)
    ensures Step(fm.cfg, old(fm.Live()), Arrival(device, old(mbuf.frame), now), Verdict(dstDevice, mbuf.frame), fm.Live())
    ensures BookStep(fm.cfg, old(fm.Slots()), Arrival(device, old(mbuf.frame), now), Verdict(dstDevice, mbuf.frame), fm.Slots())
  {
    hide FlowManager.Valid, FlowManager.Live, FlowManager.NoneLater, FlowManager.Slots, Expire, PortFree, Expired, Touched, Opened, Port, Agrees;
    ghost var frame := mbuf.frame;
    var expired := fm.ExpireFlows(now);
    ghost var live, slots := fm.Live(), fm.Slots();
    fm.SlotsAgree();
    if mbuf.frame.NotIpv4? {
      return device;
    }
    if mbuf.frame.NotTcpUdp? {
      return device;
    }
    var h := mbuf.frame.h;
    if device == fm.cfg.wan {
      var key := ExtKey(h.dstPort, h.srcPort, h.dstAddr, h.srcAddr, device, h.proto);
      var flowExists, f := fm.GetFlowByExtKey(key, now, h);
      if flowExists {
        mbuf.frame := TcpUdp(mbuf.frame.h.(dstAddr := f.intSrcIp));
        mbuf.frame := TcpUdp(mbuf.frame.h.(dstPort := f.intSrcPort));
        dstDevice := f.intDeviceId;
        assert Verdict(dstDevice, mbuf.frame) == Inward(h, f.ik);
      } else {
        NotAnswered(fm.cfg, live, slots, h);
        return device;
      }
    } else {
      var key := IntKey(h.srcPort, h.dstPort, h.srcAddr, h.dstAddr, device, h.proto);
      assert key == KeyOf(device, h);
      var flowExists, f := fm.GetFlowByIntKey(key, now);
      if !flowExists {
        NotKnown(fm.cfg, live, slots, key);
        var ok;
        ok, f := fm.AllocateFlow(key, now);
        if !ok {
          return device;
        }
      }
      mbuf.frame := TcpUdp(mbuf.frame.h.(srcAddr := f.extSrcIp));
      mbuf.frame := TcpUdp(mbuf.frame.h.(srcPort := f.extSrcPort));
      dstDevice := f.extDeviceId;
      assert Verdict(dstDevice, mbuf.frame) == Outward(fm.cfg, h, f.extSrcPort);
    }
  }

  /**
    The receive loop on any finite sequence of arrivals: the verdicts are those of a run of the
    abstract NAT that hands out its ports as the book says.
   */
  method Serve(cfg: Config, arrivals: seq<Arrival>) returns (verdicts: seq<Verdict>)
    requires Sane(cfg)
    requires forall i, j | 0 <= i < j < |arrivals| :: arrivals[i].now <= arrivals[j].now
    ensures exists states, books :: Run(cfg, arrivals, verdicts, states) && BookRun(cfg, arrivals, verdicts, states, books)
  {
    hide FlowManager.Valid, FlowManager.Live, FlowManager.NoneLater, FlowManager.Slots, Step, BookStep, Agrees, Run, BookRun;
    var fm := new FlowManager(cfg);
    verdicts := [];
    ghost var states, books := [fm.Live()], [fm.Slots()];
    RunNone(cfg);
    BookRunNone(cfg, fm.Slots());
    assert arrivals[..0] == [];
    ghost var clock: u32 := 0;
    var i := 0;
    while i < |arrivals|
      invariant 0 <= i <= |arrivals| && |states| == |books| == i + 1
      invariant fm.Valid() && fresh(fm.Repr) && fm.cfg == cfg
      invariant fm.NoneLater(clock) && clock == if i == 0 then 0 else arrivals[i - 1].now
      invariant states[i] == fm.Live() && books[i] == fm.Slots()
      invariant Run(cfg, arrivals[..i], verdicts, states) && BookRun(cfg, arrivals[..i], verdicts, states, books)
    {
      fm.NoneLaterStill(clock, arrivals[i].now);
      clock := arrivals[i].now;
      var mbuf := new Mbuf(arrivals[i].frame);
      var dst := NfCoreProcess(fm, arrivals[i].device, mbuf, arrivals[i].now);
      fm.SlotsAgree();
      var verdict := Verdict(dst, mbuf.frame);
      RunMore(cfg, arrivals[..i], verdicts, states, arrivals[i], verdict, fm.Live());
      BookRunMore(cfg, arrivals[..i], verdicts, states, books, arrivals[i], verdict, fm.Live(), fm.Slots());
      assert arrivals[..i + 1] == arrivals[..i] + [arrivals[i]];
      verdicts := verdicts + [verdict];
      states, books := states + [fm.Live()], books + [fm.Slots()];
      i := i + 1;
    }
    assert arrivals[..|arrivals|] == arrivals;
  }
}
