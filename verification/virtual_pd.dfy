/** The virtual USB Type-C power-delivery extcon driver: the data-role table
    it reports, the software mask that guards its detect interrupt, and the
    debounced plug/unplug machine driven by the detect line. The extcon
    framework, the GPIO line and work scheduling appear only as inputs
    (line levels, device properties) and outputs (the effects). */
module VirtualPd {
  import opened Bits
  import opened Wrappers

  /** `enum vpd_data_roles` */
  const VPD_DFP: U8 := 0
  const VPD_UFP: U8 := 1
  const VPD_DP: U8 := 2
  const VPD_DP_UFP: U8 := 3

  /** `struct virtual_pd` without its handles. `irqMasked` is `enable_irq`,
      which the driver keeps nonzero exactly while it holds the interrupt
      disabled. */
  datatype Vpd = Vpd(
    flip: bool,
    usbSs: bool,
    enable: bool,
    mode: U8,
    irqMasked: bool,
    plugState: U8,
    shakeLev: int)

  /** The arguments of one `vpd_extcon_notify` call: cable polarity, USB
      SuperSpeed, and the host (DFP), device (UFP) and DisplayPort states. */
  datatype Notice = Notice(flip: bool, usbSs: bool, dfp: bool, ufp: bool, dp: bool)

  /** What the driver does to the world: a notification, a hardware
      interrupt disable or enable, a warning, scheduling the debounce work. */
  datatype Effect = Notify(notice: Notice) | HwDisable | HwEnable | Warn | ScheduleWork

  // ---- notifications ----

  /** `vpd_extcon_notify_set`: the mode picks the roles; an unknown mode
      means UFP. Exactly one of host and device is reported. */
  function NotifySet(vpd: Vpd): (n: Notice)
    ensures n.flip == vpd.flip && n.usbSs == vpd.usbSs
    ensures n.dfp != n.ufp
    ensures n.dfp <==> vpd.mode == VPD_DFP || vpd.mode == VPD_DP
    ensures n.dp <==> vpd.mode == VPD_DP || vpd.mode == VPD_DP_UFP
  {
    var (dfp, ufp, dp) :=
      if vpd.mode == VPD_DFP then (true, false, false)
      else if vpd.mode == VPD_DP then (true, false, true)
      else if vpd.mode == VPD_DP_UFP then (false, true, true)
      else (false, true, false);
    Notice(vpd.flip, vpd.usbSs, dfp, ufp, dp)
  }

  /** `vpd_extcon_notify_clr`: every role off, polarity and speed kept. */
  function NotifyClr(vpd: Vpd): (n: Notice)
    ensures n.flip == vpd.flip && n.usbSs == vpd.usbSs
    ensures !n.dfp && !n.ufp && !n.dp
  {
    Notice(vpd.flip, vpd.usbSs, false, false, false)
  }

  /** A notice reports a connection when some data role is on. */
  predicate Connected(n: Notice) {
    n.dfp || n.ufp || n.dp
  }

  /** The role table row by row: DFP is host only, DP host with DisplayPort,
      DP_UFP device with DisplayPort, and UFP or any other mode device only. */
  lemma RoleTable(vpd: Vpd)
    ensures vpd.mode == VPD_DFP ==> NotifySet(vpd) == Notice(vpd.flip, vpd.usbSs, true, false, false)
    ensures vpd.mode == VPD_DP ==> NotifySet(vpd) == Notice(vpd.flip, vpd.usbSs, true, false, true)
    ensures vpd.mode == VPD_DP_UFP ==> NotifySet(vpd) == Notice(vpd.flip, vpd.usbSs, false, true, true)
    ensures vpd.mode !in {VPD_DFP, VPD_DP, VPD_DP_UFP} ==>
      NotifySet(vpd) == Notice(vpd.flip, vpd.usbSs, false, true, false)
    ensures Connected(NotifySet(vpd)) && !Connected(NotifyClr(vpd))
  {
  }

  // ---- the interrupt mask ----

  /** `vpd_irq_disable`: disables the interrupt unless the driver already
      holds it disabled, in which case it only warns. */
  function IrqDisable(vpd: Vpd): (r: (Vpd, seq<Effect>))
    ensures r.0 == vpd.(irqMasked := true)
    ensures !vpd.irqMasked ==> r.1 == [HwDisable]
    ensures vpd.irqMasked ==> r.1 == [Warn]
  {
    if !vpd.irqMasked then (vpd.(irqMasked := true), [HwDisable])
    else (vpd, [Warn])
  }

  /** `vpd_irq_enable`: enables the interrupt only if the driver holds it
      disabled; otherwise nothing happens. */
  function IrqEnable(vpd: Vpd): (r: (Vpd, seq<Effect>))
    ensures r.0 == vpd.(irqMasked := false)
    ensures vpd.irqMasked ==> r.1 == [HwEnable]
    ensures !vpd.irqMasked ==> r.1 == []
  {
    if vpd.irqMasked then (vpd.(irqMasked := false), [HwEnable])
    else (vpd, [])
  }

  // ---- the detect line ----

  /** `dp_det_irq_handler`: records the level seen at the edge, schedules
      the debounce work and masks the interrupt until that work has run. */
  function IrqHandler(vpd: Vpd, lev: int): (r: (Vpd, seq<Effect>))
    ensures r.0 == vpd.(shakeLev := lev, irqMasked := true)
    ensures |r.1| == 2 && r.1[0] == ScheduleWork
    ensures r.1[1] == if vpd.irqMasked then Warn else HwDisable
  {
    var (v, effs) := IrqDisable(vpd.(shakeLev := lev));
    (v, [ScheduleWork] + effs)
  }

  /** `extcon_pd_delay_irq_work`, given the level read when it runs. A level
      that no longer matches the one seen at the edge is a bounce and
      changes nothing. Otherwise a plugged state seeing a low line unplugs
      (roles cleared) and an unplugged state seeing a high line plugs
      (roles set); every other state and level is left alone. The interrupt
      is unmasked in every case. */
  function DelayIrqWork(vpd: Vpd, lev: int): (r: (Vpd, seq<Effect>))
    ensures !r.0.irqMasked
    ensures r.0.flip == vpd.flip && r.0.usbSs == vpd.usbSs && r.0.mode == vpd.mode && r.0.shakeLev == vpd.shakeLev
    ensures var unplug := lev == vpd.shakeLev && vpd.plugState == 1 && lev == 0;
      var plug := lev == vpd.shakeLev && vpd.plugState == 0 && lev == 1;
      && (unplug ==> !r.0.enable && r.0.plugState == 0 && Notify(NotifyClr(vpd)) in r.1)
      && (plug ==> r.0.enable && r.0.plugState == 1 && Notify(NotifySet(vpd)) in r.1)
      && (!unplug && !plug ==> r.0 == vpd.(irqMasked := false) && forall e <- r.1 :: !e.Notify?)
    ensures HwEnable in r.1 <==> vpd.irqMasked
    ensures HwDisable !in r.1
  {
    if vpd.shakeLev != lev then IrqEnable(vpd)
    else
      var (v1, notes) :=
        if vpd.plugState == 1 && lev == 0 then
          (vpd.(enable := false, plugState := 0), [Notify(NotifyClr(vpd))])
        else if vpd.plugState == 0 && lev == 1 then
          (vpd.(enable := true, plugState := 1), [Notify(NotifySet(vpd))])
        else (vpd, []);
      var (v2, effs) := IrqEnable(v1);
      (v2, notes + effs)
  }

  // ---- initial state ----

  /** The three `u32` device properties read at init; each may be absent. */
  datatype Props = Props(initFlip: Option<U32>, initSs: Option<U32>, initMode: Option<U32>)

  /** The state after probe's zeroing allocation: only `enable` is set. */
  function Probe(): (vpd: Vpd)
    ensures vpd.enable && !vpd.irqMasked && vpd.plugState == 0
    ensures !vpd.flip && !vpd.usbSs && vpd.mode == 0 && vpd.shakeLev == 0
  {
    Vpd(false, false, true, 0, false, 0, 0)
  }

  /** `vpd_extcon_init`, given the properties and the detect level. An
      absent property counts as 0; a flag is on when its value is nonzero;
      the mode keeps the low 8 bits. A nonzero level (an error code
      included) reports the roles and records the cable as plugged. */
  function Init(vpd: Vpd, props: Props, lev: int): (r: (Vpd, seq<Effect>))
    ensures r.0.flip <==> props.initFlip.Some? && props.initFlip.value != 0
    ensures r.0.usbSs <==> props.initSs.Some? && props.initSs.value != 0
    ensures props.initMode.None? ==> r.0.mode == 0
    ensures props.initMode.Some? ==> r.0.mode == props.initMode.value % U8_LIMIT
    ensures lev != 0 ==> r.0.plugState == 1 && r.1 == [Notify(NotifySet(r.0))]
    ensures lev == 0 ==> r.0.plugState == vpd.plugState && r.1 == []
    ensures r.0.enable == vpd.enable && r.0.irqMasked == vpd.irqMasked && r.0.shakeLev == vpd.shakeLev
  {
    var flip := props.initFlip.Some? && props.initFlip.value != 0;
    var ss := props.initSs.Some? && props.initSs.value != 0;
    var mode := if props.initMode.Some? then props.initMode.value % U8_LIMIT else 0;
    var v := vpd.(flip := flip, usbSs := ss, mode := mode);
    if lev != 0 then (v.(plugState := 1), [Notify(NotifySet(v))]) else (v, [])
  }

  // ---- runs of events ----

  /** An interrupt edge or a run of the debounce work, each with the level
      the line shows at that moment. */
  datatype Event = Edge(lev: int) | Work(lev: int)

  function Step(vpd: Vpd, ev: Event): (r: (Vpd, seq<Effect>)) {
    match ev
    case Edge(lev) => IrqHandler(vpd, lev)
    case Work(lev) => DelayIrqWork(vpd, lev)
  }

  function Run(vpd: Vpd, evs: seq<Event>): (r: (Vpd, seq<Effect>))
    decreases |evs|
  {
    if evs == [] then (vpd, [])
    else
      var (v1, e1) := Step(vpd, evs[0]);
      var (vn, en) := Run(v1, evs[1..]);
      (vn, e1 + en)
  }

  /** The two on/off channels the driver drives: the hardware interrupt
      (true for a disable) and the cable report (true for a connection). */
  datatype Channel = IrqLine | Cable

  function Mark(e: Effect, ch: Channel): seq<bool> {
    match e
    case HwDisable => if ch == IrqLine then [true] else []
    case HwEnable => if ch == IrqLine then [false] else []
    case Notify(n) => if ch == Cable then [Connected(n)] else []
    case _ => []
  }

  /** The on/off transitions a list of effects makes on one channel. */
  function Trace(effs: seq<Effect>, ch: Channel): (r: seq<bool>)
    ensures |r| <= |effs|
  {
    if effs == [] then [] else Mark(effs[0], ch) + Trace(effs[1..], ch)
  }

  /** Starting from `on`, every transition switches the channel. */
  predicate Alternates(on: bool, xs: seq<bool>)
    decreases |xs|
  {
    |xs| == 0 || (xs[0] == !on && Alternates(xs[0], xs[1..]))
  }

  /** The channel's state after the transitions. */
  function Final(on: bool, xs: seq<bool>): bool {
    if |xs| == 0 then on else xs[|xs| - 1]
  }

  lemma {:induction false} TraceAppend(a: seq<Effect>, b: seq<Effect>, ch: Channel)
    ensures Trace(a + b, ch) == Trace(a, ch) + Trace(b, ch)
  {
    if a != [] {
      assert (a + b)[0] == a[0];
      assert (a + b)[1..] == a[1..] + b;
      TraceAppend(a[1..], b, ch);
      assert Trace(a + b, ch) == Mark(a[0], ch) + Trace(a[1..] + b, ch);
    } else {
      assert a + b == b;
    }
  }

  lemma {:induction false} AlternatesAppend(on: bool, xs: seq<bool>, ys: seq<bool>)
    requires Alternates(on, xs) && Alternates(Final(on, xs), ys)
    ensures Alternates(on, xs + ys) && Final(on, xs + ys) == Final(Final(on, xs), ys)
    decreases |xs|
  {
    if xs != [] {
      assert (xs + ys)[0] == xs[0];
      assert (xs + ys)[1..] == xs[1..] + ys;
      AlternatesAppend(xs[0], xs[1..], ys);
    } else {
      assert xs + ys == ys;
    }
  }

  /** The cable is recorded as plugged. */
  predicate Plugged(vpd: Vpd) {
    vpd.plugState == 1
  }

  lemma TraceOne(e: Effect, ch: Channel)
    ensures Trace([e], ch) == Mark(e, ch)
  {
    assert [e][1..] == [];
  }

  /** An edge switches the interrupt off when the driver has it on, and
      leaves the cable alone. */
  lemma EdgeChannels(vpd: Vpd, lev: int)
    ensures Trace(IrqHandler(vpd, lev).1, IrqLine) == if vpd.irqMasked then [] else [true]
    ensures Trace(IrqHandler(vpd, lev).1, Cable) == []
  {
    var effs := IrqHandler(vpd, lev).1;
    assert effs == [ScheduleWork] + [effs[1]];
    forall ch: Channel
      ensures Trace(effs, ch) == Mark(effs[1], ch)
    {
      TraceAppend([ScheduleWork], [effs[1]], ch);
      TraceOne(ScheduleWork, ch);
      TraceOne(effs[1], ch);
    }
  }

  /** The debounce work switches the interrupt on when the driver has it
      off, and reports at most one cable change, the one it records. */
  lemma WorkChannels(vpd: Vpd, lev: int)
    requires vpd.plugState <= 1
    ensures Trace(DelayIrqWork(vpd, lev).1, IrqLine) == if vpd.irqMasked then [false] else []
    ensures var t := Trace(DelayIrqWork(vpd, lev).1, Cable);
      t == (if Plugged(DelayIrqWork(vpd, lev).0) == Plugged(vpd) then [] else [Plugged(DelayIrqWork(vpd, lev).0)])
    ensures DelayIrqWork(vpd, lev).0.plugState <= 1
  {
    var e := IrqEnable(vpd).1;
    forall ch: Channel
      ensures Trace(e, ch) == if ch == IrqLine && vpd.irqMasked then [false] else []
    {
      if vpd.irqMasked {
        TraceOne(HwEnable, ch);
      }
    }
    if vpd.shakeLev == lev && ((vpd.plugState == 1 && lev == 0) || (vpd.plugState == 0 && lev == 1)) {
      var n := if vpd.plugState == 1 then NotifyClr(vpd) else NotifySet(vpd);
      RoleTable(vpd);
      assert DelayIrqWork(vpd, lev).1 == [Notify(n)] + e;
      forall ch: Channel
        ensures Trace(DelayIrqWork(vpd, lev).1, ch) == Mark(Notify(n), ch) + Trace(e, ch)
      {
        TraceAppend([Notify(n)], e, ch);
        TraceOne(Notify(n), ch);
      }
    }
  }

  /** One event switches each channel at most once, away from the state the
      driver records, and the driver's record follows the switch. */
  lemma StepChannels(vpd: Vpd, ev: Event)
    requires vpd.plugState <= 1
    ensures Step(vpd, ev).0.plugState <= 1
    ensures var t := Trace(Step(vpd, ev).1, IrqLine);
      Alternates(vpd.irqMasked, t) && Final(vpd.irqMasked, t) == Step(vpd, ev).0.irqMasked
    ensures var t := Trace(Step(vpd, ev).1, Cable);
      Alternates(Plugged(vpd), t) && Final(Plugged(vpd), t) == Plugged(Step(vpd, ev).0)
  {
    match ev
    case Edge(lev) => EdgeChannels(vpd, lev);
    case Work(lev) => WorkChannels(vpd, lev);
  }

  /** Over any run of edges and debounce work, the hardware interrupt is
      disabled and enabled strictly in turn, and the cable is reported
      connected and disconnected strictly in turn; in both cases the state
      the driver records is the one the last transition left. */
  lemma {:induction false} RunChannels(vpd: Vpd, evs: seq<Event>)
    requires vpd.plugState <= 1
    ensures Run(vpd, evs).0.plugState <= 1
    ensures var t := Trace(Run(vpd, evs).1, IrqLine);
      Alternates(vpd.irqMasked, t) && Final(vpd.irqMasked, t) == Run(vpd, evs).0.irqMasked
    ensures var t := Trace(Run(vpd, evs).1, Cable);
      Alternates(Plugged(vpd), t) && Final(Plugged(vpd), t) == Plugged(Run(vpd, evs).0)
    decreases |evs|
  {
    if evs != [] {
      var (v1, e1) := Step(vpd, evs[0]);
      var (vn, en) := Run(v1, evs[1..]);
      StepChannels(vpd, evs[0]);
      RunChannels(v1, evs[1..]);
      TraceAppend(e1, en, IrqLine);
      TraceAppend(e1, en, Cable);
      AlternatesAppend(vpd.irqMasked, Trace(e1, IrqLine), Trace(en, IrqLine));
      AlternatesAppend(Plugged(vpd), Trace(e1, Cable), Trace(en, Cable));
    }
  }

  /** After probe and init, the driver's plug record matches what it has
      reported and from then on every report switches the cable state. */
  lemma ProbeInitRun(props: Props, lev: int, evs: seq<Event>)
    ensures var (v, effs) := Init(Probe(), props, lev);
      && v.plugState <= 1 && !v.irqMasked
      && (Plugged(v) <==> lev != 0)
      && Alternates(false, Trace(effs, Cable)) && Final(false, Trace(effs, Cable)) == Plugged(v)
      && Alternates(Plugged(v), Trace(Run(v, evs).1, Cable))
      && Alternates(false, Trace(Run(v, evs).1, IrqLine))
  {
    var (v, effs) := Init(Probe(), props, lev);
    RunChannels(v, evs);
  }
}
