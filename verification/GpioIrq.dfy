/** External interrupt bookkeeping of drivers/drv_gpio.c (the STM32F4 branch):
    sixteen handler slots, an enable mask, and seven interrupt lines of which
    two are shared. */
module GpioIrq {

  const PORT_MAX: nat := 9   // GPIOA to GPIOI
  const SLOTS: nat := 16
  const LINES: nat := 7

  datatype Status = EOk | ENoSys | EBusy

  /** struct rt_pin_irq_hdr; a pin of -1 marks a free slot. */
  datatype Slot = Slot(pin: int, mode: nat, handler: nat, args: nat)

  const FREE: Slot := Slot(-1, 0, 0, 0)

  function PinPort(pin: int): nat { pin / 16 % 16 }

  function PinNo(pin: int): (i: nat)
    ensures i < SLOTS
  {
    pin % 16
  }

  /** pin_irq_map: EXTI0 to EXTI4 alone, 5 to 9 and 10 to 15 together. */
  function Line(i: nat): (l: nat)
    requires i < SLOTS
    ensures l < LINES
  {
    if i < 5 then i else if i < 10 then 5 else 6
  }

  // --- The specification over values -----------------------------------------------

  /** pin_irq_hdr_tab and pin_irq_enable_mask. */
  datatype RawView = View(table: seq<Slot>, enabled: seq<bool>)

  type View = v: RawView | |v.table| == SLOTS && |v.enabled| == SLOTS
    witness View(seq(SLOTS, _ => FREE), seq(SLOTS, _ => false))

  datatype Call =
    | AttachIrq(pin: int, mode: nat, handler: nat, args: nat)
    | DetachIrq(pin: int)
    | EnableIrq(pin: int)
    | DisableIrq(pin: int)

  predicate OnPort(c: Call) { PinPort(c.pin) < PORT_MAX }

  /** What one call leaves behind. */
  function Next(v: View, c: Call): View {
    var i := PinNo(c.pin);
    if !OnPort(c) then v
    else match c
      case AttachIrq(pin, mode, handler, args) =>
        if v.table[i].pin == -1 then v.(table := v.table[i := Slot(pin, mode, handler, args)]) else v
      case DetachIrq(_) => if v.table[i].pin != -1 then v.(table := v.table[i := FREE]) else v
      case EnableIrq(_) => if v.table[i].pin != -1 then v.(enabled := v.enabled[i := true]) else v
      case DisableIrq(_) => v.(enabled := v.enabled[i := false])
  }

  function Run(v: View, cs: seq<Call>): View
    decreases |cs|
  {
    if cs == [] then v else Next(Run(v, cs[..|cs| - 1]), cs[|cs| - 1])
  }

  // --- Enabled and attached ------------------------------------------------------------

  /** Slot i is enabled and has no handler. */
  predicate Orphan(v: View, i: nat)
    requires i < SLOTS
  {
    v.enabled[i] && v.table[i].pin == -1
  }

  ghost predicate EnabledAttached(v: View) {
    forall i :: 0 <= i < SLOTS ==> !Orphan(v, i)
  }

  /** The call detaches slot i while it is enabled. */
  predicate Strands(v: View, c: Call, i: nat)
    requires i < SLOTS
  {
    c.DetachIrq? && OnPort(c) && PinNo(c.pin) == i && v.enabled[i]
  }

  /** The call gives slot i a handler or disables it. */
  predicate Repairs(c: Call, i: nat) {
    (c.AttachIrq? || c.DisableIrq?) && OnPort(c) && PinNo(c.pin) == i
  }

  lemma OrphanStep(v: View, c: Call, i: nat)
    requires i < SLOTS
    ensures Orphan(Next(v, c), i) <==> Strands(v, c, i) || (Orphan(v, i) && !Repairs(c, i))
  {
  }

  /** Of all calls only a detach of an enabled pin ends "enabled implies attached". */
  lemma EnabledAttachedStep(v: View, c: Call)
    requires EnabledAttached(v)
    ensures EnabledAttached(Next(v, c)) <==> !(c.DetachIrq? && OnPort(c) && v.enabled[PinNo(c.pin)])
  {
    hide Next, Orphan;
    forall i | 0 <= i < SLOTS
      ensures Orphan(Next(v, c), i) <==> Strands(v, c, i)
    {
      OrphanStep(v, c, i);
    }
    assert Orphan(Next(v, c), PinNo(c.pin)) <==> Strands(v, c, PinNo(c.pin));
  }

  /** Call k of the run detached slot i while it was enabled, and no later call
      attached or disabled it. */
  ghost predicate StrandedBy(v: View, cs: seq<Call>, i: nat, k: nat)
    requires i < SLOTS && k < |cs|
  {
    Strands(Run(v, cs[..k]), cs[k], i) && forall j :: k < j < |cs| ==> !Repairs(cs[j], i)
  }

  lemma StrandedSnoc(v: View, cs: seq<Call>, c: Call, i: nat, k: nat)
    requires i < SLOTS && k < |cs|
    ensures StrandedBy(v, cs + [c], i, k) <==> StrandedBy(v, cs, i, k) && !Repairs(c, i)
  {
    hide Strands, Repairs, Run;
    var ds := cs + [c];
    assert ds[..k] == cs[..k] && ds[k] == cs[k];
    assert forall j :: k < j < |cs| ==> ds[j] == cs[j];
    if StrandedBy(v, ds, i, k) {
      assert !Repairs(ds[|cs|], i);
      assert forall j :: k < j < |cs| ==> !Repairs(ds[j], i);
    }
  }

  lemma StrandedLast(v: View, cs: seq<Call>, c: Call, i: nat)
    requires i < SLOTS
    ensures StrandedBy(v, cs + [c], i, |cs|) <==> Strands(Run(v, cs), c, i)
  {
    assert (cs + [c])[..|cs|] == cs;
  }

  /** After any calls, a slot is enabled without a handler iff it was detached
      while enabled and has been neither attached nor disabled since. */
  lemma {:induction false} OrphanIff(v: View, cs: seq<Call>, i: nat)
    requires i < SLOTS && !Orphan(v, i)
    ensures Orphan(Run(v, cs), i) <==> exists k :: 0 <= k < |cs| && StrandedBy(v, cs, i, k)
    decreases |cs|
  {
    hide Next, Orphan, Strands, Repairs, StrandedBy;
    if cs != [] {
      var n := |cs| - 1;
      var front, c := cs[..n], cs[n];
      assert cs == front + [c];
      OrphanIff(v, front, i);
      OrphanStep(Run(v, front), c, i);
      StrandedLast(v, front, c, i);
      forall k | 0 <= k < n
        ensures StrandedBy(v, cs, i, k) <==> StrandedBy(v, front, i, k) && !Repairs(c, i)
      {
        StrandedSnoc(v, front, c, i, k);
      }
    }
  }

  /** Enabled implies attached at every moment of a run iff no call of the run
      detaches a pin that is enabled at the time. */
  lemma {:induction false} AlwaysAttachedIff(v: View, cs: seq<Call>)
    requires EnabledAttached(v)
    ensures (forall k :: 0 <= k <= |cs| ==> EnabledAttached(Run(v, cs[..k]))) <==>
              forall k :: 0 <= k < |cs| && cs[k].DetachIrq? && OnPort(cs[k]) ==>
                !Run(v, cs[..k]).enabled[PinNo(cs[k].pin)]
    decreases |cs|
  {
    hide Next, EnabledAttached, OnPort;
    assert cs[..|cs|] == cs;
    if cs == [] {
      assert forall k :: 0 <= k <= |cs| ==> Run(v, cs[..k]) == v;
    } else {
      var n := |cs| - 1;
      var front := cs[..n];
      AlwaysAttachedIff(v, front);
      assert forall k :: 0 <= k <= n ==> front[..k] == cs[..k];
      assert forall k :: 0 <= k < n ==> front[k] == cs[k];
      if EnabledAttached(Run(v, front)) { EnabledAttachedStep(Run(v, front), cs[n]); }
      assert front == cs[..n] && Run(v, cs) == Next(Run(v, front), cs[n]);
    }
  }

  /** A detach takes the handler of another pin away iff one with the same number
      on another port holds the slot. */
  lemma DetachTakesOtherIff(v: View, pin: int)
    ensures (exists i :: 0 <= i < SLOTS && v.table[i].pin != -1 && v.table[i].pin != pin
                         && Next(v, DetachIrq(pin)).table[i] != v.table[i])
       <==> PinPort(pin) < PORT_MAX && v.table[PinNo(pin)].pin != -1 && v.table[PinNo(pin)].pin != pin
  {
    var i := PinNo(pin);
    assert OnPort(DetachIrq(pin)) && v.table[i].pin != -1 ==> Next(v, DetachIrq(pin)).table[i] == FREE != v.table[i];
  }

  // --- The code ------------------------------------------------------------------------

  /** Pin numbers: 16 to a port, and ports A to I exist. */
  lemma PinEncoding(port: nat, i: nat)
    requires port < 16 && i < 16
    ensures PinNo(16 * port + i) == i
    ensures PinPort(16 * port + i) < PORT_MAX <==> port <= 8
  {
  }

  class Exti {
    const table: array<Slot>     // pin_irq_hdr_tab
    const enabled: array<bool>   // the bits of pin_irq_enable_mask
    const nvic: array<bool>      // NVIC enable of each line

    ghost predicate Shape()
      reads this
    {
      table.Length == SLOTS && enabled.Length == SLOTS && nvic.Length == LINES && enabled != nvic
    }

    /** A line is on exactly when one of its pins is enabled. */
    ghost predicate Valid()
      reads this, enabled, nvic
    {
      Shape() && forall l :: 0 <= l < LINES ==> (nvic[l] <==> exists i :: 0 <= i < SLOTS && Line(i) == l && enabled[i])
    }

    /** The interrupt lines one by one. */
    lemma Lines()
      requires Valid()
      ensures forall l :: 0 <= l < 5 ==> (nvic[l] <==> enabled[l])
      ensures nvic[5] <==> exists i :: 5 <= i <= 9 && enabled[i]
      ensures nvic[6] <==> exists i :: 10 <= i <= 15 && enabled[i]
    {
      forall l | 0 <= l < 5 ensures nvic[l] <==> enabled[l] { assert Line(l) == l; }
      if i :| 5 <= i <= 9 && enabled[i] { assert Line(i) == 5; }
      if i :| 10 <= i <= 15 && enabled[i] { assert Line(i) == 6; }
    }

    ghost function Abs(): (v: View)
      requires Shape()
      reads this, table, enabled
    {
      View(table[..], enabled[..])
    }

    constructor ()
      ensures Valid() && fresh(table) && fresh(enabled) && fresh(nvic)
      ensures EnabledAttached(Abs())
      ensures forall i :: 0 <= i < SLOTS ==> table[i] == FREE && !enabled[i]
    {
      table := new Slot[SLOTS](_ => FREE);
      enabled := new bool[SLOTS](_ => false);
      nvic := new bool[LINES](_ => false);
    }

    /** stm32_pin_attach_irq */
    method Attach(pin: int, mode: nat, handler: nat, args: nat) returns (status: Status)
      requires Valid()
      modifies table
      ensures Valid()
      ensures Abs() == Next(old(Abs()), AttachIrq(pin, mode, handler, args))
      ensures old(EnabledAttached(Abs())) ==> EnabledAttached(Abs())
      ensures var i := PinNo(pin); var want := Slot(pin, mode, handler, args);
              && (status == ENoSys <==> PinPort(pin) >= PORT_MAX)
              && (status == EOk <==> PinPort(pin) < PORT_MAX && (old(table[i]) == want || old(table[i]).pin == -1))
              && table[..] == if status == EOk then old(table[..])[i := want] else old(table[..])
    {
      if EnabledAttached(Abs()) { EnabledAttachedStep(Abs(), AttachIrq(pin, mode, handler, args)); }
      if PinPort(pin) >= PORT_MAX {
        return ENoSys;
      }
      var i := PinNo(pin);
      if table[i] == Slot(pin, mode, handler, args) {
        return EOk;
      }
      if table[i].pin != -1 {
        return EBusy;
      }
      table[i] := Slot(pin, mode, handler, args);
      return EOk;
    }

    /** stm32_pin_dettach_irq: frees the slot of the pin number, whichever port
        had attached it, and leaves the enable mask alone. */
    method Detach(pin: int) returns (status: Status)
      requires Valid()
      modifies table
      ensures Valid()
      ensures Abs() == Next(old(Abs()), DetachIrq(pin))
      ensures old(EnabledAttached(Abs())) ==>
                (EnabledAttached(Abs()) <==> status == ENoSys || !old(enabled[PinNo(pin)]))
      ensures status == if PinPort(pin) >= PORT_MAX then ENoSys else EOk
      ensures table[..] == if status == EOk && old(table[PinNo(pin)].pin) != -1
                           then old(table[..])[PinNo(pin) := FREE] else old(table[..])
    {
      if EnabledAttached(Abs()) { EnabledAttachedStep(Abs(), DetachIrq(pin)); }
      if PinPort(pin) >= PORT_MAX {
        return ENoSys;
      }
      var i := PinNo(pin);
      if table[i].pin != -1 {
        table[i] := FREE;
      }
      return EOk;
    }

    /** stm32_pin_irq_enable with PIN_IRQ_ENABLE. */
    method Enable(pin: int) returns (status: Status)
      requires Valid()
      modifies enabled, nvic
      ensures Valid()
      ensures Abs() == Next(old(Abs()), EnableIrq(pin))
      ensures old(EnabledAttached(Abs())) ==> EnabledAttached(Abs())
      ensures status == if PinPort(pin) < PORT_MAX && table[PinNo(pin)].pin != -1 then EOk else ENoSys
      ensures enabled[..] == if status == EOk then old(enabled[..])[PinNo(pin) := true] else old(enabled[..])
    {
      if EnabledAttached(Abs()) { EnabledAttachedStep(Abs(), EnableIrq(pin)); }
      if PinPort(pin) >= PORT_MAX {
        return ENoSys;
      }
      var i := PinNo(pin);
      if table[i].pin == -1 {
        return ENoSys;
      }
      nvic[Line(i)] := true;
      enabled[i] := true;
      forall l | 0 <= l < LINES
        ensures nvic[l] <==> exists j :: 0 <= j < SLOTS && Line(j) == l && enabled[j]
      {
        if l != Line(i) && nvic[l] {
          var j :| 0 <= j < SLOTS && Line(j) == l && old(enabled[j]);
          assert enabled[j];
        }
      }
      return EOk;
    }

    /** stm32_pin_irq_enable with PIN_IRQ_DISABLE: a shared line is switched off
        only when no other pin of its group is enabled. */
    method Disable(pin: int) returns (status: Status)
      requires Valid()
      modifies enabled, nvic
      ensures Valid()
      ensures Abs() == Next(old(Abs()), DisableIrq(pin))
      ensures old(EnabledAttached(Abs())) ==> EnabledAttached(Abs())
      ensures status == if PinPort(pin) < PORT_MAX then EOk else ENoSys
      ensures enabled[..] == if status == EOk then old(enabled[..])[PinNo(pin) := false] else old(enabled[..])
    {
      if EnabledAttached(Abs()) { EnabledAttachedStep(Abs(), DisableIrq(pin)); }
      if PinPort(pin) >= PORT_MAX {
        return ENoSys;
      }
      var i := PinNo(pin);
      enabled[i] := false;
      if 5 <= i <= 9 {
        if !(enabled[5] || enabled[6] || enabled[7] || enabled[8] || enabled[9]) {
          nvic[Line(i)] := false;
        }
      } else if 10 <= i <= 15 {
        if !(enabled[10] || enabled[11] || enabled[12] || enabled[13] || enabled[14] || enabled[15]) {
          nvic[Line(i)] := false;
        }
      } else {
        nvic[Line(i)] := false;
      }
      GroupsOff(enabled[..], i);
      forall l | 0 <= l < LINES
        ensures nvic[l] <==> exists j :: 0 <= j < SLOTS && Line(j) == l && enabled[j]
      {
        if l != Line(i) && old(nvic[l]) {
          var j :| 0 <= j < SLOTS && Line(j) == l && old(enabled[j]);
          assert enabled[j];
        }
      }
      return EOk;
    }
  }

  lemma GroupsOff(enabled: seq<bool>, i: nat)
    requires |enabled| == SLOTS && i < SLOTS && !enabled[i]
    ensures i < 5 ==> !exists j :: 0 <= j < SLOTS && Line(j) == Line(i) && enabled[j]
  {
  }

  /** "Enabled implies attached" is false: detaching leaves the enable bit and
      the interrupt line as they are. */
  method EnabledWithoutHandler() returns (e: Exti)
    ensures fresh(e) && e.Valid() && e.enabled[3] && e.nvic[Line(3)] && e.table[3].pin == -1
  {
    e := new Exti();
    var s := e.Attach(3, 0, 1, 0);
    s := e.Enable(3);
    s := e.Detach(3);
    assert Line(3) == 3;
  }
}
