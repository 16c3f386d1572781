/** The Si7005 driver primitives: probing, configuration read-modify-write,
starting a conversion, the heater, the ready test, reading the data, and the
busy-wait for completion. */
module Driver {
  import opened I2c
  import opened Registers
  import opened Calibration

  /** A result with the (possibly null) bus handle after the call. */
  datatype Reply<+T> = Reply(value: T, bus: Handle)

  /** `after` is `before` with the bits of `bits` switched on, the other bits of
      `mask` switched off, and every bit outside `mask` left as it was. */
  ghost predicate Merged(before: bv8, after: bv8, mask: bv8, bits: bv8) {
    forall i: bv8 | i < 8 :: Bit(after, i) == (Bit(bits, i) || (!Bit(mask, i) && Bit(before, i)))
  }

  /** `after` starts a conversion from configuration `before`: START is set, TEMP
      is set exactly for a temperature conversion, FAST exactly for fast mode,
      and HEAT and the unused bits 2, 3, 6 and 7 are as in `before`. */
  ghost predicate StartBits(before: bv8, after: bv8, temp: bool, fast: bool) {
    && Bit(after, START_BIT)
    && Bit(after, TEMP_BIT) == temp
    && Bit(after, FAST_BIT) == fast
    && forall i: bv8 | i < 8 && i != START_BIT && i != TEMP_BIT && i != FAST_BIT ::
         Bit(after, i) == Bit(before, i)
  }

  /** `after` is `before` with only the HEAT bit changed, and HEAT is set exactly when `on`. */
  ghost predicate HeaterBits(before: bv8, after: bv8, on: bool) {
    && Bit(after, HEAT_BIT) == on
    && forall i: bv8 | i < 8 && i != HEAT_BIT :: Bit(after, i) == Bit(before, i)
  }

  /** The accesses `d` of a configuration read-modify-write whose result is
      `ok`: a read of CONFIG and, only if that read succeeded, one write of
      CONFIG whose acknowledgement is the result. */
  ghost predicate ConfigRmw(d: seq<Event>, ok: bool) {
    && 1 <= |d| <= 2
    && d[0].ReadB? && d[0].reg == REG_CONFIG
    && (d[0].ret < 0 <==> |d| == 1)
    && (|d| == 1 ==> !ok)
    && (|d| == 2 ==> d[1].WriteB? && d[1].reg == REG_CONFIG && d[1].ok == ok)
  }

  /** si7005_probe_bus: a null handle answers false without touching the bus;
      otherwise exactly one read of the ID register, and the chip is present
      exactly when that read gave 0x50. */
  function ProbeBus(h: Handle): (r: Reply<bool>)
    ensures h.Null? ==> r == Reply(false, Null)
    ensures h.Bus? ==> r.bus.Bus? && Follows(h.t, r.bus.t)
    ensures h.Bus? ==> r.bus.t.trace == h.t.trace + [ReadB(REG_ID, NextByte(h.t))]
    ensures h.Bus? ==> r.bus.t == h.t.(bytes := Tail(h.t.bytes), trace := r.bus.t.trace)
    ensures r.value <==> h.Bus? && NextByte(h.t) == ID_VALUE as int
  {
    if h.Null? then Reply(false, Null)
    else
      var s := ReadRegB(h.t, REG_ID);
      Reply(s.value == ID_VALUE as int, Bus(s.bus))
  }

  /** si7005_modify_config: read CONFIG; if that fails, fail without writing;
      otherwise write back the byte read with the bits of `mask` cleared and
      those of `bits` set. It succeeds exactly when the read succeeds and the
      write is acknowledged. */
  function ModifyConfig(t: Transport, mask: bv8, bits: bv8): (r: Step<bool>)
    ensures Follows(t, r.bus) && r.bus == ConfigDone(t, r.bus.trace)
    ensures r.value == (NextByte(t) >= 0 && NextAck(t))
    ensures ConfigRmw(Since(t, r.bus), r.value)
    ensures Since(t, r.bus)[0].ret == NextByte(t)
    ensures NextByte(t) >= 0 ==> Merged(ByteOf(NextByte(t)), Since(t, r.bus)[1].value, mask, bits)
  {
    var rd := ReadRegB(t, REG_CONFIG);
    if rd.value < 0 then Step(false, rd.bus)
    else
      var before := ByteOf(rd.value);
      var after := (before & !mask) | bits;
      MergedBits(before, mask, bits);
      var wr := WriteRegB(rd.bus, REG_CONFIG, after);
      FollowsTransitive(t, rd.bus, wr.bus);
      wr
  }

  /** The bus after a configuration read-modify-write on `t`: one byte reply
      used, and one acknowledgement too if that read succeeded. */
  function ConfigDone(t: Transport, trace: seq<Event>): Transport {
    t.(bytes := Tail(t.bytes), acks := if NextByte(t) >= 0 then Tail(t.acks) else t.acks, trace := trace)
  }

  lemma MergedBits(before: bv8, mask: bv8, bits: bv8)
    ensures Merged(before, (before & !mask) | bits, mask, bits)
  {
    forall i: bv8 | i < 8
      ensures Bit((before & !mask) | bits, i) == (Bit(bits, i) || (!Bit(mask, i) && Bit(before, i)))
    {
      assert i == 0 || i == 1 || i == 2 || i == 3 || i == 4 || i == 5 || i == 6 || i == 7;
    }
  }

  /** si7005_start_conversion: a configuration read-modify-write that sets
      START, sets TEMP for a temperature conversion and FAST for fast mode, and
      keeps every other bit of the register. */
  function StartConversion(t: Transport, temp: bool, fast: bool): (r: Step<bool>)
    ensures Follows(t, r.bus) && r.bus == ConfigDone(t, r.bus.trace)
    ensures r.value == (NextByte(t) >= 0 && NextAck(t))
    ensures ConfigRmw(Since(t, r.bus), r.value)
    ensures Since(t, r.bus)[0].ret == NextByte(t)
    ensures NextByte(t) >= 0 ==> StartBits(ByteOf(NextByte(t)), Since(t, r.bus)[1].value, temp, fast)
  {
    var mask := Mask(TEMP_BIT) | Mask(FAST_BIT) | Mask(START_BIT);
    var bits := (if temp then Mask(TEMP_BIT) else 0) | (if fast then Mask(FAST_BIT) else 0) | Mask(START_BIT);
    var r := ModifyConfig(t, mask, bits);
    if NextByte(t) >= 0 then
      MergedStart(ByteOf(NextByte(t)), Since(t, r.bus)[1].value, temp, fast);
      r
    else r
  }

  lemma MergedStart(before: bv8, after: bv8, temp: bool, fast: bool)
    requires Merged(before, after,
                    Mask(TEMP_BIT) | Mask(FAST_BIT) | Mask(START_BIT),
                    (if temp then Mask(TEMP_BIT) else 0) | (if fast then Mask(FAST_BIT) else 0) | Mask(START_BIT))
    ensures StartBits(before, after, temp, fast)
  {
  }

  /** si7005_set_heater_bus: probe first, and only if the chip answers do a
      configuration read-modify-write that changes the HEAT bit alone. */
  function SetHeaterBus(h: Handle, on: bool): (r: Reply<bool>)
    ensures h.Null? ==> r == Reply(false, Null)
    ensures h.Bus? ==> r.bus.Bus? && Follows(h.t, r.bus.t)
    ensures h.Bus? && NextByte(h.t) != ID_VALUE as int ==>
              && !r.value && Since(h.t, r.bus.t) == [ReadB(REG_ID, NextByte(h.t))]
              && r.bus.t == h.t.(bytes := Tail(h.t.bytes), trace := r.bus.t.trace)
    ensures h.Bus? && NextByte(h.t) == ID_VALUE as int ==>
              var d := Since(h.t, r.bus.t);
              var p := h.t.(bytes := Tail(h.t.bytes));
              && |d| >= 2 && d[0] == ReadB(REG_ID, ID_VALUE as int)
              && ConfigRmw(d[1..], r.value)
              && d[1].ret == NextByte(p)
              && r.value == (NextByte(p) >= 0 && NextAck(h.t))
              && r.bus.t == ConfigDone(p, r.bus.t.trace)
              && (d[1].ret >= 0 ==> HeaterBits(ByteOf(d[1].ret), d[2].value, on))
  {
    var p := ProbeBus(h);
    if !p.value then p
    else
      var bits := if on then Mask(HEAT_BIT) else 0;
      var m := ModifyConfig(p.bus.t, Mask(HEAT_BIT), bits);
      FollowsTransitive(h.t, p.bus.t, m.bus);
      var d := Since(h.t, m.bus);
      assert d == Since(h.t, p.bus.t) + Since(p.bus.t, m.bus);
      assert d[1..] == Since(p.bus.t, m.bus);
      if d[1].ret >= 0 then
        MergedHeater(ByteOf(d[1].ret), d[2].value, on);
        Reply(m.value, Bus(m.bus))
      else Reply(m.value, Bus(m.bus))
  }

  lemma MergedHeater(before: bv8, after: bv8, on: bool)
    requires Merged(before, after, Mask(HEAT_BIT), if on then Mask(HEAT_BIT) else 0)
    ensures HeaterBits(before, after, on)
  {
  }

  /** si7005_is_data_ready: one read of the status register; ready exactly
      when bit 0 of the answer is clear. A failed read with bit 0 set, such as
      -1, cannot be told apart from "not ready". */
  function IsDataReady(t: Transport): (r: Step<bool>)
    ensures Follows(t, r.bus) && r.bus == t.(bytes := Tail(t.bytes), trace := r.bus.trace)
    ensures Since(t, r.bus) == [ReadB(REG_STATUS, NextByte(t))]
    ensures r.value <==> NextByte(t) % 2 == 0
    ensures NextByte(t) >= 0 ==> (r.value <==> !Bit(ByteOf(NextByte(t)), NRDY_BIT))
    ensures NextByte(t) == FAILURE ==> !r.value
  {
    var s := ReadRegB(t, REG_STATUS);
    ReadyCodeIsStatusBit(s.value);
    Step(ReadyCode(s.value), s.bus)
  }

  /** si7005_read_data: one read of the data register. A failed read gives
      INVALID_VALUE and only a failed read does; otherwise the value depends
      on nothing but the word read and the kind of conversion. The humidity
      value is linearised but not temperature-compensated. */
  function ReadData(t: Transport, temp: bool): (r: Step<real>)
    ensures Follows(t, r.bus) && r.bus == t.(words := Tail(t.words), trace := r.bus.trace)
    ensures Since(t, r.bus) == [ReadW(REG_DATA, NextWord(t))]
    ensures r.value == INVALID_VALUE <==> NextWord(t) < 0
    ensures NextWord(t) >= 0 && temp ==> r.value == Temperature(NextWord(t))
    ensures NextWord(t) >= 0 && !temp ==> r.value == Linearize(RawHumidity(NextWord(t)))
  {
    var s := ReadRegW(t, REG_DATA);
    if s.value < 0 then Step(INVALID_VALUE, s.bus)
    else Step(Decode(s.value, temp), s.bus)
  }

  /** What a busy-wait on the ready test comes to: either a poll reported
      ready, or every answer the bus can still give reads as not ready and the
      loop spins for ever. */
  datatype Wait = Ready(bus: Transport) | Stuck(bus: Transport)

  /** The accesses `d` are a run of status polls in which no poll reports
      ready except, when `ready`, the last one. */
  ghost predicate Polls(d: seq<Event>, ready: bool) {
    && |d| >= 1
    && (forall i | 0 <= i < |d| :: d[i].ReadB? && d[i].reg == REG_STATUS)
    && (forall i | 0 <= i < |d| - 1 :: !ReadyCode(d[i].ret))
    && ReadyCode(d[|d| - 1].ret) == ready
  }

  /** How many status answers of `s` come before the first one that reads as
      ready; all of `|s|` when none does. */
  function FirstReady(s: seq<Int32>): (n: nat)
    ensures n <= |s|
    ensures n < |s| ==> ReadyCode(s[n])
    ensures forall i | 0 <= i < n :: !ReadyCode(s[i])
  {
    if |s| == 0 || ReadyCode(s[0]) then 0 else 1 + FirstReady(s[1..])
  }

  /** The `while (!si7005_is_data_ready(i2c)) {}` loop. It polls until a poll
      reports ready. It is stuck exactly when none of the status answers still
      to come reports ready; it then stops after the first poll that finds the
      reply stream empty, a poll which would repeat for ever. */
  function WaitReady(t: Transport): (r: Wait)
    decreases |t.bytes|
    ensures Follows(t, r.bus) && r.bus.words == t.words && r.bus.acks == t.acks
    ensures Polls(Since(t, r.bus), r.Ready?)
    ensures r.Stuck? <==> forall i | 0 <= i < |t.bytes| :: !ReadyCode(t.bytes[i])
    ensures r.Stuck? <==> FirstReady(t.bytes) == |t.bytes|
    ensures r.Stuck? ==> r.bus.bytes == []
    ensures r.Ready? ==> r.bus.bytes == t.bytes[FirstReady(t.bytes) + 1..]
  {
    var p := IsDataReady(t);
    if p.value then Ready(p.bus)
    else if |t.bytes| == 0 then Stuck(p.bus)
    else
      var rest := WaitReady(p.bus);
      WaitStep(t, p.bus, rest);
      rest
  }

  /** One not-ready poll followed by the rest of the wait is the whole wait. */
  lemma WaitStep(t: Transport, mid: Transport, rest: Wait)
    requires |t.bytes| > 0 && !ReadyCode(t.bytes[0])
    requires Follows(t, mid) && Since(t, mid) == [ReadB(REG_STATUS, t.bytes[0])] && mid.bytes == t.bytes[1..]
    requires Follows(mid, rest.bus)
    requires Polls(Since(mid, rest.bus), rest.Ready?)
    requires rest.Stuck? <==> forall i | 0 <= i < |mid.bytes| :: !ReadyCode(mid.bytes[i])
    requires rest.Stuck? <==> FirstReady(mid.bytes) == |mid.bytes|
    requires rest.Ready? ==> rest.bus.bytes == mid.bytes[FirstReady(mid.bytes) + 1..]
    ensures Follows(t, rest.bus)
    ensures Polls(Since(t, rest.bus), rest.Ready?)
    ensures rest.Stuck? <==> forall i | 0 <= i < |t.bytes| :: !ReadyCode(t.bytes[i])
    ensures rest.Stuck? <==> FirstReady(t.bytes) == |t.bytes|
    ensures rest.Ready? ==> rest.bus.bytes == t.bytes[FirstReady(t.bytes) + 1..]
  {
    assert FirstReady(t.bytes) == 1 + FirstReady(mid.bytes);
    FollowsTransitive(t, mid, rest.bus);
    PollsCons(Since(t, mid)[0], Since(mid, rest.bus), rest.Ready?);
    assert forall i | 1 <= i < |t.bytes| :: t.bytes[i] == mid.bytes[i - 1];
  }

  lemma PollsCons(e: Event, d: seq<Event>, ready: bool)
    requires e.ReadB? && e.reg == REG_STATUS && !ReadyCode(e.ret)
    requires Polls(d, ready)
    ensures Polls([e] + d, ready)
  {
    var c := [e] + d;
    assert forall i | 1 <= i < |c| :: c[i] == d[i - 1];
  }
}
