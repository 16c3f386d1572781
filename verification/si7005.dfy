/** The blocking Si7005 interface: temperature and humidity reads that probe
the chip, run a conversion, busy-wait for it and decode the result, and the
variants of the public calls that use the process-wide default bus. */
module Si7005 {
  import opened I2c
  import opened Registers
  import opened Calibration
  import opened Driver

  /** The outcome of a call that may busy-wait: it returns a value, or it
      spins for ever on a bus whose status answers never report ready. */
  datatype Blocking<+T> = Returned(value: T, bus: Handle) | Hung(bus: Handle)

  /** The same, on a bus known not to be null. */
  datatype Outcome<+T> = Done(value: T, bus: Transport) | Hangs(bus: Transport)

  /** An access whose answer makes the driver give up: an ID other than
      0x50, a failed configuration or data read, or an unacknowledged write. */
  predicate Failed(e: Event) {
    match e
    case ReadB(reg, ret) => (reg == REG_ID && ret != ID_VALUE as int) || (reg == REG_CONFIG && ret < 0)
    case ReadW(_, ret) => ret < 0
    case WriteB(_, _, ok) => !ok
  }

  /** The accesses `d` end with one that made the driver give up. */
  predicate EndsInFailure(d: seq<Event>) {
    |d| >= 1 && Failed(d[|d| - 1])
  }

  /** `d` is a successful start of a normal-speed conversion of the given
      kind: CONFIG read, then written back with the start bits. */
  ghost predicate Started(d: seq<Event>, temp: bool) {
    && |d| == 2
    && d[0].ReadB? && d[0].reg == REG_CONFIG && d[0].ret >= 0
    && d[1].WriteB? && d[1].reg == REG_CONFIG && d[1].ok
    && StartBits(ByteOf(d[0].ret), d[1].value, temp, false)
  }

  /** `d` runs one conversion up to its data read: a successful start, polls
      up to and including the first ready answer, and one read of the data word. */
  ghost predicate ReadOut(d: seq<Event>, temp: bool) {
    && |d| >= 4
    && Started(d[..2], temp)
    && Polls(d[2..|d| - 1], true)
    && d[|d| - 1].ReadW? && d[|d| - 1].reg == REG_DATA
  }

  /** `d` is one complete conversion: read out, and the data read succeeded. */
  ghost predicate Conversion(d: seq<Event>, temp: bool) {
    ReadOut(d, temp) && d[|d| - 1].ret >= 0
  }

  /** `d` is a conversion that gave up at its first failing access, with no
      access after it: the CONFIG read failed; or it succeeded and the write
      of the start bits was not acknowledged; or the conversion was read out
      and the data read failed. */
  ghost predicate FailedConversion(d: seq<Event>, temp: bool) {
    || (|d| == 1 && d[0].ReadB? && d[0].reg == REG_CONFIG && d[0].ret < 0)
    || (&& |d| == 2 && d[0].ReadB? && d[0].reg == REG_CONFIG && d[0].ret >= 0
        && d[1].WriteB? && d[1].reg == REG_CONFIG && !d[1].ok
        && StartBits(ByteOf(d[0].ret), d[1].value, temp, false))
    || (ReadOut(d, temp) && d[|d| - 1].ret < 0)
  }

  /** `d` is a conversion that was started and is never reported ready. */
  ghost predicate StuckConversion(d: seq<Event>, temp: bool) {
    && |d| >= 3
    && Started(d[..2], temp)
    && Polls(d[2..], false)
  }

  /** `d` is a probe that did not find the chip, and nothing after it. */
  ghost predicate ProbeFailed(d: seq<Event>) {
    |d| == 1 && d[0].ReadB? && d[0].reg == REG_ID && d[0].ret != ID_VALUE as int
  }

  /** `d` opens with a probe that found the chip. */
  ghost predicate Probed(d: seq<Event>) {
    |d| >= 1 && d[0] == ReadB(REG_ID, ID_VALUE as int)
  }

  /** `d` is a successful blocking temperature read: the probe finds the
      chip, then one complete temperature conversion. */
  ghost predicate TempSession(d: seq<Event>) {
    Probed(d) && Conversion(d[1..], true)
  }

  /** `d` is a blocking temperature read that gave up at its first failing
      access: the probe, or the conversion after a good probe. */
  ghost predicate TempFailure(d: seq<Event>) {
    ProbeFailed(d) || (Probed(d) && FailedConversion(d[1..], true))
  }

  /** `d` splits at `k` into a complete blocking temperature read `d[..k]`
      and a complete humidity conversion `d[k..]`. */
  ghost predicate RhSplit(d: seq<Event>, k: int) {
    && 1 <= k <= |d|
    && TempSession(d[..k])
    && Conversion(d[k..], false)
  }

  /** `d` is a whole blocking temperature read followed by a whole humidity
      conversion. */
  ghost predicate RhBody(d: seq<Event>) {
    exists k :: RhSplit(d, k)
  }

  /** `d` is a successful blocking humidity read: its own probe finds the
      chip, then the accesses of `RhBody`. */
  ghost predicate RhSession(d: seq<Event>) {
    Probed(d) && RhBody(d[1..])
  }

  /** `d` splits at `k` into a complete blocking temperature read and a
      humidity conversion that gave up. */
  ghost predicate RhFailSplit(d: seq<Event>, k: int) {
    && 1 <= k <= |d|
    && TempSession(d[..k])
    && FailedConversion(d[k..], false)
  }

  /** The accesses of `RhBody` that gave up at their first failing access:
      in the temperature read, or in the humidity conversion after it. */
  ghost predicate RhBodyFailure(d: seq<Event>) {
    TempFailure(d) || exists k :: RhFailSplit(d, k)
  }

  /** `d` splits at `k` into a complete blocking temperature read and a
      humidity conversion that was started and is never reported ready. */
  ghost predicate RhHangSplit(d: seq<Event>, k: int) {
    && 1 <= k <= |d|
    && TempSession(d[..k])
    && StuckConversion(d[k..], false)
  }

  /** The accesses of `RhBody` up to a hang: either the temperature read's
      conversion, after a good probe, or the humidity conversion after a
      complete temperature read, is never reported ready. */
  ghost predicate RhBodyHang(d: seq<Event>) {
    (Probed(d) && StuckConversion(d[1..], true)) || exists k :: RhHangSplit(d, k)
  }

  /** A blocking humidity read that gave up at its first failing access. */
  ghost predicate RhFailure(d: seq<Event>) {
    ProbeFailed(d) || (Probed(d) && RhBodyFailure(d[1..]))
  }

  /** What the replies alone make of a blocking read: it gives up with
      INVALID_VALUE, it spins for ever, or it gives a value; each time with
      the replies that are left over. */
  datatype Expected = GivesUp(rest: Replies) | Spins(rest: Replies) | Gives(value: real, rest: Replies)

  /** One normal-speed conversion, told from the replies alone: the CONFIG
      answer, the acknowledgement of the write, the status answers up to the
      first ready one, and the data word. */
  function ExpectConversion(a: Replies, temp: bool): (e: Expected)
    ensures e.Gives? ==> Head(a.words) >= 0 && e.value == Decode(Head(a.words), temp)
    ensures e.Gives? ==> e.rest.words == Tail(a.words)
    ensures e.GivesUp? ==> Head(a.bytes) < 0 || !Ack(a.acks) || Head(a.words) < 0
    ensures e.Spins? <==> Head(a.bytes) >= 0 && Ack(a.acks) && FirstReady(Tail(a.bytes)) == |Tail(a.bytes)|
  {
    var a1 := a.(bytes := Tail(a.bytes));
    if Head(a.bytes) < 0 then GivesUp(a1)
    else
      var a2 := a1.(acks := Tail(a1.acks));
      if !Ack(a1.acks) then GivesUp(a2)
      else
        var n := FirstReady(a2.bytes);
        if n == |a2.bytes| then Spins(a2.(bytes := []))
        else
          var a3 := a2.(bytes := a2.bytes[n + 1..], words := Tail(a2.words));
          if Head(a2.words) < 0 then GivesUp(a3) else Gives(Decode(Head(a2.words), temp), a3)
  }

  /** A blocking temperature read, told from the replies alone: the ID
      answer, then one temperature conversion. */
  function ExpectTemp(a: Replies): (e: Expected)
    ensures Head(a.bytes) != ID_VALUE as int ==> e == GivesUp(a.(bytes := Tail(a.bytes)))
    ensures e.Gives? ==> Head(a.words) >= 0 && e.value == Temperature(Head(a.words))
    ensures e.Gives? ==> e.rest.words == Tail(a.words)
  {
    if Head(a.bytes) != ID_VALUE as int then GivesUp(a.(bytes := Tail(a.bytes)))
    else ExpectConversion(a.(bytes := Tail(a.bytes)), true)
  }

  /** The humidity read after its own probe, told from the replies alone: a
      blocking temperature read, then a humidity conversion if that gave a
      value, and the compensated humidity if both did. */
  function ExpectRhBody(a: Replies): (e: Expected)
    ensures e.Gives? ==>
              && |a.words| >= 2 && a.words[0] >= 0 && a.words[1] >= 0
              && e.value == RhTcomp(Humidity(a.words[1]), Temperature(a.words[0]))
              && e.value != INVALID_VALUE
              && e.rest.words == a.words[2..]
  {
    match ExpectTemp(a)
    case Gives(temp, a1) =>
      (match ExpectConversion(a1, false)
       case Gives(rh, a2) =>
         CompensatedNeverInvalid(a.words[0], a.words[1]);
         Gives(RhTcomp(rh, temp), a2)
       case other => other)
    case other => other
  }

  /** A blocking humidity read, told from the replies alone: the ID answer,
      then the humidity read's body. */
  function ExpectRh(a: Replies): (e: Expected)
    ensures Head(a.bytes) != ID_VALUE as int ==> e == GivesUp(a.(bytes := Tail(a.bytes)))
    ensures Head(a.bytes) == ID_VALUE as int ==> e == ExpectRhBody(a.(bytes := Tail(a.bytes)))
  {
    if Head(a.bytes) != ID_VALUE as int then GivesUp(a.(bytes := Tail(a.bytes)))
    else ExpectRhBody(a.(bytes := Tail(a.bytes)))
  }

  /** The outcome `r` is the one the replies determine, `e`: it spins exactly
      when `e` does, gives INVALID_VALUE when `e` gives up and `e`'s value when
      it gives one, and leaves exactly `e`'s replies unused. */
  ghost predicate Agrees(e: Expected, r: Outcome<real>) {
    && (r.Hangs? <==> e.Spins?)
    && (e.GivesUp? ==> r.Done? && r.value == INVALID_VALUE)
    && (e.Gives? ==> r.Done? && r.value == e.value)
    && Pending(r.bus) == e.rest
  }

  /** A blocking outcome on a bus seen as an outcome on that bus. */
  function OnBus(m: Outcome<real>): (r: Blocking<real>)
    ensures r.bus == Bus(m.bus)
    ensures r.Hung? <==> m.Hangs?
    ensures r.Returned? ==> r.value == m.value
  {
    match m
    case Done(v, b) => Returned(v, Bus(b))
    case Hangs(b) => Hung(Bus(b))
  }

  /** A blocking outcome that stayed on a bus seen as an outcome on that
      bus; the inverse of `OnBus`. */
  function OffBus(r: Blocking<real>): (m: Outcome<real>)
    requires r.bus.Bus?
    ensures OnBus(m) == r
  {
    match r
    case Returned(v, b) => Done(v, b.t)
    case Hung(b) => Hangs(b.t)
  }

  /** `Agrees` for a blocking outcome, which must have stayed on a bus. */
  ghost predicate AgreesOnBus(e: Expected, r: Blocking<real>) {
    r.bus.Bus? && Agrees(e, OffBus(r))
  }

  /** What a blocking temperature read on `h` promises of its outcome `r`.
      A null handle gives INVALID_VALUE without any access. Otherwise the
      outcome is the one the replies determine; a value other than
      INVALID_VALUE is returned exactly when the accesses form a complete
      temperature session, and it is then the temperature of the first data
      word the bus gave; INVALID_VALUE is returned right after the first
      access that failed; and the read hangs only once the status answers are
      exhausted, after a probe that found the chip and a successful start. */
  ghost predicate TempReadSpec(h: Handle, r: Blocking<real>) {
    && (h.Null? ==> r == Returned(INVALID_VALUE, Null))
    && (h.Bus? ==> r.bus.Bus? && Follows(h.t, r.bus.t))
    && (h.Bus? && r.Returned? ==> (r.value != INVALID_VALUE <==> TempSession(Since(h.t, r.bus.t))))
    && (h.Bus? && r.Returned? && r.value != INVALID_VALUE ==>
          && |h.t.words| > 0 && h.t.words[0] >= 0
          && r.value == Temperature(h.t.words[0])
          && r.bus.t.words == h.t.words[1..]
          && Since(h.t, r.bus.t)[|Since(h.t, r.bus.t)| - 1].ret == h.t.words[0])
    && (h.Bus? && r.Returned? && r.value == INVALID_VALUE ==> TempFailure(Since(h.t, r.bus.t)))
    && (r.Hung? ==>
          && h.Bus? && r.bus.t.bytes == []
          && var d := Since(h.t, r.bus.t);
             Probed(d) && StuckConversion(d[1..], true))
    && (h.Bus? ==> AgreesOnBus(ExpectTemp(Pending(h.t)), r))
  }

  /** What a blocking humidity read on `h` promises of its outcome `r`.
      A null handle gives INVALID_VALUE without any access. Otherwise the
      outcome is the one the replies determine; a value other than
      INVALID_VALUE is returned exactly when the accesses form a complete
      humidity session, and it is then the humidity of the second data word
      the bus gave, compensated at the temperature of the first;
      INVALID_VALUE is returned right after the first access that failed;
      and the read hangs only once the status answers are exhausted, after a
      probe that found the chip and then a conversion that never became
      ready: the temperature one, or the humidity one after a complete
      temperature read. */
  ghost predicate RhReadSpec(h: Handle, r: Blocking<real>) {
    && (h.Null? ==> r == Returned(INVALID_VALUE, Null))
    && (h.Bus? ==> r.bus.Bus? && Follows(h.t, r.bus.t))
    && (h.Bus? && r.Returned? ==> (r.value != INVALID_VALUE <==> RhSession(Since(h.t, r.bus.t))))
    && (h.Bus? && r.Returned? && r.value != INVALID_VALUE ==>
          && |h.t.words| > 1 && h.t.words[0] >= 0 && h.t.words[1] >= 0
          && r.value == RhTcomp(Humidity(h.t.words[1]), Temperature(h.t.words[0]))
          && r.bus.t.words == h.t.words[2..]
          && Since(h.t, r.bus.t)[|Since(h.t, r.bus.t)| - 1].ret == h.t.words[1])
    && (h.Bus? && r.Returned? && r.value == INVALID_VALUE ==> RhFailure(Since(h.t, r.bus.t)))
    && (r.Hung? ==>
          && h.Bus? && r.bus.t.bytes == []
          && var d := Since(h.t, r.bus.t);
             Probed(d) && RhBodyHang(d[1..]))
    && (h.Bus? ==> AgreesOnBus(ExpectRh(Pending(h.t)), r))
  }

  /** What one conversion promises: the outcome the replies determine; a
      value other than INVALID_VALUE exactly when the accesses form a
      complete conversion, and it is then the decoding of the first data
      word; INVALID_VALUE right after the first failed access; a hang only
      once the status answers are exhausted, after a successful start. */
  ghost predicate MeasureSpec(t: Transport, temp: bool, r: Outcome<real>) {
    && Follows(t, r.bus)
    && (r.Done? ==> (r.value != INVALID_VALUE <==> Conversion(Since(t, r.bus), temp)))
    && (r.Done? && r.value != INVALID_VALUE ==>
          && |t.words| > 0 && t.words[0] >= 0
          && r.value == Decode(t.words[0], temp)
          && r.bus.words == t.words[1..]
          && Since(t, r.bus)[|Since(t, r.bus)| - 1].ret == t.words[0])
    && (r.Done? && r.value == INVALID_VALUE ==> FailedConversion(Since(t, r.bus), temp))
    && (r.Hangs? ==> StuckConversion(Since(t, r.bus), temp) && r.bus.bytes == [])
    && Agrees(ExpectConversion(Pending(t), temp), r)
  }

  /** What the humidity read promises after its own probe: the outcome the
      replies determine; a value other than INVALID_VALUE exactly when the
      accesses form a temperature read and a humidity conversion, and it is
      then the humidity of the second data word compensated at the
      temperature of the first; INVALID_VALUE right after the first failed
      access; a hang only once the status answers are exhausted, in the shape
      `RhBodyHang` describes. */
  ghost predicate RhBodySpec(t: Transport, r: Outcome<real>) {
    && Follows(t, r.bus)
    && (r.Done? ==> (r.value != INVALID_VALUE <==> RhBody(Since(t, r.bus))))
    && (r.Done? && r.value != INVALID_VALUE ==>
          && |t.words| > 1 && t.words[0] >= 0 && t.words[1] >= 0
          && r.value == RhTcomp(Humidity(t.words[1]), Temperature(t.words[0]))
          && r.bus.words == t.words[2..]
          && Since(t, r.bus)[|Since(t, r.bus)| - 1].ret == t.words[1])
    && (r.Done? && r.value == INVALID_VALUE ==> RhBodyFailure(Since(t, r.bus)))
    && (r.Hangs? ==> r.bus.bytes == [] && RhBodyHang(Since(t, r.bus)))
    && Agrees(ExpectRhBody(Pending(t)), r)
  }

  /** One conversion as the blocking reads run it: start it at normal speed,
      busy-wait until ready, read the data. Any failure gives INVALID_VALUE
      at once, with nothing accessed after the failing access. */
  method Measure(t: Transport, temp: bool) returns (r: Outcome<real>)
    ensures MeasureSpec(t, temp, r)
  {
    var s := StartConversion(t, temp, false);
    if !s.value {
      StartFailed(t, temp);
      return Done(INVALID_VALUE, s.bus);
    }
    var w := WaitReady(s.bus);
    if w.Stuck? {
      ConversionStuck(t, temp);
      return Hangs(w.bus);
    }
    var rd := ReadData(w.bus, temp);
    MeasureRead(t, temp);
    r := Done(rd.value, rd.bus);
  }

  /** A start that fails gives INVALID_VALUE right after the configuration
      accesses: no poll and no data read follow. */
  lemma StartFailed(t: Transport, temp: bool)
    requires !StartConversion(t, temp, false).value
    ensures MeasureSpec(t, temp, Done(INVALID_VALUE, StartConversion(t, temp, false).bus))
  {
    var s := StartConversion(t, temp, false);
    assert FailedConversion(Since(t, s.bus), temp);
  }

  /** A successful start whose status answers never report ready hangs. */
  lemma ConversionStuck(t: Transport, temp: bool)
    requires StartConversion(t, temp, false).value
    requires WaitReady(StartConversion(t, temp, false).bus).Stuck?
    ensures MeasureSpec(t, temp, Hangs(WaitReady(StartConversion(t, temp, false).bus).bus))
  {
    var s := StartConversion(t, temp, false).bus;
    var w := WaitReady(s).bus;
    StuckAgrees(t, temp);
    FollowsTransitive(t, s, w);
    assert Since(t, w)[..2] == Since(t, s);
    assert Since(t, w)[2..] == Since(s, w);
  }

  /** A successful start whose status answers never report ready is what
      the replies determine. */
  lemma StuckAgrees(t: Transport, temp: bool)
    requires StartConversion(t, temp, false).value
    requires WaitReady(StartConversion(t, temp, false).bus).Stuck?
    ensures Agrees(ExpectConversion(Pending(t), temp), Hangs(WaitReady(StartConversion(t, temp, false).bus).bus))
  {
    var s := StartConversion(t, temp, false).bus;
    assert Pending(s) == Pending(t).(bytes := Tail(t.bytes), acks := Tail(t.acks));
  }

  /** A successful start and a wait that ended ready, followed by the data
      read, keep the promises of one conversion. */
  lemma MeasureRead(t: Transport, temp: bool)
    requires StartConversion(t, temp, false).value
    requires WaitReady(StartConversion(t, temp, false).bus).Ready?
    ensures var rd := ReadData(WaitReady(StartConversion(t, temp, false).bus).bus, temp);
            MeasureSpec(t, temp, Done(rd.value, rd.bus))
  {
    var s := StartConversion(t, temp, false).bus;
    var w := WaitReady(s).bus;
    var rd := ReadData(w, temp);
    FollowsTransitive(t, s, w);
    FollowsTransitive(t, w, rd.bus);
    ConversionRead(Since(t, s), Since(s, w), Since(w, rd.bus), temp);
    ReadAgrees(t, temp);
  }

  /** The data read after a successful start and a ready poll is the outcome
      the replies determine. */
  lemma ReadAgrees(t: Transport, temp: bool)
    requires StartConversion(t, temp, false).value
    requires WaitReady(StartConversion(t, temp, false).bus).Ready?
    ensures var rd := ReadData(WaitReady(StartConversion(t, temp, false).bus).bus, temp);
            Agrees(ExpectConversion(Pending(t), temp), Done(rd.value, rd.bus))
  {
    var s := StartConversion(t, temp, false).bus;
    var n := FirstReady(s.bytes);
    assert Pending(s) == Pending(t).(bytes := Tail(t.bytes), acks := Tail(t.acks));
    assert n < |s.bytes|;
  }

  lemma ConversionRead(ds: seq<Event>, dw: seq<Event>, dr: seq<Event>, temp: bool)
    requires ConfigRmw(ds, true) && |ds| == 2 && ds[0].ret >= 0
    requires StartBits(ByteOf(ds[0].ret), ds[1].value, temp, false)
    requires Polls(dw, true)
    requires |dr| == 1 && dr[0].ReadW? && dr[0].reg == REG_DATA
    ensures ReadOut(ds + dw + dr, temp)
    ensures (ds + dw + dr)[|ds + dw + dr| - 1] == dr[0]
  {
    var c := ds + dw + dr;
    assert c[..2] == ds;
    assert c[2..|c| - 1] == dw;
  }

  /** si7005_read_temp_bus: probe, start a temperature conversion, busy-wait
      for it, read and decode the data word. */
  method ReadTempBus(h: Handle) returns (r: Blocking<real>)
    ensures TempReadSpec(h, r)
  {
    var p := ProbeBus(h);
    if !p.value {
      return Returned(INVALID_VALUE, p.bus);
    }
    var m := Measure(p.bus.t, true);
    TempMeasured(h, m);
    r := OnBus(m);
  }

  /** A probe that found the chip, followed by a temperature conversion,
      keeps the promises of a blocking temperature read. */
  lemma TempMeasured(h: Handle, m: Outcome<real>)
    requires ProbeBus(h).value && MeasureSpec(ProbeBus(h).bus.t, true, m)
    ensures TempReadSpec(h, OnBus(m))
  {
    var p := ProbeBus(h).bus.t;
    FollowsTransitive(h.t, p, m.bus);
    assert ExpectTemp(Pending(h.t)) == ExpectConversion(Pending(p), true);
    assert Since(h.t, m.bus) == [ReadB(REG_ID, ID_VALUE as int)] + Since(p, m.bus);
    assert Since(h.t, m.bus)[1..] == Since(p, m.bus);
  }

  /** si7005_read_rh_bus: probe, then a whole blocking temperature read (which
      probes again), then a humidity conversion, and compensate the humidity
      with the temperature just read. An INVALID_VALUE from either read is
      passed on. */
  method ReadRhBus(h: Handle) returns (r: Blocking<real>)
    ensures RhReadSpec(h, r)
  {
    var p := ProbeBus(h);
    if !p.value {
      return Returned(INVALID_VALUE, p.bus);
    }
    var c := Compensated(p.bus.t);
    RhCompensated(h, c);
    r := OnBus(c);
  }

  /** A probe that found the chip, followed by the humidity read's body,
      keeps the promises of a blocking humidity read. */
  lemma RhCompensated(h: Handle, c: Outcome<real>)
    requires ProbeBus(h).value && RhBodySpec(ProbeBus(h).bus.t, c)
    ensures RhReadSpec(h, OnBus(c))
  {
    var p := ProbeBus(h).bus.t;
    FollowsTransitive(h.t, p, c.bus);
    assert ExpectRh(Pending(h.t)) == ExpectRhBody(Pending(p));
    assert Since(h.t, c.bus) == [ReadB(REG_ID, ID_VALUE as int)] + Since(p, c.bus);
    assert Since(h.t, c.bus)[1..] == Since(p, c.bus);
  }

  /** The humidity read after its own probe: a whole blocking temperature
      read, then a humidity conversion, compensated with that temperature. */
  method Compensated(t: Transport) returns (r: Outcome<real>)
    ensures RhBodySpec(t, r)
  {
    var tr := ReadTempBus(Bus(t));
    if tr.Hung? {
      TempHung(t, tr);
      return Hangs(tr.bus.t);
    }
    if tr.value == INVALID_VALUE {
      TempGaveUp(t, tr);
      return Done(INVALID_VALUE, tr.bus.t);
    }
    var m := Measure(tr.bus.t, false);
    match m
    case Hangs(b) =>
      RhHung(t, tr, m);
      r := Hangs(b);
    case Done(v, b) =>
      if v == INVALID_VALUE {
        RhGaveUp(t, tr, m);
        r := Done(INVALID_VALUE, b);
      } else {
        RhDone(t, tr, m);
        r := Done(RhTcomp(v, tr.value), b);
      }
  }

  /** A temperature read that hangs hangs the humidity read. */
  lemma TempHung(t: Transport, tr: Blocking<real>)
    requires TempReadSpec(Bus(t), tr) && tr.Hung?
    ensures RhBodySpec(t, Hangs(tr.bus.t))
  {
  }

  /** A failed temperature read inside the humidity read fails it. */
  lemma TempGaveUp(t: Transport, tr: Blocking<real>)
    requires TempReadSpec(Bus(t), tr) && tr.Returned? && tr.value == INVALID_VALUE
    ensures RhBodySpec(t, Done(INVALID_VALUE, tr.bus.t))
  {
    TempFailureEnds(Since(t, tr.bus.t));
    if RhBody(Since(t, tr.bus.t)) {
      RhBodySucceeds(Since(t, tr.bus.t));
    }
  }

  /** A humidity conversion that hangs after a good temperature read hangs
      the humidity read. */
  lemma RhHung(t: Transport, tr: Blocking<real>, m: Outcome<real>)
    requires TempReadSpec(Bus(t), tr) && tr.Returned? && tr.value != INVALID_VALUE
    requires MeasureSpec(tr.bus.t, false, m) && m.Hangs?
    ensures RhBodySpec(t, m)
  {
    FollowsTransitive(t, tr.bus.t, m.bus);
    var d, k := Since(t, m.bus), |Since(t, tr.bus.t)|;
    assert d[..k] == Since(t, tr.bus.t) && d[k..] == Since(tr.bus.t, m.bus);
    assert RhHangSplit(d, k);
  }

  /** A failed humidity conversion after a good temperature read fails the
      humidity read. */
  lemma RhGaveUp(t: Transport, tr: Blocking<real>, m: Outcome<real>)
    requires TempReadSpec(Bus(t), tr) && tr.Returned? && tr.value != INVALID_VALUE
    requires MeasureSpec(tr.bus.t, false, m) && m.Done? && m.value == INVALID_VALUE
    ensures RhBodySpec(t, Done(INVALID_VALUE, m.bus))
  {
    FollowsTransitive(t, tr.bus.t, m.bus);
    var d, k := Since(t, m.bus), |Since(t, tr.bus.t)|;
    assert d[..k] == Since(t, tr.bus.t) && d[k..] == Since(tr.bus.t, m.bus);
    assert RhFailSplit(d, k);
    RhFailureEnds(d);
    if RhBody(d) {
      RhBodySucceeds(d);
    }
  }

  /** A good temperature read and a good humidity conversion give the
      compensated humidity of the two data words. */
  lemma RhDone(t: Transport, tr: Blocking<real>, m: Outcome<real>)
    requires TempReadSpec(Bus(t), tr) && tr.Returned? && tr.value != INVALID_VALUE
    requires MeasureSpec(tr.bus.t, false, m) && m.Done? && m.value != INVALID_VALUE
    ensures RhBodySpec(t, Done(RhTcomp(m.value, tr.value), m.bus))
  {
    RhDoneAgrees(t, tr, m);
    FollowsTransitive(t, tr.bus.t, m.bus);
    RhAssembled(Since(t, tr.bus.t), Since(tr.bus.t, m.bus));
    var u := tr.bus.t;
    assert u.words == t.words[1..] && u.words[0] == t.words[1];
    assert tr.value == Temperature(t.words[0]);
    assert m.value == Humidity(t.words[1]);
    assert m.bus.words == t.words[2..];
    CompensatedNeverInvalid(t.words[0], t.words[1]);
  }

  /** A good temperature read and a good humidity conversion are what the
      replies determine. */
  lemma RhDoneAgrees(t: Transport, tr: Blocking<real>, m: Outcome<real>)
    requires TempReadSpec(Bus(t), tr) && tr.Returned? && tr.value != INVALID_VALUE
    requires MeasureSpec(tr.bus.t, false, m) && m.Done? && m.value != INVALID_VALUE
    ensures Agrees(ExpectRhBody(Pending(t)), Done(RhTcomp(m.value, tr.value), m.bus))
  {
    assert ExpectTemp(Pending(t)) == Gives(tr.value, Pending(tr.bus.t));
    assert ExpectConversion(Pending(tr.bus.t), false) == Gives(m.value, Pending(m.bus));
  }

  /** A temperature session followed by a humidity conversion is a humidity
      read's body. */
  lemma RhAssembled(dt: seq<Event>, dh: seq<Event>)
    requires TempSession(dt) && Conversion(dh, false)
    ensures RhBody(dt + dh)
  {
    var b := dt + dh;
    assert b[..|dt|] == dt && b[|dt|..] == dh;
    assert RhSplit(b, |dt|);
  }

  /** A humidity read's body ends with a successful data read, not a failure. */
  lemma RhBodySucceeds(d: seq<Event>)
    requires RhBody(d)
    ensures !EndsInFailure(d)
  {
    var k :| RhSplit(d, k);
    assert d[k..][|d[k..]| - 1] == d[|d| - 1];
  }

  /** A conversion that gave up ends with the access that failed. */
  lemma FailedConversionEnds(d: seq<Event>, temp: bool)
    requires FailedConversion(d, temp)
    ensures EndsInFailure(d)
  {
  }

  /** A temperature read that gave up ends with the access that failed. */
  lemma TempFailureEnds(d: seq<Event>)
    requires TempFailure(d)
    ensures EndsInFailure(d)
  {
    if !ProbeFailed(d) {
      FailedConversionEnds(d[1..], true);
      assert d[1..][|d[1..]| - 1] == d[|d| - 1];
    }
  }

  /** A humidity read's body that gave up ends with the access that failed. */
  lemma RhFailureEnds(d: seq<Event>)
    requires RhBodyFailure(d)
    ensures EndsInFailure(d)
  {
    if TempFailure(d) {
      TempFailureEnds(d);
    } else {
      var k :| RhFailSplit(d, k);
      FailedConversionEnds(d[k..], false);
      assert d[k..][|d[k..]| - 1] == d[|d| - 1];
    }
  }

  /** si7005_probe: the probe on the process-wide default bus. */
  function Probe(global: Handle): (r: Reply<bool>)
    ensures r == ProbeBus(global)
  {
    ProbeBus(global)
  }

  /** si7005_set_heater: the heater switch on the process-wide default bus. */
  function SetHeater(global: Handle, on: bool): (r: Reply<bool>)
    ensures r == SetHeaterBus(global, on)
  {
    SetHeaterBus(global, on)
  }

  /** si7005_read_temp: the blocking temperature read on the process-wide
      default bus, with the same promises as on an explicit bus. */
  method ReadTemp(global: Handle) returns (r: Blocking<real>)
    ensures TempReadSpec(global, r)
  {
    r := ReadTempBus(global);
  }

  /** si7005_read_rh: the blocking humidity read on the process-wide default
      bus, with the same promises as on an explicit bus. */
  method ReadRh(global: Handle) returns (r: Blocking<real>)
    ensures RhReadSpec(global, r)
  {
    r := ReadRhBus(global);
  }
}
