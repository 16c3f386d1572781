/** Properties of the blocking reads that relate whole access sequences: the
order in which the conversions happen, that data is only read after the chip
reported ready, and that a humidity session splits in only one way. */
module Properties {
  import opened I2c
  import opened Registers
  import opened Calibration
  import opened Driver
  import opened Si7005

  /** None of the accesses `d` reads the data register. */
  predicate NoDataRead(d: seq<Event>) {
    forall i | 0 <= i < |d| :: !d[i].ReadW?
  }

  /** The write of a complete conversion sets START and selects its kind, the
      data word is read right after a status poll that reported ready, and no
      data word is read before that. */
  lemma ConversionShape(d: seq<Event>, temp: bool)
    requires Conversion(d, temp)
    ensures d[0].ReadB? && d[0].reg == REG_CONFIG
    ensures d[1].WriteB? && d[1].reg == REG_CONFIG && d[1].ok
    ensures Bit(d[1].value, START_BIT) && Bit(d[1].value, TEMP_BIT) == temp && !Bit(d[1].value, FAST_BIT)
    ensures d[|d| - 2].ReadB? && d[|d| - 2].reg == REG_STATUS && ReadyCode(d[|d| - 2].ret)
    ensures d[|d| - 1].ReadW? && d[|d| - 1].reg == REG_DATA
    ensures NoDataRead(d[..|d| - 1])
  {
    var s := d[..2];
    assert s[0] == d[0] && s[1] == d[1];
    var p := d[2..|d| - 1];
    assert p[|p| - 1] == d[|d| - 2];
    forall i | 0 <= i < |d| - 1
      ensures !d[i].ReadW?
    {
      if i >= 2 {
        assert d[i] == p[i - 2];
      }
    }
  }

  /** The first data read of a temperature session is its last access. */
  lemma TempSessionShape(d: seq<Event>)
    requires TempSession(d)
    ensures |d| >= 5
    ensures d[2].WriteB? && d[2].reg == REG_CONFIG && Bit(d[2].value, START_BIT) && Bit(d[2].value, TEMP_BIT)
    ensures d[|d| - 1].ReadW? && d[|d| - 1].reg == REG_DATA && d[|d| - 1].ret >= 0
    ensures NoDataRead(d[..|d| - 1])
  {
    var c := d[1..];
    ConversionShape(c, true);
    assert c[1] == d[2] && c[|c| - 1] == d[|d| - 1];
    forall i | 0 <= i < |d| - 1
      ensures !d[i].ReadW?
    {
      if i >= 1 {
        assert d[i] == c[..|c| - 1][i - 1];
      }
    }
  }

  /** A temperature session followed by a humidity conversion can be split in
      only one place: right after the first data read. */
  lemma RhSplitUnique(d: seq<Event>, k1: int, k2: int)
    requires RhSplit(d, k1) && RhSplit(d, k2)
    ensures k1 == k2
  {
    FirstDataRead(d, k1);
    FirstDataRead(d, k2);
  }

  /** The temperature session that opens `d[..k]` ends at `k - 1` with the
      first data read of `d`. */
  lemma FirstDataRead(d: seq<Event>, k: int)
    requires 1 <= k <= |d| && TempSession(d[..k])
    ensures d[k - 1].ReadW?
    ensures forall i | 0 <= i < k - 1 :: !d[i].ReadW?
  {
    TempSessionShape(d[..k]);
    assert d[..k][k - 1] == d[k - 1];
    assert forall i | 0 <= i < k - 1 :: d[i] == d[..k][..k - 1][i];
  }

  /** The order of a humidity session: the humidity read probes the chip, the
      temperature read inside it probes again, a temperature conversion is
      started (index `i`) and its data read (index `j`), and only then is the
      humidity conversion started (index `l`) and its data read, last. These
      two are the only data reads, and each comes right after a ready poll. */
  lemma RhSessionOrder(d: seq<Event>) returns (i: nat, j: nat, l: nat)
    requires RhSession(d)
    ensures d[0] == ReadB(REG_ID, ID_VALUE as int) && d[1] == ReadB(REG_ID, ID_VALUE as int)
    ensures 1 < i < j < l < |d| - 1
    ensures d[i].WriteB? && d[i].reg == REG_CONFIG && Bit(d[i].value, START_BIT) && Bit(d[i].value, TEMP_BIT)
    ensures d[j].ReadW? && d[j].reg == REG_DATA
    ensures d[j - 1].ReadB? && d[j - 1].reg == REG_STATUS && ReadyCode(d[j - 1].ret)
    ensures d[l].WriteB? && d[l].reg == REG_CONFIG && Bit(d[l].value, START_BIT) && !Bit(d[l].value, TEMP_BIT)
    ensures d[|d| - 1].ReadW? && d[|d| - 1].reg == REG_DATA
    ensures d[|d| - 2].ReadB? && d[|d| - 2].reg == REG_STATUS && ReadyCode(d[|d| - 2].ret)
    ensures forall n | 0 <= n < |d| && d[n].ReadW? :: n == j || n == |d| - 1
  {
    var b := d[1..];
    var k :| RhSplit(b, k);
    var dt, dh := b[..k], b[k..];
    TempSessionShape(dt);
    ConversionShape(dh, false);
    ConversionShape(dt[1..], true);
    assert dt[1..][|dt[1..]| - 2] == dt[|dt| - 2];
    i, j, l := 3, k, k + 2;
    assert d[i] == dt[2];
    assert d[j] == dt[k - 1] && d[j - 1] == dt[k - 2];
    assert d[l] == dh[1];
    assert d[|d| - 1] == dh[|dh| - 1] && d[|d| - 2] == dh[|dh| - 2];
    assert d[1] == dt[0];
    assert forall n | 1 <= n < j :: d[n] == dt[..k - 1][n - 1];
    assert forall n | j < n < |d| - 1 :: d[n] == dh[..|dh| - 1][n - 1 - k];
  }

  /** A conversion whose start fails, because the CONFIG read fails or the
      write of the start bits is not acknowledged, gives INVALID_VALUE right
      after the configuration accesses: no status poll and no data read
      follow. */
  lemma NoPollAfterFailedStart(t: Transport, temp: bool, r: Outcome<real>)
    requires MeasureSpec(t, temp, r)
    requires NextByte(t) < 0 || !NextAck(t)
    ensures r.Done? && r.value == INVALID_VALUE
    ensures 1 <= |Since(t, r.bus)| <= 2 && NoDataRead(Since(t, r.bus))
    ensures forall n | 0 <= n < |Since(t, r.bus)| :: Since(t, r.bus)[n].reg == REG_CONFIG
  {
    var d := Since(t, r.bus);
    assert Answers(Pending(t), d, Pending(r.bus));
    if |d| >= 2 && d[0].ReadB? {
      var a := Consume(Pending(t), d[0]);
      assert d[0].ret == NextByte(t);
      assert Answers(a, d[1..], Pending(r.bus)) && d[1..][0] == d[1];
      assert d[1].WriteB? ==> d[1].ok == NextAck(t);
    }
  }

  /** A chip that answers every access gives its temperature: when the ID
      answer is 0x50, the CONFIG read succeeds, the write is acknowledged, a
      later status answer reads as ready and the data word is read, the
      blocking temperature read returns the temperature of that word. */
  lemma WorkingChipTemperature(t: Transport)
    requires |t.bytes| >= 2 && t.bytes[0] == ID_VALUE as int && t.bytes[1] >= 0
    requires |t.acks| >= 1 && t.acks[0]
    requires exists i | 2 <= i < |t.bytes| :: ReadyCode(t.bytes[i])
    requires |t.words| >= 1 && t.words[0] >= 0
    ensures forall r | TempReadSpec(Bus(t), r) :: r.Returned? && r.value == Temperature(t.words[0])
  {
    var b := t.bytes;
    var i :| 2 <= i < |b| && ReadyCode(b[i]);
    assert Tail(Tail(b)) == b[2..] && b[2..][i - 2] == b[i];
    assert ExpectTemp(Pending(t)).Gives?;
  }

  /** The replies of a chip that answers every access of a blocking humidity
      read: both probes find the chip, both conversions start, each meets a
      status answer that reads as ready (the first one at index `n`), and
      both data words are read. */
  ghost predicate HumidityChipWorks(t: Transport) {
    var b := t.bytes;
    && |b| >= 3 && b[0] == ID_VALUE as int && b[1] == ID_VALUE as int && b[2] >= 0
    && var n := 3 + FirstReady(b[3..]);
       && n + 1 < |b| && b[n + 1] >= 0
       && FirstReady(b[n + 2..]) < |b| - n - 2
       && |t.acks| >= 2 && t.acks[0] && t.acks[1]
       && |t.words| >= 2 && t.words[0] >= 0 && t.words[1] >= 0
  }

  /** A chip that answers every access gives its compensated humidity: the
      blocking humidity read returns the humidity of the second data word
      compensated at the temperature of the first. */
  lemma WorkingChipHumidity(t: Transport)
    requires HumidityChipWorks(t)
    ensures forall r | RhReadSpec(Bus(t), r) :: r.Returned? && r.value == RhTcomp(Humidity(t.words[1]), Temperature(t.words[0]))
  {
    HumidityFromReplies(t);
  }

  /** On the replies of a working chip, the humidity read gives the
      compensated humidity of the two data words. */
  lemma HumidityFromReplies(t: Transport)
    requires HumidityChipWorks(t)
    ensures ExpectRh(Pending(t)) == Gives(RhTcomp(Humidity(t.words[1]), Temperature(t.words[0])), ExpectRh(Pending(t)).rest)
  {
    var b := t.bytes;
    var n := 3 + FirstReady(b[3..]);
    var x := Pending(t).(bytes := b[1..]);
    var a1 := Replies(b[n + 1..], Tail(t.words), Tail(t.acks));
    TempPartWorks(t);
    HumidityPartWorks(t);
    assert ExpectTemp(x) == Gives(Temperature(t.words[0]), a1);
    assert ExpectRhBody(x).Gives?;
    assert Tail(b) == b[1..];
  }

  /** The temperature read inside a working chip's humidity read gives the
      temperature of the first data word, leaving the replies that start
      with the CONFIG answer of the humidity conversion. */
  lemma TempPartWorks(t: Transport)
    requires HumidityChipWorks(t)
    ensures ExpectTemp(Pending(t).(bytes := t.bytes[1..]))
         == Gives(Temperature(t.words[0]), Replies(t.bytes[4 + FirstReady(t.bytes[3..])..], Tail(t.words), Tail(t.acks)))
  {
    var b := t.bytes;
    var m := FirstReady(b[3..]);
    var x := Pending(t).(bytes := b[1..]);
    var a0 := Replies(b[2..], t.words, t.acks);
    assert b[2..][1..] == b[3..] && b[2..][m + 2..] == b[m + 4..];
    assert Head(x.bytes) == ID_VALUE as int && Tail(x.bytes) == b[2..];
    assert ExpectTemp(x) == ExpectConversion(a0, true);
    ConversionWorks(a0, true);
  }

  /** The humidity conversion of a working chip gives a value. */
  lemma HumidityPartWorks(t: Transport)
    requires HumidityChipWorks(t)
    ensures var b := t.bytes;
            ExpectConversion(Replies(b[4 + FirstReady(b[3..])..], Tail(t.words), Tail(t.acks)), false).Gives?
  {
    var b := t.bytes;
    var n := 3 + FirstReady(b[3..]);
    var a1 := Replies(b[n + 1..], Tail(t.words), Tail(t.acks));
    assert b[n + 1..][1..] == b[n + 2..];
    ConversionWorks(a1, false);
  }

  /** The replies of a conversion that works, told from the replies alone:
      the CONFIG answer succeeds, the write is acknowledged, a status answer
      reads as ready, and the data word is read; the conversion then gives
      the decoding of that word, and what is left starts right after the
      ready answer. */
  lemma ConversionWorks(a: Replies, temp: bool)
    requires |a.bytes| >= 1 && a.bytes[0] >= 0 && Ack(a.acks)
    requires FirstReady(a.bytes[1..]) < |a.bytes| - 1 && Head(a.words) >= 0
    ensures ExpectConversion(a, temp)
         == Gives(Decode(Head(a.words), temp), Replies(a.bytes[FirstReady(a.bytes[1..]) + 2..], Tail(a.words), Tail(a.acks)))
  {
    assert Tail(a.bytes) == a.bytes[1..];
    assert a.bytes[1..][FirstReady(a.bytes[1..]) + 1..] == a.bytes[FirstReady(a.bytes[1..]) + 2..];
  }

  /** A concrete busy-wait: one "not ready" answer, then a ready one. */
  lemma WaitSample()
    ensures var w := WaitReady(Transport([1, 0], [], [], []));
            && w.Ready?
            && w.bus.trace == [ReadB(REG_STATUS, 1), ReadB(REG_STATUS, 0)]
  {
    var t := Transport([1, 0], [], [], []);
    var p := IsDataReady(t);
    assert !p.value && p.bus == Transport([0], [], [], [ReadB(REG_STATUS, 1)]);
    assert WaitReady(p.bus) == Ready(IsDataReady(p.bus).bus);
  }
}
