/** A scripted stand-in for the I2C transport the driver talks to.

The driver only ever uses three primitives of the transport: read one byte
register, read one 16-bit register, and write one byte register. Their code is
not part of this model, so the transport is described from the outside: every
primitive takes its answer from a reply stream of its own (consumed in order),
and every access is appended, together with the answer it got, to a trace.
A stream that has run dry answers as a failing bus would: a read returns -1 and
a write is not acknowledged. Any finite run of the driver against any
transport behaviour is therefore described by some choice of the three streams.
 */
module I2c {

  /** The C `int` that the byte and word read primitives return. */
  type Int32 = x: int | -0x8000_0000 <= x < 0x8000_0000

  /** What a read answers once its reply stream is exhausted. */
  const FAILURE: Int32 := -1

  /** One register access, as seen on the bus, with the answer it got. */
  datatype Event =
    | ReadB(reg: bv8, ret: Int32)
    | ReadW(reg: bv8, ret: Int32)
    | WriteB(reg: bv8, value: bv8, ok: bool)

  /** The bus: replies still to be given, and every access made so far. */
  datatype Transport = Transport(
    bytes: seq<Int32>,
    words: seq<Int32>,
    acks: seq<bool>,
    trace: seq<Event>)

  /** A bus handle as the caller passes it in; it may be null. */
  datatype Handle = Null | Bus(t: Transport)

  /** The result of one operation together with the bus after it. */
  datatype Step<+T> = Step(value: T, bus: Transport)

  /** The replies a transport still has to give, without its trace. */
  datatype Replies = Replies(bytes: seq<Int32>, words: seq<Int32>, acks: seq<bool>)

  function Pending(t: Transport): Replies {
    Replies(t.bytes, t.words, t.acks)
  }

  /** The next answer of a read reply stream. */
  function Head(s: seq<Int32>): Int32 {
    if |s| > 0 then s[0] else FAILURE
  }

  /** The next answer of the write reply stream. */
  function Ack(s: seq<bool>): bool {
    |s| > 0 && s[0]
  }

  function Tail<T>(s: seq<T>): seq<T> {
    if |s| > 0 then s[1..] else s
  }

  function NextByte(t: Transport): Int32 {
    Head(t.bytes)
  }

  function NextWord(t: Transport): Int32 {
    Head(t.words)
  }

  function NextAck(t: Transport): bool {
    Ack(t.acks)
  }

  /** The access `e` got the answer that replies `a` give next. */
  predicate Gave(a: Replies, e: Event) {
    match e
    case ReadB(_, ret) => ret == Head(a.bytes)
    case ReadW(_, ret) => ret == Head(a.words)
    case WriteB(_, _, ok) => ok == Ack(a.acks)
  }

  /** The replies `a` after the access `e` took its answer. */
  function Consume(a: Replies, e: Event): Replies {
    match e
    case ReadB(_, _) => a.(bytes := Tail(a.bytes))
    case ReadW(_, _) => a.(words := Tail(a.words))
    case WriteB(_, _, _) => a.(acks := Tail(a.acks))
  }

  /** Replayed from replies `a`, every access of `d` got the next answer of
      its own stream, in order, and `b` is what is left. */
  ghost predicate Answers(a: Replies, d: seq<Event>, b: Replies)
    decreases |d|
  {
    if |d| == 0 then a == b
    else Gave(a, d[0]) && Answers(Consume(a, d[0]), d[1..], b)
  }

  /** `b` is `a` after some further accesses: its trace extends `a`'s, and the
      accesses it adds got exactly the answers `a`'s streams had to give. */
  ghost predicate Follows(a: Transport, b: Transport) {
    && |a.trace| <= |b.trace| && b.trace[..|a.trace|] == a.trace
    && Answers(Pending(a), b.trace[|a.trace|..], Pending(b))
  }

  /** The accesses made between `a` and `b`. */
  function Since(a: Transport, b: Transport): seq<Event>
    requires |a.trace| <= |b.trace|
  {
    b.trace[|a.trace|..]
  }

  lemma {:induction false} AnswersAppend(a: Replies, d1: seq<Event>, m: Replies, d2: seq<Event>, b: Replies)
    requires Answers(a, d1, m) && Answers(m, d2, b)
    ensures Answers(a, d1 + d2, b)
    decreases |d1|
  {
    if |d1| == 0 {
      assert d1 + d2 == d2;
    } else {
      AnswersAppend(Consume(a, d1[0]), d1[1..], m, d2, b);
      assert (d1 + d2)[1..] == d1[1..] + d2;
    }
  }

  lemma FollowsTransitive(a: Transport, b: Transport, c: Transport)
    requires Follows(a, b) && Follows(b, c)
    ensures Follows(a, c)
    ensures Since(a, c) == Since(a, b) + Since(b, c)
  {
    assert c.trace[..|a.trace|] == c.trace[..|b.trace|][..|a.trace|];
    assert Since(a, c) == Since(a, b) + Since(b, c);
    AnswersAppend(Pending(a), Since(a, b), Pending(b), Since(b, c), Pending(c));
  }

  /** One access `e` recorded after `t`, answered from `t`'s replies. */
  lemma AnswersOne(t: Transport, e: Event, u: Transport)
    requires u.trace == t.trace + [e] && Gave(Pending(t), e) && Pending(u) == Consume(Pending(t), e)
    ensures Follows(t, u) && Since(t, u) == [e]
  {
    assert Since(t, u) == [e];
    assert [e][1..] == [];
  }

  /** mgos_i2c_read_reg_b: read one byte register; a negative answer is a failure. */
  function ReadRegB(t: Transport, reg: bv8): (r: Step<Int32>)
    ensures r.value == NextByte(t)
    ensures r.bus.trace == t.trace + [ReadB(reg, r.value)]
    ensures r.bus == t.(bytes := Tail(t.bytes), trace := r.bus.trace)
    ensures Follows(t, r.bus)
  {
    var r := Step(NextByte(t), t.(bytes := Tail(t.bytes), trace := t.trace + [ReadB(reg, NextByte(t))]));
    AnswersOne(t, ReadB(reg, NextByte(t)), r.bus);
    r
  }

  /** mgos_i2c_read_reg_w: read one 16-bit register; a negative answer is a failure. */
  function ReadRegW(t: Transport, reg: bv8): (r: Step<Int32>)
    ensures r.value == NextWord(t)
    ensures r.bus.trace == t.trace + [ReadW(reg, r.value)]
    ensures r.bus == t.(words := Tail(t.words), trace := r.bus.trace)
    ensures Follows(t, r.bus)
  {
    var r := Step(NextWord(t), t.(words := Tail(t.words), trace := t.trace + [ReadW(reg, NextWord(t))]));
    AnswersOne(t, ReadW(reg, NextWord(t)), r.bus);
    r
  }

  /** mgos_i2c_write_reg_b: write one byte register; answers whether it succeeded. */
  function WriteRegB(t: Transport, reg: bv8, value: bv8): (r: Step<bool>)
    ensures r.value == NextAck(t)
    ensures r.bus.trace == t.trace + [WriteB(reg, value, r.value)]
    ensures r.bus == t.(acks := Tail(t.acks), trace := r.bus.trace)
    ensures Follows(t, r.bus)
  {
    var r := Step(NextAck(t), t.(acks := Tail(t.acks), trace := t.trace + [WriteB(reg, value, NextAck(t))]));
    AnswersOne(t, WriteB(reg, value, NextAck(t)), r.bus);
    r
  }
}
