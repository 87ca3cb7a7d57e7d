/** The three-wire, 16-bit SPI writer of mi_gpio_spi.c: pin changes out, and a receiver that reads them back. */
module GpioSpi {

  datatype Pin = Cs | Sclk | Sdi

  /** One GPIO write. */
  datatype Change = Change(pin: Pin, level: bool)

  // ----- a receiver

  /** What one chip-select window held: the last 16 bits shifted in, and how many there were. */
  datatype Latched = Latched(word: bv16, bits: nat)

  /** Pin levels as the receiver sees them, its shift register, the words latched so far, and whether SDI has kept
      still whenever SCLK was high in a window. */
  datatype Receiver = Receiver(cs: bool, sclk: bool, sdi: bool, shift: bv16, bits: nat, words: seq<Latched>,
                               clean: bool)

  /** Shifts SDI in on each rising SCLK edge while CS is low, and latches on the rising edge of CS. */
  function Receive(rx: Receiver, c: Change): Receiver {
    match c.pin
    case Cs =>
      if rx.cs && !c.level then rx.(cs := false, shift := 0, bits := 0)
      else if !rx.cs && c.level then rx.(cs := true, words := rx.words + [Latched(rx.shift, rx.bits)])
      else rx
    case Sclk =>
      if !rx.cs && !rx.sclk && c.level
      then rx.(sclk := true, shift := ShiftIn(rx.shift, rx.sdi), bits := rx.bits + 1)
      else rx.(sclk := c.level)
    case Sdi => rx.(sdi := c.level, clean := rx.clean && (rx.cs || !rx.sclk || rx.sdi == c.level))
  }

  function ReceiveAll(rx: Receiver, trace: seq<Change>): Receiver {
    if |trace| == 0 then rx else Receive(ReceiveAll(rx, trace[..|trace| - 1]), trace[|trace| - 1])
  }

  lemma {:induction false} ReceiveAppend(rx: Receiver, a: seq<Change>, b: seq<Change>)
    ensures ReceiveAll(rx, a + b) == ReceiveAll(ReceiveAll(rx, a), b)
    decreases |b|
  {
    hide Receive;
    if |b| == 0 {
      assert a + b == a;
    } else {
      assert (a + b)[..|a + b| - 1] == a + b[..|b| - 1];
      ReceiveAppend(rx, a, b[..|b| - 1]);
    }
  }

  lemma ReceiveOne(rx: Receiver, c: Change)
    ensures ReceiveAll(rx, [c]) == Receive(rx, c)
  {
    assert [c][..0] == [];
  }

  // ----- what is sent

  predicate BitAt(w: bv16, i: nat)
    requires i < 16
  {
    (w >> i) & 1 == 1
  }

  function BitTrace(level: bool): seq<Change> {
    [Change(Sdi, level)] + [Change(Sclk, true)] + [Change(Sclk, false)] + [Change(Sdi, false)]
  }

  /** The low `cnt` bits of `w`, highest first. */
  function FrameTrace(w: bv16, cnt: nat): seq<Change>
    requires cnt <= 16
  {
    if cnt == 0 then [] else BitTrace(BitAt(w, cnt - 1)) + FrameTrace(w, cnt - 1)
  }

  lemma FrameStep(w: bv16, cnt: nat)
    requires 0 < cnt <= 16
    ensures FrameTrace(w, cnt) == BitTrace(BitAt(w, cnt - 1)) + FrameTrace(w, cnt - 1)
    ensures FrameTrace(w, 0) == []
  {
  }

  const OPEN: seq<Change> := [Change(Sdi, false)] + [Change(Sclk, false)] + [Change(Cs, false)]
  const NEXT: seq<Change> := [Change(Cs, true)] + [Change(Cs, false)]
  const CLOSE: seq<Change> := [Change(Cs, true)] + [Change(Sdi, true)]

  function HighWord(value: bv16): bv16 {
    (0x20 << 8) | ((value >> 8) & 0x00FF)
  }

  function LowWord(value: bv16): bv16 {
    value & 0x00FF
  }

  function DataWord(value: bv16): bv16 {
    (0x40 << 8) | (value & 0xFF)
  }

  function CommandTrace(value: bv16): seq<Change> {
    OPEN + FrameTrace(HighWord(value), 16) + NEXT + FrameTrace(LowWord(value), 16) + CLOSE
  }

  function DataTrace(value: bv16): seq<Change> {
    OPEN + FrameTrace(DataWord(value), 16) + CLOSE
  }

  lemma CommandTraceIs(value: bv16)
    ensures CommandTrace(value) ==
            OPEN + FrameTrace(HighWord(value), 16) + NEXT + FrameTrace(LowWord(value), 16) + CLOSE
  {
  }

  lemma DataTraceIs(value: bv16)
    ensures DataTrace(value) == OPEN + FrameTrace(DataWord(value), 16) + CLOSE
  {
  }

  /** A receiver that is idle after `before` has latched `words` more after `now`, and is idle again. */
  ghost predicate Heard(before: seq<Change>, now: seq<Change>, words: seq<Latched>) {
    forall rx :: Idle(ReceiveAll(rx, before)) ==>
      Idle(ReceiveAll(rx, now)) && AtRest(ReceiveAll(rx, now)) &&
      ReceiveAll(rx, now).words == ReceiveAll(rx, before).words + words
  }

  // ----- the code

  class SpiPort {
    var trace: seq<Change>

    constructor ()
      ensures trace == []
    {
      trace := [];
    }

    method SetCs(level: bool)
      modifies this
      ensures trace == old(trace) + [Change(Cs, level)]
    {
      trace := trace + [Change(Cs, level)];
    }

    method SetSclk(level: bool)
      modifies this
      ensures trace == old(trace) + [Change(Sclk, level)]
    {
      trace := trace + [Change(Sclk, level)];
    }

    method SetSdi(level: bool)
      modifies this
      ensures trace == old(trace) + [Change(Sdi, level)]
    {
      trace := trace + [Change(Sdi, level)];
    }

    /** The bit loop of the 16-bit writers. */
    method WriteFrame(w: bv16)
      modifies this
      ensures trace == old(trace) + FrameTrace(w, 16)
    {
      hide BitAt, FrameTrace;
      FrameStep(w, 16);
      var cnt := 16;
      while cnt > 0
        invariant 0 <= cnt <= 16
        invariant trace + FrameTrace(w, cnt) == old(trace) + FrameTrace(w, 16)
      {
        ghost var before := trace;
        FrameStep(w, cnt);
        SetSdi(BitAt(w, cnt - 1));
        SetSclk(true);
        SetSclk(false);
        SetSdi(false);
        assert trace == before + BitTrace(BitAt(w, cnt - 1));
        cnt := cnt - 1;
      }
    }

    /** `_WriteCmd_16bit`. */
    method WriteCommand(value: bv16)
      modifies this
      ensures trace == old(trace) + CommandTrace(value)
      ensures Heard(old(trace), trace, [Latched(0x2000 | (value >> 8), 16), Latched(value & 0x00FF, 16)])
    {
      hide FrameTrace, HighWord, LowWord, CommandTrace, Heard;
      CommandIsHeard(trace, value);
      CommandTraceIs(value);
      SetSdi(false);
      SetSclk(false);
      SetCs(false);
      WriteFrame(HighWord(value));
      SetCs(true);
      SetCs(false);
      WriteFrame(LowWord(value));
      SetCs(true);
      SetSdi(true);
    }

    /** `_WriteDat_16bit`. */
    method WriteData(value: bv16)
      modifies this
      ensures trace == old(trace) + DataTrace(value)
      ensures Heard(old(trace), trace, [Latched(0x4000 | (value & 0x00FF), 16)])
    {
      hide FrameTrace, DataWord, DataTrace, Heard;
      DatumIsHeard(trace, value);
      DataTraceIs(value);
      SetSdi(false);
      SetSclk(false);
      SetCs(false);
      WriteFrame(DataWord(value));
      SetCs(true);
      SetSdi(true);
    }
  }

  // ----- one frame

  lemma ShiftOnce(w: bv16, i: nat)
    requires i < 16
    ensures w >> (i + 1) == (w >> i) >> 1
  {
    if i == 0 {} else if i == 1 {} else if i == 2 {} else if i == 3 {} else if i == 4 {} else if i == 5 {}
    else if i == 6 {} else if i == 7 {} else if i == 8 {} else if i == 9 {} else if i == 10 {} else if i == 11 {}
    else if i == 12 {} else if i == 13 {} else if i == 14 {} else {}
  }

  /** The bits of `w` from bit `cnt` up. */
  function Above(w: bv16, cnt: nat): bv16
    requires cnt <= 16
  {
    w >> cnt
  }

  function ShiftIn(x: bv16, level: bool): bv16 {
    (x << 1) | (if level then 1 else 0)
  }

  lemma Rejoin(x: bv16, half: bv16, low: bool)
    requires half == x >> 1 && low == (x & 1 == 1)
    ensures ShiftIn(half, low) == x
  {
  }

  lemma AboveStep(w: bv16, i: nat)
    requires i < 16
    ensures ShiftIn(Above(w, i + 1), BitAt(w, i)) == Above(w, i)
  {
    hide ShiftIn;
    ShiftOnce(w, i);
    Rejoin(w >> i, w >> (i + 1), BitAt(w, i));
  }

  lemma AboveEnds(w: bv16)
    ensures Above(w, 16) == 0 && Above(w, 0) == w
  {
  }

  /** In an open window with the clock low, one bit is shifted in. */
  lemma BitIn(rx: Receiver, level: bool)
    requires !rx.cs && !rx.sclk
    ensures ReceiveAll(rx, BitTrace(level)) ==
              rx.(sdi := false, shift := ShiftIn(rx.shift, level), bits := rx.bits + 1)
  {
    hide ShiftIn;
    var a, b, c, d := Change(Sdi, level), Change(Sclk, true), Change(Sclk, false), Change(Sdi, false);
    ReceiveAppend(rx, [a] + [b] + [c], [d]);
    ReceiveAppend(rx, [a] + [b], [c]);
    ReceiveAppend(rx, [a], [b]);
    ReceiveOne(rx, a);
    ReceiveOne(ReceiveAll(rx, [a]), b);
    ReceiveOne(ReceiveAll(rx, [a] + [b]), c);
    ReceiveOne(ReceiveAll(rx, [a] + [b] + [c]), d);
  }

  /** A receiver that holds the bits above `cnt` holds the whole word after the remaining ones. */
  lemma {:induction false} FrameIn(rx: Receiver, w: bv16, cnt: nat)
    requires cnt <= 16 && !rx.cs && !rx.sclk && rx.shift == Above(w, cnt)
    ensures var after := ReceiveAll(rx, FrameTrace(w, cnt));
            after == rx.(sdi := after.sdi, shift := w, bits := rx.bits + cnt)
    decreases cnt
  {
    hide BitTrace, Receive, ReceiveAll, Above, ShiftIn, BitAt;
    AboveEnds(w);
    if cnt == 0 {
      NothingIn(rx);
    } else {
      BitIn(rx, BitAt(w, cnt - 1));
      AboveStep(w, cnt - 1);
      FrameIn(ReceiveAll(rx, BitTrace(BitAt(w, cnt - 1))), w, cnt - 1);
      ReceiveAppend(rx, BitTrace(BitAt(w, cnt - 1)), FrameTrace(w, cnt - 1));
    }
  }

  lemma NothingIn(rx: Receiver)
    ensures ReceiveAll(rx, []) == rx
  {
  }

  /** Between writes chip select is high. */
  predicate Idle(rx: Receiver) {
    rx.cs && rx.clean
  }

  /** How a write leaves the other two pins. */
  predicate AtRest(rx: Receiver) {
    !rx.sclk && rx.sdi
  }

  predicate Opened(rx: Receiver) {
    !rx.cs && !rx.sclk && rx.clean && rx.shift == 0 && rx.bits == 0
  }

  lemma OpenIn(rx: Receiver)
    requires Idle(rx)
    ensures var after := ReceiveAll(rx, OPEN);
            Opened(after) && after.words == rx.words
  {
    ReceiveAppend(rx, [Change(Sdi, false)] + [Change(Sclk, false)], [Change(Cs, false)]);
    ReceiveAppend(rx, [Change(Sdi, false)], [Change(Sclk, false)]);
    ReceiveOne(rx, Change(Sdi, false));
    ReceiveOne(ReceiveAll(rx, [Change(Sdi, false)]), Change(Sclk, false));
    ReceiveOne(ReceiveAll(rx, [Change(Sdi, false)] + [Change(Sclk, false)]), Change(Cs, false));
  }

  /** A whole word goes into an opened window. */
  lemma WordIn(rx: Receiver, w: bv16)
    requires Opened(rx)
    ensures var after := ReceiveAll(rx, FrameTrace(w, 16));
            !after.cs && !after.sclk && after.clean && after.shift == w && after.bits == 16 && after.words == rx.words
  {
    hide ReceiveAll, FrameTrace, Above;
    AboveEnds(w);
    FrameIn(rx, w, 16);
  }

  lemma NextIn(rx: Receiver)
    requires !rx.cs && !rx.sclk && rx.clean
    ensures var after := ReceiveAll(rx, NEXT);
            Opened(after) && after.words == rx.words + [Latched(rx.shift, rx.bits)]
  {
    ReceiveAppend(rx, [Change(Cs, true)], [Change(Cs, false)]);
    ReceiveOne(rx, Change(Cs, true));
    ReceiveOne(ReceiveAll(rx, [Change(Cs, true)]), Change(Cs, false));
  }

  lemma CloseIn(rx: Receiver)
    requires !rx.cs && !rx.sclk && rx.clean
    ensures var after := ReceiveAll(rx, CLOSE);
            Idle(after) && AtRest(after) && after.words == rx.words + [Latched(rx.shift, rx.bits)]
  {
    ReceiveAppend(rx, [Change(Cs, true)], [Change(Sdi, true)]);
    ReceiveOne(rx, Change(Cs, true));
    ReceiveOne(ReceiveAll(rx, [Change(Cs, true)]), Change(Sdi, true));
  }

  // ----- one write

  lemma CommandIn(rx: Receiver, value: bv16)
    requires Idle(rx)
    ensures var after := ReceiveAll(rx, CommandTrace(value));
            Idle(after) && AtRest(after) &&
            after.words == rx.words + [Latched(HighWord(value), 16), Latched(LowWord(value), 16)]
  {
    hide ReceiveAll, FrameTrace, HighWord, LowWord;
    var h, l := FrameTrace(HighWord(value), 16), FrameTrace(LowWord(value), 16);
    ReceiveAppend(rx, OPEN + h + NEXT + l, CLOSE);
    ReceiveAppend(rx, OPEN + h + NEXT, l);
    ReceiveAppend(rx, OPEN + h, NEXT);
    ReceiveAppend(rx, OPEN, h);
    OpenIn(rx);
    WordIn(ReceiveAll(rx, OPEN), HighWord(value));
    NextIn(ReceiveAll(rx, OPEN + h));
    WordIn(ReceiveAll(rx, OPEN + h + NEXT), LowWord(value));
    CloseIn(ReceiveAll(rx, OPEN + h + NEXT + l));
  }

  lemma DataIn(rx: Receiver, value: bv16)
    requires Idle(rx)
    ensures var after := ReceiveAll(rx, DataTrace(value));
            Idle(after) && AtRest(after) && after.words == rx.words + [Latched(DataWord(value), 16)]
  {
    hide ReceiveAll, FrameTrace, DataWord;
    var d := FrameTrace(DataWord(value), 16);
    ReceiveAppend(rx, OPEN + d, CLOSE);
    ReceiveAppend(rx, OPEN, d);
    OpenIn(rx);
    WordIn(ReceiveAll(rx, OPEN), DataWord(value));
    CloseIn(ReceiveAll(rx, OPEN + d));
  }

  lemma CommandIsHeard(before: seq<Change>, value: bv16)
    ensures Heard(before, before + CommandTrace(value),
                  [Latched(0x2000 | (value >> 8), 16), Latched(value & 0x00FF, 16)])
  {
    hide ReceiveAll, CommandTrace, HighWord, LowWord, WordsOf;
    WordsAre(Command(value));
    forall rx | Idle(ReceiveAll(rx, before))
      ensures var now := ReceiveAll(rx, before + CommandTrace(value));
              Idle(now) && AtRest(now) && now.words == ReceiveAll(rx, before).words + WordsOf(Command(value))
    {
      ReceiveAppend(rx, before, CommandTrace(value));
      CommandIn(ReceiveAll(rx, before), value);
    }
    WordsInFull(value);
  }

  lemma WordsInFull(value: bv16)
    ensures WordsOf(Command(value)) == [Latched(0x2000 | (value >> 8), 16), Latched(value & 0x00FF, 16)]
    ensures WordsOf(Data(value)) == [Latched(0x4000 | (value & 0x00FF), 16)]
  {
  }

  lemma DatumIsHeard(before: seq<Change>, value: bv16)
    ensures Heard(before, before + DataTrace(value), [Latched(0x4000 | (value & 0x00FF), 16)])
  {
    hide ReceiveAll, DataTrace, DataWord, WordsOf;
    WordsAre(Data(value));
    forall rx | Idle(ReceiveAll(rx, before))
      ensures var now := ReceiveAll(rx, before + DataTrace(value));
              Idle(now) && AtRest(now) && now.words == ReceiveAll(rx, before).words + WordsOf(Data(value))
    {
      ReceiveAppend(rx, before, DataTrace(value));
      DataIn(ReceiveAll(rx, before), value);
    }
    WordsInFull(value);
  }

  // ----- any sequence of writes

  datatype Write = Command(value: bv16) | Data(value: bv16)

  function TraceOf(write: Write): seq<Change> {
    match write
    case Command(value) => CommandTrace(value)
    case Data(value) => DataTrace(value)
  }

  function Trace(writes: seq<Write>): seq<Change> {
    if |writes| == 0 then [] else Trace(writes[..|writes| - 1]) + TraceOf(writes[|writes| - 1])
  }

  /** What a listener should see of a write: 0x20 over the high byte and 0 over the low one, or 0x40 over the datum. */
  function WordsOf(write: Write): seq<Latched> {
    match write
    case Command(value) => [Latched(0x2000 | (value >> 8), 16), Latched(value & 0x00FF, 16)]
    case Data(value) => [Latched(0x4000 | (value & 0x00FF), 16)]
  }

  /** And what it does see. */
  lemma WordsAre(write: Write)
    ensures WordsOf(write) == match write
                              case Command(value) => [Latched(HighWord(value), 16), Latched(LowWord(value), 16)]
                              case Data(value) => [Latched(DataWord(value), 16)]
  {
  }

  function Words(writes: seq<Write>): seq<Latched> {
    if |writes| == 0 then [] else Words(writes[..|writes| - 1]) + WordsOf(writes[|writes| - 1])
  }

  /** The receiver recovers exactly the words of every write, each in a window of exactly 16 clock edges, SDI never
      moves while SCLK is high in a window, and a write leaves chip select and SDI high and the clock low. */
  lemma {:induction false} ReceivedWords(rx: Receiver, writes: seq<Write>)
    requires Idle(rx)
    ensures var after := ReceiveAll(rx, Trace(writes));
            Idle(after) && after.words == rx.words + Words(writes) && (|writes| > 0 ==> AtRest(after))
  {
    hide ReceiveAll, CommandTrace, DataTrace, HighWord, LowWord, DataWord, WordsOf;
    if |writes| == 0 {
      NothingIn(rx);
    } else {
      var front, last := writes[..|writes| - 1], writes[|writes| - 1];
      ReceivedWords(rx, front);
      ReceiveAppend(rx, Trace(front), TraceOf(last));
      var middle := ReceiveAll(rx, Trace(front));
      WordsAre(last);
      match last
      case Command(value) => CommandIn(middle, value);
      case Data(value) => DataIn(middle, value);
    }
  }

  // ----- back to the writes

  predicate IsData(w: bv16) {
    w & 0xFF00 == 0x4000
  }

  function LowByte(w: bv16): bv16 {
    w & 0xFF
  }

  function Join(high: bv16, low: bv16): bv16 {
    (high << 8) | low
  }

  /** Reads the words back from the end: what is not tagged as data is the low word of a command. */
  function Decode(words: seq<Latched>): seq<Write> {
    if |words| == 0 then []
    else
      var last := words[|words| - 1].word;
      if IsData(last) then Decode(words[..|words| - 1]) + [Data(LowByte(last))]
      else if |words| == 1 then []
      else Decode(words[..|words| - 2]) + [Command(Join(words[|words| - 2].word, last))]
  }

  /** A datum carries its low byte only. */
  function Carried(writes: seq<Write>): seq<Write> {
    if |writes| == 0 then []
    else
      Carried(writes[..|writes| - 1]) +
      match writes[|writes| - 1]
      case Command(value) => [Command(value)]
      case Data(value) => [Data(LowByte(value))]
  }

  lemma TaggedWords(value: bv16)
    ensures !IsData(LowWord(value)) && Join(HighWord(value), LowWord(value)) == value
    ensures IsData(DataWord(value)) && LowByte(DataWord(value)) == LowByte(value)
  {
  }

  /** From the words a listener gets back every command whole and every datum's low byte, in order. */
  lemma {:induction false} WordsDecode(writes: seq<Write>)
    ensures Decode(Words(writes)) == Carried(writes)
  {
    hide HighWord, LowWord, DataWord, IsData, LowByte, Join, WordsOf;
    if |writes| > 0 {
      var front, last := writes[..|writes| - 1], writes[|writes| - 1];
      WordsDecode(front);
      TaggedWords(last.value);
      WordsAre(last);
      var all := Words(writes);
      match last
      case Command(_) => assert all[..|all| - 2] == Words(front);
      case Data(_) => assert all[..|all| - 1] == Words(front);
    }
  }
}
