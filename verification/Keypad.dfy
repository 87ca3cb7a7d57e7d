/** The resistor-ladder keypad of mi_sar.c: a debounce and auto-repeat machine polled every 30 ms, on a 32-bit
    millisecond clock. */
module Keypad {
  import opened Bytes

  const SAR_DEFAULT_VALUE: int := 0x3FF
  const KEY_DUMMY: nat := 0xFF
  const INIT_DELAY: nat := 50
  const SECOND_DELAY: nat := 2000
  const FOLLOWING_DELAY: nat := 330

  datatype Level = Level(threshold: nat, code: nat)

  /** `MI_SAR_RegCfg_t`; with no level at all the code reads an uninitialised key. */
  datatype Config = Config(levels: seq<Level>, lo: nat, up: nat) {
    predicate Valid() {
      |levels| > 0
    }
  }

  datatype Property = Init | First | Second | Following

  /** The static variables of the machine. */
  datatype Pad = Pad(property: Property, prevCode: nat, prevTime: nat, repFlag: nat)

  const START: Pad := Pad(Following, KEY_DUMMY, 0, 0)

  /** One poll: what the converter reads, and the true time in milliseconds. */
  datatype Poll = Poll(data: nat, now: nat)

  /** A call of the key callback. */
  datatype Event = Event(key: nat, flag: nat, at: nat)

  datatype Outcome = Outcome(pad: Pad, events: seq<Event>)

  // ----- the clock

  /** `_GetTime0`: milliseconds in 32 bits, never 0. */
  function Clock(t: nat): (c: nat)
    ensures 0 < c < WORD
  {
    if t % WORD == 0 then 1 else t % WORD
  }

  /** Unsigned subtraction. */
  function Since(now: nat, start: nat): (d: nat)
    ensures d < WORD
  {
    (now - start) % WORD
  }

  /** The time the clock shows, without the wrap: the true time, except that it skips every 2^32-th millisecond. */
  function Unwrapped(t: nat): (u: nat)
    ensures t <= u <= t + 1
  {
    if t % WORD == 0 then t + 1 else t
  }

  lemma ClockIsUnwrapped(t: nat)
    ensures Clock(t) == Unwrapped(t) % WORD
    ensures t % 0x1_0000_0000 != 0 ==> Clock(t) == t % 0x1_0000_0000 && Unwrapped(t) == t
    ensures forall s: nat :: s <= t ==> Unwrapped(s) <= Unwrapped(t)
  {
  }

  lemma ModMinus(a: nat, b: nat)
    requires b <= a
    ensures (a % WORD - b % WORD) % WORD == (a - b) % WORD
  {
    assert a == WORD * (a / WORD) + a % WORD && b == WORD * (b / WORD) + b % WORD;
  }

  /** A difference of clock readings is the time that has passed, up to whole wraps, and never exceeds it. */
  lemma SinceIsNoMore(now: nat, start: nat)
    requires start <= now
    ensures Since(Clock(now), Clock(start)) == (Unwrapped(now) - Unwrapped(start)) % 0x1_0000_0000
    ensures Since(Clock(now), Clock(start)) <= Unwrapped(now) - Unwrapped(start)
  {
    ClockIsUnwrapped(now);
    ClockIsUnwrapped(start);
    ModMinus(Unwrapped(now), Unwrapped(start));
  }

  // ----- one poll

  predicate Released(cfg: Config, data: nat) {
    data > SAR_DEFAULT_VALUE - KEY_DUMMY + cfg.up
  }

  predicate InLevel(cfg: Config, i: nat, data: nat)
    requires i < |cfg.levels|
  {
    (cfg.levels[i].threshold + cfg.lo) % WORD <= data <= (cfg.levels[i].threshold + cfg.up) % WORD
  }

  /** The first level the reading falls in. */
  function LevelAt(cfg: Config, data: nat, from: nat): (r: Option<nat>)
    requires from <= |cfg.levels|
    ensures r.Some? ==> from <= r.value < |cfg.levels| && InLevel(cfg, r.value, data)
    ensures r.Some? ==> forall i :: from <= i < r.value ==> !InLevel(cfg, i, data)
    ensures r.None? ==> forall i :: from <= i < |cfg.levels| ==> !InLevel(cfg, i, data)
    decreases |cfg.levels| - from
  {
    if from == |cfg.levels| then None
    else if InLevel(cfg, from, data) then Some(from)
    else LevelAt(cfg, data, from + 1)
  }

  function KeyAt(cfg: Config, data: nat): Option<nat> {
    match LevelAt(cfg, data, 0)
    case Some(i) => Some(cfg.levels[i].code)
    case None => None
  }

  /** The thresholds in numbers: a reading above 768 and the upper margin is a release; any other is the key of the
      first level whose band, from the lower to the upper margin around its threshold, it falls in. */
  lemma ThresholdsAre(cfg: Config, data: nat)
    requires forall i :: 0 <= i < |cfg.levels| ==> cfg.levels[i].threshold + cfg.lo < 0x1_0000_0000
    requires forall i :: 0 <= i < |cfg.levels| ==> cfg.levels[i].threshold + cfg.up < 0x1_0000_0000
    ensures Released(cfg, data) <==> data > 768 + cfg.up
    ensures forall i ::
              0 <= i < |cfg.levels| && InBand(cfg, i, data) && (forall j :: 0 <= j < i ==> !InBand(cfg, j, data)) ==>
                KeyAt(cfg, data) == Some(cfg.levels[i].code)
    ensures KeyAt(cfg, data) == None <==> forall i :: 0 <= i < |cfg.levels| ==> !InBand(cfg, i, data)
  {
    assert forall i :: 0 <= i < |cfg.levels| ==> InLevel(cfg, i, data) == InBand(cfg, i, data);
  }

  predicate InBand(cfg: Config, i: nat, data: nat)
    requires i < |cfg.levels|
  {
    cfg.levels[i].threshold + cfg.lo <= data <= cfg.levels[i].threshold + cfg.up
  }

  /** Releasing a key that was held for a while, but not for long, is what reports it. */
  function Release(s: Pad, now: nat): Outcome {
    Outcome(s.(property := Init, repFlag := 0, prevTime := 0),
            if s.property.Second? then [Event(s.prevCode, s.repFlag, now)] else [])
  }

  function Press(s: Pad, key: nat, now: nat): Outcome {
    var property := if s.prevCode != key then Init else s.property;
    var t := Clock(now);
    var passed := Since(t, s.prevTime);
    match property
    case Init => Outcome(s.(property := First, prevCode := key, prevTime := t), [])
    case First =>
      if passed > INIT_DELAY then Outcome(s.(property := Second, prevTime := t), []) else Outcome(s, [])
    case Second =>
      if passed > SECOND_DELAY
      then Outcome(s.(property := Following, prevTime := t), [Event(key, s.repFlag, now)])
      else Outcome(s, [])
    case Following =>
      if passed > FOLLOWING_DELAY
      then Outcome(s.(prevTime := t, repFlag := 1), [Event(key, 1, now)])
      else Outcome(s, [])
  }

  /** `_Keypad_GetKey` on the state as a value. */
  function Step(cfg: Config, s: Pad, poll: Poll): Outcome {
    if Released(cfg, poll.data) then Release(s, poll.now)
    else
      match KeyAt(cfg, poll.data)
      case None => Outcome(s.(repFlag := 0), [])
      case Some(key) => Press(s, key, poll.now)
  }

  function Run(cfg: Config, s: Pad, polls: seq<Poll>): Outcome {
    if |polls| == 0 then Outcome(s, [])
    else
      var before := Run(cfg, s, polls[..|polls| - 1]);
      var last := Step(cfg, before.pad, polls[|polls| - 1]);
      Outcome(last.pad, before.events + last.events)
  }

  lemma {:induction false} RunAppend(cfg: Config, s: Pad, a: seq<Poll>, b: seq<Poll>)
    ensures Run(cfg, s, a + b) ==
              var first := Run(cfg, s, a);
              var second := Run(cfg, first.pad, b);
              Outcome(second.pad, first.events + second.events)
    decreases |b|
  {
    hide Step;
    if |b| == 0 {
      assert a + b == a;
    } else {
      var front := b[..|b| - 1];
      assert (a + b)[..|a + b| - 1] == a + front;
      RunAppend(cfg, s, a, front);
    }
  }

  // ----- the code

  class KeypadDriver {
    const cfg: Config
    var property: Property
    var prevCode: nat
    var prevTime: nat
    var repFlag: nat

    constructor (config: Config)
      ensures cfg == config && State() == START == Pad(Following, 0xFF, 0, 0)
    {
      cfg := config;
      property, prevCode, prevTime, repFlag := Following, KEY_DUMMY, 0, 0;
    }

    ghost function State(): Pad
      reads this
    {
      Pad(property, prevCode, prevTime, repFlag)
    }

    /** `_Keypad_GetKey`: is one step of the machine, and reports its event. */
    method GetKey(poll: Poll) returns (got: bool, key: nat, flag: nat)
      requires cfg.Valid()
      modifies this
      ensures var r := Step(cfg, old(State()), poll);
              State() == r.pad && r.events == if got then [Event(key, flag, poll.now)] else []
    {
      got, key, flag := false, KEY_DUMMY, 0;
      if poll.data > SAR_DEFAULT_VALUE - KEY_DUMMY + cfg.up {
        if property == Second {
          got, key, flag := true, prevCode, repFlag;
        }
        property, repFlag, prevTime := Init, 0, 0;
        return;
      }
      var i := 0;
      while i < |cfg.levels|
        invariant i <= |cfg.levels| && (!got ==> LevelAt(cfg, poll.data, 0) == LevelAt(cfg, poll.data, i))
        invariant !got
      {
        if (cfg.levels[i].threshold + cfg.lo) % WORD <= poll.data &&
           poll.data <= (cfg.levels[i].threshold + cfg.up) % WORD {
          got, key := true, cfg.levels[i].code;
          break;
        }
        i := i + 1;
      }
      if got {
        if prevCode != key {
          property := Init;
        }
        var curTime := Clock(poll.now);
        if property == Init {
          prevCode, prevTime, property := key, curTime, First;
          got := false;
        } else if property == First {
          if Since(curTime, prevTime) > INIT_DELAY {
            prevTime, property := curTime, Second;
          }
          got := false;
        } else if property == Second {
          if Since(curTime, prevTime) > SECOND_DELAY {
            prevTime, property := curTime, Following;
          } else {
            got := false;
          }
        } else {
          if Since(curTime, prevTime) > FOLLOWING_DELAY {
            prevTime, repFlag := curTime, 1;
          } else {
            got := false;
          }
        }
      } else {
        repFlag := 0;
      }
      flag := repFlag;
    }
  }

  // ----- a hold: readings of one key, possibly with readings between the levels, and no release

  predicate Matched(cfg: Config, poll: Poll) {
    !Released(cfg, poll.data) && KeyAt(cfg, poll.data).Some?
  }

  predicate Holds(cfg: Config, polls: seq<Poll>, key: nat) {
    forall i :: 0 <= i < |polls| ==>
      !Released(cfg, polls[i].data) && (KeyAt(cfg, polls[i].data).None? || KeyAt(cfg, polls[i].data) == Some(key))
  }

  /** No reading between the levels. */
  predicate Steady(cfg: Config, polls: seq<Poll>) {
    forall i :: 0 <= i < |polls| ==> Matched(cfg, polls[i])
  }

  /** A state in which a reading of `key` begins a new hold. */
  predicate Fresh(s: Pad, key: nat) {
    s.property.Init? || s.prevCode != key
  }

  /** The repeat flag a hold starts with lives until the first reading between the levels. */
  predicate Carried(flag: nat, s0: Pad, steady: bool) {
    flag == s0.repFlag || (flag == 0 && !steady)
  }

  /** Nothing yet, or one first event and then repeats, all of this key. */
  predicate HoldEvents(events: seq<Event>, key: nat, s0: Pad, steady: bool) {
    |events| > 0 ==>
      events[0].key == key && Carried(events[0].flag, s0, steady) &&
      forall j :: 1 <= j < |events| ==> events[j].key == key && events[j].flag == 1
  }

  predicate HoldState(s: Pad, events: seq<Event>, key: nat, s0: Pad, steady: bool) {
    HoldEvents(events, key, s0, steady) &&
    (|events| == 0 ==> s.repFlag == if steady then s0.repFlag else 0) &&
    if s.prevCode == key && !s.property.Init? then s.property.Following? <==> |events| > 0 else |events| == 0
  }

  lemma HoldStep(cfg: Config, s0: Pad, s: Pad, events: seq<Event>, poll: Poll, key: nat, steady: bool)
    requires Holds(cfg, [poll], key) && HoldState(s, events, key, s0, steady)
    ensures var r := Step(cfg, s, poll);
            HoldState(r.pad, events + r.events, key, s0, steady && Matched(cfg, poll))
  {
    assert [poll][0] == poll;
  }

  lemma {:induction false} HoldKeepsState(cfg: Config, s0: Pad, polls: seq<Poll>, key: nat)
    requires Holds(cfg, polls, key) && Fresh(s0, key)
    ensures var r := Run(cfg, s0, polls);
            HoldState(r.pad, r.events, key, s0, Steady(cfg, polls))
  {
    hide Step, KeyAt, Released, Matched;
    if |polls| > 0 {
      var front, last := polls[..|polls| - 1], polls[|polls| - 1];
      HoldKeepsState(cfg, s0, front, key);
      var before := Run(cfg, s0, front);
      HoldStep(cfg, s0, before.pad, before.events, last, key, Steady(cfg, front));
      assert polls == front + [last];
      assert Steady(cfg, polls) == (Steady(cfg, front) && Matched(cfg, last));
    }
  }

  /** Every hold, after any run: its events are none, or one first event followed by repeats only, all with the key
      held; and the first event is marked as a repeat only if the hold began, without a release, while the flag was
      still set by another key. */
  lemma HoldReports(cfg: Config, s0: Pad, polls: seq<Poll>, key: nat)
    requires Holds(cfg, polls, key) && Fresh(s0, key)
    ensures HoldEvents(Run(cfg, s0, polls).events, key, s0, Steady(cfg, polls))
  {
    HoldKeepsState(cfg, s0, polls, key);
  }

  /** A hold that starts after a release: nothing, or one event with flag 0 and then only flag-1 repeats. */
  lemma HoldAfterRelease(cfg: Config, s: Pad, before: seq<Poll>, release: Poll, polls: seq<Poll>, key: nat)
    requires Released(cfg, release.data) && Holds(cfg, polls, key)
    ensures var r, all := Run(cfg, s, before + [release]), Run(cfg, s, before + [release] + polls);
            r.events <= all.events &&
            var events := all.events[|r.events|..];
            |events| > 0 ==>
              events[0].flag == 0 && events[0].key == key &&
              forall j :: 1 <= j < |events| ==> events[j].key == key && events[j].flag == 1
  {
    RunAppend(cfg, s, before, [release]);
    RunAppend(cfg, s, before + [release], polls);
    assert [release][..0] == [];
    var s0 := Run(cfg, s, before + [release]).pad;
    assert s0.property == Init && s0.repFlag == 0;
    HoldReports(cfg, s0, polls, key);
    var r := Run(cfg, s, before + [release]);
    assert Run(cfg, s, before + [release] + polls).events[|r.events|..] == Run(cfg, s0, polls).events;
  }

  // ----- which holds are reported

  /** The reading that begins the hold. */
  function FirstAt(cfg: Config, polls: seq<Poll>): (r: Option<nat>)
    ensures r.Some? ==> r.value < |polls| && Matched(cfg, polls[r.value])
    ensures r.Some? ==> forall i :: 0 <= i < r.value ==> !Matched(cfg, polls[i])
    ensures r.None? ==> forall i :: 0 <= i < |polls| ==> !Matched(cfg, polls[i])
  {
    if |polls| == 0 then None
    else
      match FirstAt(cfg, polls[..|polls| - 1])
      case Some(i) => Some(i)
      case None => if Matched(cfg, polls[|polls| - 1]) then Some(|polls| - 1) else None
  }

  /** By the clock, the hold is seen to last longer than the first delay. */
  ghost predicate Long(cfg: Config, polls: seq<Poll>) {
    FirstAt(cfg, polls).Some? &&
    exists j :: FirstAt(cfg, polls).value <= j < |polls| && Matched(cfg, polls[j]) &&
                Since(Clock(polls[j].now), Clock(polls[FirstAt(cfg, polls).value].now)) > INIT_DELAY
  }

  ghost predicate LengthState(cfg: Config, s0: Pad, polls: seq<Poll>, key: nat, s: Pad) {
    match FirstAt(cfg, polls)
    case None => s.property == s0.property && s.prevCode == s0.prevCode
    case Some(f) =>
      s.prevCode == key && !s.property.Init? && (s.property.First? <==> !Long(cfg, polls)) &&
      (s.property.First? ==> s.prevTime == Clock(polls[f].now))
  }

  lemma LongGrows(cfg: Config, front: seq<Poll>, last: Poll)
    ensures FirstAt(cfg, front).Some? ==> FirstAt(cfg, front + [last]) == FirstAt(cfg, front)
    ensures FirstAt(cfg, front).None? ==>
              FirstAt(cfg, front + [last]) == (if Matched(cfg, last) then Some(|front|) else None) &&
              !Long(cfg, front + [last])
    ensures FirstAt(cfg, front).Some? ==>
              (Long(cfg, front + [last]) <==>
               Long(cfg, front) ||
               (Matched(cfg, last) && Since(Clock(last.now), Clock(front[FirstAt(cfg, front).value].now)) > INIT_DELAY))
  {
    hide Matched, Clock, Since;
    var all := front + [last];
    assert all[..|all| - 1] == front;
    if FirstAt(cfg, front).Some? {
      var f := FirstAt(cfg, front).value;
      assert all[f] == front[f] && all[|front|] == last;
      assert FirstAt(cfg, all) == Some(f);
      if Long(cfg, front) {
        var j :| f <= j < |front| && Matched(cfg, front[j]) &&
                 Since(Clock(front[j].now), Clock(front[f].now)) > INIT_DELAY;
        assert Matched(cfg, all[j]) && Since(Clock(all[j].now), Clock(all[f].now)) > INIT_DELAY;
      }
      if Long(cfg, all) {
        var j :| f <= j < |all| && Matched(cfg, all[j]) && Since(Clock(all[j].now), Clock(all[f].now)) > INIT_DELAY;
        if j < |front| {
          assert Matched(cfg, front[j]) && Since(Clock(front[j].now), Clock(front[f].now)) > INIT_DELAY;
        }
      }
      if Matched(cfg, last) && Since(Clock(last.now), Clock(front[f].now)) > INIT_DELAY {
        assert Matched(cfg, all[|front|]) && Since(Clock(all[|front|].now), Clock(all[f].now)) > INIT_DELAY;
      }
    } else {
      ShortAtFirst(last.now);
      assert all[|front|] == last;
    }
  }

  lemma {:induction false} HoldKeepsLength(cfg: Config, s0: Pad, polls: seq<Poll>, key: nat)
    requires Holds(cfg, polls, key) && Fresh(s0, key)
    ensures LengthState(cfg, s0, polls, key, Run(cfg, s0, polls).pad)
  {
    hide Clock, Since, Long, KeyAt, Released;
    if |polls| > 0 {
      var front, last := polls[..|polls| - 1], polls[|polls| - 1];
      HoldKeepsLength(cfg, s0, front, key);
      assert polls == front + [last];
      LongGrows(cfg, front, last);
      LengthStep(cfg, s0, front, last, key, Run(cfg, s0, front).pad);
    }
  }

  lemma LengthStep(cfg: Config, s0: Pad, front: seq<Poll>, last: Poll, key: nat, s: Pad)
    requires Holds(cfg, [last], key) && Fresh(s0, key) && LengthState(cfg, s0, front, key, s)
    ensures LengthState(cfg, s0, front + [last], key, Step(cfg, s, last).pad)
  {
    hide Clock, Long, FirstAt;
    assert [last][0] == last;
    LongGrows(cfg, front, last);
    ShortAtFirst(last.now);
    if FirstAt(cfg, front).Some? {
      assert (front + [last])[FirstAt(cfg, front).value] == front[FirstAt(cfg, front).value];
    } else {
      assert (front + [last])[|front|] == last;
    }
  }

  lemma ShortAtFirst(t: nat)
    ensures Since(Clock(t), Clock(t)) == 0
  {
  }

  /** A hold between two releases is reported exactly when it is seen to last longer than the first delay, and then
      with exactly one flag-0 event. */
  lemma HoldIsReportedIff(cfg: Config, s0: Pad, polls: seq<Poll>, release: Poll, key: nat)
    requires s0.property.Init? && s0.repFlag == 0
    requires Holds(cfg, polls, key) && Released(cfg, release.data)
    ensures var events := Run(cfg, s0, polls + [release]).events;
            (|events| > 0 <==> Long(cfg, polls)) &&
            (|events| > 0 ==>
              events[0].flag == 0 && events[0].key == key &&
              forall j :: 1 <= j < |events| ==> events[j].key == key && events[j].flag == 1)
  {
    hide Long, Since, Clock;
    HoldKeepsState(cfg, s0, polls, key);
    HoldKeepsLength(cfg, s0, polls, key);
    RunAppend(cfg, s0, polls, [release]);
    assert [release][..0] == [] && [release][0] == release;
    assert FirstAt(cfg, polls).None? ==> !Long(cfg, polls) by {
      NotLong(cfg, polls);
    }
  }

  lemma NotLong(cfg: Config, polls: seq<Poll>)
    ensures FirstAt(cfg, polls).None? ==> !Long(cfg, polls)
  {
  }

  // ----- when exactly a hold reports

  /** The first reading of the hold that comes more than 50 ms after the one that began it. */
  function LongAt(cfg: Config, polls: seq<Poll>): (r: Option<nat>)
    ensures r.Some? ==> FirstAt(cfg, polls).Some? && FirstAt(cfg, polls).value < r.value < |polls|
    ensures r.Some? ==> IsLong(cfg, polls, FirstAt(cfg, polls).value, r.value)
    ensures FirstAt(cfg, polls).Some? ==>
              forall j :: FirstAt(cfg, polls).value <= j < (if r.Some? then r.value else |polls|) ==>
                !IsLong(cfg, polls, FirstAt(cfg, polls).value, j)
  {
    if |polls| == 0 then None
    else
      var front, last := polls[..|polls| - 1], |polls| - 1;
      FirstStays(cfg, polls);
      match LongAt(cfg, front)
      case Some(j) => Some(j)
      case None =>
        if FirstAt(cfg, front).Some? && IsLong(cfg, polls, FirstAt(cfg, front).value, last) then Some(last) else None
  }

  predicate IsLong(cfg: Config, polls: seq<Poll>, f: nat, j: nat)
    requires f < |polls| && j < |polls|
  {
    Matched(cfg, polls[j]) && Since(Clock(polls[j].now), Clock(polls[f].now)) > 50
  }

  lemma FirstStays(cfg: Config, polls: seq<Poll>)
    requires |polls| > 0
    ensures var front := polls[..|polls| - 1];
            FirstAt(cfg, polls) ==
              if FirstAt(cfg, front).Some? then FirstAt(cfg, front)
              else if Matched(cfg, polls[|polls| - 1]) then Some(|polls| - 1) else None
    ensures forall f: nat, j: nat :: f < |polls| - 1 && j < |polls| - 1 ==>
              IsLong(cfg, polls, f, j) == IsLong(cfg, polls[..|polls| - 1], f, j)
    ensures forall j: nat :: j < |polls| ==> !IsLong(cfg, polls, j, j)
  {
    forall j: nat | j < |polls|
      ensures !IsLong(cfg, polls, j, j)
    {
      ShortAtFirst(polls[j].now);
    }
  }

  /** Where the machine stands in a hold, read off the polls and the events so far. */
  ghost predicate HoldStands(cfg: Config, polls: seq<Poll>, key: nat, s: Pad, events: seq<Event>) {
    if FirstAt(cfg, polls).None? then events == [] && Fresh(s, key)
    else
      s.prevCode == key &&
      if |events| > 0 then s.property == Following && s.prevTime == Clock(events[|events| - 1].at)
      else if LongAt(cfg, polls).Some?
      then s.property == Second && s.prevTime == Clock(polls[LongAt(cfg, polls).value].now)
      else s.property == First && s.prevTime == Clock(polls[FirstAt(cfg, polls).value].now)
  }

  /** What the next poll of the hold adds. */
  ghost predicate NextEvent(cfg: Config, polls: seq<Poll>, poll: Poll, key: nat, flag: nat, was: seq<Event>,
                            now: seq<Event>) {
    if !Matched(cfg, poll) || FirstAt(cfg, polls).None? then now == was
    else if |was| > 0 then
      now == was + if Since(Clock(poll.now), Clock(was[|was| - 1].at)) > 330 then [Event(key, 1, poll.now)] else []
    else
      now == if LongAt(cfg, polls).Some? &&
                Since(Clock(poll.now), Clock(polls[LongAt(cfg, polls).value].now)) > 2000
             then [Event(key, flag, poll.now)] else []
  }

  lemma StandsOn(cfg: Config, polls: seq<Poll>, poll: Poll, key: nat, s: Pad, events: seq<Event>)
    requires Holds(cfg, [poll], key) && HoldStands(cfg, polls, key, s, events)
    ensures var r := Step(cfg, s, poll);
            HoldStands(cfg, polls + [poll], key, r.pad, events + r.events) &&
            NextEvent(cfg, polls, poll, key, s.repFlag, events, events + r.events)
  {
    hide Clock, Since, KeyAt, Released;
    var all := polls + [poll];
    assert [poll][0] == poll && all[..|all| - 1] == polls && all[|polls|] == poll;
    FirstStays(cfg, all);
    assert events + [] == events && [] + Step(cfg, s, poll).events == Step(cfg, s, poll).events;
    if FirstAt(cfg, polls).Some? {
      var f := FirstAt(cfg, polls).value;
      assert all[f] == polls[f];
      assert IsLong(cfg, all, f, |polls|) <==>
             Matched(cfg, poll) && Since(Clock(poll.now), Clock(polls[f].now)) > 50;
      if LongAt(cfg, polls).Some? {
        assert all[LongAt(cfg, polls).value] == polls[LongAt(cfg, polls).value];
      }
    }
  }

  lemma {:induction false} HoldKeepsStanding(cfg: Config, s0: Pad, polls: seq<Poll>, key: nat)
    requires Holds(cfg, polls, key) && Fresh(s0, key)
    ensures var r := Run(cfg, s0, polls);
            HoldStands(cfg, polls, key, r.pad, r.events)
  {
    hide Step, HoldStands, NextEvent, KeyAt, Released;
    if |polls| == 0 {
      StandsAtFirst(cfg, s0, key);
    } else {
      var front, last := polls[..|polls| - 1], polls[|polls| - 1];
      HoldKeepsStanding(cfg, s0, front, key);
      var r := Run(cfg, s0, front);
      assert polls == front + [last];
      StandsOn(cfg, front, last, key, r.pad, r.events);
    }
  }

  lemma StandsAtFirst(cfg: Config, s0: Pad, key: nat)
    requires Fresh(s0, key)
    ensures HoldStands(cfg, [], key, s0, [])
  {
  }

  /** A hold reports exactly when it should: its first event comes at the first reading of the key more than 2000 ms
      after the first one that came more than 50 ms after the beginning, and a repeat at every reading more than 330 ms
      after the last event, by the clock; no other poll reports anything. */
  lemma NextEventIff(cfg: Config, s0: Pad, polls: seq<Poll>, poll: Poll, key: nat)
    requires Holds(cfg, polls, key) && Fresh(s0, key) && Holds(cfg, [poll], key)
    ensures NextEvent(cfg, polls, poll, key, Run(cfg, s0, polls).pad.repFlag, Run(cfg, s0, polls).events,
                      Run(cfg, s0, polls + [poll]).events)
  {
    hide Step, HoldStands, NextEvent, KeyAt, Released, Run;
    HoldKeepsStanding(cfg, s0, polls, key);
    var r := Run(cfg, s0, polls);
    StandsOn(cfg, polls, poll, key, r.pad, r.events);
    RunSnoc(cfg, s0, polls, poll);
  }

  // ----- how long a hold takes to report

  predicate InTime(polls: seq<Poll>) {
    forall i, j :: 0 <= i < j < |polls| ==> polls[i].now <= polls[j].now
  }

  /** The machine took its time stamp at some moment not before `bound`. */
  ghost predicate Stamped(s: Pad, bound: nat, upto: nat) {
    exists t: nat :: t <= upto && s.prevTime == Clock(t) && Unwrapped(t) >= bound
  }

  /** The clock value the state has had to wait for, when the hold began at `u`. */
  function Waited(s: Pad, u: nat, events: nat): nat {
    match s.property
    case Init => u
    case First => u
    case Second => u + INIT_DELAY + 1
    case Following =>
      u + (INIT_DELAY + 1) + (SECOND_DELAY + 1) + (FOLLOWING_DELAY + 1) * (if events > 0 then events - 1 else 0)
  }

  predicate Spaced(events: seq<Event>, u: nat) {
    (|events| > 0 ==> Unwrapped(events[0].at) >= u + (INIT_DELAY + 1) + (SECOND_DELAY + 1)) &&
    forall i :: 0 < i < |events| ==> Unwrapped(events[i].at) >= Unwrapped(events[i - 1].at) + (FOLLOWING_DELAY + 1)
  }

  ghost predicate TimeState(s: Pad, events: seq<Event>, u: nat, upto: nat) {
    !s.property.Init? && (s.property.Following? <==> |events| > 0) &&
    Spaced(events, u) && Stamped(s, Waited(s, u, |events|), upto) &&
    (|events| > 0 ==> s.prevTime == Clock(events[|events| - 1].at) && events[|events| - 1].at <= upto)
  }

  lemma TimeStep(s: Pad, events: seq<Event>, u: nat, upto: nat, now: nat)
    requires TimeState(s, events, u, upto) && upto <= now
    ensures var r := Press(s, s.prevCode, now);
            TimeState(r.pad, events + r.events, u, now)
  {
    hide Clock, Since, Unwrapped, Spaced;
    var t: nat :| t <= upto && s.prevTime == Clock(t) && Unwrapped(t) >= Waited(s, u, |events|);
    SinceIsNoMore(now, t);
    var r := Press(s, s.prevCode, now);
    if r.pad.prevTime == s.prevTime {
      assert r.pad.prevTime == Clock(t);
    } else {
      assert r.pad.prevTime == Clock(now);
    }
    if |events| > 0 {
      SinceIsNoMore(now, events[|events| - 1].at);
      SpacedGrows(events, u, s.prevCode, 1, now);
    } else {
      SpacedBegins(u, s.prevCode, s.repFlag, now);
    }
    assert events + [] == events && [] + r.events == r.events;
  }

  lemma SpacedGrows(events: seq<Event>, u: nat, key: nat, flag: nat, now: nat)
    requires |events| > 0 && Spaced(events, u)
    ensures Unwrapped(now) >= Unwrapped(events[|events| - 1].at) + (FOLLOWING_DELAY + 1) ==>
              Spaced(events + [Event(key, flag, now)], u)
  {
    hide Unwrapped;
  }

  lemma SpacedBegins(u: nat, key: nat, flag: nat, now: nat)
    ensures Spaced([], u)
    ensures Unwrapped(now) >= u + (INIT_DELAY + 1) + (SECOND_DELAY + 1) ==> Spaced([Event(key, flag, now)], u)
  {
    hide Unwrapped;
  }

  ghost predicate HoldTime(cfg: Config, polls: seq<Poll>, key: nat, r: Outcome) {
    match FirstAt(cfg, polls)
    case None => r.events == [] && Fresh(r.pad, key)
    case Some(f) =>
      r.pad.prevCode == key && TimeState(r.pad, r.events, Unwrapped(polls[f].now), polls[|polls| - 1].now)
  }

  lemma {:induction false} HoldKeepsTime(cfg: Config, s0: Pad, polls: seq<Poll>, key: nat)
    requires Holds(cfg, polls, key) && Fresh(s0, key) && InTime(polls)
    ensures HoldTime(cfg, polls, key, Run(cfg, s0, polls))
  {
    hide Step, HoldTime, KeyAt, Released, Clock, Unwrapped;
    if |polls| == 0 {
      NoTime(cfg, s0, key);
    } else {
      var front, last := polls[..|polls| - 1], polls[|polls| - 1];
      HoldKeepsTime(cfg, s0, front, key);
      assert polls == front + [last];
      HoldTimeStep(cfg, front, last, key, Run(cfg, s0, front));
    }
  }

  lemma NoTime(cfg: Config, s0: Pad, key: nat)
    requires Fresh(s0, key)
    ensures HoldTime(cfg, [], key, Outcome(s0, []))
  {
  }

  lemma HoldTimeStep(cfg: Config, front: seq<Poll>, last: Poll, key: nat, r: Outcome)
    requires Holds(cfg, [last], key) && InTime(front + [last]) && HoldTime(cfg, front, key, r)
    ensures var e := Step(cfg, r.pad, last);
            HoldTime(cfg, front + [last], key, Outcome(e.pad, r.events + e.events))
  {
    hide Clock, Unwrapped, FirstAt, Since, Long, Spaced;
    var all := front + [last];
    assert [last][0] == last && all[|all| - 1] == last;
    LongGrows(cfg, front, last);
    if FirstAt(cfg, front).Some? {
      var f := FirstAt(cfg, front).value;
      assert all[f] == front[f] && all[|front| - 1] == front[|front| - 1];
      var u, upto := Unwrapped(front[f].now), front[|front| - 1].now;
      if Matched(cfg, last) {
        TimeStep(r.pad, r.events, u, upto, last.now);
      } else {
        TimeIdles(r.pad, r.events, u, upto, last.now);
        assert r.events + [] == r.events;
      }
    } else if Matched(cfg, last) {
      TimeBegins(r.pad, key, last.now);
      assert r.events + [] == r.events;
    }
  }

  lemma TimeIdles(s: Pad, events: seq<Event>, u: nat, upto: nat, now: nat)
    requires TimeState(s, events, u, upto) && upto <= now
    ensures TimeState(s.(repFlag := 0), events, u, now)
  {
    hide Clock, Unwrapped, Spaced;
    var t: nat :| t <= upto && s.prevTime == Clock(t) && Unwrapped(t) >= Waited(s, u, |events|);
    assert s.(repFlag := 0).prevTime == Clock(t);
  }

  lemma TimeBegins(s: Pad, key: nat, now: nat)
    requires Fresh(s, key)
    ensures Press(s, key, now).events == [] && Press(s, key, now).pad.prevCode == key
    ensures TimeState(Press(s, key, now).pad, [], Unwrapped(now), now)
  {
    hide Clock, Unwrapped;
    assert Press(s, key, now).pad.prevTime == Clock(now);
  }

  lemma {:induction false} SpacedSum(events: seq<Event>, u: nat, i: nat)
    requires Spaced(events, u) && i < |events|
    ensures Unwrapped(events[i].at) >= u + 2052 + 331 * i
  {
    hide Unwrapped;
    if i > 0 {
      SpacedSum(events, u, i - 1);
    }
  }

  lemma SpacedSums(events: seq<Event>, u: nat)
    requires Spaced(events, u)
    ensures forall i :: 0 <= i < |events| ==> Unwrapped(events[i].at) >= u + 2052 + 331 * i
    ensures forall i :: 0 < i < |events| ==> Unwrapped(events[i].at) >= Unwrapped(events[i - 1].at) + 331
  {
    hide Unwrapped;
    forall i | 0 <= i < |events|
      ensures Unwrapped(events[i].at) >= u + 2052 + 331 * i
    {
      SpacedSum(events, u, i);
    }
  }

  /** By the clock, unwrapped, no event comes from a hold shorter than 51 ms, repeats are more than 330 ms apart,
      and `i` repeats take more than 2050 + 330 * i ms, however often the 32-bit clock wraps in between. */
  lemma HoldTakesTime(cfg: Config, s0: Pad, polls: seq<Poll>, release: Poll, key: nat)
    requires Holds(cfg, polls, key) && Fresh(s0, key) && InTime(polls + [release])
    requires s0.property.Second? ==> FirstAt(cfg, polls).Some?
    requires Released(cfg, release.data)
    ensures var events := Run(cfg, s0, polls + [release]).events;
            |events| > 0 ==>
              FirstAt(cfg, polls).Some? &&
              var u := Unwrapped(polls[FirstAt(cfg, polls).value].now);
              Unwrapped(events[0].at) >= u + 51 &&
              forall i :: 0 < i < |events| ==>
                Unwrapped(events[i].at) >= Unwrapped(events[i - 1].at) + 331 &&
                Unwrapped(events[i].at) >= u + 2052 + 331 * i
  {
    hide Unwrapped, Clock, FirstAt, KeyAt, Spaced, Holds, InTime, Stamped, Waited;
    RunAppend(cfg, s0, polls, [release]);
    assert [release][..0] == [] && [release][0] == release;
    HoldEarlier(polls, release);
    HoldKeepsTime(cfg, s0, polls, key);
    HoldKeepsProperty(cfg, s0, polls, key);
    var r := Run(cfg, s0, polls);
    if FirstAt(cfg, polls).Some? {
      var u := Unwrapped(polls[FirstAt(cfg, polls).value].now);
      SpacedSums(r.events, u);
      if r.pad.property.Second? {
        ReleaseComesLater(r.pad, u, polls[|polls| - 1].now, release.now);
      }
    }
  }

  lemma HoldKeepsProperty(cfg: Config, s0: Pad, polls: seq<Poll>, key: nat)
    requires Holds(cfg, polls, key) && Fresh(s0, key)
    ensures FirstAt(cfg, polls).None? ==> Run(cfg, s0, polls).pad.property == s0.property
  {
    hide Run, Holds;
    HoldKeepsLength(cfg, s0, polls, key);
  }

  lemma HoldEarlier(polls: seq<Poll>, release: Poll)
    requires InTime(polls + [release])
    ensures InTime(polls) && (|polls| > 0 ==> polls[|polls| - 1].now <= release.now)
  {
    var all := polls + [release];
    assert forall i :: 0 <= i < |polls| ==> all[i] == polls[i];
    assert all[|polls|] == release;
  }

  lemma ReleaseComesLater(s: Pad, u: nat, upto: nat, now: nat)
    requires s.property.Second? && Stamped(s, Waited(s, u, 0), upto) && upto <= now
    ensures Unwrapped(now) >= u + 51
  {
    var t: nat :| t <= upto && s.prevTime == Clock(t) && Unwrapped(t) >= u + 51;
    ClockIsUnwrapped(now);
  }

  // ----- changing keys without a release

  /** A hold that follows another key without a release begins with the flag the other key left. The poll that gives
      the first event, a reading of the key or the release, marks it as a first press exactly when that flag was
      clear or a reading between the levels came before. */
  lemma FirstFlagIff(cfg: Config, s0: Pad, polls: seq<Poll>, poll: Poll, key: nat)
    requires Holds(cfg, polls, key) && Fresh(s0, key) && Run(cfg, s0, polls).events == []
    requires Holds(cfg, [poll], key) || (Released(cfg, poll.data) && FirstAt(cfg, polls).Some?)
    ensures var events := Run(cfg, s0, polls + [poll]).events;
            |events| > 0 ==>
              |events| == 1 && events[0].key == key && (events[0].flag == 0 <==> s0.repFlag == 0 || !Steady(cfg, polls))
  {
    hide Run, Clock, Since, Long, FirstAt;
    RunSnoc(cfg, s0, polls, poll);
    HoldKeepsState(cfg, s0, polls, key);
    HoldKeepsLength(cfg, s0, polls, key);
    assert [poll][0] == poll;
  }

  /** And it happens: sliding from a repeating key to another one makes the first event of the second a repeat. */
  lemma KeyChangeCounterexample(cfg: Config, polls: seq<Poll>)
    requires cfg == Config([Level(0, 1), Level(100, 2)], 0, 10)
    requires polls == [Poll(0, 1), Poll(0, 100), Poll(0, 2200), Poll(0, 2600)] +
                      [Poll(100, 2700), Poll(100, 2800), Poll(100, 5000)]
    ensures cfg.Valid() && InTime(polls) && Holds(cfg, polls[..4], 1) && Holds(cfg, polls[4..], 2)
    ensures Run(cfg, START, polls).events == [Event(1, 0, 2200), Event(1, 1, 2600), Event(2, 1, 5000)]
  {
    hide Run, Clock, Since, LevelAt;
    assert KeyAt(cfg, 0) == Some(1) && KeyAt(cfg, 100) == Some(2) by {
      assert InLevel(cfg, 0, 0) && !InLevel(cfg, 0, 100) && InLevel(cfg, 1, 100);
    }
    SmallTimes();
    var a, b, c, d := Poll(0, 1), Poll(0, 100), Poll(0, 2200), Poll(0, 2600);
    var e, f, g := Poll(100, 2700), Poll(100, 2800), Poll(100, 5000);
    RunNothing(cfg, START);
    RunSnoc(cfg, START, [], a);
    RunSnoc(cfg, START, [] + [a], b);
    RunSnoc(cfg, START, [] + [a] + [b], c);
    RunSnoc(cfg, START, [] + [a] + [b] + [c], d);
    RunSnoc(cfg, START, [] + [a] + [b] + [c] + [d], e);
    RunSnoc(cfg, START, [] + [a] + [b] + [c] + [d] + [e], f);
    RunSnoc(cfg, START, [] + [a] + [b] + [c] + [d] + [e] + [f], g);
    assert polls == [] + [a] + [b] + [c] + [d] + [e] + [f] + [g];
  }

  lemma SmallTimes()
    ensures forall t: nat :: 0 < t < 0x1_0000_0000 ==> Clock(t) == t
    ensures forall t: nat, s: nat :: s <= t < 0x1_0000_0000 ==> Since(t, s) == t - s
  {
  }

  lemma RunNothing(cfg: Config, s: Pad)
    ensures Run(cfg, s, []) == Outcome(s, [])
  {
  }

  lemma RunSnoc(cfg: Config, s: Pad, polls: seq<Poll>, poll: Poll)
    ensures var before := Run(cfg, s, polls);
            var last := Step(cfg, before.pad, poll);
            Run(cfg, s, polls + [poll]) == Outcome(last.pad, before.events + last.events)
  {
    assert (polls + [poll])[..|polls|] == polls;
  }
}
