/** The raw NAND access of mi_flash.c: the two copy loops, and the bad-block counter that survives
    between calls as long as the remembered partition name matches. */
module MtdFlash {
  import opened BlockMath
  import opened Bytes
  import opened Nand

  /** Size of the buffer that remembers the partition last written. */
  const NAME_BUFFER := 64

  /** A C string followed by zeros only. */
  ghost predicate ZeroTailed(buf: seq<Byte>) {
    forall k :: CLen(buf) <= k < |buf| ==> buf[k] == NUL
  }

  ghost predicate PartitionName(name: seq<Byte>) {
    |name| < NAME_BUFFER && NUL !in name
  }

  /** `memcpy(_gCurrentPartitionName, name, strlen(name))`: the terminator is not copied. */
  function Remember(buf: seq<Byte>, name: seq<Byte>): (r: seq<Byte>)
    requires |name| <= |buf|
    ensures |r| == |buf|
  {
    Splice(buf, 0, name)
  }

  /** The remembered name compares equal afterwards exactly when the name remembered before was not longer. */
  lemma RememberedIff(buf: seq<Byte>, name: seq<Byte>)
    requires |buf| == NAME_BUFFER && ZeroTailed(buf) && PartitionName(name)
    ensures ZeroTailed(Remember(buf, name))
    ensures CStr(Remember(buf, name)) == name <==> CLen(buf) <= |name|
    ensures CLen(Remember(buf, name)) == if CLen(buf) <= |name| then |name| else CLen(buf)
  {
    var r := Remember(buf, name);
    var n := if CLen(buf) <= |name| then |name| else CLen(buf);
    assert r == name + buf[|name|..];
    forall k | 0 <= k < n
      ensures r[..n][k] != NUL
    {
      if k < |name| {
        assert name[k] in name;
      } else {
        assert buf[k] in buf[..CLen(buf)];
      }
    }
    CLenIs(r, n);
    assert r[..|name|] == name;
  }

  /** The counter a write call starts from. */
  function StartBad(buf: seq<Byte>, bad: nat, name: seq<Byte>, offset: nat): nat {
    if offset == 0 || CStr(buf) != name then 0 else bad
  }

  function NextName(buf: seq<Byte>, name: seq<Byte>, offset: nat): (r: seq<Byte>)
    requires |name| <= |buf|
    ensures |r| == |buf|
  {
    if offset == 0 || CStr(buf) != name then Remember(buf, name) else buf
  }

  /** What one partition and the module state look like to the writer. */
  datatype Writer = Writer(p: Partition, nameBuf: seq<Byte>, bad: nat) {
    ghost predicate Valid() {
      p.Valid() && PartitionName(p.name) && |nameBuf| == NAME_BUFFER && ZeroTailed(nameBuf)
    }

    /** Physical position from which a call at `offset` starts. */
    function StartPos(offset: nat): nat {
      offset + Span(StartBad(nameBuf, bad, p.name, offset), p.eraseSize)
    }
  }

  /** The writer after one call of `mtd_write_data`. */
  function AfterWrite(w: Writer, data: seq<Byte>, offset: nat): (w': Writer)
    requires w.Valid()
    ensures w'.Valid() && w'.p == w.p.(blocks := w'.p.blocks)
  {
    RememberedIff(w.nameBuf, w.p.name);
    var end := Write(w.p, data, w.StartPos(offset));
    Writer(end.p, NextName(w.nameBuf, w.p.name, offset), StartBad(w.nameBuf, w.bad, w.p.name, offset) + end.skipped)
  }

  function WriteAnswer(w: Writer, data: seq<Byte>, offset: nat): WriteResult
    requires w.Valid()
  {
    Write(w.p, data, w.StartPos(offset)).result
  }

  /** A call at `offset` will continue where the previous ones stopped. */
  ghost predicate InStep(w: Writer, offset: nat)
    requires w.Valid()
  {
    Tracks(w.p, offset, w.StartPos(offset))
  }

  lemma StartsInStep(w: Writer)
    requires w.Valid()
    ensures InStep(w, 0)
  {
    FirstBlockAt(w.p.blocks, w.p.bad, w.p.eraseSize, 0);
  }

  /** One call at an offset that is in step overwrites exactly its slice of the logical view, or, when the good
      blocks end before the data does, fills the view and hangs. */
  lemma CallRefinesAppend(w: Writer, data: seq<Byte>, offset: nat)
    requires w.Valid() && InStep(w, offset)
    ensures offset <= |Logical(w.p)|
    ensures WriteAnswer(w, data, offset) ==
              if offset + |data| <= |Logical(w.p)| then Written(|data|) else Stuck
    ensures offset + |data| <= |Logical(w.p)| ==>
              Logical(AfterWrite(w, data, offset).p) == Splice(Logical(w.p), offset, data)
    ensures offset + |data| > |Logical(w.p)| ==>
              Logical(AfterWrite(w, data, offset).p) ==
              Splice(Logical(w.p), offset, data[..|Logical(w.p)| - offset])
  {
    WriteRefinesAppend(w.p, data, offset, w.StartPos(offset));
  }

  /** After a call that fitted, the next offset is in step exactly when the remembered name now compares equal,
      or when no bad block lies before it, so that a counter reset to zero is right as well. */
  lemma NextCallInStepIff(w: Writer, data: seq<Byte>, offset: nat)
    requires w.Valid() && InStep(w, offset) && offset + |data| <= |Logical(w.p)|
    ensures var next := offset + |data|;
            var q, r := BlockOf(next, w.p.eraseSize), InBlock(next, w.p.eraseSize);
            var last := if r == 0 then q else q + 1;
            InStep(AfterWrite(w, data, offset), next) <==>
              CLen(w.nameBuf) <= |w.p.name| || (last <= |w.p.blocks| && true !in w.p.bad[..last])
  {
    hide AfterWrite, Tracks, Write, BlockOf, InBlock, CStr, CLen, View, Logical, NextName;
    var w', next := AfterWrite(w, data, offset), offset + |data|;
    KeptCounterTracks(w, data, offset);
    RememberedAfter(w, offset);
    if next == 0 || CStr(w'.nameBuf) != w.p.name {
      ResetTracksIff(w'.p, next);
      if next == 0 {
        StartsInStep(w');
        PositionOf(0, w.p.eraseSize, 0);
        assert w.p.bad[..0] == [];
      }
    }
  }

  lemma KeptCounterTracks(w: Writer, data: seq<Byte>, offset: nat)
    requires w.Valid() && InStep(w, offset) && offset + |data| <= |Logical(w.p)|
    ensures var w' := AfterWrite(w, data, offset);
            Tracks(w'.p, offset + |data|, offset + |data| + Span(w'.bad, w.p.eraseSize))
    ensures AfterWrite(w, data, offset).nameBuf == NextName(w.nameBuf, w.p.name, offset)
  {
    hide Tracks, Write, NextName, Logical;
    WriteRefinesAppend(w.p, data, offset, w.StartPos(offset));
    SpanAdds(StartBad(w.nameBuf, w.bad, w.p.name, offset), Write(w.p, data, w.StartPos(offset)).skipped, w.p.eraseSize);
  }

  lemma RememberedAfter(w: Writer, offset: nat)
    requires w.Valid()
    ensures CStr(NextName(w.nameBuf, w.p.name, offset)) == w.p.name <==> CLen(w.nameBuf) <= |w.p.name|
  {
    RememberedIff(w.nameBuf, w.p.name);
  }

  function Flatten(chunks: seq<seq<Byte>>): seq<Byte> {
    if |chunks| == 0 then [] else chunks[0] + Flatten(chunks[1..])
  }

  /** Consecutive calls from `offset` on. */
  function AfterStream(w: Writer, chunks: seq<seq<Byte>>, offset: nat): (w': Writer)
    requires w.Valid()
    ensures w'.Valid()
    decreases |chunks|
  {
    if |chunks| == 0 then w
    else AfterStream(AfterWrite(w, chunks[0], offset), chunks[1..], offset + |chunks[0]|)
  }

  /** For every bad-block map, every chunking and every remembered name that is not longer than this one:
      consecutive calls leave the concatenation of the chunks in the good blocks, in order, and keep the rest. */
  lemma {:induction false} StreamRefinesAppend(w: Writer, chunks: seq<seq<Byte>>, offset: nat)
    requires w.Valid() && InStep(w, offset) && CLen(w.nameBuf) <= |w.p.name|
    requires offset + |Flatten(chunks)| <= |Logical(w.p)|
    ensures Logical(AfterStream(w, chunks, offset).p) == Splice(Logical(w.p), offset, Flatten(chunks))
    decreases |chunks|
  {
    hide AfterWrite, AfterStream, InStep, Logical, CLen, Splice;
    if |chunks| == 0 {
      StreamEnd(w, chunks, offset);
    } else {
      StreamStep(w, chunks, offset);
      SpliceTwice(Logical(w.p), offset, chunks[0], Flatten(chunks[1..]));
      StreamRefinesAppend(AfterWrite(w, chunks[0], offset), chunks[1..], offset + |chunks[0]|);
    }
  }

  lemma StreamEnd(w: Writer, chunks: seq<seq<Byte>>, offset: nat)
    requires w.Valid() && |chunks| == 0 && offset <= |Logical(w.p)|
    ensures AfterStream(w, chunks, offset) == w
    ensures Splice(Logical(w.p), offset, Flatten(chunks)) == Logical(w.p)
  {
  }

  lemma StreamStep(w: Writer, chunks: seq<seq<Byte>>, offset: nat)
    requires w.Valid() && InStep(w, offset) && CLen(w.nameBuf) <= |w.p.name| && |chunks| > 0
    requires offset + |chunks[0]| <= |Logical(w.p)|
    ensures var w' := AfterWrite(w, chunks[0], offset);
            AfterStream(w, chunks, offset) == AfterStream(w', chunks[1..], offset + |chunks[0]|) &&
            InStep(w', offset + |chunks[0]|) && CLen(w'.nameBuf) <= |w'.p.name| &&
            Logical(w'.p) == Splice(Logical(w.p), offset, chunks[0])
  {
    hide AfterWrite, InStep, Logical, CLen, Splice;
    CallRefinesAppend(w, chunks[0], offset);
    NextCallInStepIff(w, chunks[0], offset);
    RememberedNoLonger(w, chunks[0], offset);
  }

  lemma RememberedNoLonger(w: Writer, data: seq<Byte>, offset: nat)
    requires w.Valid() && CLen(w.nameBuf) <= |w.p.name|
    ensures CLen(AfterWrite(w, data, offset).nameBuf) <= |w.p.name|
  {
    RememberedIff(w.nameBuf, w.p.name);
  }

  /** A longer name remembered from before breaks the stream: behind a bad block the second call lands on the
      block the first one wrote. */
  lemma LongerNameMisplaces(w: Writer)
    requires w.p == Partition(['k'], 1, [['a'], ['b'], ['c']], [true, false, false])
    requires w.nameBuf == ['e', 'n'] + Zeros(NAME_BUFFER - 2) && w.bad == 0
    ensures w.Valid() && CLen(w.nameBuf) > |w.p.name| && |Logical(w.p)| == 2
    ensures Logical(AfterStream(w, [['1'], ['2']], 0).p) != Splice(Logical(w.p), 0, ['1', '2'])
  {
    hide AfterWrite, AfterStream, Logical, CLen;
    ShortFlash(w);
    var one, two := [['a'], ['1'], ['c']], [['a'], ['2'], ['c']];
    FirstCallMisplaces(w, one);
    var w1 := AfterWrite(w, ['1'], 0);
    SecondCallMisplaces(w1, two);
    var w2 := AfterWrite(w1, ['2'], 1);
    StreamOfTwo(w, [['1'], ['2']], w1, w2);
    FirstOfThree(w.p);
    FirstOfThree(w2.p);
    assert Splice(Logical(w.p), 0, ['1', '2'])[0] == '1';
  }

  lemma ShortFlash(w: Writer)
    requires w.p == Partition(['k'], 1, [['a'], ['b'], ['c']], [true, false, false])
    requires w.nameBuf == ['e', 'n'] + Zeros(NAME_BUFFER - 2)
    ensures w.Valid() && CLen(w.nameBuf) == 2
  {
    CLenIs(w.nameBuf, 2);
  }

  lemma FirstCallMisplaces(w: Writer, after: seq<seq<Byte>>)
    requires w.Valid() && CLen(w.nameBuf) == 2 && w.bad == 0
    requires w.p == Partition(['k'], 1, [['a'], ['b'], ['c']], [true, false, false])
    requires after == [['a'], ['1'], ['c']]
    ensures var w1 := AfterWrite(w, ['1'], 0);
            w1.p == w.p.(blocks := after) && CStr(w1.nameBuf) != w1.p.name
  {
    hide CLen, Write;
    OverwriteSecond(w.p, 0, '1');
    RememberedAfter(w, 0);
  }

  lemma SecondCallMisplaces(w1: Writer, after: seq<seq<Byte>>)
    requires w1.Valid() && CStr(w1.nameBuf) != w1.p.name
    requires w1.p == Partition(['k'], 1, [['a'], ['1'], ['c']], [true, false, false])
    requires after == [['a'], ['2'], ['c']]
    ensures AfterWrite(w1, ['2'], 1).p == w1.p.(blocks := after)
  {
    hide CLen, Write;
    OverwriteSecond(w1.p, 1, '2');
  }

  lemma FirstOfThree(p: Partition)
    requires p.Valid() && p.eraseSize == 1 && |p.blocks| == 3 && p.bad == [true, false, false]
    ensures Logical(p) == [p.blocks[1][0], p.blocks[2][0]]
  {
    var t, tb := p.blocks[1..], p.bad[1..];
    var u, ub := t[1..], tb[1..];
    assert View(u, ub) == u[0] + View(u[1..], ub[1..]) == u[0];
    assert View(t, tb) == t[0] + u[0];
    assert t[0] == [t[0][0]] && u[0] == [u[0][0]];
  }

  lemma StreamOfTwo(w: Writer, chunks: seq<seq<Byte>>, w1: Writer, w2: Writer)
    requires w.Valid() && w1.Valid() && |chunks| == 2
    requires w1 == AfterWrite(w, chunks[0], 0) && w2 == AfterWrite(w1, chunks[1], |chunks[0]|)
    ensures AfterStream(w, chunks, 0) == w2
  {
    StreamOfOne(w1, chunks[1..], |chunks[0]|, w2);
  }

  lemma StreamOfOne(w: Writer, chunks: seq<seq<Byte>>, offset: nat, w1: Writer)
    requires w.Valid() && |chunks| == 1 && w1 == AfterWrite(w, chunks[0], offset)
    ensures AfterStream(w, chunks, offset) == w1
  {
    assert |chunks[1..]| == 0;
  }

  /** One byte written at block zero or one of three one-byte blocks, the first of them bad, lands on block one. */
  lemma OverwriteSecond(p: Partition, pos: nat, c: Byte)
    requires p.Valid() && p.eraseSize == 1 && |p.blocks| == 3 && p.bad == [true, false, false] && pos <= 1
    ensures Write(p, [c], pos) == WriteEnd(Written(1), p.(blocks := [p.blocks[0], [c], p.blocks[2]]), 1 - pos)
  {
    PositionOf(pos, 1, 0);
    assert Span(pos, 1) == pos;
    var data: seq<Byte> := [c];
    assert BadRun(p.bad[pos..]) == 1 - pos;
    assert Write(p, data, pos) == Remaining(p, pos, data, 1, 0);
    RemainingStep(p, pos, data, 1, 0);
    assert data[..1] == data && data[1..] == [];
    assert Splice(p.blocks[1], 0, data) == data;
  }

  function NamesOf(parts: seq<Partition>): (names: seq<seq<Byte>>)
    ensures |names| == |parts|
  {
    seq(|parts|, i requires 0 <= i < |parts| => parts[i].name)
  }

  /** `mtd_find_partition_by_name`. */
  function FindPartition(parts: seq<Partition>, name: seq<Byte>): (r: Option<nat>)
    ensures r.Some? ==> r.value < |parts| && SameIgnoringCase(parts[r.value].name, name)
    ensures r.Some? ==> forall k :: 0 <= k < r.value ==> !SameIgnoringCase(parts[k].name, name)
    ensures r.None? ==> forall k :: 0 <= k < |parts| ==> !SameIgnoringCase(parts[k].name, name)
  {
    assert forall k :: 0 <= k < |parts| ==> NamesOf(parts)[k] == parts[k].name;
    FindName(NamesOf(parts), name)
  }

  /** Module state: the scanned partitions, `_gCurrentPartitionName` and `_gCurrentPartitionBadblock`. */
  class Mtd {
    var parts: seq<Partition>
    var nameBuf: seq<Byte>
    var curBad: nat

    ghost predicate Valid()
      reads this
    {
      |nameBuf| == NAME_BUFFER && ZeroTailed(nameBuf) &&
      forall k :: 0 <= k < |parts| ==> parts[k].Valid() && PartitionName(parts[k].name)
    }

    constructor (scanned: seq<Partition>)
      requires forall k :: 0 <= k < |scanned| ==> scanned[k].Valid() && PartitionName(scanned[k].name)
      ensures Valid() && parts == scanned && nameBuf == Zeros(NAME_BUFFER)
    {
      parts := scanned;
      nameBuf := Zeros(NAME_BUFFER);
      curBad := 0;
    }


    /** The name comparison at the head of `mtd_write_data`. */
    method RememberName(name: seq<Byte>, offset: nat)
      requires Valid() && PartitionName(name)
      modifies this`nameBuf, this`curBad
      ensures Valid() && nameBuf == NextName(old(nameBuf), name, offset)
      ensures curBad == StartBad(old(nameBuf), old(curBad), name, offset)
    {
      if offset == 0 || CStr(nameBuf) != name {
        RememberedIff(nameBuf, name);
        nameBuf := Remember(nameBuf, name);
        curBad := 0;
      }
    }

    /** `mtd_write_data`. */
    method WriteData(i: nat, data: seq<Byte>, offset: nat) returns (r: WriteResult)
      requires Valid() && i < |parts|
      modifies this
      ensures Valid()
      ensures var p := old(parts)[i];
              var bb := StartBad(old(nameBuf), old(curBad), p.name, offset);
              var end := Write(p, data, offset + Span(bb, p.eraseSize));
              r == end.result && parts == old(parts)[i := end.p] && curBad == bb + end.skipped &&
              nameBuf == NextName(old(nameBuf), p.name, offset)
      ensures r == Stuck ==> exists writein: nat, pos: nat :: Refused(parts[i], data, offset, writein, pos)
    {
      hide Pending, Refused, Write, NextName, StartBad, Span, CLen, ZeroTailed, PartitionName;
      var p := parts[i];
      RememberName(p.name, offset);
      SpanIsProduct(curBad, p.eraseSize);
      var pos: nat := offset + curBad * p.eraseSize;
      ghost var bb, names, was := curBad, nameBuf, parts;
      ghost var w := Write(p, data, pos);
      PendingAtStart(p, data, offset, curBad);
      var writein: nat := 0;
      while writein < |data|
        invariant p.Valid() && p == was[i].(blocks := p.blocks)
        invariant parts == was[i := p] && nameBuf == names && curBad >= bb
        invariant Pending(p, data, offset, writein, pos, curBad - bb, w)
        decreases |data| - writein
      {
        var step, skipped;
        step, p, pos, writein, skipped := Round(p, data, offset, writein, pos, curBad - bb, w);
        curBad := curBad + skipped;
        parts := parts[i := p];
        if step == GiveUp {
          return Failed;
        } else if step == Repeat {
          // every further round is the same
          assert Refused(parts[i], data, offset, writein, pos);
          return Stuck;
        }
      }
      PendingAtEnd(p, data, offset, writein, pos, curBad - bb, w);
      r := Written(writein);
    }

    /** `mtd_read_data`. */
    method ReadData(i: nat, len: nat, offset: nat) returns (r: ReadResult)
      requires Valid() && i < |parts|
      ensures r == Read(parts[i], len, offset)
    {
      hide ReadPending, Read;
      var p := parts[i];
      var buffer: seq<Byte> := Zeros(p.eraseSize);
      var data: seq<Byte> := [];
      var pos := offset;
      ReadPendingAtStart(p, len, offset);
      while |data| < len
        invariant |data| <= len && ReadPending(p, len, offset, data, pos, buffer)
        decreases len - |data|
      {
        var ok;
        if InBlock(pos, p.eraseSize) != 0 {
          ok, data, pos, buffer := ReadHead(p, len, offset, data, pos, buffer);
          if !ok {
            return ReadFailed;
          }
        } else {
          data, pos, buffer := ReadBlock(p, len, offset, data, pos, buffer);
        }
      }
      ReadPendingAtEnd(p, len, offset, data, pos, buffer);
      r := Got(data);
    }
  }

  /** How one round of the write loop ends. */
  datatype RoundEnd = Go | GiveUp | Repeat


  // ----- the device

  /** `ioctl(fd, MEMGETBADBLOCK, &pos) == 1`: an error past the end is not an answer of "bad". */
  predicate IsBadBlock(p: Partition, pos: nat)
    requires p.Valid()
  {
    BlockOf(pos, p.eraseSize) < |p.blocks| && p.bad[BlockOf(pos, p.eraseSize)]
  }

  /** The loop that steps over bad blocks; it gives up when that leaves the partition. */
  method SkipBad(p: Partition, pos0: nat) returns (ok: bool, pos: nat, skipped: nat)
    requires p.Valid()
    ensures var q := BlockOf(pos0, p.eraseSize);
            skipped == (if q < |p.blocks| then BadRun(p.bad[q..]) else 0) &&
            pos == pos0 + Span(skipped, p.eraseSize) &&
            BlockOf(pos, p.eraseSize) == q + skipped && InBlock(pos, p.eraseSize) == InBlock(pos0, p.eraseSize) &&
            (ok <==> skipped == 0 || q + skipped < |p.blocks| || InBlock(pos0, p.eraseSize) == 0)
  {
    var e := p.eraseSize;
    ghost var q := BlockOf(pos0, e);
    pos, skipped := pos0, 0;
    while IsBadBlock(p, pos)
      invariant pos == pos0 + Span(skipped, e)
      invariant BlockOf(pos, e) == q + skipped && InBlock(pos, e) == InBlock(pos0, e)
      invariant skipped <= if q < |p.blocks| then BadRun(p.bad[q..]) else 0
      invariant skipped > 0 ==> q + skipped < |p.blocks| || InBlock(pos, e) == 0
      decreases |p.blocks| - skipped
    {
      hide BlockOf, InBlock;
      BadRunCovers(p.bad[q..], skipped);
      OneFurther(pos, e);
      pos := pos + e;
      skipped := skipped + 1;
      PastEndIff(p, pos);
      if pos > p.Size() {
        BadRunStops(p.bad[q..], skipped);
        return false, pos, skipped;
      }
    }
    if q < |p.blocks| {
      BadRunStops(p.bad[q..], skipped);
    }
    ok := true;
  }

  lemma BadRunCovers(bad: seq<bool>, s: nat)
    requires s <= BadRun(bad) && s < |bad| && bad[s]
    ensures s < BadRun(bad)
  {
  }

  lemma BadRunStops(bad: seq<bool>, s: nat)
    requires s <= BadRun(bad) && (s == |bad| || !bad[s])
    ensures s == BadRun(bad)
  {
  }

  lemma PastEndIff(p: Partition, pos: nat)
    requires p.Valid()
    ensures pos > p.Size() <==>
            BlockOf(pos, p.eraseSize) > |p.blocks| ||
            (BlockOf(pos, p.eraseSize) == |p.blocks| && InBlock(pos, p.eraseSize) > 0)
  {
    var e, n := p.eraseSize, |p.blocks|;
    var q := BlockOf(pos, e);
    DivModParts(pos, e);
    if q > n {
      MulMono(n + 1, q, e);
    } else if q < n {
      MulMono(q + 1, n, e);
    }
  }

  /** Loop invariant of the write: what the whole call will answer, from the present position. */
  ghost predicate Pending(p: Partition, data: seq<Byte>, offset: nat, writein: nat, pos: nat, skipped: nat, w: WriteEnd)
    requires p.Valid()
  {
    var e := p.eraseSize;
    writein <= |data| &&
    (writein < |data| ==> InBlock(offset + writein, e) == InBlock(pos, e)) &&
    if writein < |data| && InBlock(pos, e) != 0
    then writein == 0 && skipped == 0 && w == Write(p, data, pos)
    else w == Remaining(p, BlockOf(pos, e), data[writein..], |data|, skipped)
  }

  lemma PendingAtStart(p: Partition, data: seq<Byte>, offset: nat, bad: nat)
    requires p.Valid()
    ensures var pos := offset + bad * p.eraseSize;
            Pending(p, data, offset, 0, pos, 0, Write(p, data, pos))
  {
    SameInBlock(offset, bad, p.eraseSize);
    assert data[0..] == data;
  }

  lemma PendingAtEnd(p: Partition, data: seq<Byte>, offset: nat, writein: nat, pos: nat, skipped: nat, w: WriteEnd)
    requires p.Valid() && Pending(p, data, offset, writein, pos, skipped, w) && writein >= |data|
    ensures writein == |data| && w == WriteEnd(Written(|data|), p, skipped)
  {
    assert data[writein..] == [];
  }

  /** The loop stands at a position the device refuses, with bytes left: erase and write fail there. */
  ghost predicate Refused(p: Partition, data: seq<Byte>, offset: nat, writein: nat, pos: nat)
    requires p.Valid()
  {
    var e := p.eraseSize;
    BlockOf(pos, e) >= |p.blocks| && writein < |data| &&
    if InBlock(pos, e) != 0 then InBlock(offset, e) == InBlock(pos, e) && writein == e - InBlock(pos, e)
    else InBlock(offset + writein, e) == 0
  }

  /** One round of the write loop. A round that has to be repeated ends at a refused position, and from there a
      round ends where it began: nothing written, nothing skipped, same position, same count. */
  method Round(p: Partition, data: seq<Byte>, offset: nat, writein0: nat, pos0: nat,
               ghost before: nat, ghost w: WriteEnd)
    returns (step: RoundEnd, p': Partition, pos: nat, writein: nat, skipped: nat)
    requires p.Valid() && writein0 < |data|
    requires Pending(p, data, offset, writein0, pos0, before, w) || Refused(p, data, offset, writein0, pos0)
    ensures p'.Valid() && p' == p.(blocks := p'.blocks)
    ensures Pending(p, data, offset, writein0, pos0, before, w) ==>
              (step == Go ==> writein0 < writein && Pending(p', data, offset, writein, pos, before + skipped, w)) &&
              (step == GiveUp ==> w == WriteEnd(Failed, p', before + skipped)) &&
              (step == Repeat ==> w == WriteEnd(Stuck, p', before + skipped))
    ensures step == Repeat ==> p' == p && Refused(p', data, offset, writein, pos)
    ensures Refused(p, data, offset, writein0, pos0) ==>
              step == Repeat && p' == p && pos == pos0 && writein == writein0 && skipped == 0
  {
    hide Write, Remaining, BlockOf, InBlock;
    if InBlock(pos0, p.eraseSize) != 0 {
      step, p', pos, writein, skipped := WriteHead(p, data, pos0, offset);
    } else {
      step, p', pos, writein, skipped := WriteBlock(p, data, offset, writein0, pos0, before);
    }
  }

  lemma RemainingNone(p: Partition, q: nat, total: nat, skipped: nat)
    requires p.Valid()
    ensures Remaining(p, q, [], total, skipped) == WriteEnd(Written(total), p, skipped)
  {
  }

  /** The branch for a position inside a block. */
  method WriteHead(p: Partition, data: seq<Byte>, pos0: nat, offset: nat)
    returns (step: RoundEnd, p': Partition, pos: nat, writein: nat, skipped: nat)
    requires p.Valid() && |data| > 0 && InBlock(pos0, p.eraseSize) != 0
    requires InBlock(offset, p.eraseSize) == InBlock(pos0, p.eraseSize)
    ensures p'.Valid() && p' == p.(blocks := p'.blocks) && 0 < writein
    ensures step == GiveUp ==> Write(p, data, pos0) == WriteEnd(Failed, p', skipped)
    ensures step == Repeat ==> Write(p, data, pos0) == WriteEnd(Stuck, p', skipped)
    ensures step == Repeat ==> p' == p && Refused(p', data, offset, writein, pos)
    ensures BlockOf(pos0, p.eraseSize) >= |p.blocks| && p.eraseSize - InBlock(pos0, p.eraseSize) < |data| ==>
              step == Repeat && pos == pos0 && writein == p.eraseSize - InBlock(pos0, p.eraseSize) && skipped == 0
    ensures step == Go ==>
              writein <= |data| &&
              (writein < |data| ==> InBlock(pos, p.eraseSize) == 0 == InBlock(offset + writein, p.eraseSize)) &&
              Write(p, data, pos0) == Remaining(p', BlockOf(pos, p.eraseSize), data[writein..], |data|, skipped)
  {
    hide BlockOf, InBlock, Write, Remaining, BadRun, Splice;
    var e := p.eraseSize;
    var ok;
    p' := p;
    ok, pos, skipped := SkipBad(p, pos0);
    WriteHeadUnfolds(p, data, pos0, skipped);
    writein := e - InBlock(pos, e);
    if !ok {
      return GiveUp, p, pos, writein, skipped;
    }
    var q, r := BlockOf(pos, e), InBlock(pos, e);
    var head := if writein > |data| then |data| else writein;
    if writein > |data| {
      writein := |data|;
    }
    if q >= |p.blocks| {
      // read, erase and write are refused; the loop comes round with writein as set above
      step := if writein < |data| then Repeat else Go;
      RemainingNone(p, q, |data|, skipped);
      assert data[|data|..] == [];
    } else {
      var buffer := Splice(p.blocks[q], r, data[..head]);
      p' := p.(blocks := p.blocks[q := buffer]);
      step := Go;
      NextBoundary(pos, e, writein);
      NextBoundary(offset, e, writein);
      pos := pos + writein;
      if writein == |data| {
        assert data[|data|..] == [];
        RemainingNone(p', q + 1, |data|, skipped);
        RemainingNone(p', BlockOf(pos, e), |data|, skipped);
      }
    }
  }

  lemma WriteHeadUnfolds(p: Partition, data: seq<Byte>, pos0: nat, s: nat)
    requires p.Valid() && |data| > 0 && InBlock(pos0, p.eraseSize) != 0
    requires var q := BlockOf(pos0, p.eraseSize); s == if q < |p.blocks| then BadRun(p.bad[q..]) else 0
    ensures var e := p.eraseSize;
            var q, r := BlockOf(pos0, e), InBlock(pos0, e);
            var head := if e - r > |data| then |data| else e - r;
            if q >= |p.blocks| then
              Write(p, data, pos0) == WriteEnd(if |data| <= e - r then Written(|data|) else Stuck, p, 0)
            else
              q + s <= |p.blocks| &&
              if q + s == |p.blocks| then Write(p, data, pos0) == WriteEnd(Failed, p, s)
              else
                var p' := p.(blocks := p.blocks[q + s := Splice(p.blocks[q + s], r, data[..head])]);
                p'.Valid() && Write(p, data, pos0) == Remaining(p', q + s + 1, data[head..], |data|, s)
  {
    hide BlockOf, InBlock, WriteAligned, Remaining, BadRun, Splice;
    var e := p.eraseSize;
    var q, r := BlockOf(pos0, e), InBlock(pos0, e);
    if q < |p.blocks| && q + s < |p.blocks| {
      var head := if e - r > |data| then |data| else e - r;
      RemainingIsAligned(PatchBlock(p, q + s, r, data[..head]), q + s + 1, data[head..], |data|, s);
    }
  }

  /** The branch for a position at a block boundary. */
  method WriteBlock(p: Partition, data: seq<Byte>, offset: nat, writein0: nat, pos0: nat, ghost before: nat)
    returns (step: RoundEnd, p': Partition, pos: nat, writein: nat, skipped: nat)
    requires p.Valid() && writein0 < |data| && InBlock(pos0, p.eraseSize) == 0
    requires InBlock(offset + writein0, p.eraseSize) == 0
    ensures p'.Valid() && p' == p.(blocks := p'.blocks) && (step == Go ==> writein0 < writein <= |data|)
    ensures var w := Remaining(p, BlockOf(pos0, p.eraseSize), data[writein0..], |data|, before);
            if step == Go
            then (writein < |data| ==> InBlock(pos, p.eraseSize) == 0 == InBlock(offset + writein, p.eraseSize)) &&
                 w == Remaining(p', BlockOf(pos, p.eraseSize), data[writein..], |data|, before + skipped)
            else step == Repeat && w == WriteEnd(Stuck, p', before + skipped)
    ensures step == Repeat ==> p' == p && Refused(p', data, offset, writein, pos)
    ensures BlockOf(pos0, p.eraseSize) >= |p.blocks| ==>
              step == Repeat && pos == pos0 && writein == writein0 && skipped == 0
  {
    hide BlockOf, InBlock, Remaining, BadRun, Splice;
    var e := p.eraseSize;
    var ok;
    ok, pos, skipped := SkipBad(p, pos0);
    var q := BlockOf(pos, e);
    RemainingStep(p, BlockOf(pos0, e), data[writein0..], |data|, before);
    p', writein := p, writein0;
    if q >= |p.blocks| {
      // erase and write are refused for ever
      return Repeat, p', pos, writein, skipped;
    }
    step := Go;
    if writein0 + e > |data| {
      var copysize := InBlock(|data| + offset, e);
      TailSize(offset + writein0, e, |data| - writein0);
      var buffer := Splice(p.blocks[q], 0, data[writein0..][..copysize]);
      assert data[writein0..][..copysize] == data[writein0..];
      p' := p.(blocks := p.blocks[q := buffer]);
      writein := |data|;
      RemainingNone(p', q, |data|, before + skipped);
      assert data[|data|..] == [];
    } else {
      var block := data[writein0..][..e];
      SpliceWhole(p.blocks[q], block);
      p' := p.(blocks := p.blocks[q := block]);
      assert data[writein0..][e..] == data[writein0 + e..];
      writein := writein0 + e;
      OneFurther(pos, e);
      OneFurther(offset + writein0, e);
      pos := pos + e;
    }
  }

  lemma SpliceWhole(was: seq<Byte>, block: seq<Byte>)
    requires |block| == |was|
    ensures Splice(was, 0, block) == block
  {
  }

  /** Loop invariant of the read: what the whole call will deliver, from the present position. */
  ghost predicate ReadPending(p: Partition, len: nat, offset: nat, data: seq<Byte>, pos: nat, buffer: seq<Byte>)
    requires p.Valid()
  {
    var e := p.eraseSize;
    |data| <= len && |buffer| == e &&
    (|data| < len ==> InBlock(offset + |data|, e) == InBlock(pos, e)) &&
    if |data| < len && InBlock(pos, e) != 0
    then data == [] && pos == offset && buffer == Zeros(e)
    else Read(p, len, offset) == Got(data + ReadAligned(p, BlockOf(pos, e), len - |data|, buffer))
  }

  lemma ReadPendingAtStart(p: Partition, len: nat, offset: nat)
    requires p.Valid()
    ensures ReadPending(p, len, offset, [], offset, Zeros(p.eraseSize))
  {
  }

  lemma ReadPendingAtEnd(p: Partition, len: nat, offset: nat, data: seq<Byte>, pos: nat, buffer: seq<Byte>)
    requires p.Valid() && |data| >= len && ReadPending(p, len, offset, data, pos, buffer)
    ensures Read(p, len, offset) == Got(data)
  {
    assert data + ReadAligned(p, BlockOf(pos, p.eraseSize), 0, buffer) == data;
  }

  /** `read` of `n` bytes into the buffer; past the end of the device nothing is delivered. */
  method ReadInto(p: Partition, q: nat, r: nat, buffer: seq<Byte>) returns (b: seq<Byte>)
    requires p.Valid() && r < p.eraseSize && |buffer| == p.eraseSize
    ensures |b| == |buffer|
    ensures b == if q < |p.blocks| then Splice(buffer, 0, p.blocks[q][r..]) else buffer
  {
    b := buffer;
    if q < |p.blocks| {
      b := Splice(buffer, 0, p.blocks[q][r..]);
    }
  }

  /** The branch for a position inside a block. */
  method ReadHead(p: Partition, len: nat, offset: nat, data0: seq<Byte>, pos0: nat, buffer0: seq<Byte>)
    returns (ok: bool, data: seq<Byte>, pos: nat, buffer: seq<Byte>)
    requires p.Valid() && |data0| < len && ReadPending(p, len, offset, data0, pos0, buffer0)
    requires InBlock(pos0, p.eraseSize) != 0
    ensures !ok ==> Read(p, len, offset) == ReadFailed
    ensures ok ==> |data0| < |data| <= len && ReadPending(p, len, offset, data, pos, buffer)
  {
    hide BlockOf, InBlock, Read, ReadPending, BadRun, Span;
    var e := p.eraseSize;
    var skipped;
    ReadPendingAtHead(p, len, offset, data0, pos0, buffer0);
    ok, pos, skipped := SkipBad(p, pos0);
    data, buffer := data0, buffer0;
    if !ok {
      return;
    }
    var n := e - InBlock(pos, e);
    buffer := ReadInto(p, BlockOf(pos, e), InBlock(pos, e), buffer);
    ReadPendingHead(p, len, pos0, pos, buffer);
    data := if n > len then buffer[..len] else buffer[..n];
    pos := pos + n;
  }

  lemma ReadPendingAtHead(p: Partition, len: nat, offset: nat, data: seq<Byte>, pos: nat, buffer: seq<Byte>)
    requires p.Valid() && |data| < len && ReadPending(p, len, offset, data, pos, buffer)
    requires InBlock(pos, p.eraseSize) != 0
    ensures data == [] && pos == offset && buffer == Zeros(p.eraseSize)
    ensures var q := BlockOf(pos, p.eraseSize);
            q < |p.blocks| && q + BadRun(p.bad[q..]) == |p.blocks| && BadRun(p.bad[q..]) > 0 ==>
              Read(p, len, offset) == ReadFailed
  {
    hide BlockOf, InBlock, BadRun, ReadAligned, Splice;
  }

  lemma ReadPendingHead(p: Partition, len: nat, offset: nat, pos: nat, buffer: seq<Byte>)
    requires p.Valid() && 0 < len && InBlock(offset, p.eraseSize) == InBlock(pos, p.eraseSize) != 0
    requires var q := BlockOf(offset, p.eraseSize);
             var s := if q < |p.blocks| then BadRun(p.bad[q..]) else 0;
             BlockOf(pos, p.eraseSize) == q + s && (s == 0 || q + s < |p.blocks|)
    requires var q, r := BlockOf(pos, p.eraseSize), InBlock(pos, p.eraseSize);
             var zeros := Zeros(p.eraseSize);
             buffer == if q < |p.blocks| then Splice(zeros, 0, p.blocks[q][r..]) else zeros
    ensures var n := p.eraseSize - InBlock(pos, p.eraseSize);
            ReadPending(p, len, offset, if n > len then buffer[..len] else buffer[..n], pos + n, buffer)
  {
    hide Read, ReadAligned, BadRun, BlockOf, InBlock, Splice, Zeros;
    var e := p.eraseSize;
    var q, n := BlockOf(pos, e), e - InBlock(pos, e);
    ReadHeadUnfolds(p, len, offset, q, buffer);
    if n > len {
      assert buffer[..len] + ReadAligned(p, q + 1, 0, buffer) == buffer[..len];
      assert buffer[..len] + ReadAligned(p, BlockOf(pos + n, e), 0, buffer) == buffer[..len];
    } else {
      NextBoundary(pos, e, n);
      NextBoundary(offset, e, n);
    }
  }

  lemma ReadHeadUnfolds(p: Partition, len: nat, offset: nat, q: nat, buffer: seq<Byte>)
    requires p.Valid() && 0 < len && InBlock(offset, p.eraseSize) != 0
    requires var q0 := BlockOf(offset, p.eraseSize);
             var s := if q0 < |p.blocks| then BadRun(p.bad[q0..]) else 0;
             q == q0 + s && (s == 0 || q < |p.blocks|)
    requires var r := InBlock(offset, p.eraseSize);
             var zeros := Zeros(p.eraseSize);
             buffer == if q < |p.blocks| then Splice(zeros, 0, p.blocks[q][r..]) else zeros
    ensures var n := p.eraseSize - InBlock(offset, p.eraseSize);
            var head := if len < n then len else n;
            Read(p, len, offset) == Got(buffer[..head] + ReadAligned(p, q + 1, len - head, buffer))
  {
    hide ReadAligned, BadRun, BlockOf, InBlock, Splice, Zeros;
    if q < |p.blocks| {
      SpliceFront(Zeros(p.eraseSize), p.blocks[q][InBlock(offset, p.eraseSize)..]);
    }
  }

  lemma SpliceFront(was: seq<Byte>, d: seq<Byte>)
    requires |d| <= |was|
    ensures Splice(was, 0, d) == d + was[|d|..]
  {
  }

  /** The branch for a position at a block boundary. */
  method ReadBlock(p: Partition, len: nat, offset: nat, data0: seq<Byte>, pos0: nat, buffer0: seq<Byte>)
    returns (data: seq<Byte>, pos: nat, buffer: seq<Byte>)
    requires p.Valid() && |data0| < len && ReadPending(p, len, offset, data0, pos0, buffer0)
    requires InBlock(pos0, p.eraseSize) == 0
    ensures |data0| < |data| <= len && ReadPending(p, len, offset, data, pos, buffer)
  {
    hide BlockOf, InBlock, ReadPending, BadRun, Splice, Span;
    var e := p.eraseSize;
    var ok, skipped;
    ReadPendingSizes(p, len, offset, data0, pos0, buffer0);
    ok, pos, skipped := SkipBad(p, pos0);
    var q := BlockOf(pos, e);
    buffer := ReadInto(p, q, 0, buffer0);
    ReadPendingBlock(p, len, offset, data0, pos0, buffer0, pos, buffer);
    if |data0| + e > len {
      var copysize := InBlock(len + offset, e);
      TailSize(offset + |data0|, e, len - |data0|);
      data := data0 + buffer[..copysize];
    } else {
      data := data0 + buffer;
      pos := pos + e;
    }
  }

  lemma ReadPendingSizes(p: Partition, len: nat, offset: nat, data: seq<Byte>, pos: nat, buffer: seq<Byte>)
    requires p.Valid() && ReadPending(p, len, offset, data, pos, buffer)
    ensures |data| <= len && |buffer| == p.eraseSize
  {
    hide Read;
  }

  lemma ReadPendingBlock(p: Partition, len: nat, offset: nat, data0: seq<Byte>, pos0: nat, buffer0: seq<Byte>,
                         pos: nat, buffer: seq<Byte>)
    requires p.Valid() && |data0| < len && ReadPending(p, len, offset, data0, pos0, buffer0)
    requires InBlock(pos0, p.eraseSize) == 0 == InBlock(pos, p.eraseSize)
    requires var q := BlockOf(pos0, p.eraseSize);
             var q' := BlockOf(pos, p.eraseSize);
             q' == q + (if q < |p.blocks| then BadRun(p.bad[q..]) else 0) &&
             buffer == if q' < |p.blocks| then Splice(buffer0, 0, p.blocks[q'][0..]) else buffer0
    ensures var e := p.eraseSize;
            InBlock(offset + |data0|, e) == 0 &&
            if |data0| + e > len then ReadPending(p, len, offset, data0 + buffer[..len - |data0|], pos, buffer)
            else ReadPending(p, len, offset, data0 + buffer, pos + e, buffer)
  {
    hide Read, ReadAligned, BlockOf, InBlock, BadRun, Splice, Zeros;
    var e := p.eraseSize;
    var q := BlockOf(pos, e);
    ReadAlignedStep(p, BlockOf(pos0, e), len - |data0|, buffer0);
    if q < |p.blocks| {
      assert p.blocks[q][0..] == p.blocks[q];
      SpliceWhole(buffer0, p.blocks[q]);
    }
    if |data0| + e > len {
      var tail := buffer[..len - |data0|];
      assert data0 + tail + ReadAligned(p, q, 0, buffer) == data0 + tail;
    } else {
      OneFurther(pos, e);
      OneFurther(offset + |data0|, e);
      var rest := ReadAligned(p, q + 1, len - |data0| - e, buffer);
      assert data0 + (buffer + rest) == data0 + buffer + rest;
    }
  }
}
