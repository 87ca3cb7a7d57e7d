/** What placing one piece of an entry does to the state of an update, and what follows from it: for the plan of a run,
    for the table, and for a piece without bytes. */
module OtaPiece {
  import opened BlockMath
  import opened Bytes
  import opened Nand
  import opened MtdFlash
  import opened UbiVolume
  import opened OtaTable
  import opened OtaWalk
  import EnvStore
  import opened BootCmd
  import opened OtaPlan

  // ----- a piece that is placed

  /** An MTD piece answered TRUE: the boot command is raised, the bytes are written, the count follows. */
  ghost predicate MtdPlaced(w: World, w1: World, w': World, k: nat, data: Text, at: nat, inited: bool)
    requires w.Valid() && k < |w.table|
  {
    var e := w.table[k];
    e.upgrade.UpUpdate? &&
    if e.len == 0 then w' == w
    else
      w1.Valid() && BootStep(w, w1, e.name, e.len) && (CommandOf(e.name).Some? ==> inited) &&
      FindPartition(w1.parts, e.name).Some? &&
      var i := FindPartition(w1.parts, e.name).value;
      WriteAnswer(w1.WriterOf(i), data, at) == Written(|data|) &&
      w' == Advance(MtdWritten(w1, i, data, at), k, |data|)
  }

  /** Any other piece answered TRUE: the kind is UBI from now on. */
  ghost predicate UbiPlaced(w: World, w': World, k: nat, data: Text, at: nat, ready: bool)
    requires w.Valid() && k < |w.table|
  {
    var e, j := w.table[k], FindName(w.volNames, w.table[k].name);
    e.upgrade.UpUpdate? && ready && j.Some? && j.value < |w.volumes| && e.len <= |w.volumes[j.value].bytes| % WORD &&
    if e.len == 0 then w' == Marked(w, k)
    else
      |w'.volumes| == |w.volumes| &&
      w' == Advance(UbiWritten(Marked(w, k), j.value, w'.volumes[j.value].bytes), k, |data|) &&
      InPlace(w.volumes[j.value].bytes, w'.volumes[j.value].bytes, at, data, |data|)
  }

  /** A piece written or, as the run mode says, only counted. */
  ghost predicate Placed(w: World, w1: World, w': World, k: nat, data: Text, at: nat, ready: bool, inited: bool)
    requires w.Valid() && k < |w.table|
  {
    if !Selected(w.table[k], w.runMode) then w' == Advance(w, k, |data|)
    else if w.table[k].kind.KindMtd? then MtdPlaced(w, w1, w', k, data, at, inited)
    else UbiPlaced(w, w', k, data, at, ready)
  }

  // ----- a piece that will be

  ghost predicate MtdOpen(w: World, k: nat, data: Text, at: nat, inited: bool)
    requires w.Valid() && k < |w.table|
  {
    var e, f := w.table[k], FindPartition(w.parts, w.table[k].name);
    e.upgrade.UpUpdate? &&
    (e.len == 0 ||
     ((CommandOf(e.name).None? || (inited && RaisedTo(w.env, e.name, e.len))) &&
      f.Some? && WriteAnswer(w.WriterOf(f.value), data, at) == Written(|data|)))
  }

  ghost predicate UbiOpen(w: World, k: nat, data: Text, at: nat, ready: bool, calls: nat)
    requires w.Valid() && k < |w.table|
  {
    var e, j := w.table[k], FindName(w.volNames, w.table[k].name);
    e.upgrade.UpUpdate? && ready && j.Some? && j.value < |w.volumes| && e.len <= |w.volumes[j.value].bytes| % WORD &&
    (e.len == 0 || Landed(w.volumes[j.value], calls, at, |data|) == |data|)
  }

  /** Nothing stands in the way of the piece. */
  ghost predicate Open(w: World, k: nat, data: Text, at: nat, ready: bool, inited: bool, calls: nat)
    requires w.Valid() && k < |w.table|
  {
    !Selected(w.table[k], w.runMode) ||
    if w.table[k].kind.KindMtd? then MtdOpen(w, k, data, at, inited) else UbiOpen(w, k, data, at, ready, calls)
  }

  // ----- for the plan

  /** `data` is what entry `k` gets next. */
  ghost predicate PieceOf(p: Plan, w: World, c: nat, k: nat, data: Text, at: nat) {
    Steady(p, w, c) && k < |p.entries| && |data| > 0 && c + |data| <= |p.image| &&
    p.entries[k].offset <= c && c + |data| <= p.entries[k].offset + p.entries[k].len &&
    data == p.image[c..c + |data|] && at == c - p.entries[k].offset
  }

  lemma PieceIsSelected(p: Plan, w: World, c: nat, k: nat, data: Text, at: nat)
    requires PieceOf(p, w, c, k, data, at)
    ensures p.Valid() && w.Valid() && k < |w.table| && Selected(w.table[k], w.runMode) == p.Writes(k)
    ensures p.Writes(k) ==> Turn(p, w, c, |data|, k)
  {
    hide CLen, InStep, Logical, Splice, BootSafe, RaisedTo, EnvApart, Find, Elsewhere, TotalLen;
    assert EntryOk(p, w, c, k);
  }

  /** A piece in its turn that is placed keeps the invariant. */
  lemma PlacedKeepsPlan(p: Plan, w: World, w1: World, w': World, c: nat, k: nat, data: Text, at: nat,
                        ready: bool, inited: bool)
    requires PieceOf(p, w, c, k, data, at) && w.Valid() && k < |w.table|
    requires Placed(w, w1, w', k, data, at, ready, inited)
    ensures w'.Valid() && p.Valid() && Steady(p, w', c + |data|)
    ensures Roomy(p, w, ready, inited) ==> Roomy(p, w', ready, inited)
  {
    hide Steady, Turn, Roomy, Selected, BootStep, WriteAnswer, MtdWritten, FindName, CommandOf, InPlace, World.Valid,
         Plan.Valid;
    PieceIsSelected(p, w, c, k, data, at);
    SteadyIsValid(p, w, c);
    if !p.Writes(k) {
      SkippedPiece(p, w, c, |data|, k, ready, inited);
    } else {
      PieceEntry(p, w, c, |data|, k);
      if w.table[k].kind.KindMtd? {
        var i := FindPartition(w1.parts, w.table[k].name).value;
        MtdEnds(p, w, w1, MtdWritten(w1, i, data, at), c, data, k, at, ready, inited);
      } else {
        var j := FindName(w.volNames, w.table[k].name).value;
        UbiEnds(p, w, UbiWritten(Marked(w, k), j, w'.volumes[j].bytes), c, data, k, at, ready, inited);
      }
    }
  }

  /** With room, flawless flash and no boot command to raise, the piece will be placed. */
  lemma RoomyIsOpen(p: Plan, w: World, c: nat, k: nat, data: Text, at: nat, ready: bool, inited: bool, calls: nat)
    requires PieceOf(p, w, c, k, data, at) && w.Valid() && p.Valid() && k < |w.table|
    requires Roomy(p, w, ready, inited)
    ensures Open(w, k, data, at, ready, inited, calls)
  {
    hide Steady, Turn, Roomy, Selected, World.Valid, Plan.Valid, MtdOpen, UbiOpen;
    PieceIsSelected(p, w, c, k, data, at);
    if p.Writes(k) {
      PieceEntry(p, w, c, |data|, k);
      if w.table[k].kind.KindMtd? {
        RoomyMtdOpen(p, w, c, k, data, at, ready, inited);
      } else {
        RoomyUbiOpen(p, w, c, k, data, at, ready, inited, calls);
      }
    }
  }

  lemma RoomyMtdOpen(p: Plan, w: World, c: nat, k: nat, data: Text, at: nat, ready: bool, inited: bool)
    requires Steady(p, w, c) && Turn(p, w, c, |data|, k) && p.entries[k].kind.KindMtd?
    requires data == p.image[c..c + |data|] && at == c - p.entries[k].offset
    requires Roomy(p, w, ready, inited)
    ensures MtdOpen(w, k, data, at, inited)
  {
    hide Inv, BootOk, EnvApart, Roomy, WriteAnswer, FindName, CommandOf, RaisedTo, TotalLen, MtdWritten, Advance;
    PieceEntry(p, w, c, |data|, k);
    RoomyMtdPiece(p, w, c, |data|, k, ready, inited);
  }

  lemma RoomyUbiOpen(p: Plan, w: World, c: nat, k: nat, data: Text, at: nat, ready: bool, inited: bool, calls: nat)
    requires Steady(p, w, c) && Turn(p, w, c, |data|, k) && !p.entries[k].kind.KindMtd?
    requires data == p.image[c..c + |data|] && at == c - p.entries[k].offset
    requires Roomy(p, w, ready, inited)
    ensures UbiOpen(w, k, data, at, ready, calls)
  {
    hide Inv, BootOk, EnvApart, Roomy, FindName, Landed, TotalLen;
    PieceEntry(p, w, c, |data|, k);
    RoomyUbiPiece(p, w, c, |data|, k, ready, inited, calls);
  }

  // ----- for the table

  /** Placing a piece counts its bytes, may turn the entry into a UBI one, and changes nothing else of the table. */
  lemma PlacedCounts(w: World, w1: World, w': World, k: nat, data: Text, at: nat, ready: bool, inited: bool)
    requires w.Valid() && k < |w.table| && Placed(w, w1, w', k, data, at, ready, inited)
    requires |data| == 0 || w.table[k].len > 0
    ensures Alike(Counted(w.table, k, |data|), w'.table)
    ensures w'.total == w.total && w'.need == w.need && w'.runMode == w.runMode
  {
    hide MtdPlaced, UbiPlaced, Selected, World.Valid;
    if Selected(w.table[k], w.runMode) {
      if w.table[k].kind.KindMtd? {
        MtdPlacedCounts(w, w1, w', k, data, at, inited);
      } else {
        UbiPlacedCounts(w, w', k, data, at, ready);
      }
    }
  }

  lemma MtdPlacedCounts(w: World, w1: World, w': World, k: nat, data: Text, at: nat, inited: bool)
    requires w.Valid() && k < |w.table| && MtdPlaced(w, w1, w', k, data, at, inited)
    requires |data| == 0 || w.table[k].len > 0
    ensures Alike(Counted(w.table, k, |data|), w'.table)
    ensures w'.total == w.total && w'.need == w.need && w'.runMode == w.runMode
  {
    hide WriteAnswer, FindName, CommandOf, RaisedTo, World.Valid, EnvStore.EnvStepped, AfterWrite, BootSafe;
  }

  lemma UbiPlacedCounts(w: World, w': World, k: nat, data: Text, at: nat, ready: bool)
    requires w.Valid() && k < |w.table| && UbiPlaced(w, w', k, data, at, ready)
    requires |data| == 0 || w.table[k].len > 0
    ensures Alike(Counted(w.table, k, |data|), w'.table)
    ensures w'.total == w.total && w'.need == w.need && w'.runMode == w.runMode
  {
    hide FindName, InPlace, World.Valid;
  }

  // ----- for a piece without bytes

  /** A piece without bytes for entry `k` will be placed, and change nothing. */
  ghost predicate Settled(w: World, k: nat, at: nat, ready: bool, inited: bool)
    requires w.Valid() && k < |w.table|
  {
    var e, f := w.table[k], FindPartition(w.parts, w.table[k].name);
    !Selected(e, w.runMode) ||
    match e.kind
    case KindMtd =>
      MtdOpen(w, k, [], at, inited) && (e.len == 0 || MtdWritten(w, f.value, [], at) == w)
    case KindUbi => UbiOpen(w, k, [], at, ready, 0)
    case KindUnknown => false
  }

  /** Writing no bytes leaves the flash alone, and doing it again leaves the driver's memory alone too. */
  lemma EmptyWriteSettles(w: World, i: nat, at: nat)
    requires w.Valid() && i < |w.parts|
    ensures WriteAnswer(w.WriterOf(i), [], at) == Written(0)
    ensures var w' := MtdWritten(w, i, [], at);
            w'.Valid() && NamesOf(w'.parts) == NamesOf(w.parts) && w'.table == w.table && w'.env == w.env &&
            w'.runMode == w.runMode && MtdWritten(w', i, [], at) == w'
  {
    hide CLen, ZeroTailed;
    var x := w.WriterOf(i);
    var y := AfterWrite(x, [], at);
    AfterIsWriter(w, i, [], at);
    assert y.p == x.p;
    assert w.parts[i := w.parts[i]] == w.parts;
    EmptyWriteTwice(x, at);
  }

  lemma EmptyWriteTwice(x: Writer, at: nat)
    requires x.Valid()
    ensures AfterWrite(AfterWrite(x, [], at), [], at) == AfterWrite(x, [], at)
  {
    hide CLen, ZeroTailed;
    RememberTwice(x.nameBuf, x.p.name);
  }

  lemma RememberTwice(buf: Text, name: Text)
    requires |buf| == NAME_BUFFER && PartitionName(name)
    ensures Remember(Remember(buf, name), name) == Remember(buf, name)
  {
  }

  /** Once a piece without bytes has been placed, the next one will be placed as well and change nothing: the round
      comes again for ever. */
  lemma EmptyPieceSettles(w: World, w1: World, w': World, k: nat, at: nat, ready: bool, inited: bool)
    requires w.Valid() && k < |w.table| && Placed(w, w1, w', k, [], at, ready, inited)
    ensures w'.Valid() && |w'.table| == |w.table| && Settled(w', k, at, ready, inited)
    ensures w'.table[k].written == w.table[k].written
  {
    hide Selected, FindName, CommandOf, RaisedTo, WriteAnswer, AfterWrite, EnvStore.EnvStepped, Landed, BootSafe;
    if Selected(w.table[k], w.runMode) && w.table[k].kind.KindMtd? && w.table[k].len > 0 {
      var i := FindPartition(w1.parts, w.table[k].name).value;
      EmptyWriteSettles(w1, i, at);
      var w2 := MtdWritten(w1, i, [], at);
      EmptyWriteSettles(w2, i, at);
      AdvanceNothing(w2, k);
    } else if Selected(w.table[k], w.runMode) && !w.table[k].kind.KindMtd? {
      UbiSettles(w, w', k, at, ready);
    } else {
      AdvanceNothing(w, k);
    }
  }

  /** The round that placed no bytes leaves the counters alone, so it finds the same entry again. */
  lemma EmptyRound(w: World, w1: World, w': World, k: nat, data: Text, at: nat, ready: bool, inited: bool,
                   total: nat, x: nat, unwritten: nat)
    requires w.Valid() && k < |w.table| && data == [] && Placed(w, w1, w', k, data, at, ready, inited)
    requires Locate(w.table, total, x) == Hit(k) && WriteLen(w.table[k], unwritten) == 0
    ensures w'.Valid() && |w'.table| == |w.table| && Alike(w.table, w'.table) && Settled(w', k, at, ready, inited)
    ensures Locate(w'.table, total, x) == Hit(k) && WriteLen(w'.table[k], unwritten) == 0
    ensures w'.table[k].written == w.table[k].written
  {
    hide Placed, Settled, World.Valid, FirstHit;
    EmptyPieceSettles(w, w1, w', k, at, ready, inited);
    PlacedCounts(w, w1, w', k, data, at, ready, inited);
    assert Counted(w.table, k, 0) == w.table;
    AlikeHit(w.table, w'.table, x, unwritten);
  }

  lemma AdvanceNothing(w: World, k: nat)
    requires k < |w.table|
    ensures Advance(w, k, 0) == w
  {
    assert w.table[k := w.table[k]] == w.table;
  }

  lemma UbiSettles(w: World, w': World, k: nat, at: nat, ready: bool)
    requires w.Valid() && k < |w.table| && UbiPlaced(w, w', k, [], at, ready)
    ensures w' == Marked(w, k) && w'.Valid() && UbiOpen(w', k, [], at, ready, 0)
  {
    hide FindName, Span;
    var j := FindName(w.volNames, w.table[k].name).value;
    if w.table[k].len > 0 {
      assert w'.volumes[j].bytes == w.volumes[j].bytes;
      assert w.volumes[j := w.volumes[j]] == w.volumes;
      AdvanceNothing(Marked(w, k), k);
    }
  }

  lemma SettledStays(w: World, w1: World, w': World, k: nat, at: nat, ready: bool, inited: bool, calls: nat)
    requires w.Valid() && k < |w.table| && Settled(w, k, at, ready, inited)
    ensures Open(w, k, [], at, ready, inited, calls)
    ensures Placed(w, w1, w', k, [], at, ready, inited) ==> w' == w
  {
    hide Selected, FindName, RaisedTo, WriteAnswer, AfterWrite, EnvStore.EnvStepped, BootSafe;
    AdvanceNothing(w, k);
    if Selected(w.table[k], w.runMode) && w.table[k].kind.KindUbi? {
      MarkedTwice(w, k);
      if UbiPlaced(w, w', k, [], at, ready) {
        UbiSettles(w, w', k, at, ready);
      }
    }
  }

  lemma MarkedTwice(w: World, k: nat)
    requires k < |w.table| && w.table[k].kind.KindUbi?
    ensures Marked(w, k) == w
  {
    assert w.table[k := w.table[k]] == w.table;
  }
}
