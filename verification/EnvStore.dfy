/** Loading and storing the environment: the module flags of mi_flash.c over the env partition. */
module EnvStore {
  import opened Bytes
  import opened Crc32
  import opened Nand
  import opened MtdFlash
  import opened EnvText
  import opened EnvBuffer

  const ENV_NAME: Text := "env"

  datatype FlashType = Spi | NandType | OtherType

  /** `MI_RESULT`; the last case is a call that never returns. */
  datatype MiResult = Ok | HasInited | NotInited | InvalidParameter | ErrFailed | Hangs

  // ----- images

  /** The bytes of `MI_FLASH_EnvInfo_t`: the CRC field, little-endian, and the data. */
  function Image(crc: bv32, data: Text): (img: Text)
    ensures |img| == |data| + 4
  {
    Encode32(crc) + data
  }

  function ImageCrc(img: Text): bv32
    requires |img| >= 4
  {
    Decode32(img[..4])
  }

  /** The CRC field matches the data. */
  predicate Sealed(img: Text) {
    |img| == ENV_SIZE && ImageCrc(img) == Crc(0, img[4..])
  }

  lemma ImageParts(crc: bv32, data: Text)
    ensures ImageCrc(Image(crc, data)) == crc && Image(crc, data)[4..] == data
  {
    Encode32RoundTrip(crc);
    assert Image(crc, data)[..4] == Encode32(crc);
  }

  // ----- the module state as a value

  /** The flags, and what the flash driver knows. A hung call stops everything. */
  datatype Store = Store(inited: bool, loaded: bool, parts: seq<Partition>, nameBuf: Text, curBad: nat, hung: bool) {
    ghost predicate Valid() {
      |nameBuf| == NAME_BUFFER && ZeroTailed(nameBuf) &&
      forall k :: 0 <= k < |parts| ==> parts[k].Valid() && PartitionName(parts[k].name)
    }

    function EnvIndex(): (i: Option<nat>)
      ensures i.Some? ==> i.value < |parts|
    {
      FindPartition(parts, ENV_NAME)
    }
  }

  datatype Op =
    | InitOp(scanned: bool)
    | DeInitOp
    | LoadOp(kind: FlashType)
    | StoreOp(kind: FlashType, image: Text)

  /** What `MI_FLASH_LoadEnv` reads, when it gets as far as reading. */
  function LoadedImage(s: Store): (img: Option<Text>)
    requires s.Valid()
    ensures img.Some? ==> |img.value| == ENV_SIZE
  {
    if s.EnvIndex().None? then None
    else
      match Read(s.parts[s.EnvIndex().value], ENV_SIZE, 0)
      case ReadFailed => None
      case Got(data) => Some(data)
  }

  function LoadAnswer(s: Store, kind: FlashType): MiResult
    requires s.Valid()
  {
    if !s.inited then NotInited
    else if kind.OtherType? then InvalidParameter
    else if kind.Spi? then ErrFailed
    else if LoadedImage(s).None? then ErrFailed
    else Ok  // also when the CRC does not match: `false` is `MI_OK`
  }

  function AfterLoad(s: Store, kind: FlashType): Store
    requires s.Valid()
  {
    if s.inited && kind.NandType? && LoadedImage(s).Some? && Sealed(LoadedImage(s).value)
    then s.(loaded := true) else s
  }

  /** `MI_FLASH_StoreEnv` gets as far as the write. */
  predicate StoreReaches(s: Store, kind: FlashType, image: Text) {
    s.inited && kind.NandType? && s.loaded && Sealed(image)
  }

  /** The env partition as the flash driver sees it. */
  function EnvWriter(s: Store, i: nat): (w: Writer)
    requires s.Valid() && i < |s.parts|
    ensures w.Valid()
  {
    Writer(s.parts[i], s.nameBuf, s.curBad)
  }

  function StoreAnswer(s: Store, kind: FlashType, image: Text): MiResult
    requires s.Valid()
  {
    if !s.inited then NotInited
    else if !StoreReaches(s, kind, image) || s.EnvIndex().None? then ErrFailed
    else
      match WriteAnswer(EnvWriter(s, s.EnvIndex().value), image, 0)
      case Written(n) => if n > 0 then Ok else ErrFailed
      case Failed => ErrFailed
      case Stuck => Hangs
  }

  function AfterStore(s: Store, kind: FlashType, image: Text): (s': Store)
    requires s.Valid()
    ensures s'.Valid()
  {
    if !StoreReaches(s, kind, image) || s.EnvIndex().None? then s
    else
      var i := s.EnvIndex().value;
      var w := AfterWrite(EnvWriter(s, i), image, 0);
      s.(parts := s.parts[i := w.p], nameBuf := w.nameBuf, curBad := w.bad, hung := StoreAnswer(s, kind, image).Hangs?)
  }

  function AfterInit(s: Store, scanned: bool): (s': Store)
    requires s.Valid()
    ensures s'.Valid()
  {
    if s.inited || !scanned then s
    else
      FreshName();
      s.(inited := true, nameBuf := Zeros(NAME_BUFFER))
  }

  lemma FreshName()
    ensures ZeroTailed(Zeros(NAME_BUFFER)) && CLen(Zeros(NAME_BUFFER)) == 0
  {
    CLenIs(Zeros(NAME_BUFFER), 0);
  }

  /** One call into the module. */
  function Step(s: Store, op: Op): (s': Store)
    requires s.Valid()
    ensures s'.Valid()
  {
    if s.hung then s
    else
      match op
      case InitOp(scanned) => AfterInit(s, scanned)
      case DeInitOp => s.(inited := false, loaded := false)
      case LoadOp(kind) => AfterLoad(s, kind)
      case StoreOp(kind, image) => AfterStore(s, kind, image)
  }

  function Run(s: Store, ops: seq<Op>): (s': Store)
    requires s.Valid()
    ensures s'.Valid()
    decreases |ops|
  {
    if |ops| == 0 then s else Step(Run(s, ops[..|ops| - 1]), ops[|ops| - 1])
  }

  // ----- what a load tells

  /** The answer of a load does not tell whether the CRC matched, and the flag tells only when it was down: it is
      never taken down by a load. */
  lemma LoadTellsIff(s: Store)
    requires s.Valid() && s.inited && LoadedImage(s).Some?
    ensures LoadAnswer(s, NandType) == Ok
    ensures AfterLoad(s, NandType).loaded <==> s.loaded || Sealed(LoadedImage(s).value)
  {
    hide Sealed, LoadedImage;
  }

  /** After a shutdown and a fresh start it does tell. */
  lemma FreshLoadTellsIff(s: Store)
    requires s.Valid() && !s.hung && LoadedImage(s).Some?
    ensures Run(s, [DeInitOp, InitOp(true), LoadOp(NandType)]).loaded <==> Sealed(LoadedImage(s).value)
  {
    hide Sealed, LoadedImage, Read;
    var ops := [DeInitOp, InitOp(true), LoadOp(NandType)];
    var s1 := s.(inited := false, loaded := false);
    var s2 := AfterInit(s1, true);
    RunOnce(s, ops[..0], DeInitOp);
    RunOnce(s, ops[..1], InitOp(true));
    RunOnce(s, ops[..2], LoadOp(NandType));
    assert ops[..0] + [DeInitOp] == ops[..1] && ops[..1] + [InitOp(true)] == ops[..2];
    assert ops[..2] + [LoadOp(NandType)] == ops;
    SameImage(s, s2);
  }

  lemma RunOnce(s: Store, ops: seq<Op>, op: Op)
    requires s.Valid()
    ensures Run(s, ops + [op]) == Step(Run(s, ops), op) && Run(s, []) == s
  {
    assert (ops + [op])[..|ops|] == ops;
  }

  lemma SameImage(s: Store, s': Store)
    requires s.Valid() && s'.Valid() && s'.parts == s.parts
    ensures LoadedImage(s') == LoadedImage(s)
  {
  }

  /** With the flag up from before, a load of an image whose CRC does not match answers OK and leaves the flag up. */
  lemma StaleFlagHidesMismatch(s: Store, data: Text, block: Text)
    requires |data| == ENV_DATA_SIZE && block == Image(Crc(0, data) ^ 1, data)
    requires s == Store(true, true, [Partition(ENV_NAME, ENV_SIZE, [block], [false])], Zeros(NAME_BUFFER), 0, false)
    ensures s.Valid() && LoadedImage(s) == Some(block) && !Sealed(block)
    ensures LoadAnswer(s, NandType) == Ok && AfterLoad(s, NandType).loaded
  {
    hide Read, Crc, CLen, FindName;
    FreshName();
    ImageParts(Crc(0, data) ^ 1, data);
    OtherCrc(Crc(0, data));
    var p := s.parts[0];
    OneBlockView(block);
    EnvIsFound(s.parts);
    ReadIsLogicalPrefix(p, ENV_SIZE);
    assert block[..ENV_SIZE] == block;
  }

  lemma OtherCrc(c: bv32)
    ensures c ^ 1 != c
  {
  }

  lemma OneBlockView(block: Text)
    ensures View([block], [false]) == block
  {
    assert [block][1..] == [];
  }

  lemma EnvIsFound(parts: seq<Partition>)
    requires |parts| == 1 && parts[0].name == ENV_NAME
    ensures FindPartition(parts, ENV_NAME) == Some(0)
  {
  }

  // ----- safety of every run

  /** A load that reads an image whose CRC matches. */
  ghost predicate GoodLoad(s: Store, op: Op)
    requires s.Valid()
  {
    !s.hung && s.inited && op == LoadOp(NandType) && LoadedImage(s).Some? && Sealed(LoadedImage(s).value)
  }

  /** Since step `j`, a good load, the module has not been shut down. */
  ghost predicate LoadedSince(s: Store, ops: seq<Op>, j: nat)
    requires s.Valid()
  {
    j < |ops| && GoodLoad(Run(s, ops[..j]), ops[j]) && forall k :: j < k < |ops| ==> !ops[k].DeInitOp?
  }

  lemma StepWritesOnlySealed(s: Store, op: Op)
    requires s.Valid() && Step(s, op).parts != s.parts
    ensures op.StoreOp? && op.kind == NandType && s.inited && s.loaded && !s.hung && Sealed(op.image)
  {
    hide Sealed;
  }

  lemma StepSetsFlag(s: Store, op: Op)
    requires s.Valid() && !s.hung
    ensures Step(s, op).loaded ==> (s.loaded && !op.DeInitOp?) || GoodLoad(s, op)
  {
    hide Sealed, LoadedImage;
  }

  /** The flag `_bLoadEnvSuccess` is only ever set by a good load since the last shutdown. */
  lemma {:induction false} FlagNeedsGoodLoad(s: Store, ops: seq<Op>)
    requires s.Valid() && !s.loaded
    requires Run(s, ops).loaded && !Run(s, ops).hung
    ensures exists j: nat :: LoadedSince(s, ops, j)
    decreases |ops|
  {
    hide Sealed, LoadedImage, AfterStore, AfterInit;
    var n := |ops| - 1;
    var prev, op := ops[..n], ops[n];
    StepSetsFlag(Run(s, prev), op);
    if GoodLoad(Run(s, prev), op) {
      assert LoadedSince(s, ops, n);
    } else {
      FlagNeedsGoodLoad(s, prev);
      var j: nat :| LoadedSince(s, prev, j);
      assert ops[..j] == prev[..j];
      assert LoadedSince(s, ops, j);
    }
  }

  /** Over every run from a module that has not loaded: whenever a call changes the flash, it is a store of an
      image whose CRC field matches, and an earlier load passed its CRC with no shutdown since. */
  lemma FlashIsWrittenSafely(s: Store, ops: seq<Op>, k: nat)
    requires s.Valid() && !s.loaded && k < |ops|
    requires Run(s, ops[..k + 1]).parts != Run(s, ops[..k]).parts
    ensures ops[k].StoreOp? && ops[k].kind == NandType && Sealed(ops[k].image)
    ensures exists j: nat :: LoadedSince(s, ops[..k], j)
  {
    hide Step;
    var before := Run(s, ops[..k]);
    assert ops[..k + 1][..k] == ops[..k];
    StepWritesOnlySealed(before, ops[k]);
    FlagNeedsGoodLoad(s, ops[..k]);
  }

  // ----- a loadable environment stays loadable

  /** The env partition has room and holds an image whose CRC matches. */
  ghost predicate Loadable(s: Store)
    requires s.Valid()
  {
    s.EnvIndex().Some? && |Logical(s.parts[s.EnvIndex().value])| >= ENV_SIZE &&
    Sealed(Logical(s.parts[s.EnvIndex().value])[..ENV_SIZE])
  }

  lemma LoadableIsRead(s: Store)
    requires s.Valid() && s.EnvIndex().Some? && |Logical(s.parts[s.EnvIndex().value])| >= ENV_SIZE
    ensures LoadedImage(s) == Some(Logical(s.parts[s.EnvIndex().value])[..ENV_SIZE])
  {
    ReadIsLogicalPrefix(s.parts[s.EnvIndex().value], ENV_SIZE);
  }

  /** With room, storing a sealed image on a loaded module succeeds, and that image is then what a load reads;
      every other partition is untouched. */
  lemma StoreThenLoad(s: Store, image: Text)
    requires s.Valid() && !s.hung && s.EnvIndex().Some?
    requires |Logical(s.parts[s.EnvIndex().value])| >= ENV_SIZE
    requires StoreReaches(s, NandType, image)
    ensures var s' := AfterStore(s, NandType, image);
            var i := s.EnvIndex().value;
            StoreAnswer(s, NandType, image) == Ok && !s'.hung && s'.EnvIndex() == s.EnvIndex() &&
            Logical(s'.parts[i]) == Splice(Logical(s.parts[i]), 0, image) &&
            LoadedImage(s') == Some(image) && Loadable(s') &&
            forall k :: 0 <= k < |s.parts| && k != i ==> s'.parts[k] == s.parts[k]
  {
    hide Read, Crc, Write;
    var i := s.EnvIndex().value;
    var w := EnvWriter(s, i);
    StartsInStep(w);
    CallRefinesAppend(w, image, 0);
    var s' := AfterStore(s, NandType, image);
    assert NamesOf(s'.parts) == NamesOf(s.parts);
    assert Splice(Logical(s.parts[i]), 0, image)[..ENV_SIZE] == image;
    LoadableIsRead(s');
  }

  ghost predicate AllValid(parts: seq<Partition>) {
    forall k :: 0 <= k < |parts| ==> parts[k].Valid()
  }

  ghost predicate NoEnvPartition(parts: seq<Partition>) {
    forall k :: 0 <= k < |parts| ==> !SameIgnoringCase(parts[k].name, "env")
  }

  /** The partition the environment lives in: the first one called "env", in letters of either case. */
  ghost predicate IsEnvPartition(parts: seq<Partition>, i: nat) {
    i < |parts| && SameIgnoringCase(parts[i].name, "env") &&
    forall k :: 0 <= k < i ==> !SameIgnoringCase(parts[k].name, "env")
  }

  /** `image` is what the first 128 KiB there read as, and what they hold if the good blocks are that many. */
  ghost predicate EnvReadsAs(parts: seq<Partition>, image: Text)
    requires AllValid(parts)
  {
    exists i: nat ::
      IsEnvPartition(parts, i) && Read(parts[i], 0x20000, 0) == Got(image) &&
      (|Logical(parts[i])| >= 0x20000 ==> image == Logical(parts[i])[..0x20000])
  }

  /** `image` has overwritten the first 128 KiB there, or the call hangs for lack of good blocks. */
  ghost predicate EnvOverwritten(parts: seq<Partition>, parts': seq<Partition>, image: Text, r: MiResult)
    requires AllValid(parts) && AllValid(parts') && |parts'| == |parts| && |image| == 0x20000
  {
    forall i: nat ::
      IsEnvPartition(parts, i) ==>
        if |Logical(parts[i])| >= 0x20000 then r == Ok && Logical(parts'[i]) == Splice(Logical(parts[i]), 0, image)
        else r == Hangs
  }

  ghost predicate EnvHasRoom(parts: seq<Partition>)
    requires AllValid(parts)
  {
    exists i: nat :: IsEnvPartition(parts, i) && |Logical(parts[i])| >= 0x20000
  }

  ghost predicate OthersUntouched(parts: seq<Partition>, parts': seq<Partition>) {
    |parts'| == |parts| &&
    forall k :: 0 <= k < |parts| && !SameIgnoringCase(parts[k].name, "env") ==> parts'[k] == parts[k]
  }

  lemma EnvIndexIff(s: Store)
    ensures s.EnvIndex().None? <==> NoEnvPartition(s.parts)
    ensures s.EnvIndex().Some? ==> IsEnvPartition(s.parts, s.EnvIndex().value)
    ensures forall i: nat :: IsEnvPartition(s.parts, i) ==> s.EnvIndex() == Some(i)
  {
    hide FindPartition, SameIgnoringCase;
  }

  /** A load reads there whenever there is such a partition. */
  lemma LoadOutcome(s: Store)
    requires s.Valid()
    ensures LoadedImage(s).None? <==> NoEnvPartition(s.parts)
    ensures AllValid(s.parts) && (LoadedImage(s).Some? ==> EnvReadsAs(s.parts, LoadedImage(s).value))
  {
    hide FindPartition, Read, Logical, IsEnvPartition, NoEnvPartition;
    EnvIndexIff(s);
    if s.EnvIndex().Some? {
      var p := s.parts[s.EnvIndex().value];
      ReadAtStart(p, ENV_SIZE);
      if |Logical(p)| >= ENV_SIZE {
        ReadIsLogicalPrefix(p, ENV_SIZE);
      }
    }
  }

  lemma ReadAtStart(p: Partition, len: nat)
    requires p.Valid()
    ensures Read(p, len, 0).Got?
  {
  }

  /** A store that gets as far as the write overwrites the image there and touches no partition of another name. */
  lemma StoreOutcome(s: Store, image: Text)
    requires s.Valid() && StoreReaches(s, NandType, image)
    ensures var s' := AfterStore(s, NandType, image);
            AllValid(s.parts) && AllValid(s'.parts) && |image| == 0x20000 && OthersUntouched(s.parts, s'.parts) &&
            EnvOverwritten(s.parts, s'.parts, image, StoreAnswer(s, NandType, image)) &&
            (StoreAnswer(s, NandType, image) == Ok <==> EnvHasRoom(s.parts)) &&
            (NoEnvPartition(s.parts) ==> StoreAnswer(s, NandType, image) == ErrFailed) &&
            (StoreAnswer(s, NandType, image) in {NotInited, ErrFailed} ==> s' == s)
  {
    hide Crc, FindPartition, Splice, IsEnvPartition, SameIgnoringCase, AfterWrite, WriteAnswer, Logical, CLen;
    EnvIndexIff(s);
    if s.EnvIndex().Some? {
      var i := s.EnvIndex().value;
      assert SameIgnoringCase(s.parts[i].name, "env") by { EnvIsNamed(s, i); }
      var w := EnvWriter(s, i);
      StartsInStep(w);
      CallRefinesAppend(w, image, 0);
    }
  }

  lemma EnvIsNamed(s: Store, i: nat)
    requires s.EnvIndex() == Some(i)
    ensures SameIgnoringCase(s.parts[i].name, "env")
  {
    EnvIndexIff(s);
  }

  /** No sequence of calls, in any order and with any images, makes a loadable environment unloadable. */
  lemma {:induction false} LoadableForEver(s: Store, ops: seq<Op>)
    requires s.Valid() && !s.hung && Loadable(s)
    ensures Loadable(Run(s, ops)) && !Run(s, ops).hung
    decreases |ops|
  {
    hide Loadable, Step;
    if |ops| > 0 {
      LoadableForEver(s, ops[..|ops| - 1]);
      LoadableStep(Run(s, ops[..|ops| - 1]), ops[|ops| - 1]);
    }
  }

  lemma LoadableStep(s: Store, op: Op)
    requires s.Valid() && !s.hung && Loadable(s)
    ensures Loadable(Step(s, op)) && !Step(s, op).hung
  {
    hide Sealed, LoadedImage, AfterWrite;
    if op.StoreOp? && StoreReaches(s, op.kind, op.image) {
      StoreThenLoad(s, op.image);
    }
  }

  // ----- the whole round trip

  /** Store, then load, an environment that holds what a set leaves: the load passes, the buffer can be read, the
      variable is there, and every other one is as it was, for every bad-block map with room. `data` is the
      environment before the set, `edited` the one after it. */
  lemma EnvironmentRoundTrip(s: Store, data: Text, edited: Text, name: Text, value: Text)
    requires s.Valid() && !s.hung && s.inited && s.loaded && s.EnvIndex().Some?
    requires |Logical(s.parts[s.EnvIndex().value])| >= ENV_SIZE
    requires WellFormed(data) && '=' !in name && |Without(Records(data), name)| > 0
    requires |edited| == ENV_DATA_SIZE && Terminated(edited) && Records(edited) == AfterSet(Records(data), name, value)
    requires Readable(Record(name, value))
    ensures var image := Image(Crc(0, edited), edited);
            var s' := AfterStore(s, NandType, image);
            StoreAnswer(s, NandType, image) == Ok && LoadedImage(s') == Some(image) &&
            GoodLoad(s', LoadOp(NandType)) && AfterLoad(s', NandType).loaded
    ensures WellFormed(edited) && Lookup(Records(edited), name) == Some(value)
    ensures forall other :: other != name ==> Lookup(Records(edited), other) == Lookup(Records(data), other)
  {
    hide Crc, Pack, Records, Terminated, Splice, Lookup, Without, StoreAnswer, AfterWrite, LoadedImage, WellFormed,
         Logical, Readable, Record;
    var image := Image(Crc(0, edited), edited);
    ImageParts(Crc(0, edited), edited);
    StoreThenLoad(s, image);
    SetIsReadBackIff(Records(data), name, value);
    SetIsReadable(data, edited, name, value);
    forall other | other != name
      ensures Lookup(Records(edited), other) == Lookup(Records(data), other)
    {
      SetKeepsOthers(Records(data), name, value, other);
    }
  }

  lemma SetIsReadable(data: Text, edited: Text, name: Text, value: Text)
    requires WellFormed(data) && Terminated(edited) && Records(edited) == AfterSet(Records(data), name, value)
    requires Readable(Record(name, value))
    ensures WellFormed(edited)
  {
    hide Records, Terminated, Without;
    forall r | r in Records(edited)
      ensures Readable(r)
    {
      var kept := Without(Records(data), name);
      assert r == Record(name, value) || r in kept;
    }
  }

  /** What a store leaves of the flash driver's state: at most the env partition and the memory of names. */
  ghost predicate EnvStepped(parts: seq<Partition>, nameBuf: Text, parts': seq<Partition>, nameBuf': Text) {
    (parts' == parts && nameBuf' == nameBuf) ||
    (FindPartition(parts, ENV_NAME).Some? && |parts'| == |parts| &&
     var i := FindPartition(parts, ENV_NAME).value;
     parts' == parts[i := parts'[i]] && parts'[i].name == parts[i].name &&
     (CLen(nameBuf') <= CLen(nameBuf) || CLen(nameBuf') <= |parts[i].name|))
  }

  lemma StoreSteps(s: Store, kind: FlashType, image: Text)
    requires s.Valid()
    ensures var s' := AfterStore(s, kind, image);
            EnvStepped(s.parts, s.nameBuf, s'.parts, s'.nameBuf)
  {
    hide Sealed, CLen, Write;
    if s.EnvIndex().Some? {
      RememberedIff(s.nameBuf, s.parts[s.EnvIndex().value].name);
    }
  }
}
