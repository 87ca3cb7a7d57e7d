/** The environment functions of mi_flash.c as they run: module flags, flash driver, CRC table and the
    caller's buffer, each call proved to be one step of the state machine of module EnvStore. */
module EnvFlash {
  import opened Bytes
  import opened Crc32
  import opened Nand
  import opened MtdFlash
  import opened EnvText
  import opened EnvBuffer
  import opened EnvStore

  lemma DecodeEncode(w: Text)
    requires |w| == 4
    ensures Encode32(Decode32(w)) == w
  {
    Encode32RoundTrip(Decode32(w));
    WordInjective(Encode32(Decode32(w)), w);
  }

  lemma StoreRefused(s: Store, kind: FlashType, image: Text)
    requires s.Valid() && !StoreReaches(s, kind, image)
    ensures StoreAnswer(s, kind, image) == if s.inited then ErrFailed else NotInited
    ensures AfterStore(s, kind, image) == s
  {
    hide Sealed;
  }

  lemma SealedIff(crc: bv32, data: Text)
    requires |data| == ENV_DATA_SIZE
    ensures Sealed(Image(crc, data)) <==> crc == Crc(0, data)
  {
    hide Crc, Image;
    ImageParts(crc, data);
  }

  class FlashModule {
    const mtd: Mtd
    const engine: CrcEngine
    var inited: bool
    var loadedNand: bool

    ghost predicate Valid()
      reads this, mtd, engine, engine.table
    {
      mtd.Valid() && engine.Valid()
    }

    /** The state of the state machine; a call that hangs does not return to show it. */
    ghost function State(): (s: Store)
      reads this, mtd
    {
      Store(inited, loadedNand, mtd.parts, mtd.nameBuf, mtd.curBad, false)
    }

    constructor (flash: Mtd)
      requires flash.Valid()
      ensures Valid() && mtd == flash && !inited && !loadedNand && fresh(engine) && fresh(engine.table)
    {
      mtd := flash;
      engine := new CrcEngine();
      inited := false;
      loadedNand := false;
    }

    /** `MI_FLASH_Init`; the partition scan is device plumbing and only its outcome enters. */
    method Init(scanned: bool) returns (r: MiResult)
      requires Valid()
      modifies this`inited, mtd`nameBuf
      ensures Valid() && State() == AfterInit(old(State()), scanned)
      ensures inited == (old(inited) || scanned) && loadedNand == old(loadedNand)
      ensures mtd.nameBuf == if !old(inited) && scanned then Zeros(64) else old(mtd.nameBuf)
      ensures r == if old(inited) then HasInited else if scanned then Ok else ErrFailed
    {
      if inited {
        return HasInited;
      }
      if !scanned {
        return ErrFailed;
      }
      FreshName();
      mtd.nameBuf := Zeros(NAME_BUFFER);
      inited := true;
      r := Ok;
    }

    /** `MI_FLASH_DeInit`. */
    method DeInit() returns (r: MiResult)
      requires Valid()
      modifies this
      ensures Valid() && State() == Step(old(State()), DeInitOp) && r == Ok
      ensures !inited && !loadedNand && mtd.parts == old(mtd.parts)
    {
      inited := false;
      loadedNand := false;
      r := Ok;
    }

    /** `MI_FLASH_LoadEnv`. The buffer is overwritten even when the CRC does not match, and the answer is then
        `false`, which is `MI_OK`; the flag tells, if it was down before. */
    method LoadEnv(kind: FlashType, env: EnvInfo) returns (r: MiResult)
      requires Valid() && env.Valid()
      modifies this`loadedNand, env, env.data, engine, engine.table
      ensures Valid()
      ensures r == LoadAnswer(old(State()), kind) && State() == AfterLoad(old(State()), kind)
      ensures r == if !inited then NotInited else if kind == OtherType then InvalidParameter
                   else if kind == Spi || NoEnvPartition(mtd.parts) then ErrFailed else Ok
      ensures r == Ok ==> AllValid(mtd.parts) && EnvReadsAs(mtd.parts, Encode32(env.crc) + env.data[..])
      ensures r == Ok ==> (loadedNand <==> old(loadedNand) || env.crc == Crc(0, env.data[..]))
      ensures r == Ok ==> Some(Image(env.crc, env.data[..])) == LoadedImage(old(State()))
      ensures r != Ok ==> loadedNand == old(loadedNand)
      ensures r != Ok ==> env.crc == old(env.crc) && env.data[..] == old(env.data[..])
    {
      hide Read, Crc, Encode32, Decode32, FindPartition, EnvReadsAs, NoEnvPartition;
      LoadOutcome(State());
      if !inited {
        return NotInited;
      }
      if kind.OtherType? {
        return InvalidParameter;
      }
      if kind.Spi? {
        return ErrFailed;
      }
      var found := FindPartition(mtd.parts, ENV_NAME);
      if found.None? {
        return ErrFailed;
      }
      var got := mtd.ReadData(found.value, ENV_SIZE, 0);
      if got.ReadFailed? {
        return ErrFailed;
      }
      env.crc := Decode32(got.data[..4]);
      MemCpy(env.data, 0, got.data[4..]);
      assert env.data[..] == got.data[4..];
      DecodeEncode(got.data[..4]);
      assert got.data == got.data[..4] + got.data[4..];
      var crc := engine.Compute(0, env.data[..]);
      if env.crc != crc {
        return Ok;
      }
      loadedNand := true;
      r := Ok;
    }

    /** The write side of `_MI_NAND_RwENVPartition`. */
    method WriteEnvPartition(image: Text) returns (r: MiResult)
      requires Valid() && StoreReaches(State(), NandType, image)
      modifies mtd
      ensures Valid()
      ensures r == StoreAnswer(old(State()), NandType, image)
      ensures State() == AfterStore(old(State()), NandType, image).(hung := false)
    {
      hide Write, Sealed, Encode32, Decode32;
      ghost var before := State();
      var found := FindPartition(mtd.parts, ENV_NAME);
      if found.None? {
        return ErrFailed;
      }
      ghost var w := EnvWriter(before, found.value);
      var wrote := mtd.WriteData(found.value, image, 0);
      assert wrote == WriteAnswer(w, image, 0);
      r := match wrote
           case Written(n) => if n > 0 then Ok else ErrFailed
           case Failed => ErrFailed
           case Stuck => Hangs;
    }

    /** `MI_FLASH_StoreEnv`. */
    method StoreEnv(kind: FlashType, env: EnvInfo) returns (r: MiResult)
      requires Valid() && env.Valid()
      modifies mtd, engine, engine.table
      ensures Valid()
      ensures var image := Image(env.crc, env.data[..]);
              r == StoreAnswer(old(State()), kind, image) &&
              State() == AfterStore(old(State()), kind, image).(hung := false)
      ensures !inited ==> r == NotInited
      ensures inited && (kind != NandType || !loadedNand || env.crc != Crc(0, env.data[..])) ==> r == ErrFailed
      ensures inited && NoEnvPartition(old(mtd.parts)) ==> r == ErrFailed
      ensures inited && kind == NandType && loadedNand && env.crc == Crc(0, env.data[..]) ==>
                AllValid(old(mtd.parts)) && AllValid(mtd.parts) && |mtd.parts| == |old(mtd.parts)| &&
                EnvOverwritten(old(mtd.parts), mtd.parts, Encode32(env.crc) + env.data[..], r)
      ensures r == Ok <==> inited && kind == NandType && loadedNand && env.crc == Crc(0, env.data[..]) &&
                           AllValid(old(mtd.parts)) && EnvHasRoom(old(mtd.parts))
      ensures r in {NotInited, ErrFailed} ==> mtd.parts == old(mtd.parts)
      ensures OthersUntouched(old(mtd.parts), mtd.parts)
    {
      hide StoreAnswer, AfterStore, Sealed, Crc, FindPartition, EnvOverwritten, EnvHasRoom, NoEnvPartition, Encode32;
      ghost var before, image := State(), Image(env.crc, env.data[..]);
      EnvIndexIff(before);
      if StoreReaches(before, kind, image) {
        StoreOutcome(before, image);
      }
      if !StoreReaches(before, kind, image) {
        StoreRefused(before, kind, image);
      }
      if !inited {
        return NotInited;
      }
      if !kind.NandType? {
        return ErrFailed;
      }
      if !loadedNand {
        return ErrFailed;
      }
      var crc := engine.Compute(0, env.data[..]);
      SealedIff(env.crc, env.data[..]);
      if env.crc != crc {
        return ErrFailed;
      }
      r := WriteEnvPartition(Image(env.crc, env.data[..]));
    }

    /** `MI_FLASH_GetEnvVar`. */
    method GetEnvVar(env: EnvInfo, name: Text) returns (r: MiResult, value: Text)
      requires Valid() && env.Valid() && WellFormed(env.data[..])
      ensures r == if !inited then NotInited else if Lookup(Records(env.data[..]), name).Some? then Ok else ErrFailed
      ensures r == Ok ==> Lookup(Records(env.data[..]), name) == Some(value)
    {
      if !inited {
        return NotInited, [];
      }
      var v := env.GetVar(name);
      if v.None? {
        return ErrFailed, [];
      }
      r, value := Ok, v.value;
    }

    /** `MI_FLASH_SetEnvVar`. */
    method SetEnvVar(env: EnvInfo, name: Text, value: Text) returns (r: MiResult)
      requires Valid() && env.Valid() && WellFormed(env.data[..])
      requires NUL !in name && NUL !in value
      modifies env, env.data, engine, engine.table
      ensures Valid()
      ensures var recs := Records(old(env.data[..]));
              r == (if !inited then NotInited
                    else if Fits(Without(recs, name), name, value) then Ok else ErrFailed) &&
              (r == Ok ==> env.crc == Crc(0, env.data[..]) && Terminated(env.data[..]) &&
                           Records(env.data[..]) == AfterSet(recs, name, value)) &&
              (r == ErrFailed ==> env.crc == 0)
      ensures var kept := Without(Records(old(env.data[..])), name);
              (r == Ok ==>
                inited && (if |kept| == 0 then 1 else |Pack(kept)|) + |name| + 1 + |value| + 2 <= 0x1fffc &&
                Records(env.data[..]) == if |kept| == 0 then [] else kept + [name + "=" + value]) &&
              (r == ErrFailed ==> (if |kept| == 0 then 1 else |Pack(kept)|) + |name| + 1 + |value| + 2 > 0x1fffc)
      ensures r == NotInited ==> env.crc == old(env.crc) && env.data[..] == old(env.data[..])
    {
      if !inited {
        return NotInited;
      }
      var ok := env.SetVar(engine, name, value);
      r := if ok then Ok else ErrFailed;
    }
  }

  /** The four calls in a row: set a variable, store, load back, get. With another record left, room in the array and
      room on the flash, the value set is got, the buffer can be read again, and every other variable is unchanged. */
  method SetStoreLoadGet(m: FlashModule, env: EnvInfo, name: Text, value: Text) returns (r: MiResult, got: Text)
    requires m.Valid() && env.Valid() && m.inited && m.loadedNand
    requires m.State().EnvIndex().Some? && |Logical(m.mtd.parts[m.State().EnvIndex().value])| >= ENV_SIZE
    requires WellFormed(env.data[..]) && Readable(Record(name, value))
    requires NUL !in name && NUL !in value && '=' !in name
    requires var kept := Without(Records(env.data[..]), name); |kept| > 0 && Fits(kept, name, value)
    modifies m, m.mtd, m.engine, m.engine.table, env, env.data
    ensures m.Valid() && r == Ok && got == value
    ensures WellFormed(env.data[..]) && env.crc == Crc(0, env.data[..])
    ensures forall other :: other != name ==>
              Lookup(Records(env.data[..]), other) == Lookup(Records(old(env.data[..])), other)
  {
    hide Crc, Pack, Records, Terminated, Lookup, Without, StoreAnswer, AfterStore, LoadedImage, Image, Sealed, Logical,
         Readable, Record, Fits, EnvReadsAs, EnvOverwritten, EnvHasRoom, OthersUntouched, NoEnvPartition, AllValid,
         Encode32;
    ghost var data, s := env.data[..], m.State();
    var answer := m.SetEnvVar(env, name, value);
    ghost var edited := env.data[..];
    EnvironmentRoundTrip(s, data, edited, name, value);
    answer := m.StoreEnv(NandType, env);
    answer := m.LoadEnv(NandType, env);
    ImageParts(Crc(0, edited), edited);
    ImageParts(env.crc, env.data[..]);
    assert env.data[..] == edited;
    r, got := m.GetEnvVar(env, name);
  }
}
