/** The OTA updater of mi_loader.c as it runs: table parser, boot commands, and the distributor that scatters
    an image, arriving in chunks, over NAND partitions and UBI volumes. */
module OtaUpdate {
  import opened Bytes
  import opened Crc32
  import opened Numbers
  import opened Nand
  import opened MtdFlash
  import opened UbiVolume
  import opened EnvText
  import opened EnvBuffer
  import opened EnvStore
  import opened EnvFlash
  import opened BootCmd
  import OtaTable
  import opened OtaWalk
  import opened OtaPlan
  import opened OtaPiece

  type Entry = OtaTable.Entry

  /** How a call ends: TRUE, FALSE, never, because a flash write does not return (`Hang`) or because the distributor's
      loop does not (`Spin`), or in volume management outside this model. */
  datatype CallEnd = Yes | No | Hang | Spin | Outside

  /** The module state of mi_loader.c and what it works on. */
  class Loader {
    const flash: FlashModule
    const ubi: UbiDevice
    const curEnv: EnvInfo
    const table: array<Entry>
    var total: nat
    var need: nat
    var runMode: int
    var prepared: bool

    ghost predicate Valid()
      reads this, flash, flash.mtd, flash.engine, flash.engine.table, ubi, curEnv
    {
      table.Length == OtaTable.OTA_PARTITION_MAX && flash.Valid() && ubi.Valid() && curEnv.Valid()
    }

    /** The state `prepare_ota` leaves: run mode read from the environment, UBI opened, nothing parsed yet. */
    constructor (f: FlashModule, u: UbiDevice, e: EnvInfo, mode: int, isPrepared: bool)
      requires f.Valid() && u.Valid() && e.Valid()
      ensures Valid() && flash == f && ubi == u && curEnv == e && fresh(table)
      ensures runMode == mode && prepared == isPrepared && total == 0 && need == 0
    {
      flash, ubi, curEnv := f, u, e;
      table := new Entry[OtaTable.OTA_PARTITION_MAX](_ => OtaTable.EMPTY);
      total, need, runMode, prepared := 0, 0, mode, isPrepared;
    }

    ghost function TheWorld(): (w: World)
      reads this, table, flash, flash.mtd, ubi, curEnv, curEnv.data
    {
      World(table[..], total, need, runMode, flash.mtd.parts, flash.mtd.nameBuf, flash.mtd.curBad,
            ubi.volumes, ubi.names, curEnv.data[..])
    }

    lemma WorldFields()
      ensures var w := TheWorld();
              w.table == table[..] && w.need == need && w.volumes == ubi.volumes && w.volNames == ubi.names &&
              w.parts == flash.mtd.parts && w.env == curEnv.data[..]
    {
    }

    // ----- environment access

    /** `ms_setenv`. */
    method SetEnv(name: Text, value: Text) returns (r: CallEnd)
      requires Valid() && WellFormed(curEnv.data[..]) && NUL !in name && NUL !in value
      modifies curEnv, curEnv.data, flash.mtd, flash.engine, flash.engine.table
      ensures Valid()
      ensures r == Yes ==>
                Terminated(curEnv.data[..]) &&
                Records(curEnv.data[..]) == AfterSet(Records(old(curEnv.data[..])), name, value) &&
                curEnv.crc == Crc(0, curEnv.data[..])
      ensures var image := Image(curEnv.crc, curEnv.data[..]);
              r == Yes ==>
                StoreAnswer(old(flash.State()), NandType, image) == MiResult.Ok &&
                flash.State() == AfterStore(old(flash.State()), NandType, image).(hung := false)
      ensures EnvStepped(old(flash.mtd.parts), old(flash.mtd.nameBuf), flash.mtd.parts, flash.mtd.nameBuf)
      ensures r in {Yes, No, Hang}
      ensures r == Yes <==> Storable(flash.inited, flash.loadedNand, old(flash.mtd.parts)) &&
                            Fits(Without(Records(old(curEnv.data[..])), name), name, value)
    {
      hide Crc, Records, Terminated, StoreAnswer, AfterStore, Image, Sealed, AfterSet, EnvOverwritten, EnvHasRoom, Fits,
           OthersUntouched, NoEnvPartition, Without;
      var outcome := flash.SetEnvVar(curEnv, name, value);
      if outcome != MiResult.Ok {
        return No;
      }
      var stored := flash.StoreEnv(NandType, curEnv);
      StoreSteps(old(flash.State()), NandType, Image(curEnv.crc, curEnv.data[..]));
      r := if stored == MiResult.Ok then Yes else if stored == Hangs then Hang else No;
    }

    /** `ms_getenv`. */
    method GetEnv(name: Text) returns (r: CallEnd, value: Text)
      requires Valid() && WellFormed(curEnv.data[..])
      ensures r == if flash.inited && Lookup(Records(curEnv.data[..]), name).Some? then Yes else No
      ensures r == Yes ==> Lookup(Records(curEnv.data[..]), name) == Some(value)
    {
      var got;
      got, value := flash.GetEnvVar(curEnv, name);
      r := if got == MiResult.Ok then Yes else No;
    }

    /** The first half of `update_bootcmd` and `update_recoverycmd`: the image size now in a boot command. */
    method BootSize(cmd: Command) returns (s: SizeIn)
      requires Valid() && BootSafe(curEnv.data[..]) && IsBootCommand(cmd)
      ensures s == if flash.inited then SizeInEnv(curEnv.data[..], cmd) else NotThere
    {
      hide Records, Terminated, ReadSize, CLen;
      ghost var env := curEnv.data[..];
      var got, value := GetEnv(cmd.variable);
      if got != Yes {
        return NotThere;
      }
      FoundIsShort(Records(env), cmd.variable);
      SafeIsNotGarbled(env, cmd);
      s := SizeInCommand(value, cmd);
    }

    /** `update_bootcmd` and `update_recoverycmd`: raise the image size in a boot command, never lower it. */
    method UpdateBoot(cmd: Command, size: nat) returns (r: CallEnd)
      requires Valid() && BootSafe(curEnv.data[..]) && IsBootCommand(cmd) && size < WORD
      modifies curEnv, curEnv.data, flash.mtd, flash.engine, flash.engine.table
      ensures Valid() && r in {Yes, No, Hang}
      ensures EnvStepped(old(flash.mtd.parts), old(flash.mtd.nameBuf), flash.mtd.parts, flash.mtd.nameBuf)
      ensures var was := SizeInEnv(old(curEnv.data[..]), cmd);
              (!was.Size? || size <= was.n ==>
                flash.State() == old(flash.State()) && curEnv.data[..] == old(curEnv.data[..])) &&
              (was.Size? && size <= was.n && flash.inited ==> r == Yes) &&
              (r == Yes ==>
                flash.inited && was.Size? && BootSafe(curEnv.data[..]) &&
                SizeInEnv(curEnv.data[..], cmd) == Size(if size <= was.n then was.n else size) &&
                forall other :: IsBootCommand(other) && other != cmd ==>
                  SizeInEnv(curEnv.data[..], other) == SizeInEnv(old(curEnv.data[..]), other)) &&
              (r == Yes && size > was.n ==>
                Lookup(Records(curEnv.data[..]), cmd.variable) == Some(CommandText(size, cmd)))
      ensures r == Yes <==>
                Raisable(old(curEnv.data[..]), cmd, size, flash.inited, flash.loadedNand, old(flash.mtd.parts))
    {
      hide Storable, Fits, Without, Crc, Records, Terminated, StoreAnswer, AfterStore, Image, Sealed, CLen, SizeInEnv,
           Hex;
      ghost var env := curEnv.data[..];
      var present := BootSize(cmd);
      if !present.Size? {
        return No;
      }
      if size <= present.n {
        return Yes;
      }
      SizeRoundTrip(size, cmd);
      CommandIsReadable(size, cmd);
      SafeIsReadable(env);
      r := SetEnv(cmd.variable, READ + cmd.mark + SPACE + Hex(size) + BootCmd.SEMICOLON + BOOT);
      if r == Yes {
        AssignedInEnv(env, cmd, size);
        RaisedInEnv(env, curEnv.data[..], cmd, size);
        AssignedIsFoundIff(Records(env), cmd.variable, CommandText(size, cmd));
      }
    }

    /** The table as the code needs it: the boot command must be readable before it is raised. */
    ghost predicate Usable()
      reads this, table, flash, flash.mtd, flash.engine, flash.engine.table, ubi, curEnv, curEnv.data
    {
      Valid() && BootSafe(curEnv.data[..]) && forall k :: 0 <= k < table.Length ==> table[k].len < WORD
    }

    lemma UsableIsValid()
      requires Usable()
      ensures Valid()
    {
    }

    // ----- one piece of an entry

    /** `MI_FLASH_MTD_WRITE`. */
    method MtdWrite(name: Text, data: Text, offset: nat) returns (r: WriteResult)
      requires Valid()
      modifies flash.mtd
      ensures Valid() && table[..] == old(table[..]) && (old(Usable()) ==> Usable())
      ensures var w, f := old(TheWorld()), FindPartition(old(flash.mtd.parts), name);
              if f.None? then r == Failed && TheWorld() == w
              else r == WriteAnswer(w.WriterOf(f.value), data, offset) &&
                   TheWorld() == MtdWritten(w, f.value, data, offset)
    {
      hide Nand.Write, FindName;
      var found := FindPartition(flash.mtd.parts, name);
      if found.None? {
        return Failed;
      }
      r := flash.mtd.WriteData(found.value, data, offset);
    }

    /** The boot commands an MTD entry raises before it is written. */
    method RaiseBootCommands(k: nat) returns (r: CallEnd)
      requires Usable() && k < table.Length
      modifies curEnv, curEnv.data, flash.mtd, flash.engine, flash.engine.table
      ensures Valid() && r in {Yes, No, Hang}
      ensures EnvStepped(old(flash.mtd.parts), old(flash.mtd.nameBuf), flash.mtd.parts, flash.mtd.nameBuf)
      ensures table[..] == old(table[..])
      ensures r == Yes ==> Usable() && old(TheWorld().Valid()) &&
                           BootStep(old(TheWorld()), TheWorld(), old(table[k].name), old(table[k].len)) &&
                           BootRaised(old(curEnv.data[..]), curEnv.data[..], old(table[k].name), old(table[k].len)) &&
                           (CommandOf(old(table[k].name)).Some? ==> flash.inited)
      ensures var e := old(table[k]);
              CommandOf(e.name).None? || RaisedTo(old(curEnv.data[..]), e.name, e.len) ==>
                TheWorld() == old(TheWorld()) && (CommandOf(e.name).None? || flash.inited ==> r == Yes)
      ensures r == Yes <==> CanRaise(old(TheWorld()), old(table[k]), flash.inited, flash.loadedNand)
    {
      hide Raisable, BootSafe, SizeInEnv, EnvStepped, BootStep, BootRaised, World.Valid;
      var e := table[k];
      ghost var w := TheWorld();
      UsableWorld();
      NameIsOneOrOther(e.name);
      NothingStepped(flash.mtd.parts, flash.mtd.nameBuf);
      r := Yes;
      if SameIgnoringCase(e.name, KERNEL_NAME) {
        r := UpdateBoot(KERNEL_CMD, e.len);
        if r != Yes {
          return;
        }
        StillUsable(w, TheWorld());
        OneRaised(w, TheWorld(), KERNEL_CMD, e.name, e.len);
      }
      if SameIgnoringCase(e.name, RECOVERY_NAME) {
        r := UpdateBoot(RECOVERY_CMD, e.len);
        if r == Yes {
          StillUsable(w, TheWorld());
          OneRaised(w, TheWorld(), RECOVERY_CMD, e.name, e.len);
        }
      }
      if CommandOf(e.name).None? {
        NoneRaised(w, e.name, e.len);
      }
    }

    /** `haswrite += n`. */
    method Count(k: nat, n: nat)
      requires Valid() && k < table.Length
      modifies table
      ensures Valid() && (old(Usable()) ==> Usable()) && TheWorld() == Advance(old(TheWorld()), k, n)
    {
      table[k] := table[k].(written := table[k].written + n);
    }

    /** The test `partition_type = TYPE_PARTITION_UBI`, which assigns. */
    method MarkUbi(k: nat)
      requires Valid() && k < table.Length
      modifies table
      ensures Valid() && (old(Usable()) ==> Usable()) && TheWorld() == Marked(old(TheWorld()), k)
    {
      table[k] := table[k].(kind := OtaTable.KindUbi);
    }

    /** The volume of that name, if the device is open and the volume is not too small. */
    method VolumeFor(name: Text, len: nat) returns (id: Option<nat>)
      requires Valid()
      ensures id.Some? ==> FindName(ubi.names, name) == id
      ensures id.Some? ==> ubi.ready && Named(ubi.names, name) && len <= |ubi.volumes[id.value].bytes| % 0x1_0000_0000
      ensures id.None? && len == 0 ==> !ubi.ready || !Named(ubi.names, name)
      ensures var found := FindName(ubi.names, name);
              id.Some? <==> ubi.ready && found.Some? && found.value < |ubi.volumes| &&
                            len <= |ubi.volumes[found.value].bytes| % WORD
    {
      hide FindName;
      if !ubi.ready {
        return None;
      }
      id := FindName(ubi.names, name);
      if id.Some? {
        var size := |ubi.volumes[id.value].bytes| % WORD;
        if size < len {
          return None;
        }
      }
    }

    /** `MI_UBI_WriteVolumeBytes` on the open device. */
    method UbiWrite(id: nat, data: Text, at: nat) returns (n: int)
      requires Valid() && ubi.ready && id < |ubi.volumes|
      modifies ubi`volumes, ubi`calls
      ensures Valid() && (old(Usable()) ==> Usable())
      ensures table[..] == old(table[..]) && |ubi.volumes| == |old(ubi.volumes)|
      ensures n == Landed(old(ubi.volumes)[id], old(ubi.calls), at, |data|)
      ensures InPlace(old(ubi.volumes)[id].bytes, ubi.volumes[id].bytes, at, data, n)
      ensures TheWorld() == UbiWritten(old(TheWorld()), id, ubi.volumes[id].bytes)
    {
      hide Landed, InPlace;
      n := ubi.WriteVolumeBytes(id, at, data);
    }

    lemma UsableWorld()
      requires Usable()
      ensures Valid() && TheWorld().Valid() && |TheWorld().table| == table.Length
    {
      hide BootSafe;
    }

    /** `update_partition` for an MTD entry. */
    method UpdateMtd(k: nat, data: Text, at: nat) returns (r: CallEnd, ghost w1: World)
      requires Usable() && TheWorld().Valid() && k < table.Length && table[k].kind.KindMtd?
      modifies table, curEnv, curEnv.data, flash.mtd, flash.engine, flash.engine.table
      ensures Valid() && r in {Yes, No, Hang} && (r == Yes ==> Usable())
      ensures r == Yes ==> MtdPlaced(old(TheWorld()), w1, TheWorld(), k, data, at, flash.inited)
      ensures r == Yes && old(table[k].len) > 0 ==>
                BootRaised(old(curEnv.data[..]), curEnv.data[..], old(table[k].name), old(table[k].len))
      ensures old(MtdOpen(TheWorld(), k, data, at, flash.inited)) ==> r == Yes
      ensures old(table[k]).upgrade != OtaTable.UpUpdate ==> r == No
      ensures old(table[k]).upgrade == OtaTable.UpUpdate && old(table[k]).len > 0 ==>
                (r == Yes <==>
                  old(CanRaise(TheWorld(), table[k], flash.inited, flash.loadedNand)) &&
                  w1.Valid() && Writable(w1, old(table[k]).name, data, at))
      ensures old(table[k]).upgrade == OtaTable.UpUpdate && old(table[k]).len == 0 ==>
                r == Yes && TheWorld() == old(TheWorld())
    {
      hide BootStep, BootRaised, WriteAnswer, MtdWritten, SizeInEnv, EnvStepped, FindName, RaisedTo, BootSafe,
           CommandOf, WellFormed, World.Valid, Loader.Valid, Usable, CanRaise;
      w1 := TheWorld();
      var e := table[k];
      UsableWorld();
      if !e.upgrade.UpUpdate? {
        return No, w1;
      }
      if e.len == 0 {
        return Yes, w1;
      }
      r := RaiseBootCommands(k);
      if r != Yes {
        return;
      }
      w1 := TheWorld();
      UsableWorld();
      var wrote := MtdWrite(e.name, data, at);
      if wrote != Written(|data|) {
        return if wrote == Stuck then Hang else No, w1;
      }
      Count(k, |data|);
    }

    /** `update_partition` for any other entry; the test of its kind is written as an assignment. */
    method UpdateUbi(k: nat, data: Text, at: nat) returns (r: CallEnd)
      requires Usable() && TheWorld().Valid() && k < table.Length
      modifies table, ubi`volumes, ubi`calls
      ensures Valid() && r in {Yes, No, Outside} && (r == Yes ==> Usable())
      ensures r == Outside <==> !old(table[k].upgrade).UpUpdate?
      ensures table[k] == old(table[k]).(kind := OtaTable.KindUbi, written := table[k].written)
      ensures old(table[k]).upgrade == OtaTable.UpUpdate && old(table[k]).len == 0 ==>
                ubi.volumes == old(ubi.volumes) && (r == Yes <==> ubi.ready && Named(ubi.names, old(table[k]).name))
      ensures r == Yes ==> UbiPlaced(old(TheWorld()), TheWorld(), k, data, at, ubi.ready)
      ensures r == Yes <==> old(UbiOpen(TheWorld(), k, data, at, ubi.ready, ubi.calls))
    {
      hide InPlace, Landed, FindName, World.Valid, Loader.Valid, Usable, Named;
      UsableIsValid();
      var e := table[k];
      MarkUbi(k);
      if !e.upgrade.UpUpdate? {
        return Outside;
      }
      var id := VolumeFor(e.name, e.len);
      if id.None? {
        return No;
      }
      if e.len == 0 {
        return Yes;
      }
      var n := UbiWrite(id.value, data, at);
      if n < |data| {
        return No;
      }
      Count(k, |data|);
      r := Yes;
    }

    /** `update_partition`, or only a count, as the run mode says. */
    method PlacePiece(k: nat, data: Text, at: nat) returns (r: CallEnd, ghost w1: World)
      requires Usable() && TheWorld().Valid() && k < table.Length
      modifies table, curEnv, curEnv.data, flash.mtd, flash.engine, flash.engine.table, ubi`volumes, ubi`calls
      ensures Valid() && r != Spin && (r == Yes ==> Usable())
      ensures r == Outside ==> !old(table[k].upgrade).UpUpdate?
      ensures r == Yes ==> Placed(old(TheWorld()), w1, TheWorld(), k, data, at, ubi.ready, flash.inited)
      ensures r == Yes && !ForThisRun(old(table[k]), runMode) ==>
                flash.mtd.parts == old(flash.mtd.parts) && flash.mtd.nameBuf == old(flash.mtd.nameBuf) &&
                ubi.volumes == old(ubi.volumes) && curEnv.data[..] == old(curEnv.data[..]) &&
                table[..] == old(table[..])[k := old(table[k]).(written := old(table[k]).written + |data|)]
      ensures old(Open(TheWorld(), k, data, at, ubi.ready, flash.inited, ubi.calls)) ==> r == Yes
    {
      hide Find, MtdPlaced, UbiPlaced, MtdOpen, UbiOpen, World.Valid, Loader.Valid, Usable, ForThisRun;
      SelectedIff(table[k], runMode);
      UsableIsValid();
      w1 := TheWorld();
      var isRecovery := Find(table[k].name, RECOVERY_NAME).Some?;
      if (runMode == 0) == isRecovery {
        if table[k].kind.KindMtd? {
          r, w1 := UpdateMtd(k, data, at);
        } else {
          r := UpdateUbi(k, data, at);
        }
      } else {
        Count(k, |data|);
        r := Yes;
      }
    }

    // ----- the distributor

    /** `get_date_write_info`. */
    method DataWriteInfo(offset: nat, unwritten: nat) returns (index: int, partitionOffset: nat, writeLen: nat)
      requires Valid()
      ensures var found := Locate(table[..], total, offset);
              match found
              case AllDone => index == need
              case Missing => index == -1
              case Hit(k) =>
                index == k && partitionOffset == table[k].written && writeLen == WriteLen(table[k], unwritten)
      ensures writeLen <= unwritten && (index != need ==> index < table.Length)
      ensures offset >= total ==> index == need
      ensures offset < total ==> -1 <= index < table.Length
      ensures offset < total && index >= 0 ==>
                var e := table[index];
                e.hasData && (offset == e.offset || e.offset < offset < e.offset + e.len) &&
                partitionOffset == e.written && writeLen == if e.written + unwritten <= e.len then unwritten
                                                            else if e.written <= e.len then e.len - e.written else 0
      ensures offset < total ==>
                forall k :: 0 <= k < (if index < 0 then table.Length else index) && table[k].hasData ==>
                  offset != table[k].offset && !(table[k].offset < offset < table[k].offset + table[k].len)
    {
      partitionOffset, writeLen := 0, 0;
      var i := 0;
      while i < OtaTable.OTA_PARTITION_MAX
        invariant i <= table.Length
        invariant forall j :: 0 <= j < i ==> !Holds(table[j], offset)
        invariant i > 0 ==> offset < total
      {
        if offset >= total {
          return need, partitionOffset, writeLen;
        }
        if table[i].hasData {
          if offset == table[i].offset || (offset > table[i].offset && offset < table[i].offset + table[i].len) {
            partitionOffset := table[i].written;
            var room := if table[i].len >= table[i].written then table[i].len - table[i].written else 0;
            writeLen := if unwritten > room then room else unwritten;
            return i, partitionOffset, writeLen;
          }
        }
        i := i + 1;
      }
      index := -1;
    }

    /** The invariant of a run, on the live state. */
    ghost predicate Going(p: Plan, c: nat)
      reads this, table, flash, flash.mtd, flash.engine, flash.engine.table, ubi, curEnv, curEnv.data
    {
      Valid() && Steady(p, TheWorld(), c)
    }

    ghost predicate NothingToFear(p: Plan)
      reads this, table, flash, flash.mtd, flash.engine, flash.engine.table, ubi, curEnv, curEnv.data
    {
      Valid() && p.Valid() && TheWorld().Valid() && Roomy(p, TheWorld(), ubi.ready, flash.inited)
    }

    lemma GoingMeans(p: Plan, c: nat)
      ensures Going(p, c) == (Valid() && Steady(p, TheWorld(), c))
      ensures NothingToFear(p) ==
              (Valid() && p.Valid() && TheWorld().Valid() && Roomy(p, TheWorld(), ubi.ready, flash.inited))
    {
    }

    /** `rest` is what the image holds from body byte `c` on. */
    ghost predicate InOrder(p: Plan, c: nat, rest: Text)
      reads this, table, flash, flash.mtd, flash.engine, flash.engine.table, ubi, curEnv, curEnv.data
    {
      Going(p, c) && c + |rest| <= |p.image| && rest == p.image[c..c + |rest|]
    }

    /** The round at body byte `x` takes nothing, will be answered TRUE, and changes nothing. */
    ghost predicate Spins(x: nat, unwritten: nat)
      reads this, table, flash, flash.mtd, flash.engine, flash.engine.table, ubi, curEnv, curEnv.data
    {
      Usable() && TheWorld().Valid() && unwritten > 0 &&
      var found := Locate(table[..], total, x);
      found.Hit? && found.index != need && WriteLen(table[found.index], unwritten) == 0 &&
      Settled(TheWorld(), found.index, table[found.index].written, ubi.ready, flash.inited)
    }

    /** A round of the plan: the entry found at `c`, and its piece of the next bytes. */
    lemma RoundOfPlan(p: Plan, c: nat, rest: Text)
      requires InOrder(p, c, rest) && |rest| > 0
      ensures var found := Locate(table[..], total, c);
              if c >= total then found.AllDone? && forall c': nat :: c' >= c ==> Going(p, c')
              else
                found.Hit? && found.index != need && found.index < table.Length &&
                table[found.index].upgrade.UpUpdate? &&
                var n := WriteLen(table[found.index], |rest|);
                0 < n <= |rest| && PieceOf(p, TheWorld(), c, found.index, rest[..n], table[found.index].written)
    {
      hide Steady, Roomy, Selected, Turn, World.Valid, Plan.Valid;
      var w := TheWorld();
      if c >= total {
        forall c': nat | c' >= c
          ensures Steady(p, w, c')
        {
          PastTheEnd(p, w, c, c');
        }
      } else {
        NextTurn(p, w, c, |rest|);
        var k := Locate(table[..], total, c).index;
        var n := WriteLen(table[k], |rest|);
        assert rest[..n] == p.image[c..c + n];
      }
    }

    /** One round of the loop: TRUE with the bytes taken, or with none when all is done. */
    method Round(x: nat, rest: Text, ghost p: Plan) returns (r: CallEnd, taken: nat)
      requires Usable() && |rest| > 0
      modifies table, curEnv, curEnv.data, flash.mtd, flash.engine, flash.engine.table, ubi`volumes, ubi`calls
      ensures Valid() && (r == Yes ==> Usable()) && taken <= |rest|
      ensures RoundByTable(old(table[..]), table[..], total, need, x, |rest|, r, taken)
      ensures r == Spin ==> Spins(x, |rest|)
      ensures old(Spins(x, |rest|)) ==> r == Spin && TheWorld() == old(TheWorld())
      ensures old(InOrder(p, x, rest)) ==>
                r != Outside && r != Spin &&
                (r == Yes ==> Going(p, x + (if taken > 0 then taken else |rest|))) &&
                (old(NothingToFear(p)) ==> r == Yes && NothingToFear(p))
    {
      hide Steady, Roomy, Locate, WriteLen, Placed, Open, Settled, PieceOf, Alike, Counted, Selected, World.Valid,
           Plan.Valid, Loader.Valid, Usable, InOrder;
      UsableWorld();
      WorldFields();
      ghost var w, ready, inited := TheWorld(), ubi.ready, flash.inited;
      ghost var planned := InOrder(p, x, rest);
      ghost var roomy := planned && NothingToFear(p);
      ghost var spinning := Spins(x, |rest|);
      if planned {
        RoundOfPlan(p, x, rest);
      }
      var index, partitionOffset, writeLen := DataWriteInfo(x, |rest|);
      if index < 0 {
        return No, 0;
      }
      if index == need {
        return Yes, 0;
      }
      var data := rest[..writeLen];
      if roomy {
        RoomyIsOpen(p, w, x, index, data, partitionOffset, ready, inited, ubi.calls);
      }
      if spinning {
        assert data == [];
        SettledStays(w, w, w, index, partitionOffset, ready, inited, ubi.calls);
      }
      ghost var w1;
      r, w1 := PlacePiece(index, data, partitionOffset);
      if r != Yes {
        return r, 0;
      }
      ghost var w' := TheWorld();
      UsableWorld();
      WorldFields();
      PlacedCounts(w, w1, w', index, data, partitionOffset, ready, inited);
      if planned {
        PlacedKeepsPlan(p, w, w1, w', x, index, data, partitionOffset, ready, inited);
      }
      if writeLen == 0 {
        EmptyRound(w, w1, w', index, data, partitionOffset, ready, inited, total, x, |rest|);
        if spinning {
          SettledStays(w, w1, w', index, partitionOffset, ready, inited, ubi.calls);
        }
        return Spin, 0;
      }
      taken := writeLen;
    }

    /** `ms_ota_update_start`: scatter one chunk over the partitions. */
    method UpdateStart(offset: nat, buf: Text, ghost p: Plan) returns (r: CallEnd)
      requires Usable() && offset >= 0x1000
      modifies table, curEnv, curEnv.data, flash.mtd, flash.engine, flash.engine.table, ubi`volumes, ubi`calls
      ensures Valid() && (r == Yes ==> Usable())
      ensures !prepared ==> r == No && TheWorld() == old(TheWorld())
      ensures prepared ==>
                EndsAsWalked(r, table[..], Walk(old(table[..]), total, need, offset - 0x1000, |buf|))
      ensures r == Spin ==> exists x: nat, unwritten: nat :: Spins(x, unwritten)
      ensures prepared && old(InOrder(p, offset - 0x1000, buf)) ==>
                r != Outside && r != Spin &&
                (r == Yes ==> Going(p, offset - 0x1000 + |buf|)) &&
                (old(NothingToFear(p)) ==> r == Yes && NothingToFear(p))
    {
      hide Going, NothingToFear, Usable, RoundByTable, Loader.Valid, Walk, Spins, EndsAsWalked, SameEnd;
      UsableIsValid();
      if !prepared {
        return No;
      }
      var curOffset := offset;
      var dataWrite := 0;
      ghost var c := offset - OtaTable.OTA_INFO_SIZE;
      ghost var planned := InOrder(p, c, buf);
      ghost var roomy := planned && NothingToFear(p);
      ghost var walk := Walk(table[..], total, need, c, |buf|);
      SameEndItself(walk);
      while dataWrite < |buf|
        invariant Usable() && dataWrite <= |buf| && curOffset == offset + dataWrite
        invariant planned ==> Going(p, c + dataWrite)
        invariant roomy ==> NothingToFear(p)
        invariant SameEnd(walk, Walk(table[..], total, need, c + dataWrite, |buf| - dataWrite))
        decreases |buf| - dataWrite
      {
        ghost var t := table[..];
        var taken;
        r, taken := Round(curOffset - OtaTable.OTA_INFO_SIZE, buf[dataWrite..], p);
        WalkOneRound(t, table[..], total, need, c + dataWrite, |buf| - dataWrite, r, taken, walk);
        if r != Yes {
          return;
        }
        if taken == 0 {
          return;
        }
        dataWrite := dataWrite + taken;
        curOffset := curOffset + taken;
      }
      WalkIsDone(table[..], total, need, c + dataWrite, walk);
      UsableIsValid();
      r := Yes;
    }

    // ----- the table at the head of the image

    /** `ms_parse_otainfo`, on a table the C code can parse without leaving its buffers. */
    method ParseOtaInfo(buf: Text) returns (r: CallEnd)
      requires Valid() && OtaTable.ParseFrom(buf, 0, OtaTable.OTA_PARTITION_MAX).Some?
      modifies this`total, this`need, table
      ensures Valid() && r == Yes
      ensures var entries := OtaTable.ParseFrom(buf, 0, OtaTable.OTA_PARTITION_MAX).value;
              TheWorld() == Parsed(old(TheWorld()), entries)
      ensures var entries := OtaTable.ParseFrom(buf, 0, OtaTable.OTA_PARTITION_MAX).value;
              |entries| <= table.Length == 24 && need == |entries| + 1 && table[..|entries|] == entries &&
              forall k :: |entries| <= k < 24 ==> !table[k].hasData
    {
      hide Parsing, Find, CStr, OtaTable.ParseRecord, OtaTable.ParseFrom, OtaTable.TotalLen;
      need := 0;
      total := 0;
      forall k | 0 <= k < table.Length {
        table[k] := OtaTable.EMPTY;
      }
      var parse := 0;
      var index := 0;
      ghost var all := OtaTable.ParseFrom(buf, 0, OtaTable.OTA_PARTITION_MAX).value;
      ParsingStarts(buf, table[..]);
      while parse < OtaTable.OTA_INFO_SIZE
        invariant Valid() && Parsing(buf, parse, table[..], index, total, all)
        decreases |buf| - parse
      {
        ParsingGoesOn(buf, parse, table[..], index, total, all);
        var s := CStr(buf[parse..]);
        var mark := Find(s, OtaTable.RECORD_MARK);
        if mark.None? {
          break;
        }
        var end := Find(s, OtaTable.SEMICOLON);
        if end.None? {
          break;
        }
        var len := end.value - mark.value;
        var e := ParseRecord(CStr(buf[parse..parse + len + 2]));
        table[index] := e;
        total := total + e.len;
        index := index + 1;
        parse := parse + len + 2;
      }
      ParsingEnds(buf, parse, table[..], index, total, all);
      need := index + 1;
      r := Yes;
    }

    // ----- the whole update

    /** Take the body in chunks of any size, in order, and stop at the first failure. */
    method TakeChunks(chunks: seq<Text>, ghost p: Plan) returns (r: CallEnd)
      requires prepared && Usable()
      modifies table, curEnv, curEnv.data, flash.mtd, flash.engine, flash.engine.table, ubi`volumes, ubi`calls
      ensures EndsAsWalked(r, table[..], Feed(old(table[..]), total, need, 0, Sizes(chunks)))
      ensures r == Spin ==> exists x: nat, unwritten: nat :: Spins(x, unwritten)
      ensures old(Going(p, 0)) && p.image == Joined(chunks) ==>
                r != Outside && r != Spin && (r == Yes ==> Going(p, |p.image|)) && (old(NothingToFear(p)) ==> r == Yes)
    {
      hide NothingToFear, Usable, Loader.Valid, Going, Walk, Feed, Spins, EndsAsWalked, SameEnd, Sizes;
      ghost var planned := Going(p, 0) && p.image == Joined(chunks);
      ghost var roomy := planned && NothingToFear(p);
      ghost var feed := Feed(table[..], total, need, 0, Sizes(chunks));
      SameEndItself(feed);
      var at := 0;
      var i := 0;
      assert chunks[0..] == chunks;
      while i < |chunks|
        invariant i <= |chunks| && at == |Joined(chunks[..i])|
        invariant prepared && Usable() && (planned ==> Going(p, at))
        invariant roomy ==> NothingToFear(p)
        invariant SameEnd(feed, Feed(table[..], total, need, at, Sizes(chunks[i..])))
      {
        NextChunk(chunks, i);
        ghost var t := table[..];
        r := UpdateStart(at + OtaTable.OTA_INFO_SIZE, chunks[i], p);
        FeedOneChunk(t, table[..], total, need, at, chunks[i..], r, feed);
        if r != Yes {
          return;
        }
        at := at + |chunks[i]|;
        assert chunks[i..][1..] == chunks[i + 1..];
        i := i + 1;
      }
      assert chunks[..i] == chunks && chunks[i..] == [];
      FeedIsDone(table[..], total, need, at, feed);
      r := Yes;
    }

    lemma ParsedIsUsable(entries: seq<Entry>)
      requires Valid() && BootSafe(curEnv.data[..]) && |entries| <= OtaTable.OTA_PARTITION_MAX
      requires table[..] == entries + Empties(|entries|)
      requires forall k :: 0 <= k < |entries| ==> entries[k].len < WORD
      ensures Usable()
    {
      hide BootSafe;
      forall k | 0 <= k < table.Length
        ensures table[k].len < WORD
      {
        assert table[k] == table[..][k];
      }
    }

    /** A whole update: parse the table, then take the body. */
    method Update(header: Text, chunks: seq<Text>, ghost p: Plan) returns (r: CallEnd)
      requires Valid() && prepared && BootSafe(curEnv.data[..])
      requires OtaTable.ParseFrom(header, 0, OtaTable.OTA_PARTITION_MAX).Some?
      modifies this`total, this`need, table, curEnv, curEnv.data, flash.mtd, flash.engine, flash.engine.table,
               ubi`volumes, ubi`calls
      ensures var entries := OtaTable.ParseFrom(header, 0, OtaTable.OTA_PARTITION_MAX).value;
              EndsAsWalked(r, table[..], Feed(entries + Empties(|entries|), OtaTable.TotalLen(entries),
                                              |entries| + 1, 0, Sizes(chunks)))
      ensures var entries := OtaTable.ParseFrom(header, 0, OtaTable.OTA_PARTITION_MAX).value;
              var w := Parsed(old(TheWorld()), entries);
              p.entries == entries && LaidOver(p, w) && p.image == Joined(chunks) ==>
                (r == Yes ==> Going(p, |p.image|)) &&
                (r == Yes && |p.image| >= OtaTable.TotalLen(entries) ==>
                  p.Valid() && TheWorld().Valid() && Delivered(p, TheWorld())) &&
                (Roomy(p, w, ubi.ready, flash.inited) ==> r == Yes)
      ensures var entries := OtaTable.ParseFrom(header, 0, OtaTable.OTA_PARTITION_MAX).value;
              var w := Parsed(old(TheWorld()), entries);
              p.entries == entries && LaidOver(p, w) && p.image == Joined(chunks) && r == Yes &&
              |p.image| >= OtaTable.TotalLen(entries) ==>
                TheWorld().Valid() && Scattered(w, TheWorld(), entries, Joined(chunks))
    {
      hide NothingToFear, Usable, Delivered, Roomy, LaidOver, Plan.Valid, World.Valid, Loader.Valid, Steady, Going,
           Feed, OtaTable.ParseFrom, OtaTable.TotalLen, Parsed, EndsAsWalked, Spins, BootSafe, Scattered;
      ghost var entries := OtaTable.ParseFrom(header, 0, OtaTable.OTA_PARTITION_MAX).value;
      ghost var w0 := Parsed(TheWorld(), entries);
      r := ParseOtaInfo(header);
      ParsedFields(old(TheWorld()), entries);
      WorldFields();
      ParsedLengths(header, 0, OtaTable.OTA_PARTITION_MAX);
      ParsedIsUsable(entries);
      ghost var planned := p.entries == entries && LaidOver(p, w0) && p.image == Joined(chunks);
      if planned {
        LaidOverIsSteady(p, w0);
        SteadyIsValid(p, w0, 0);
      }
      GoingMeans(p, 0);
      r := TakeChunks(chunks, p);
      GoingMeans(p, |p.image|);
      if planned && r == Yes {
        SteadyIsValid(p, TheWorld(), |p.image|);
        if |p.image| >= OtaTable.TotalLen(entries) {
          AllDelivered(p, TheWorld(), |p.image|);
          DeliveredMeans(p, w0, TheWorld());
        }
      }
    }
  }

  // ----- the rounds of a chunk, and the chunks of a body, by the table alone

  /** How a round ends. */
  ghost predicate RoundByTable(t: seq<Entry>, t': seq<Entry>, total: nat, need: nat, x: nat, unwritten: nat,
                               r: CallEnd, taken: nat)
  {
    var found := Locate(t, total, x);
    if found.Missing? then r == No && taken == 0
    else if found.AllDone? || found.index == need then r == Yes && taken == 0 && t' == t
    else
      (r == Yes ==>
        taken > 0 && taken == WriteLen(t[found.index], unwritten) && Alike(Counted(t, found.index, taken), t')) &&
      (r == Spin ==> WriteLen(t[found.index], unwritten) == 0 && Alike(t, t'))
  }

  /** The answer is TRUE only if the table sees the bytes to their end, and the loop spins only if the table halts it;
      everything else is a failure of the media. */
  ghost predicate EndsAsWalked(r: CallEnd, t: seq<Entry>, end: WalkEnd) {
    (r == Yes ==> end.Done? && Alike(end.table, t)) && (r == Spin ==> end.Halted?) && (end.Lost? ==> r != Yes)
  }

  lemma SameEndItself(end: WalkEnd)
    ensures SameEnd(end, end)
  {
  }

  lemma WalkOneRound(t: seq<Entry>, t': seq<Entry>, total: nat, need: nat, x: nat, unwritten: nat,
                     r: CallEnd, taken: nat, walk: WalkEnd)
    requires unwritten > 0 && taken <= unwritten && RoundByTable(t, t', total, need, x, unwritten, r, taken)
    requires SameEnd(walk, Walk(t, total, need, x, unwritten))
    ensures r != Yes || taken == 0 ==> EndsAsWalked(r, t', walk)
    ensures r == Yes && taken > 0 ==> SameEnd(walk, Walk(t', total, need, x + taken, unwritten - taken))
  {
    hide Locate, WriteLen, Counted;
    if r == Yes && taken > 0 {
      var k := Locate(t, total, x).index;
      AlikeWalks(Counted(t, k, taken), t', total, need, x + taken, unwritten - taken);
    }
  }

  lemma WalkIsDone(t: seq<Entry>, total: nat, need: nat, x: nat, walk: WalkEnd)
    requires SameEnd(walk, Walk(t, total, need, x, 0))
    ensures EndsAsWalked(Yes, t, walk)
  {
  }

  function Sizes(chunks: seq<Text>): (sizes: seq<nat>) {
    if |chunks| == 0 then [] else [|chunks[0]|] + Sizes(chunks[1..])
  }

  lemma FeedOneChunk(t: seq<Entry>, t': seq<Entry>, total: nat, need: nat, x: nat, chunks: seq<Text>, r: CallEnd,
                     feed: WalkEnd)
    requires |chunks| > 0 && SameEnd(feed, Feed(t, total, need, x, Sizes(chunks)))
    requires EndsAsWalked(r, t', Walk(t, total, need, x, |chunks[0]|))
    ensures r != Yes ==> EndsAsWalked(r, t', feed)
    ensures r == Yes ==> SameEnd(feed, Feed(t', total, need, x + |chunks[0]|, Sizes(chunks[1..])))
  {
    hide Walk, Alike;
    var sizes := Sizes(chunks);
    assert sizes[1..] == Sizes(chunks[1..]);
    if r == Yes {
      var end := Walk(t, total, need, x, |chunks[0]|);
      AlikeFeeds(end.table, t', total, need, x + |chunks[0]|, sizes[1..]);
      SameEndChain(feed, Feed(end.table, total, need, x + |chunks[0]|, sizes[1..]),
                   Feed(t', total, need, x + |chunks[0]|, sizes[1..]));
    }
  }

  lemma SameEndChain(a: WalkEnd, b: WalkEnd, c: WalkEnd)
    requires SameEnd(a, b) && SameEnd(b, c)
    ensures SameEnd(a, c)
  {
    if a.Done? {
      AlikeChain(a.table, b.table, c.table);
    }
  }

  lemma FeedIsDone(t: seq<Entry>, total: nat, need: nat, x: nat, feed: WalkEnd)
    requires SameEnd(feed, Feed(t, total, need, x, Sizes([])))
    ensures EndsAsWalked(Yes, t, feed)
  {
  }

  lemma ParsedFields(w: World, entries: seq<Entry>)
    requires |entries| <= OtaTable.OTA_PARTITION_MAX
    ensures var w' := Parsed(w, entries);
            w'.table == entries + Empties(|entries|) && w'.total == OtaTable.TotalLen(entries) &&
            w'.need == |entries| + 1
  {
    hide OtaTable.TotalLen;
  }

  lemma {:induction false} ParsedLengths(buf: Text, parse: nat, room: nat)
    requires parse <= |buf| && OtaTable.ParseFrom(buf, parse, room).Some?
    ensures forall k :: 0 <= k < |OtaTable.ParseFrom(buf, parse, room).value| ==>
              OtaTable.ParseFrom(buf, parse, room).value[k].len < WORD
    decreases |buf| - parse
  {
    hide OtaTable.ParseRecord, Find, CStr;
    if parse < OtaTable.OTA_INFO_SIZE {
      OtaTable.ParseStep(buf, parse, room);
      var s := CStr(buf[parse..]);
      var mark, end := Find(s, OtaTable.RECORD_MARK), Find(s, OtaTable.SEMICOLON);
      if mark.Some? && end.Some? {
        var next := parse + (end.value - mark.value) + 2;
        ParsedLengths(buf, next, room - 1);
        ParsedLength(CStr(buf[parse..next]));
      }
    }
  }

  lemma ParsedLength(s: Text)
    ensures OtaTable.ParseRecord(s).Some? ==> OtaTable.ParseRecord(s).value.len < WORD
  {
    hide OtaTable.Field, NumberOf, OtaTable.KindOf, OtaTable.UpgradeOf;
  }

  function Joined(chunks: seq<Text>): Text {
    if |chunks| == 0 then [] else Joined(chunks[..|chunks| - 1]) + chunks[|chunks| - 1]
  }

  /** A chunk is the slice of the joined stream at the length of what came before. */
  lemma {:induction false} NextChunk(chunks: seq<Text>, i: nat)
    requires i < |chunks|
    ensures var c := |Joined(chunks[..i])|;
            Joined(chunks[..i + 1]) == Joined(chunks[..i]) + chunks[i] &&
            c + |chunks[i]| <= |Joined(chunks)| && chunks[i] == Joined(chunks)[c..c + |chunks[i]|]
    decreases |chunks|
  {
    assert chunks[..i + 1][..i] == chunks[..i];
    if i + 1 < |chunks| {
      var front := chunks[..|chunks| - 1];
      NextChunk(front, i);
      assert front[..i] == chunks[..i];
    } else {
      assert chunks[..i + 1] == chunks;
    }
  }

  /** The first `index` entries are parsed, the rest of the table is empty, and what is left of the text gives
      the rest of `all`. */
  ghost predicate Parsing(buf: Text, parse: nat, t: seq<Entry>, index: nat, total: nat, all: seq<Entry>) {
    parse <= |buf| && index <= |t| == OtaTable.OTA_PARTITION_MAX && t[index..] == Empties(index) &&
    total == OtaTable.TotalLen(t[..index]) &&
    OtaTable.ParseFrom(buf, parse, OtaTable.OTA_PARTITION_MAX - index).Some? &&
    all == t[..index] + OtaTable.ParseFrom(buf, parse, OtaTable.OTA_PARTITION_MAX - index).value
  }

  lemma ParsingStarts(buf: Text, t: seq<Entry>)
    requires OtaTable.ParseFrom(buf, 0, OtaTable.OTA_PARTITION_MAX).Some?
    requires |t| == OtaTable.OTA_PARTITION_MAX && forall k :: 0 <= k < |t| ==> t[k] == OtaTable.EMPTY
    ensures Parsing(buf, 0, t, 0, 0, OtaTable.ParseFrom(buf, 0, OtaTable.OTA_PARTITION_MAX).value)
  {
    hide OtaTable.ParseFrom;
  }

  lemma ParsingGoesOn(buf: Text, parse: nat, t: seq<Entry>, index: nat, total: nat, all: seq<Entry>)
    requires Parsing(buf, parse, t, index, total, all) && parse < OtaTable.OTA_INFO_SIZE
    ensures parse <= |buf| && |t| == OtaTable.OTA_PARTITION_MAX
    ensures var s := CStr(buf[parse..]);
            var mark, end := Find(s, OtaTable.RECORD_MARK), Find(s, OtaTable.SEMICOLON);
            if mark.None? || end.None? then all == t[..index]
            else
              mark.value <= end.value && index < |t| && parse + (end.value - mark.value) + 2 <= |buf| &&
              var next := parse + (end.value - mark.value) + 2;
              NUL !in CStr(buf[parse..next]) &&
              var e := OtaTable.ParseRecord(CStr(buf[parse..next]));
              e.Some? && Parsing(buf, next, t[index := e.value], index + 1, total + e.value.len, all)
  {
    hide OtaTable.ParseFrom, OtaTable.ParseRecord, Find, CLen;
    OtaTable.ParseStep(buf, parse, OtaTable.OTA_PARTITION_MAX - index);
    var s := CStr(buf[parse..]);
    var mark, end := Find(s, OtaTable.RECORD_MARK), Find(s, OtaTable.SEMICOLON);
    if mark.Some? && end.Some? {
      var next := parse + (end.value - mark.value) + 2;
      var e := OtaTable.ParseRecord(CStr(buf[parse..next])).value;
      assert t[index := e][..index + 1] == t[..index] + [e];
      assert t[index := e][..index + 1][..index] == t[..index];
      assert t[index := e][index + 1..] == t[index..][1..];
    }
  }

  lemma ParsingEnds(buf: Text, parse: nat, t: seq<Entry>, index: nat, total: nat, all: seq<Entry>)
    requires Parsing(buf, parse, t, index, total, all) && (parse >= OtaTable.OTA_INFO_SIZE || all == t[..index])
    ensures t == all + Empties(|all|) && total == OtaTable.TotalLen(all) && index == |all|
  {
    assert all == t[..index];
  }

  /** `string_to_ota_partitioninfo`, field by field. */
  method ParseRecord(s: Text) returns (e: Entry)
    requires OtaTable.ParseRecord(s).Some? && NUL !in s
    ensures Some(e) == OtaTable.ParseRecord(s)
  {
    hide OtaTable.Field, OtaTable.KindOf, OtaTable.UpgradeOf, NumberOf;
    var name, rest := TakeField(s, OtaTable.COMMA);
    var kind, size, upgrade, offset, len;
    kind, rest := TakeField(rest, OtaTable.COMMA);
    size, rest := TakeField(rest, OtaTable.COMMA);
    upgrade, rest := TakeField(rest, OtaTable.COMMA);
    offset, rest := TakeField(rest, OtaTable.COMMA);
    len, rest := TakeField(rest, OtaTable.SEMICOLON);
    var sizeValue := NumberIn(size, 128);
    var offsetValue := NumberIn(offset, 128);
    var lenValue := NumberIn(len, 128);
    e := OtaTable.Entry(true, name, OtaTable.KindOf(kind), OtaTable.UpgradeOf(upgrade),
                        sizeValue, offsetValue, lenValue, 0);
  }

  /** The text between the next '=' and the next closing character. */
  method TakeField(s: Text, closer: Text) returns (f: Text, rest: Text)
    requires |closer| == 1 && OtaTable.Field(s, closer).Some? && NUL !in s
    ensures OtaTable.Field(s, closer) == Some((f, rest)) && NUL !in f && NUL !in rest
  {
    var start := Find(s, OtaTable.EQUALS);
    var end := Find(s, closer);
    f, rest := s[start.value + 1..end.value], s[end.value + 1..];
  }

  lemma NameIsOneOrOther(name: Text)
    ensures !(SameIgnoringCase(name, KERNEL_NAME) && SameIgnoringCase(name, RECOVERY_NAME))
  {
    assert |LowerAll(KERNEL_NAME)| == 6 && |LowerAll(RECOVERY_NAME)| == 8;
  }

  /** The environment can be stored: the module is up, an environment was loaded, and its partition has room. */
  ghost predicate Storable(inited: bool, loaded: bool, parts: seq<Partition>) {
    inited && loaded && AllValid(parts) && EnvHasRoom(parts)
  }

  /** A boot command has a size, and if that is too small the new command can be set and stored. */
  ghost predicate Raisable(env: Text, cmd: Command, size: nat, inited: bool, loaded: bool, parts: seq<Partition>) {
    var was := SizeInEnv(env, cmd);
    inited && was.Size? &&
    (size <= was.n ||
     (Storable(inited, loaded, parts) &&
      Fits(Without(Records(env), cmd.variable), cmd.variable, CommandText(size, cmd))))
  }

  ghost predicate CanRaise(w: World, e: Entry, inited: bool, loaded: bool) {
    CommandOf(e.name).None? || Raisable(w.env, CommandOf(e.name).value, e.len, inited, loaded, w.parts)
  }

  /** There is a partition of that name and the write succeeds. */
  ghost predicate Writable(w: World, name: Text, data: Text, at: nat)
    requires w.Valid()
  {
    var f := FindPartition(w.parts, name);
    f.Some? && WriteAnswer(w.WriterOf(f.value), data, at) == Written(|data|)
  }

  /** Some name of the list is this one, in letters of either case. */
  ghost predicate Named(names: seq<Text>, name: Text) {
    exists j :: 0 <= j < |names| && SameIgnoringCase(names[j], name)
  }

  lemma StillUsable(w: World, w1: World)
    requires w.Valid()
    requires |w1.nameBuf| == NAME_BUFFER && ZeroTailed(w1.nameBuf)
    requires forall k :: 0 <= k < |w1.parts| ==> w1.parts[k].Valid() && PartitionName(w1.parts[k].name)
    requires w1 == w.(parts := w1.parts, nameBuf := w1.nameBuf, curBad := w1.curBad, env := w1.env)
    ensures w1.Valid()
  {
    hide CLen, ZeroTailed, PartitionName;
  }

  /** What raising one command does, for the plan and in sizes. */
  lemma OneRaised(w: World, w1: World, cmd: Command, name: Text, len: nat)
    requires w.Valid() && w1.Valid() && CommandOf(name) == Some(cmd)
    requires w1 == w.(parts := w1.parts, nameBuf := w1.nameBuf, curBad := w1.curBad, env := w1.env)
    requires EnvStepped(w.parts, w.nameBuf, w1.parts, w1.nameBuf) && BootSafe(w1.env)
    requires var was := SizeInEnv(w.env, cmd);
             was.Size? && (len <= was.n ==> w1 == w) &&
             SizeInEnv(w1.env, cmd) == Size(if len <= was.n then was.n else len)
    requires forall other :: IsBootCommand(other) && other != cmd ==>
               SizeInEnv(w1.env, other) == SizeInEnv(w.env, other)
    ensures BootStep(w, w1, name, len) && BootRaised(w.env, w1.env, name, len)
  {
    hide BootSafe, SizeInEnv, EnvStepped, World.Valid;
    NameIsOneOrOther(name);
    VariablesDiffer();
  }

  lemma NoneRaised(w: World, name: Text, len: nat)
    requires w.Valid() && BootSafe(w.env) && CommandOf(name).None?
    ensures BootStep(w, w, name, len) && BootRaised(w.env, w.env, name, len)
  {
    hide BootSafe, SizeInEnv, World.Valid;
    NothingStepped(w.parts, w.nameBuf);
  }

  lemma NothingStepped(parts: seq<Partition>, nameBuf: Text)
    ensures EnvStepped(parts, nameBuf, parts, nameBuf)
  {
  }

  lemma SafeIsNotGarbled(env: Text, cmd: Command)
    requires BootSafe(env) && IsBootCommand(cmd)
    ensures !SizeInEnv(env, cmd).Garbled?
  {
  }

  lemma SafeIsReadable(env: Text)
    requires BootSafe(env)
    ensures WellFormed(env)
  {
  }

  /** Find the mark, the space behind it and the semicolon, and read the number between. */
  method SizeInCommand(value: Text, cmd: Command) returns (s: SizeIn)
    requires |value| <= 511 && NUL !in value && !ReadSize(value, cmd).Garbled?
    ensures s == ReadSize(value, cmd)
  {
    hide Find, NumberOf;
    var start := Find(value, cmd.mark);
    if start.None? {
      start := Find(value, cmd.otherMark);
    }
    if start.None? {
      return NotThere;
    }
    var space := Find(value[start.value..], SPACE);
    if space.None? {
      return NotThere;
    }
    var end := Find(value, BootCmd.SEMICOLON);
    var n := NumberIn(value[start.value + space.value + 1..end.value], 512);
    s := Size(n);
  }

  /** Copy a field into a zeroed scratch buffer and run `str2int` on it. */
  method NumberIn(f: Text, size: nat) returns (n: nat)
    requires |f| < size && NUL !in f
    ensures n == NumberOf(f)
  {
    hide NumberOf, Splice, CLen;
    var tmp := new Byte[size](_ => NUL);
    assert tmp[..] == Zeros(size);
    MemCpy(tmp, 0, f);
    TmpIsField(f, tmp[..]);
    n := Str2Int(tmp);
  }

  lemma TmpIsField(f: Text, buf: Text)
    requires |f| < |buf| && NUL !in f && buf == Splice(Zeros(|buf|), 0, f)
    ensures NUL in buf && CStr(buf) == f
  {
    assert buf[..|f|] == f && buf[|f|] == NUL;
    CLenIs(buf, |f|);
  }

  lemma AssignedInEnv(env: Text, cmd: Command, size: nat)
    requires BootSafe(env) && IsBootCommand(cmd)
    ensures AfterSet(Records(env), cmd.variable, CommandText(size, cmd)) ==
            Assign(Records(env), cmd.variable, CommandText(size, cmd))
  {
    VariablesDiffer();
    FoundIsKept(Records(env), cmd.variable, OTA_STATUS);
  }
}
