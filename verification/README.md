# Soundbar firmware: storage, update and panel drivers

A Dafny model of the storage stack, the firmware updater and three small drivers of the soundbar firmware, with
proofs of what they promise. The proofs need nothing but these files: `dafny verify dfyconfig.toml`.

Storage, from the bottom up:

- `Crc32` is the table-driven, eight-fold unrolled CRC-32 (the algorithm of section 8 of RFC 1952) against bitwise
  polynomial division, with its error-detection guarantee.
- `Nand`, `NandLaws` and `MtdFlash` are the NAND reader and writer: blocks, a bad-block map, skip-and-patch loops, and a
  bad-block counter that lives between calls. The specification is the *logical view*: the good blocks, in order.
- `EnvText`, `EnvBuffer`, `EnvStore` and `EnvFlash` are the boot environment: packed `name=value` strings in a fixed array,
  sealed by a CRC, as an ordered map in memory and as a state machine over Init, Load, Set, Store and DeInit in flash.
- `UbiVolume` is the UBI byte writer over logical erase blocks that may fail or write short at any time.

The updater of `mi_loader.c`:

- `Numbers` and `OtaTable` are `str2int` and the partition table, with printers to invert them; `BootCmd` is the image
  size kept inside a boot command.
- `OtaWalk` is the distributor as far as the table decides its course: what each round finds and takes, and whether the
  loop ends. `OtaPlan` says what a run has to achieve, as values: entries tiling an image body, the media, and the
  invariant that ties them to the number of bytes consumed. `OtaPiece` is one piece of an entry. `OtaUpdate` is the
  updater itself, proved to keep that invariant;
  `OtaUpdate.Loader.Update` is the end-to-end statement over parser, distributor, NAND writer, UBI writer and
  environment.

The drivers: `Keypad` (debounce and auto-repeat on a wrapping clock), `SerialFrame` (text packets out of a byte stream) and
`GpioSpi` (bit-banged SPI, read back by a receiver). `Bytes` and `BlockMath` hold what all share.

A class holds what the code keeps in static variables and buffers. Each of its methods is proved against a function of
the state (`Write`, `Step`, `AfterStore`, ...), and the properties are lemmas about those functions. What the functions
mean is said once more without them, in names, bytes and numbers: `OtaPlan.DeliveredMeans`, `EnvStore.StoreOutcome`,
`Crc32.CrcResidue`, `NandLaws.ViewAt`, `Numbers.HexIs`, `BootCmd.SizeIsRead`, `Keypad.NextEventIff`,
`SerialFrame.OtherPackets` and others.

## What the proofs found

- When the good blocks run out at a block boundary, `mtd_write_data` never returns: `Nand.WriteRefinesAppend` says exactly
  when, and `MtdFlash.Round` that the rounds repeat themselves.
- `mtd_write_data` remembers a partition name without its terminator. After a longer name the comparison fails on every
  later call and the bad-block counter starts again from zero: `MtdFlash.NextCallInStepIff` and
  `MtdFlash.LongerNameMisplaces`.
- `MI_FLASH_LoadEnv` returns the value of MI_OK on a CRC mismatch, and a flag that was up stays up:
  `EnvStore.LoadTellsIff`, `EnvStore.StaleFlagHidesMismatch`. After DeInit and Init the flag does tell. Flash is safe
  all the same: `EnvStore.FlashIsWrittenSafely`.
- Setting the only variable of an environment loses it: the append lands behind a NUL. `EnvBuffer.SetIsReadBackIff`.
- A table entry of length zero that is found before any other at some position makes the distributor loop for ever once
  a round starts there; elsewhere in the table it does no harm. `OtaWalk.FeedHaltsIff`, `OtaWalk.SomeRunHaltsIff`,
  `OtaWalk.EveryRunHaltsIff`. So does sending the bytes of a full entry again: `OtaWalk.RoundHaltsIff`.
- `update_partition` tests for UBI with an assignment, so an entry of unknown kind is written as a UBI one, and is one from
  then on: `OtaUpdate.Loader.UpdateUbi`, `OtaPlan.AllDelivered`.
- Sliding from one key to another without a release can mark the first event of the second as a repeat:
  `Keypad.FirstFlagIff`, `Keypad.KeyChangeCounterexample`.

## Model

| member | source | states |
|---|---|---|
| `Crc32.PolyOfAll` | uart/mi/mi_flash.c:623-632 | the fourteen exponents build the polynomial 0xedb88320, bit 31 - e for exponent e |
| `Crc32.CrcEngine.CreateTable` | uart/mi/mi_flash.c:618-642 | the table is complete, entry by entry, and no longer marked empty |
| `Crc32.TableStep` | uart/mi/mi_flash.c:633-646 | eight bit steps of any 32-bit state are one table lookup on its low byte and a shift, for every state |
| `Crc32.CrcEngine.Compute` | uart/mi/mi_flash.c:644-674 | the 8-fold unrolled loop with its tail equals the bitwise CRC, complemented before and after, on every buffer and start value, creating the table on first use |
| `Crc32.CrcChains` | uart/mi/mi_flash.c:656-673 | crc(crc(c, a), b) = crc(c, a ++ b) for all a, b and c |
| `Crc32.CrcResidue` | uart/mi/mi_flash.c:656-673 | the residue law: the CRC over any message followed by its own four-byte little-endian CRC is 0x2144df1c |
| `Crc32.CheckValue` | uart/mi/mi_flash.c:644-674 | the CRC of the text 123456789 is 0xcbf43926 |
| `Crc32.StepsLinear` | uart/mi/mi_flash.c:636-638 | any number of bit steps is linear over exclusive-or |
| `Crc32.StepsInjective` | uart/mi/mi_flash.c:636-638 | any number of bit steps loses no information |
| `Crc32.CrcDetectsBurst` | uart/mi/mi_flash.c:644-674 | replacing at most four consecutive bytes by different ones changes the CRC, whatever surrounds them |
| `Crc32.CrcDetectsWindow` | uart/mi/mi_flash.c:644-674 | two equal-length buffers that differ at most inside a four-byte window have equal CRCs if and only if they are equal |
| `Nand.PutRefinesOverwrite` | uart/mi/mi_flash.c:532-603 | block-by-block writing over any bad-block map overwrites the start of the good-block view, keeps the rest of it, and says how much did not fit |
| `Nand.WriteRefinesAppend` | uart/mi/mi_flash.c:426-615 | at a position that tracks a logical offset a write succeeds exactly when the data fits in the good blocks; it then replaces exactly that slice of the logical view and ends at a position that tracks the next offset; otherwise it fills the view and is stuck |
| `Nand.WriteSparesBadBlocks` | uart/mi/mi_flash.c:458-603 | no write, at any position, changes a bad block |
| `NandLaws.WriteFailsIff` | uart/mi/mi_flash.c:458-603 | a write answers -1 exactly when it begins inside a block and every block from there on is bad, and has then written nothing; past the end of the device only a piece that ends in its block is answered for |
| `NandLaws.ViewAt` | uart/mi/mi_flash.c:319-615 | the logical view byte for byte: byte r of a good block stands at r behind as many whole blocks as there are good ones before it, and the view is as long as all the good blocks |
| `Nand.ResetTracksIff` | uart/mi/mi_flash.c:445-452 | starting with the bad-block counter at zero is right exactly when no block up to the offset is bad |
| `Nand.ReadIsLogicalPrefix` | uart/mi/mi_flash.c:319-424 | a read at offset 0 that fits delivers exactly the prefix of the logical view |
| `NandLaws.ReadIsLogicalSlice` | uart/mi/mi_flash.c:319-424 | a read from any position that agrees with a logical offset delivers exactly the slice of the logical view there |
| `NandLaws.ReadFailsIff` | uart/mi/mi_flash.c:319-424 | a read answers -1 exactly when it begins inside a block and every block from there on is bad |
| `Nand.WriteThenRead` | uart/mi/mi_flash.c:319-615 | what is written at offset 0 and fits is read back, for every bad-block map |
| `MtdFlash.RememberedIff` | uart/mi/mi_flash.c:445-449 | copying a name without its terminator into the static name buffer leaves that name exactly when the one remembered before was not longer |
| `MtdFlash.NextCallInStepIff` | uart/mi/mi_flash.c:445-452 | after a call that fitted, the next offset is in step exactly when the name compares equal (the name before was not longer) or no bad block lies before it |
| `MtdFlash.StreamRefinesAppend` | uart/mi/mi_flash.c:426-615 | consecutive calls leave the concatenation of their chunks in the good blocks, in order, and keep everything behind it: any chunking, any bad-block map |
| `MtdFlash.LongerNameMisplaces` | uart/mi/mi_flash.c:445-452 | the name condition is needed: with a longer name remembered, a second call behind a bad block lands on what the first one wrote |
| `MtdFlash.Round` | uart/mi/mi_flash.c:454-603 | one round of the write loop; a round that has to be repeated ends at a refused position, and from there every round ends where it began: same flash, same position, same count, nothing skipped |
| `MtdFlash.Mtd.WriteData` | uart/mi/mi_flash.c:426-615 | the write loop computes the write of the model from offset + counter blocks and leaves the counter and the remembered name exactly as the model says; no other partition changes; it is stuck only at a refused position |
| `MtdFlash.Mtd.ReadData` | uart/mi/mi_flash.c:319-424 | the read loop computes the read of the model |
| `MtdFlash.FindPartition` | uart/mi/mi_flash.c:302-317 | the first partition whose name is equal up to letter case, or none when there is no such partition |
| `EnvText.ParsePacked` | uart/mi/mi_flash.c:676-698 | packed records, a closing NUL and any rest parse back to the records |
| `EnvText.PackParsed` | uart/mi/mi_flash.c:676-698 | a terminated array is its records packed, a NUL, and a rest nobody reads |
| `EnvText.PackLayout` | uart/mi/mi_flash.c:676-698 | each record is followed by one zero byte and then by the next record |
| `EnvText.LookupIsFirstIff` | uart/mi/mi_flash.c:1018-1043 | a variable has a value exactly when the first record that begins with its name and '=' goes on with that value |
| `Bytes.FindName` | uart/mi/mi_flash.c:302-317 | the first name that is equal up to letter case, or none: partitions and volumes are found with it |
| `Bytes.SameIgnoringCaseIff` | uart/mi/mi_flash.c:302-317 | two names are equal up to letter case exactly when they are as long as each other and differ at most in a capital letter for its small one |
| `EnvText.LastAssignmentWins` | uart/mi/mi_flash.c:1069-1100 | of two assignments of one name only the last remains |
| `EnvBuffer.EditedText` | uart/mi/mi_flash.c:797-861 | the edited array is terminated and holds the kept records in order and the new one last; with no record kept it holds none, because of the NUL at index 0 |
| `EnvBuffer.SetIsReadBackIff` | uart/mi/mi_flash.c:797-861 | a set variable is found again exactly when another record survived and its name has no '=' |
| `EnvBuffer.SetKeepsOthers` | uart/mi/mi_flash.c:1049-1105 | a set changes no other variable |
| `EnvBuffer.EnvInfo.GetVar` | uart/mi/mi_flash.c:1018-1043 | the scan finds the first record with that name, as the ordered-map lookup does |
| `EnvBuffer.EnvInfo.SetVar` | uart/mi/mi_flash.c:1049-1105 | set succeeds exactly when the bytes kept, both lengths and 3 more are at most MI_FLASH_ENV_DATA_SIZE; the records are then the old ones without the name, in order, and the new one, and the CRC is that of the data |
| `EnvStore.FlagNeedsGoodLoad` | uart/mi/mi_flash.c:890-946 | over every run of Init, Load, Set, Store and DeInit, the load flag is up only if a load passed its CRC since the last DeInit |
| `EnvStore.FlashIsWrittenSafely` | uart/mi/mi_flash.c:890-1001 | over every run, a step that changes flash is a NAND store of an image whose CRC field matches its data, after a load that passed its CRC |
| `EnvStore.StoreThenLoad` | uart/mi/mi_flash.c:749-1001 | a store that reaches flash and fits is followed by a load that delivers that image and passes, for every bad-block map; no other partition changes |
| `EnvStore.LoadOutcome` | uart/mi/mi_flash.c:749-946 | a load finds an image whenever some partition is called env in letters of either case; it is what the first 128 KiB of the first such partition read as |
| `EnvStore.StoreOutcome` | uart/mi/mi_flash.c:749-1001 | a store that reaches the flash overwrites the first 128 KiB of the first partition called env, or hangs when its good blocks are fewer, and touches no partition of another name |
| `EnvStore.LoadableForEver` | uart/mi/mi_flash.c:890-1001 | once the env partition holds a loadable image, every later run leaves it loadable and never hangs |
| `EnvStore.LoadTellsIff` | uart/mi/mi_flash.c:904-946 | a load that reads answers OK whether or not the CRC matches; the flag is up afterwards exactly when it was up before or the CRC matches |
| `EnvStore.StaleFlagHidesMismatch` | uart/mi/mi_flash.c:904-946 | a concrete state whose flag is up and whose flash holds a mismatching image: the load answers OK and the flag is up |
| `EnvStore.FreshLoadTellsIff` | uart/mi/mi_flash.c:867-946 | after DeInit and Init the flag tells exactly whether the CRC matches |
| `EnvStore.EnvironmentRoundTrip` | uart/mi/mi_flash.c:749-1105 | storing what a set leaves and loading it back passes, for every bad-block map with room; the buffer can be read, the variable is there, every other one is as before |
| `EnvFlash.SetStoreLoadGet` | uart/mi/mi_flash.c:749-1105 | the four calls in a row on the module: all answer OK, the value set is got, and every other variable is unchanged |
| `EnvFlash.FlashModule.LoadEnv` | uart/mi/mi_flash.c:904-946 | every answer, in the flags, the type and the names of the partitions; the answer OK, which a CRC mismatch also gets, replaces the buffer by what the first partition called env holds; the flag is up afterwards exactly when it was or the CRC matches; nothing else changes |
| `EnvFlash.FlashModule.Init` | uart/mi/mi_flash.c:867-888 | the three answers; the name buffer is cleared and the flag raised on the first success, and the load flag is left alone |
| `EnvFlash.FlashModule.DeInit` | uart/mi/mi_flash.c:890-902 | both flags go down and the answer is OK |
| `EnvFlash.FlashModule.StoreEnv` | uart/mi/mi_flash.c:948-1001 | OK exactly when initialised, loaded, NAND, the CRC field matches, and the first partition called env has room: it then holds the image; no partition of another name ever changes |
| `EnvFlash.FlashModule.GetEnvVar` | uart/mi/mi_flash.c:1003-1047 | the ordered-map lookup, or the error codes |
| `EnvFlash.FlashModule.SetEnvVar` | uart/mi/mi_flash.c:1049-1105 | OK exactly when initialised and the records kept, both lengths and 3 more are at most 0x1fffc bytes: the records are then those of other names, in order, and the new one, and the CRC matches; or the error codes |
| `UbiVolume.LebPrefix` | uart/mi/mi_ubi.c:775-836 | whatever one LEB rewrite does - refused, short anywhere, complete - exactly the bytes it answers for have changed |
| `UbiVolume.AllLandIff` | uart/mi/mi_ubi.c:1892-1979 | a write lands whole exactly when every piece lies inside the volume and its rewrite reached the end of the piece |
| `UbiVolume.FlawlessLandsIff` | uart/mi/mi_ubi.c:1892-1979 | on flash that never fails a write lands whole exactly when it stays inside the volume |
| `UbiVolume.UbiDevice.WriteVolumeBytes` | uart/mi/mi_ubi.c:1854-1980 | the answer n is what lands; bytes [off, off + n) equal buf[0..n) and every other byte and every other volume is unchanged, for every pattern of failures |
| `Numbers.Str2Int` | uart/mi/mi_loader.c:125-172 | the number of the text, as the two laws below say it, and the argument left upper-cased |
| `Numbers.HexRoundTrip` | uart/mi/mi_loader.c:125-172 | str2int("0x" + hex(n)) = n for every 32-bit n |
| `Numbers.DecimalRoundTrip` | uart/mi/mi_loader.c:125-172 | str2int(decimal(n)) = n for every 32-bit n |
| `Numbers.DecimalIs` | uart/mi/mi_loader.c:125-172 | a text of decimal digits is read digit by digit, ten times what stood before and the next, in 32 bits; one other character makes the answer 0 |
| `Numbers.HexIs` | uart/mi/mi_loader.c:125-172 | the same behind 0x or 0X with sixteen digits, in letters of either case |
| `Numbers.DigitsText` | uart/mi/mi_loader.c:400-403 | printed numbers have small letters and no zero in front |
| `OtaTable.RecordRoundTrip` | uart/mi/mi_loader.c:186-306 | parsing a printed record gives the entry back, whatever follows its semicolon |
| `OtaTable.FieldOf` | uart/mi/mi_loader.c:202-214 | a key ending in '=', a value and a closing character parse to the value and what follows |
| `OtaTable.RecordText` | uart/mi/mi_loader.c:186-306 | the printed record in full: six keys with their values, commas between, a semicolon behind |
| `OtaTable.KindOfIff` | uart/mi/mi_loader.c:186-306 | an entry is an MTD one or a UBI one exactly when its type says MTD or UBI, in letters of either case |
| `OtaTable.UpgradeOfIff` | uart/mi/mi_loader.c:186-306 | the four words for what is to be done with a partition, in letters of either case |
| `OtaTable.TableRoundTrip` | uart/mi/mi_loader.c:308-338 | printing any table that fits the array and the first 4096 bytes, each number in either base, with any separator byte, and parsing it gives the table back |
| `OtaUpdate.Loader.ParseOtaInfo` | uart/mi/mi_loader.c:308-338 | the 24-entry table holds the parsed entries and empty ones behind, the total is the sum of image sizes, and the sentinel is one more than the count |
| `BootCmd.SizeRoundTrip` | uart/mi/mi_loader.c:341-424 | the size written into a boot command is the size read from it |
| `BootCmd.SizeIsRead` | uart/mi/mi_loader.c:366-387 | the size is the number between the first space behind the first KERNEL, or kernel where there is none, or RECOVERY, and the first semicolon |
| `BootCmd.NoMarkNoSize` | uart/mi/mi_loader.c:366-370 | without the mark there is no size |
| `BootCmd.KernelText` | uart/mi/mi_loader.c:400-404 | the kernel command in full, and its variable bootcmd |
| `BootCmd.RecoveryText` | uart/mi/mi_loader.c:490-493 | the recovery command in full, and its variable recoverycmd |
| `BootCmd.BootSizeIsMaximum` | uart/mi/mi_loader.c:341-515 | after any sequence of updates the size in the command is the maximum of the old one and all requested |
| `BootCmd.RaisedInEnv` | uart/mi/mi_loader.c:341-515 | writing one boot command leaves the environment usable, that size in place and the other command as it was |
| `OtaUpdate.Loader.UpdateBoot` | uart/mi/mi_loader.c:341-515 | TRUE exactly when the command has a size that is not smaller, or it can be set and stored; a size that is not larger changes neither flash nor environment; a success leaves the maximum, in the full text of the command when it was raised, and the other command as it was |
| `OtaUpdate.Loader.SetEnv` | uart/mi/mi_loader.c:758-775 | set and store: TRUE exactly when the variable fits, the module is up and loaded, and the partition called env has room; the records are then as a set leaves them and the CRC matches |
| `OtaUpdate.Loader.RaiseBootCommands` | uart/mi/mi_loader.c:532-543 | kernel raises bootcmd and RECOVERY raises recoverycmd to the maximum of the old size and the length, the other one keeps its size, and any other name changes nothing |
| `OtaWalk.RoundHaltsIff` | uart/mi/mi_loader.c:702-734 | a round takes nothing exactly when the entry found is full already, as an empty one always is and one whose bytes are sent again is; the loop then never ends |
| `OtaWalk.RoundInOrder` | uart/mi/mi_loader.c:702-734 | a round of a run in order finds an entry, takes bytes unless that entry is empty, and moves every counter to its share of the stream |
| `OtaWalk.FeedHaltsIff` | uart/mi/mi_loader.c:777-843 | a run in order, cut into given chunks, gets stuck exactly when at some position below the total, where a chunk or an entry of positive length begins, the entry found is empty; it is never lost |
| `OtaWalk.SomeRunHaltsIff` | uart/mi/mi_loader.c:777-843 | some way of cutting the body gets stuck exactly when some position below the total is first held by an empty entry |
| `OtaWalk.EveryRunHaltsIff` | uart/mi/mi_loader.c:777-843 | every way of cutting it gets stuck exactly when that happens where an entry of positive length begins |
| `OtaWalk.EmptyEntryHalts` | uart/mi/mi_loader.c:777-843 | a table on which every run gets stuck: entries (0, 10), (10, 0), (10, 10) |
| `OtaWalk.EmptyEntryBehind` | uart/mi/mi_loader.c:777-843 | the same entries in another order, on which none does |
| `OtaWalk.EmptyEntryAside` | uart/mi/mi_loader.c:777-843 | an empty entry at the end of the body, or at its start behind another one, is never found |
| `OtaPlan.BootRound` | uart/mi/mi_loader.c:543-554 | raising a boot command between two entries disturbs none of them |
| `OtaPiece.PlacedKeepsPlan` | uart/mi/mi_loader.c:517-700 | a piece in its turn that is answered TRUE - MTD, UBI or of unknown kind, which counts as UBI, or only counted - keeps the stream-position invariant |
| `OtaPiece.RoomyIsOpen` | uart/mi/mi_loader.c:517-700 | with room, flawless flash and no boot command left to raise, the piece is answered TRUE |
| `OtaPiece.EmptyPieceSettles` | uart/mi/mi_loader.c:517-700 | once a piece without bytes has been answered TRUE, the state is one that the next such piece leaves alone |
| `OtaPiece.SettledStays` | uart/mi/mi_loader.c:517-700 | in such a state a piece without bytes is answered TRUE and changes nothing |
| `OtaPlan.ChunkingDoesNotShow` | uart/mi/mi_loader.c:777-843 | two runs that have consumed the same number of bytes agree on every counter and every destination, however the bytes were cut |
| `OtaPlan.AllDelivered` | uart/mi/mi_loader.c:777-843 | once the whole body is consumed every selected destination holds exactly its image slice over what it held before, selected entries of unknown kind have become UBI ones, and nothing else has been written |
| `OtaPlan.DeliveredMeans` | uart/mi/mi_loader.c:777-843 | the same without the words of a plan: the first partition or volume with the name of an entry of this run begins with its image slice and goes on as before, bootcmd and recoverycmd cover the images they load, and every partition or volume named by no such entry, env aside, is as it was |
| `OtaPlan.OneEntryIsLaidOver` | uart/mi/mi_loader.c:308-843 | the conditions of the end-to-end statement can be met: any image for one MTD partition that raises no boot command is a plan over the present state, and with enough good blocks there is room for it |
| `OtaPlan.OneVolumeIsLaidOver` | uart/mi/mi_loader.c:308-843 | so is any image for one volume, under an entry of UBI or unknown kind, and on flawless flash there is room if the volume is large enough |
| `OtaUpdate.Loader.DataWriteInfo` | uart/mi/mi_loader.c:702-734 | the 24-entry loop answers the sentinel at or past the total, else the first entry that begins at or spans the position, with its count and the bytes it still has room for, else -1 |
| `OtaUpdate.Loader.UpdateMtd` | uart/mi/mi_loader.c:523-565 | an MTD piece: TRUE exactly when the entry is an update and empty, or its boot command can be raised and the write to its partition succeeds; the bytes are then written and counted, kernel has raised bootcmd and only that, RECOVERY recoverycmd and only that, any other name neither |
| `OtaUpdate.Loader.UpdateUbi` | uart/mi/mi_loader.c:566-610 | any other piece: the entry is a UBI one from now on; TRUE exactly when the device is open, a volume of that name is large enough and the write lands whole, and the volume then holds the bytes |
| `OtaPlan.SelectedIff` | uart/mi/mi_loader.c:809-837 | an entry is written in run mode 0 exactly when RECOVERY occurs in its name, in every other mode exactly when it does not |
| `OtaUpdate.Loader.PlacePiece` | uart/mi/mi_loader.c:809-837 | a piece of an entry that is not for this run mode is counted and changes no partition, no volume and no variable; any other one is written |
| `OtaUpdate.Loader.Round` | uart/mi/mi_loader.c:794-841 | one round of the loop: by the table, it takes what the model takes; in its turn it keeps the invariant; if it takes nothing, the next round takes nothing, is answered TRUE and changes nothing |
| `OtaUpdate.Loader.UpdateStart` | uart/mi/mi_loader.c:777-843 | a chunk: TRUE only if the table sees it to its end, without end only if the table halts it, and then at a round that repeats itself; in its place it moves the invariant on by its length; without preparation nothing happens |
| `OtaUpdate.Loader.TakeChunks` | uart/mi/mi_loader.c:777-843 | the same for a whole body in any chunks |
| `OtaUpdate.Loader.Update` | uart/mi/mi_loader.c:308-843 | end to end: parse the table, take the body in any chunks; if all are answered TRUE the first partition or volume with the name of every entry of this run mode begins with exactly its slice, and those named by no such entry, env aside, are as before; and all are answered TRUE if there is room, flawless flash and no boot command left to raise |
| `Keypad.SinceIsNoMore` | uart/mi/mi_sar.c:169-180 | a difference of 32-bit clock readings is the time passed by that clock up to whole wraps, and never exceeds it |
| `Keypad.KeypadDriver.GetKey` | uart/mi/mi_sar.c:283-415 | one poll is one step of the machine and reports its event |
| `Keypad.ThresholdsAre` | uart/mi/mi_sar.c:293-335 | a reading above 768 and the upper margin is a release; any other is the key of the first level whose band it falls in, or none |
| `Keypad.NextEventIff` | uart/mi/mi_sar.c:338-397 | over every hold: the first event comes exactly at a reading of the key more than 2000 ms after the first one more than 50 ms after the beginning, a repeat exactly at a reading more than 330 ms after the last event, and no other poll of the hold reports anything |
| `Keypad.HoldReports` | uart/mi/mi_sar.c:283-415 | every hold of one key, over every poll sequence: no event, or one first event and then repeats only, all with its key |
| `Keypad.HoldAfterRelease` | uart/mi/mi_sar.c:283-415 | after a release the first event of a hold has flag 0 |
| `Keypad.HoldIsReportedIff` | uart/mi/mi_sar.c:294-313 | a hold between two releases is reported exactly when it is seen to last longer than the first delay, and then with exactly one flag-0 event |
| `Keypad.HoldTakesTime` | uart/mi/mi_sar.c:343-397 | no event before 51 ms, repeats at least 331 ms apart, the i-th repeat at least 2052 + 331 i ms after the hold began, by the unwrapped clock; also for holds that begin by sliding off another key |
| `Keypad.FirstFlagIff` | uart/mi/mi_sar.c:338-341 | the first event of a hold that follows another key is a first press exactly when the flag that key left was clear or a reading between the levels came before |
| `Keypad.KeyChangeCounterexample` | uart/mi/mi_sar.c:338-397 | and it happens: seven polls whose third event is a first event marked as a repeat |
| `SerialFrame.OneByteChangeIsRejected` | uart/SerialCommand.cpp:303-406 | changing any one byte of an accepted packet makes it rejected |
| `SerialFrame.CommandPackets` | uart/SerialCommand.cpp:303-375 | the answers to the first eight command packets, byte for byte |
| `SerialFrame.MoreCommandPackets` | uart/SerialCommand.cpp:303-375 | and to the other seven |
| `SerialFrame.OtherPackets` | uart/SerialCommand.cpp:303-406 | a packet is rejected exactly when its head or its check byte is wrong; unknown codes flush the line; volume packets give level and mute bit |
| `SerialFrame.PacketsSent` | uart/SerialCommand.cpp:198-268 | what the writer sends, byte for byte |
| `SerialFrame.HexWorth` | uart/SerialCommand.cpp:452-460 | hex digits in letters of either case are worth their low four bits, letters nine more |
| `SerialFrame.WriterAndParserAgree` | uart/SerialCommand.cpp:198-406 | the writer's command table is the parser's: every packet the writer builds is accepted, a command addressed to this side parses to itself, a volume packet to its level and mute bit |
| `SerialFrame.VolumeRoundTrip` | uart/SerialCommand.cpp:206-393 | level and mute bit determine the volume byte that was sent |
| `SerialFrame.SerialReader.ReadOnce` | uart/SerialCommand.cpp:418-510 | one pass of the thread is one step of the machine: framing, parsing, and the way of the message to the waiting caller, to the listener or, unknown and not waited for, nowhere; there is room for the next read whatever the bytes were |
| `SerialFrame.PassOutcome` | uart/SerialCommand.cpp:418-510 | what a pass does with any bytes: fewer than four spaces wait for more or are given up at twelve bytes; a packet that is not intact flushes the line; an intact one is passed on |
| `SerialFrame.RouteIff` | uart/SerialCommand.cpp:483-504 | a message goes to the caller that waits for its command, to the listener when nobody does, and nowhere when it is unknown and an unknown one is waited for |
| `SerialFrame.FramingIgnoresReadBoundaries` | uart/SerialCommand.cpp:418-510 | for any packets, any read sizes and any timeouts: the messages of the first packets have been parsed, once each and in order, only unknown ones dropped, and the rest is stored or still on the line |
| `SerialFrame.AllDelivered` | uart/SerialCommand.cpp:418-510 | once the line is drained that holds of every packet and nothing is left over |
| `SerialFrame.EncodeInto` | uart/SerialCommand.cpp:270-292 | the encoder loop that is compiled out writes the hex text of four bytes |
| `SerialFrame.DigitValue` | uart/SerialCommand.cpp:278-289 | a digit is encoded as 0 to 9 or a capital letter and read back |
| `SerialFrame.ScanEncoded` | uart/SerialCommand.cpp:270-461 | the framer inverts the encoder on any bytes that fit a packet |
| `SerialFrame.EncodedIsPacketIff` | uart/SerialCommand.cpp:270-461 | encoding four bytes gives a packet that decodes to them, well formed exactly when the parser takes them |
| `GpioSpi.SpiPort.WriteCommand` | uart/mi/mi_gpio_spi.c:202-257 | a command is two framed words in two chip-select windows: an idle receiver latches 0x2000 over the high byte and then the low byte, 16 bits each, and is idle again with SDI high |
| `GpioSpi.SpiPort.WriteData` | uart/mi/mi_gpio_spi.c:260-295 | a datum is one framed word in one window: an idle receiver latches 0x4000 over its low byte |
| `GpioSpi.ReceivedWords` | uart/mi/mi_gpio_spi.c:202-295 | for every sequence of writes the receiver latches exactly 0x2000 over the high byte and then the low byte per command and 0x4000 over the byte per datum, 16 clock edges each; SDI never moves while SCLK is high in a window, and the pins are left at rest |
| `GpioSpi.WordsDecode` | uart/mi/mi_gpio_spi.c:202-295 | from those words every command is recovered whole and every datum's low byte, in order |

## Left out

- Device plumbing: open, ioctl, select, termios, sysfs, `/proc/mtd` scanning, `system` and `popen`. Partitions, volumes, the
  clock and the byte source are parameters instead.
- Erase and write failures of good NAND blocks: good blocks erase and write. The retry counters at
  uart/mi/mi_flash.c:495-517 and 563-583 are bumped twice or shadowed, so the give-up branches behind them are not reached.
- Seeks that the device refuses: a call that starts past the end of its partition. The model answers `Stuck` there; the
  code goes on from position -1.
- Reads at a non-zero offset behind a bad block: the reader does not apply the writer's counter, so such a read is not at
  the logical offset (`Nand.ResetTracksIff` says when it is). The environment reads at offset 0 only.
- 32-bit overflow of positions and sizes inside a partition, a volume or an image: positions are natural numbers.
  `str2int`, the clock, the CRC, the serial bytes and the SPI words do wrap as in C.
- UBI volume management (create, remove, resize): an entry that needs it ends in `Outside`. Creation would be repeated
  for every chunk, and removal never advances the written count.
- UBI reads by callers (`MI_UBI_ReadVolumeBytes`): a single read call with nothing to add to it. The block read inside a
  LEB rewrite is part of the rewrite.
- Parsing of tables on which the C code leaves its buffers (a missing '=', a semicolon before its mark, a number field of
  128 characters or more, a 25th entry): `OtaTable.ParseFrom` answers None there and `ParseOtaInfo` asks for a table
  without that.
- The entry path that prepares an update (device opening, run mode from `ota_upgrade_status`), the demo path that starts
  at offset 0, and image CRC verification by the caller.
- The `creat` and `sync` of the recovery flag file: files outside flash are not modelled.
- Aliasing of the static 512-byte scratch buffers with their callers; values in an environment that is read are at most
  511 bytes and names at most 255 (`EnvText.Readable`), because the C code copies them into fixed arrays.
- The reply handshake over a condition variable in the serial reader: the command a caller waits for is an input of each
  pass, and what the caller or the listener does with a message is left out.
- The SPI modes that are not selected, and `_SDI_write_16bit` behind one of them.
- IR, I2C, PWM, RGB LED, display tables, frame buffer drawing, Wi-Fi shell commands, logging, malloc leaks and threads.
- OtaUpdate.Loader.Update: asks that MTD destination names do not get shorter along the stream and that boot commands
  are not stored in a destination, because of the name comparison above.
