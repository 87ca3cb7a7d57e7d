/** The boot commands kept in the environment: the image size inside them, which an update may only raise. */
module BootCmd {
  import opened Bytes
  import opened Numbers
  import opened EnvText

  /** A boot command: the marks looked for in it (upper case first), and its variable. */
  datatype Command = Command(variable: Text, mark: Text, otherMark: Text)

  const KERNEL_CMD: Command := Command("bootcmd", "KERNEL", "kernel")
  const RECOVERY_CMD: Command := Command("recoverycmd", "RECOVERY", "RECOVERY")

  const SPACE: Text := " "
  const SEMICOLON: Text := ";"
  const READ: Text := "nand read 0x26000000 "
  const BOOT: Text := "bootm 0x26000000"

  /** The size found in a boot command. Garbled: no semicolon behind the size, where the C code copies a wild length. */
  datatype SizeIn = NotThere | Garbled | Size(n: nat)

  function MarkAt(value: Text, cmd: Command): Option<nat> {
    if Find(value, cmd.mark).Some? then Find(value, cmd.mark) else Find(value, cmd.otherMark)
  }

  function ReadSize(value: Text, cmd: Command): (s: SizeIn) {
    var start := MarkAt(value, cmd);
    if start.None? then NotThere
    else
      var space := Find(value[start.value..], SPACE);
      var end := Find(value, SEMICOLON);
      if space.None? then NotThere
      else if end.None? || end.value <= start.value + space.value then Garbled
      else Size(NumberOf(value[start.value + space.value + 1..end.value]))
  }

  /** The command written for a new size. */
  function CommandText(size: nat, cmd: Command): Text {
    READ + cmd.mark + SPACE + Hex(size) + SEMICOLON + BOOT
  }

  predicate IsBootCommand(cmd: Command) {
    cmd == KERNEL_CMD || cmd == RECOVERY_CMD
  }

  /** The commands in full. */
  lemma KernelText(size: nat)
    ensures CommandText(size, KERNEL_CMD) == "nand read 0x26000000 KERNEL " + Hex(size) + ";bootm 0x26000000"
    ensures Hex(size) == "0x" + Digits(size, 16) && KERNEL_CMD.variable == "bootcmd"
  {
    hide Digits;
    assert READ + KERNEL_CMD.mark + SPACE == "nand read 0x26000000 KERNEL ";
    assert SEMICOLON + BOOT == ";bootm 0x26000000";
  }

  lemma RecoveryText(size: nat)
    ensures CommandText(size, RECOVERY_CMD) == "nand read 0x26000000 RECOVERY " + Hex(size) + ";bootm 0x26000000"
    ensures RECOVERY_CMD.variable == "recoverycmd"
  {
    hide Hex, Digits;
    assert READ + RECOVERY_CMD.mark + SPACE == "nand read 0x26000000 RECOVERY ";
    assert SEMICOLON + BOOT == ";bootm 0x26000000";
  }

  /** The mark a command is searched for: KERNEL, or kernel where that does not occur; or RECOVERY. */
  ghost predicate MarkOf(cmd: Command, value: Text, mark: Text) {
    (cmd == KERNEL_CMD && (mark == "KERNEL" || (mark == "kernel" && forall j: nat :: !OccursAt(value, "KERNEL", j)))) ||
    (cmd == RECOVERY_CMD && mark == "RECOVERY")
  }

  /** The size is the number between the first space behind the first mark and the first semicolon. */
  lemma SizeIsRead(cmd: Command, a: Text, mark: Text, b: Text, number: Text, rest: Text)
    requires MarkOf(cmd, a + mark + b + SPACE + number + SEMICOLON + rest, mark)
    requires forall j: nat :: j < |a| ==> !OccursAt(a + mark + b + SPACE + number + SEMICOLON + rest, mark, j)
    requires ' ' !in b && ';' !in a && ';' !in b && ';' !in number
    ensures ReadSize(a + mark + b + SPACE + number + SEMICOLON + rest, cmd) == Size(NumberOf(number))
  {
    hide Find, NumberOf, OccursAt;
    var value := a + mark + b + SPACE + number + SEMICOLON + rest;
    assert value == a + mark + (b + SPACE + number + SEMICOLON + rest);
    MarkedThere(cmd, a, mark, b + SPACE + number + SEMICOLON + rest);
    assert value[|a|..] == (mark + b) + SPACE + (number + SEMICOLON + rest);
    FindSingle(mark + b, SPACE, number + SEMICOLON + rest);
    FindSingle(a + mark + b + SPACE + number, SEMICOLON, rest);
    var at := |a| + |mark + b|;
    assert value[at + 1..at + 1 + |number|] == number;
  }

  lemma MarkedThere(cmd: Command, a: Text, mark: Text, back: Text)
    requires MarkOf(cmd, a + mark + back, mark)
    requires forall j: nat :: j < |a| ==> !OccursAt(a + mark + back, mark, j)
    ensures MarkAt(a + mark + back, cmd) == Some(|a|)
    ensures ' ' !in mark && ';' !in mark
  {
    assert OccursAt(a + mark + back, mark, |a|);
    assert ' ' !in KERNEL_CMD.mark && ';' !in KERNEL_CMD.mark;
    assert ' ' !in KERNEL_CMD.otherMark && ';' !in KERNEL_CMD.otherMark;
    assert ' ' !in RECOVERY_CMD.mark && ';' !in RECOVERY_CMD.mark;
  }

  /** Without a mark there is no size. */
  lemma NoMarkNoSize(cmd: Command, value: Text)
    requires (cmd == KERNEL_CMD && forall j: nat :: !OccursAt(value, "KERNEL", j) && !OccursAt(value, "kernel", j)) ||
             (cmd == RECOVERY_CMD && forall j: nat :: !OccursAt(value, "RECOVERY", j))
    ensures ReadSize(value, cmd) == NotThere
  {
  }

  /** The size written is the size read back. */
  lemma SizeRoundTrip(size: nat, cmd: Command)
    requires IsBootCommand(cmd) && size < WORD
    ensures ReadSize(CommandText(size, cmd), cmd) == Size(size)
    ensures NUL !in CommandText(size, cmd)
  {
    hide Find, Hex, NumberOf;
    var value := CommandText(size, cmd);
    var back := SPACE + Hex(size) + SEMICOLON + BOOT;
    HexIsClean(size);
    HexRoundTrip(size);
    MarkIsFirst(cmd, back);
    assert value == READ + cmd.mark + back;
    assert value[|READ|..] == cmd.mark + SPACE + (Hex(size) + SEMICOLON + BOOT);
    MarkIsClean(cmd);
    FindSingle(cmd.mark, SPACE, Hex(size) + SEMICOLON + BOOT);
    FindSingle(READ + cmd.mark + SPACE + Hex(size), SEMICOLON, BOOT);
    var at := |READ| + |cmd.mark| + 1;
    assert value[at..at + |Hex(size)|] == Hex(size);
  }

  lemma HexIsClean(n: nat)
    ensures NUL !in Hex(n) && ';' !in Hex(n) && ' ' !in Hex(n)
  {
    var d := Digits(n, 16);
    forall k | 0 <= k < |d|
      ensures d[k] != NUL && d[k] != ';' && d[k] != ' '
    {
      DigitsAreClean(n, 16, k);
    }
  }

  lemma MarkIsClean(cmd: Command)
    requires IsBootCommand(cmd)
    ensures ' ' !in cmd.mark && ';' !in READ + cmd.mark + SPACE
    ensures NUL !in READ + cmd.mark + SPACE && NUL !in BOOT
  {
    ReadIsClean();
    MarksAreClean();
  }

  lemma ReadIsClean()
    ensures ';' !in READ && NUL !in READ && NUL !in BOOT
    ensures 'K' !in READ && 'R' !in READ
  {
  }

  lemma MarksAreClean()
    ensures KERNEL_CMD.mark[0] == 'K' && RECOVERY_CMD.mark[0] == 'R'
    ensures ' ' !in KERNEL_CMD.mark && ';' !in KERNEL_CMD.mark && NUL !in KERNEL_CMD.mark
    ensures ' ' !in RECOVERY_CMD.mark && ';' !in RECOVERY_CMD.mark && NUL !in RECOVERY_CMD.mark
  {
  }

  lemma MarkIsFirst(cmd: Command, back: Text)
    requires IsBootCommand(cmd)
    ensures Find(READ + cmd.mark + back, cmd.mark) == Some(|READ|)
  {
    var s := READ + cmd.mark + back;
    assert OccursAt(s, cmd.mark, |READ|);
    ReadIsClean();
    MarksAreClean();
    forall j: nat | j < |READ|
      ensures !OccursAt(s, cmd.mark, j)
    {
      assert READ[j] in READ;
      assert j + |cmd.mark| <= |s| && s[j..j + |cmd.mark|][0] == READ[j];
    }
  }

  // ----- runs of updates

  /** The value after one update asking for `size`. */
  function Updated(value: Text, size: nat, cmd: Command): Text {
    match ReadSize(value, cmd)
    case Size(was) => if size <= was then value else CommandText(size, cmd)
    case _ => value
  }

  function AfterUpdates(value: Text, sizes: seq<nat>, cmd: Command): Text {
    if |sizes| == 0 then value else Updated(AfterUpdates(value, sizes[..|sizes| - 1], cmd), sizes[|sizes| - 1], cmd)
  }

  function Largest(first: nat, sizes: seq<nat>): nat {
    if |sizes| == 0 then first
    else
      var m := Largest(first, sizes[..|sizes| - 1]);
      if sizes[|sizes| - 1] > m then sizes[|sizes| - 1] else m
  }

  /** Over every run of updates the boot size is the largest of the original and all sizes asked for; it never falls. */
  lemma {:induction false} BootSizeIsMaximum(value: Text, sizes: seq<nat>, cmd: Command)
    requires IsBootCommand(cmd) && ReadSize(value, cmd).Size?
    requires forall k :: 0 <= k < |sizes| ==> sizes[k] < WORD
    ensures ReadSize(AfterUpdates(value, sizes, cmd), cmd) == Size(Largest(ReadSize(value, cmd).n, sizes))
  {
    hide ReadSize, CommandText;
    if |sizes| > 0 {
      BootSizeIsMaximum(value, sizes[..|sizes| - 1], cmd);
      SizeRoundTrip(sizes[|sizes| - 1], cmd);
    }
  }

  // ----- in the environment

  /** The record written is short enough for the buffers of the readers. */
  lemma CommandIsReadable(size: nat, cmd: Command)
    requires IsBootCommand(cmd) && size < WORD
    ensures Readable(Record(cmd.variable, CommandText(size, cmd)))
    ensures '=' !in cmd.variable && NUL !in cmd.variable
  {
    hide Hex;
    VariableIsPlain(cmd);
    RecordParts(cmd.variable, CommandText(size, cmd));
    HexIsShort(size);
  }

  lemma VariableIsPlain(cmd: Command)
    requires IsBootCommand(cmd)
    ensures '=' !in cmd.variable && NUL !in cmd.variable && |cmd.variable| <= 11 && |cmd.mark| <= 8
  {
  }

  lemma HexIsShort(n: nat)
    requires n < WORD
    ensures |Hex(n)| <= 13
  {
    WordHasFewDigits(n, 16);
  }

  /** The variable that selects the run mode; preparing an update fails without it. */
  const OTA_STATUS: Text := "ota_upgrade_status"

  function SizeInEnv(env: Text, cmd: Command): SizeIn {
    match Lookup(Records(env), cmd.variable)
    case None => NotThere
    case Some(value) => ReadSize(value, cmd)
  }

  /** An environment the update code can work on: readable, not without the run mode, and no boot command
      with a missing semicolon. */
  ghost predicate BootSafe(env: Text) {
    WellFormed(env) && Lookup(Records(env), OTA_STATUS).Some? &&
    !SizeInEnv(env, KERNEL_CMD).Garbled? && !SizeInEnv(env, RECOVERY_CMD).Garbled?
  }

  lemma VariablesDiffer()
    ensures KERNEL_CMD.variable != RECOVERY_CMD.variable
    ensures KERNEL_CMD.variable != OTA_STATUS && RECOVERY_CMD.variable != OTA_STATUS
  {
    assert |KERNEL_CMD.variable| == 7 && |RECOVERY_CMD.variable| == 11 && |OTA_STATUS| == 18;
  }

  lemma {:induction false} FoundIsKept(recs: seq<Text>, name: Text, other: Text)
    requires other != name && Lookup(recs, other).Some?
    ensures |Without(recs, name)| > 0
  {
    LookupWithout(recs, name, other);
  }

  /** What raising one boot size does to the environment. */
  lemma RaisedInEnv(env: Text, env': Text, cmd: Command, size: nat)
    requires IsBootCommand(cmd) && size < WORD && BootSafe(env)
    requires Terminated(env')
    requires Records(env') == Assign(Records(env), cmd.variable, CommandText(size, cmd))
    ensures BootSafe(env') && SizeInEnv(env', cmd) == Size(size)
    ensures forall other :: IsBootCommand(other) && other != cmd ==> SizeInEnv(env', other) == SizeInEnv(env, other)
  {
    hide Records, ReadSize, CommandText, Terminated;
    var recs := Records(env);
    var value := CommandText(size, cmd);
    VariablesDiffer();
    CommandIsReadable(size, cmd);
    SizeRoundTrip(size, cmd);
    AssignedIsFoundIff(recs, cmd.variable, value);
    OthersAreKept(recs, cmd.variable, value, OTA_STATUS);
    forall other | IsBootCommand(other) && other != cmd
      ensures SizeInEnv(env', other) == SizeInEnv(env, other)
    {
      OthersAreKept(recs, cmd.variable, value, other.variable);
    }
    forall r | r in Records(env')
      ensures Readable(r)
    {
      if r in Without(recs, cmd.variable) {
        assert r in recs;
      }
    }
  }

  /** A value found in a readable environment fits the 512-byte value buffer. */
  lemma {:induction false} FoundIsShort(recs: seq<Text>, name: Text)
    requires forall r :: r in recs ==> IsRecord(r) && Readable(r)
    ensures Lookup(recs, name).Some? ==> |Lookup(recs, name).value| <= 511 && NUL !in Lookup(recs, name).value
  {
    if |recs| > 0 {
      assert recs[0] in recs;
      FoundIsShort(recs[1..], name);
    }
  }
}
