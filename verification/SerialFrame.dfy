/** The serial reader of SerialCommand.cpp: text packets of four hex pairs, each pair closed by a space, framed out
    of a byte stream that arrives in arbitrary pieces. */
module SerialFrame {

  type Octets = seq<bv8>

  const MAX_PACKET_LEN: nat := 12
  const PACKET_BYTES: nat := 4
  const SPACE: bv8 := 0x20

  const D_HEAD: bv8 := 0x7A
  const ADD_RK3229: bv8 := 0x01

  // ----- what a packet says

  datatype SerCommand =
    | Unknown | GetVolume | SetVolume | SetMusicMode | Booting | Connecting | ConnectFail | ConnectSucc | AfterWakeup
    | Searching | Playing | Alarm | Updating | UpdateFail | SetNewsMode | SetMovieMode | SetNetworkConf | SetDefault

  datatype Message = Message(command: SerCommand, data: bv8, mute: bool)

  /** The answer of the parser: 0 with a message, or -1; and whether it flushed the line. */
  datatype Parsed = Accepted(message: Message, flushed: bool) | Rejected

  function CommandOf(code: bv8): SerCommand {
    if code == 0xA3 then SetMusicMode else if code == 0xA4 then Booting else if code == 0xA5 then Connecting
    else if code == 0xA6 then ConnectFail else if code == 0xA7 then ConnectSucc else if code == 0xA8 then AfterWakeup
    else if code == 0xA9 then Searching else if code == 0xAA then Playing else if code == 0xAB then Alarm
    else if code == 0xAC then Updating else if code == 0xAD then UpdateFail else if code == 0xAF then SetNewsMode
    else if code == 0xB1 then SetMovieMode else if code == 0xAE then SetNetworkConf else if code == 0xB0 then SetDefault
    else Unknown
  }

  function VolumeCommandOf(address: bv8): SerCommand {
    if address == 0xA2 then SetVolume else if address == 0xA1 then GetVolume else Unknown
  }

  /** `SerParse_rk3229_t`. */
  function Parse(b: Octets): Parsed
    requires |b| == PACKET_BYTES
  {
    if b[3] != b[1] ^ b[2] then Rejected
    else if b[0] != D_HEAD then Rejected
    else if b[1] == ADD_RK3229 then Accepted(Message(CommandOf(b[2]), 0, false), CommandOf(b[2]).Unknown?)
    else Accepted(Message(VolumeCommandOf(b[1]), b[2] & 0x7F, b[2] & 0x80 != 0), false)
  }

  /** The check byte: changing any one byte of a packet that is accepted makes it rejected. */
  lemma OneByteChangeIsRejected(b: Octets, i: nat, x: bv8)
    requires |b| == PACKET_BYTES && Parse(b).Accepted? && i < PACKET_BYTES && x != b[i]
    ensures Parse(b[i := x]).Rejected?
  {
    XorCancels(b[1], b[2], x);
  }

  lemma XorCancels(a: bv8, b: bv8, x: bv8)
    ensures x != a ==> x ^ b != a ^ b
    ensures x != b ==> a ^ x != a ^ b
  {
  }

  /** The fifteen command packets byte for byte. */
  lemma CommandPackets()
    ensures Parse([0x7A, 0x01, 0xA3, 0xA2]) == Accepted(Message(SetMusicMode, 0, false), false)
    ensures Parse([0x7A, 0x01, 0xA4, 0xA5]) == Accepted(Message(Booting, 0, false), false)
    ensures Parse([0x7A, 0x01, 0xA5, 0xA4]) == Accepted(Message(Connecting, 0, false), false)
    ensures Parse([0x7A, 0x01, 0xA6, 0xA7]) == Accepted(Message(ConnectFail, 0, false), false)
    ensures Parse([0x7A, 0x01, 0xA7, 0xA6]) == Accepted(Message(ConnectSucc, 0, false), false)
    ensures Parse([0x7A, 0x01, 0xA8, 0xA9]) == Accepted(Message(AfterWakeup, 0, false), false)
    ensures Parse([0x7A, 0x01, 0xA9, 0xA8]) == Accepted(Message(Searching, 0, false), false)
    ensures Parse([0x7A, 0x01, 0xAA, 0xAB]) == Accepted(Message(Playing, 0, false), false)
  {
  }

  lemma MoreCommandPackets()
    ensures Parse([0x7A, 0x01, 0xAB, 0xAA]) == Accepted(Message(Alarm, 0, false), false)
    ensures Parse([0x7A, 0x01, 0xAC, 0xAD]) == Accepted(Message(Updating, 0, false), false)
    ensures Parse([0x7A, 0x01, 0xAD, 0xAC]) == Accepted(Message(UpdateFail, 0, false), false)
    ensures Parse([0x7A, 0x01, 0xAE, 0xAF]) == Accepted(Message(SetNetworkConf, 0, false), false)
    ensures Parse([0x7A, 0x01, 0xAF, 0xAE]) == Accepted(Message(SetNewsMode, 0, false), false)
    ensures Parse([0x7A, 0x01, 0xB0, 0xB1]) == Accepted(Message(SetDefault, 0, false), false)
    ensures Parse([0x7A, 0x01, 0xB1, 0xB0]) == Accepted(Message(SetMovieMode, 0, false), false)
  {
  }

  /** Header and check byte are right. */
  predicate Intact(b: Octets)
    requires |b| == 4
  {
    b[0] == 0x7A && b[3] == b[1] ^ b[2]
  }

  /** Everything else the parser can be given: unknown codes, which flush the line; volume packets, which have 0xA2 or
      0xA1 for an address, and unknown addresses, which do not; and packets that are not intact. */
  lemma OtherPackets(b: Octets)
    requires |b| == 4
    ensures Parse(b) == Rejected <==> !Intact(b)
    ensures Intact(b) && b[1] == 0x01 && !(0xA3 <= b[2] <= 0xB1) ==>
              Parse(b) == Accepted(Message(Unknown, 0, false), true)
    ensures Intact(b) && b[1] == 0xA2 ==> Parse(b) == Accepted(Message(SetVolume, b[2] & 0x7F, b[2] >= 0x80), false)
    ensures Intact(b) && b[1] == 0xA1 ==> Parse(b) == Accepted(Message(GetVolume, b[2] & 0x7F, b[2] >= 0x80), false)
    ensures Intact(b) && b[1] !in {0x01, 0xA1, 0xA2} ==>
              Parse(b) == Accepted(Message(Unknown, b[2] & 0x7F, b[2] >= 0x80), false)
  {
    HighBit(b[2]);
  }

  lemma HighBit(v: bv8)
    ensures v & 0x80 != 0 <==> v >= 0x80
  {
  }

  // ----- what the other direction sends

  const ADD_SPEAKER: bv8 := 0x02

  /** The code the writer gives a command; 0 when it knows none. */
  function CodeOf(command: SerCommand): bv8 {
    match command
    case GetVolume => 0xA1
    case SetMusicMode => 0xA3
    case Booting => 0xA4
    case Connecting => 0xA5
    case ConnectFail => 0xA6
    case ConnectSucc => 0xA7
    case AfterWakeup => 0xA8
    case Searching => 0xA9
    case Playing => 0xAA
    case Alarm => 0xAB
    case Updating => 0xAC
    case UpdateFail => 0xAD
    case SetNewsMode => 0xAF
    case SetMovieMode => 0xB1
    case _ => 0
  }

  /** `SerWrite_rk3229_t`: the four bytes that go out. */
  function PacketOf(command: SerCommand, data: bv8): (b: Octets)
    ensures |b| == PACKET_BYTES
  {
    var address := if command.SetVolume? then 0xA2 else ADD_SPEAKER;
    var code := if command.SetVolume? then data else CodeOf(command);
    [D_HEAD, address, code, address ^ code]
  }

  /** What goes out byte for byte: a volume under its own address, everything else addressed to the speaker. */
  lemma PacketsSent(command: SerCommand, data: bv8)
    ensures PacketOf(SetVolume, data) == [0x7A, 0xA2, data, 0xA2 ^ data]
    ensures PacketOf(GetVolume, data) == [0x7A, 0x02, 0xA1, 0xA3]
    ensures command in {Unknown, SetNetworkConf, SetDefault} ==> PacketOf(command, data) == [0x7A, 0x02, 0x00, 0x02]
    ensures !command.SetVolume? ==> PacketOf(command, data)[..2] == [0x7A, 0x02]
  {
  }

  /** The same packet under another address. */
  function Readdressed(b: Octets, address: bv8): (r: Octets)
    requires |b| == PACKET_BYTES
    ensures |r| == PACKET_BYTES
  {
    [b[0], address, b[2], address ^ b[2]]
  }

  /** The writer's table is the parser's: a command it sends, addressed to this side, parses to that command and
      never flushes the line; a volume packet parses as it is, with its level and its mute bit apart. */
  lemma WriterAndParserAgree(command: SerCommand, data: bv8)
    ensures Parse(PacketOf(command, data)).Accepted?
    ensures CodeOf(command) != 0 && !command.GetVolume? ==>
              Parse(Readdressed(PacketOf(command, data), ADD_RK3229)) == Accepted(Message(command, 0, false), false)
    ensures command.SetVolume? ==>
              Parse(PacketOf(command, data)) == Accepted(Message(SetVolume, data & 0x7F, data & 0x80 != 0), false)
    ensures command.GetVolume? ==>
              Parse(Readdressed(PacketOf(command, data), CodeOf(command))).message.command == GetVolume
  {
  }

  /** Level and mute bit determine the byte that was sent. */
  lemma VolumeRoundTrip(v: bv8, w: bv8)
    requires Parse(PacketOf(SetVolume, v)) == Parse(PacketOf(SetVolume, w))
    ensures v == w
  {
    WriterAndParserAgree(SetVolume, v);
    WriterAndParserAgree(SetVolume, w);
    LevelAndMute(v);
    LevelAndMute(w);
  }

  lemma LevelAndMute(v: bv8)
    ensures v == (v & 0x7F) | (if v & 0x80 != 0 then 0x80 else 0)
  {
  }

  // ----- from text to bytes

  function ValueOf(c: bv8): bv8 {
    if 0x61 <= c <= 0x66 then c - 0x61 + 10       // 'a' to 'f'
    else if 0x41 <= c <= 0x46 then c - 0x41 + 10  // 'A' to 'F'
    else c - 0x30                                 // '0' to '9', and whatever else is not a space
  }

  /** A hex digit is worth its low four bits, a letter nine more. */
  lemma HexWorth(c: bv8)
    ensures 0x30 <= c <= 0x39 ==> ValueOf(c) == c & 0x0F
    ensures 0x41 <= c <= 0x46 || 0x61 <= c <= 0x66 ==> ValueOf(c) == (c & 0x0F) + 9
  {
  }

  function Shift(b: bv8, c: bv8): bv8 {
    (b << 4) | ValueOf(c)
  }

  /** The scan over the stored bytes: the packet bytes so far, the spaces counted, and whether it broke off. */
  datatype Scanned = Scanned(bytes: Octets, trim: nat, broke: bool)

  function Scan(s: Octets): (r: Scanned)
    ensures |r.bytes| == PACKET_BYTES
  {
    if |s| == 0 then Scanned([0, 0, 0, 0], 0, false)
    else
      var before := Scan(s[..|s| - 1]);
      var c := s[|s| - 1];
      if before.broke then before
      else if c == SPACE then before.(trim := before.trim + 1)
      else if before.trim >= PACKET_BYTES then before.(broke := true)
      else before.(bytes := before.bytes[before.trim := Shift(before.bytes[before.trim], c)])
  }

  lemma ScanSnoc(s: Octets, c: bv8)
    ensures var before := Scan(s);
            Scan(s + [c]) ==
              if before.broke then before
              else if c == SPACE then before.(trim := before.trim + 1)
              else if before.trim >= PACKET_BYTES then before.(broke := true)
              else before.(bytes := before.bytes[before.trim := Shift(before.bytes[before.trim], c)])
  {
    assert (s + [c])[..|s|] == s;
  }

  lemma {:induction false} BrokenStays(s: Octets, t: Octets)
    requires Scan(s).broke
    ensures Scan(s + t) == Scan(s)
    decreases |t|
  {
    if |t| == 0 {
      assert s + t == s;
    } else {
      BrokenStays(s, t[..|t| - 1]);
      assert (s + t)[..|s + t| - 1] == s + t[..|t| - 1];
    }
  }

  function Spaces(s: Octets): nat {
    if |s| == 0 then 0 else Spaces(s[..|s| - 1]) + (if s[|s| - 1] == SPACE then 1 else 0)
  }

  lemma {:induction false} FewSpaces(s: Octets)
    ensures Scan(s).trim <= Spaces(s)
    ensures !Scan(s).broke ==> Scan(s).trim == Spaces(s)
    ensures Spaces(s) < PACKET_BYTES ==> !Scan(s).broke
  {
    if |s| > 0 {
      FewSpaces(s[..|s| - 1]);
    }
  }

  lemma {:induction false} SpacesGrow(s: Octets, j: nat)
    requires j <= |s|
    ensures Spaces(s[..j]) <= Spaces(s)
    decreases |s|
  {
    if j < |s| {
      var front := s[..|s| - 1];
      SpacesGrow(front, j);
      assert front[..j] == s[..j];
    } else {
      assert s[..j] == s;
    }
  }

  // ----- the reader as a state machine

  /** One pass of the thread: the bytes the driver has ready (none: a timeout), how many unread ones a flush would
      drop, and the command a caller waits for (none: unknown). */
  datatype Pass = Pass(ready: nat, lost: nat, awaited: SerCommand)

  /** Where a parsed message goes: to the waiting caller, to the listener, or nowhere. */
  datatype Route = ToWaiter | ToListener | Dropped

  datatype Delivery = Delivery(message: Message, route: Route)

  function RouteOf(awaited: SerCommand, command: SerCommand): Route {
    if awaited != command then ToListener else if awaited.Unknown? then Dropped else ToWaiter
  }

  /** Stored bytes, bytes still to come, and what has become of the messages parsed. */
  datatype Reader = Reader(store: Octets, line: Octets, sent: seq<Delivery>)

  function Least(a: nat, b: nat): nat {
    if a <= b then a else b
  }

  function ReadSize(r: Reader, pass: Pass): (n: nat)
    ensures n <= |r.line| && (|r.store| <= MAX_PACKET_LEN ==> |r.store| + n <= MAX_PACKET_LEN)
  {
    if |r.store| > MAX_PACKET_LEN then 0 else Least(Least(pass.ready, MAX_PACKET_LEN - |r.store|), |r.line|)
  }

  function Flush(line: Octets, lost: nat): Octets {
    line[Least(lost, |line|)..]
  }

  /** One pass of `thread_read_sercom_fun`. */
  function Step(r: Reader, pass: Pass): Reader {
    var n := ReadSize(r, pass);
    var store, line := r.store + r.line[..n], r.line[n..];
    var scanned := Scan(store);
    if |store| == 0 then r
    else if scanned.trim < PACKET_BYTES then
      if |store| >= MAX_PACKET_LEN then Reader([], Flush(line, pass.lost), r.sent) else Reader(store, line, r.sent)
    else
      match Parse(scanned.bytes)
      case Rejected => Reader([], Flush(line, pass.lost), r.sent)
      case Accepted(message, flushed) =>
        Reader([], if flushed then Flush(line, pass.lost) else line,
               r.sent + [Delivery(message, RouteOf(pass.awaited, message.command))])
  }

  function Run(r: Reader, passes: seq<Pass>): Reader {
    if |passes| == 0 then r else Step(Run(r, passes[..|passes| - 1]), passes[|passes| - 1])
  }

  /** What a pass does with whatever bytes: it reads up to twelve in all; without four spaces among them it waits for
      more, or gives up on twelve; with four it is done with them, and a packet that is not intact flushes the line. */
  lemma PassOutcome(r: Reader, pass: Pass)
    requires |r.store| <= 12
    ensures var n := Least(pass.ready, Least(12 - |r.store|, |r.line|));
            var t, line := r.store + r.line[..n], r.line[n..];
            var r' := Step(r, pass);
            var b := Scan(t).bytes;
            (Spaces(t) < 4 && |t| < 12 ==> r' == Reader(t, line, r.sent)) &&
            (Spaces(t) < 4 && |t| >= 12 ==> r' == Reader([], Flush(line, pass.lost), r.sent)) &&
            (Spaces(t) >= 4 && !Intact(b) ==>
              r' == Reader([], Flush(line, pass.lost), r.sent)) &&
            (Spaces(t) >= 4 && Intact(b) ==>
              r'.store == [] && |r'.sent| == |r.sent| + 1 && r'.sent[..|r.sent|] == r.sent &&
              Parse(b).Accepted? && r'.sent[|r.sent|].message == Parse(b).message &&
              r'.line == if Parse(b).flushed then Flush(line, pass.lost) else line)
  {
    hide Scan, Parse, Spaces, Flush, Intact;
    var n := ReadSize(r, pass);
    var t := r.store + r.line[..n];
    FewSpaces(t);
    BrokenIsFull(t);
    OtherPackets(Scan(t).bytes);
    if |t| == 0 {
      NoSpaces();
      assert r.line[n..] == r.line && r.store == [];
    }
  }

  lemma NoSpaces()
    ensures Spaces([]) == 0
  {
  }

  lemma {:induction false} BrokenIsFull(s: Octets)
    ensures Scan(s).broke ==> Scan(s).trim >= 4
  {
    if |s| > 0 {
      BrokenIsFull(s[..|s| - 1]);
    }
  }

  /** Flushing drops the first bytes of the line. */
  lemma FlushDrops(line: Octets, lost: nat)
    ensures lost <= |line| ==> Flush(line, lost) == line[lost..]
    ensures lost >= |line| ==> Flush(line, lost) == []
  {
  }

  /** A message goes to the caller that waits for its command, to the listener when nobody does, and is dropped when its
      command is unknown and an unknown one is waited for. */
  lemma RouteIff(awaited: SerCommand, command: SerCommand)
    ensures RouteOf(awaited, command) == ToWaiter <==> awaited == command && command != Unknown
    ensures RouteOf(awaited, command) == ToListener <==> awaited != command
    ensures RouteOf(awaited, command) == Dropped <==> awaited == command == Unknown
  {
  }

  /** On any bytes there is always room for the next read. */
  lemma {:induction false} AlwaysRoom(r: Reader, passes: seq<Pass>)
    requires |r.store| < MAX_PACKET_LEN
    ensures |Run(r, passes).store| < MAX_PACKET_LEN
  {
    hide Scan, Parse, Flush;
    if |passes| > 0 {
      AlwaysRoom(r, passes[..|passes| - 1]);
    }
  }

  // ----- the code

  class SerialReader {
    const response: array<bv8>
    var nStore: nat
    var line: Octets
    var sent: seq<Delivery>

    ghost predicate Valid()
      reads this
    {
      response.Length == MAX_PACKET_LEN + 1 && nStore < MAX_PACKET_LEN
    }

    ghost function State(): Reader
      reads this, response
      requires Valid()
    {
      Reader(response[..nStore], line, sent)
    }

    constructor (incoming: Octets)
      ensures Valid() && State() == Reader([], incoming, []) && fresh(response)
    {
      response := new bv8[MAX_PACKET_LEN + 1](_ => 0);
      nStore, line, sent := 0, incoming, [];
    }

    method SerClear(lost: nat)
      modifies this`line
      ensures line == Flush(old(line), lost)
    {
      line := line[Least(lost, |line|)..];
    }

    /** The scan for a complete packet. */
    method CheckPacket(n: nat) returns (bytes: Octets, trim: nat)
      requires n <= response.Length
      ensures bytes == Scan(response[..n]).bytes && trim == Scan(response[..n]).trim
    {
      hide Scan, Shift;
      var buf := new bv8[PACKET_BYTES](_ => 0);
      trim := 0;
      var i := 0;
      EmptyScan();
      assert response[..0] == [] && buf[..] == [0, 0, 0, 0];
      while i < n
        invariant i <= n && fresh(buf)
        invariant Scan(response[..i]) == Scanned(buf[..], trim, false)
      {
        ScanSnoc(response[..i], response[i]);
        assert response[..i] + [response[i]] == response[..i + 1];
        if response[i] == SPACE {
          trim := trim + 1;
        } else {
          if trim >= PACKET_BYTES {
            BrokenStays(response[..i + 1], response[i + 1..n]);
            assert response[..i + 1] + response[i + 1..n] == response[..n];
            break;
          }
          buf[trim] := Shift(buf[trim], response[i]);
        }
        i := i + 1;
      }
      bytes := buf[..];
    }

    /** To the caller that waits for this command, or to the listener; an unknown one nobody waits for is dropped. */
    method Deliver(message: Message, awaited: SerCommand)
      modifies this`sent
      ensures sent == old(sent) + [Delivery(message, RouteOf(awaited, message.command))]
      ensures var route := sent[|old(sent)|].route;
              (route == ToWaiter <==> awaited == message.command && awaited != Unknown) &&
              (route == ToListener <==> awaited != message.command)
    {
      var route := ToListener;
      if awaited == message.command {
        route := Dropped;
        if !awaited.Unknown? {
          route := ToWaiter;
        }
      }
      sent := sent + [Delivery(message, route)];
    }

    /** The bytes read go behind the stored ones. */
    method Store(n: nat)
      requires Valid() && nStore + n <= MAX_PACKET_LEN && n <= |line|
      modifies this`line, response
      ensures line == old(line)[n..] && response[..nStore + n] == old(response[..nStore]) + old(line)[..n]
    {
      forall k | 0 <= k < n {
        response[nStore + k] := line[k];
      }
      line := line[n..];
    }

    /** One pass of the reading thread. */
    method ReadOnce(pass: Pass)
      requires Valid()
      modifies this, response
      ensures Valid() && State() == Step(old(State()), pass)
    {
      hide Scan, Parse, Flush, RouteOf;
      ghost var was := State();
      var room := MAX_PACKET_LEN - nStore;
      var nRead := Least(Least(pass.ready, room), |line|);
      if nRead == 0 {
        if nStore == 0 {
          assert was.store + was.line[..0] == [];
          return;
        }
      }
      Store(nRead);
      var stored := nStore + nRead;
      var bytes, trim := CheckPacket(stored);
      if trim < PACKET_BYTES {
        nStore := stored;
        if stored >= MAX_PACKET_LEN {
          nStore := 0;
          SerClear(pass.lost);
        }
        return;
      }
      nStore := 0;
      forall k | 0 <= k < response.Length {
        response[k] := 0;
      }
      match Parse(bytes)
      case Rejected =>
        SerClear(pass.lost);
      case Accepted(message, flushed) =>
        if flushed {
          SerClear(pass.lost);
        }
        Deliver(message, pass.awaited);
    }
  }

  lemma EmptyScan()
    ensures Scan([]) == Scanned([0, 0, 0, 0], 0, false)
  {
  }

  // ----- streams of packets

  /** Twelve bytes of which the last is the fourth space. */
  predicate IsPacket(t: Octets) {
    |t| == MAX_PACKET_LEN && t[MAX_PACKET_LEN - 1] == SPACE && Spaces(t) == PACKET_BYTES
  }

  /** A packet the parser takes without flushing the line. */
  predicate WellFormed(t: Octets) {
    IsPacket(t) && Parse(Scan(t).bytes).Accepted? && !Parse(Scan(t).bytes).flushed
  }

  function MessageOf(t: Octets): Message
    requires WellFormed(t)
  {
    Parse(Scan(t).bytes).message
  }

  function Stream(packets: seq<Octets>): Octets {
    if |packets| == 0 then [] else packets[0] + Stream(packets[1..])
  }

  lemma {:induction false} StreamLength(packets: seq<Octets>)
    requires forall p :: p in packets ==> WellFormed(p)
    ensures |Stream(packets)| == 12 * |packets|
  {
    hide Scan, Parse, Spaces;
    if |packets| > 0 {
      assert packets[0] in packets;
      StreamLength(packets[1..]);
    }
  }

  /** The packet's message, which goes somewhere unless its command is unknown and nobody waits. */
  predicate Delivered(d: Delivery, packet: Octets) {
    WellFormed(packet) && d.message == MessageOf(packet) && (d.route.Dropped? ==> d.message.command.Unknown?) &&
    (d.route.ToWaiter? ==> !d.message.command.Unknown?)
  }

  /** The first `|sent|` packets have been dealt with; the rest is in the store and on the line. */
  ghost predicate Framed(r: Reader, packets: seq<Octets>) {
    |r.store| < MAX_PACKET_LEN && |r.sent| <= |packets| &&
    (forall p :: p in packets ==> WellFormed(p)) &&
    (forall i :: 0 <= i < |r.sent| ==> Delivered(r.sent[i], packets[i])) &&
    r.store + r.line == Stream(packets[|r.sent|..])
  }

  /** What has been stored is part of one packet and never reaches into the next. */
  lemma StoredPart(packets: seq<Octets>, store: Octets, line: Octets)
    requires forall p :: p in packets ==> WellFormed(p)
    requires store + line == Stream(packets) && 0 < |store| <= MAX_PACKET_LEN
    ensures |packets| > 0 && |packets[0]| == MAX_PACKET_LEN && store == packets[0][..|store|]
    ensures |store| == MAX_PACKET_LEN ==> store == packets[0] && line == Stream(packets[1..])
  {
    hide Scan, Parse, Spaces;
    StreamLength(packets);
    assert packets[0] in packets;
    var s := Stream(packets);
    assert s[..|store|] == store && s[|store|..] == line;
    assert s[..MAX_PACKET_LEN] == packets[0] && s[MAX_PACKET_LEN..] == Stream(packets[1..]);
    assert s[..MAX_PACKET_LEN][..|store|] == s[..|store|];
  }

  /** No part of a packet looks complete, and the whole of it does. */
  lemma CompleteIff(t: Octets, j: nat)
    requires IsPacket(t) && 0 < j <= MAX_PACKET_LEN
    ensures Scan(t[..j]).trim >= PACKET_BYTES <==> j == MAX_PACKET_LEN
  {
    var front := t[..MAX_PACKET_LEN - 1];
    assert Spaces(t) == Spaces(front) + 1;
    if j < MAX_PACKET_LEN {
      SpacesGrow(front, j);
      assert front[..j] == t[..j];
      FewSpaces(t[..j]);
    } else {
      assert t[..j] == t;
      FewSpaces(front);
    }
  }

  lemma FramedStep(r: Reader, packets: seq<Octets>, pass: Pass)
    requires Framed(r, packets)
    ensures Framed(Step(r, pass), packets) && |Step(r, pass).line| == |r.line| - ReadSize(r, pass)
  {
    hide Scan, Parse, Spaces, Flush, Stream;
    var n, k := ReadSize(r, pass), |r.sent|;
    var store, line := r.store + r.line[..n], r.line[n..];
    assert store + line == r.store + r.line;
    if |store| > 0 {
      StoredPart(packets[k..], store, line);
      var t := packets[k..][0];
      assert t == packets[k] && t in packets;
      CompleteIff(t, |store|);
      assert t[..MAX_PACKET_LEN] == t;
      assert packets[k..][1..] == packets[k + 1..];
      assert [] + line == line;
    }
  }

  /** Framing does not depend on how the stream is cut: for any packets, any read sizes and any timeouts, what has
      been delivered is the messages of the first packets, in order and once each, and the rest is still to come. */
  lemma {:induction false} FramingIgnoresReadBoundaries(packets: seq<Octets>, passes: seq<Pass>)
    requires forall p :: p in packets ==> WellFormed(p)
    ensures Framed(Run(Reader([], Stream(packets), []), passes), packets)
  {
    hide Scan, Parse, Spaces, Step, Stream;
    if |passes| == 0 {
      assert packets[0..] == packets;
      assert [] + Stream(packets) == Stream(packets);
    } else {
      var front := passes[..|passes| - 1];
      FramingIgnoresReadBoundaries(packets, front);
      FramedStep(Run(Reader([], Stream(packets), []), front), packets, passes[|passes| - 1]);
    }
  }

  /** Once the line is drained every packet has been delivered and nothing is left over. */
  lemma AllDelivered(packets: seq<Octets>, passes: seq<Pass>)
    requires forall p :: p in packets ==> WellFormed(p)
    requires Run(Reader([], Stream(packets), []), passes).line == []
    ensures var r := Run(Reader([], Stream(packets), []), passes);
            r.store == [] && |r.sent| == |packets| &&
            forall i :: 0 <= i < |packets| ==> Delivered(r.sent[i], packets[i])
  {
    hide Scan, Parse, Spaces, Step, Stream, Run;
    FramingIgnoresReadBoundaries(packets, passes);
    var r := Run(Reader([], Stream(packets), []), passes);
    assert r.store + [] == r.store;
    StreamLength(packets[|r.sent|..]);
  }

  /** Passes that each find a byte, as many as the stream is long, drain it whatever their sizes. */
  lemma {:induction false} EnoughPassesDrain(packets: seq<Octets>, passes: seq<Pass>)
    requires forall p :: p in packets ==> WellFormed(p)
    requires forall k :: 0 <= k < |passes| ==> passes[k].ready > 0
    ensures var left := |Run(Reader([], Stream(packets), []), passes).line|;
            left == 0 || left + |passes| <= |Stream(packets)|
  {
    hide Scan, Parse, Spaces, Step, Stream, WellFormed;
    if |passes| > 0 {
      var front := passes[..|passes| - 1];
      EnoughPassesDrain(packets, front);
      FramingIgnoresReadBoundaries(packets, front);
      FramedStep(Run(Reader([], Stream(packets), []), front), packets, passes[|passes| - 1]);
    }
  }

  // ----- the encoder that was kept

  function DigitOf(n: bv8): bv8 {
    if n + 0x30 > 0x39 then n + 0x30 + 0x07 else n + 0x30
  }

  function PairOf(b: bv8): Octets {
    [DigitOf(b >> 4)] + [DigitOf(b & 0x0F)] + [SPACE]
  }

  function Encode(bytes: Octets): Octets {
    if |bytes| == 0 then [] else Encode(bytes[..|bytes| - 1]) + PairOf(bytes[|bytes| - 1])
  }

  /** The hex text of a packet, written into the output buffer. */
  method EncodeInto(bytes: Octets, buffer: array<bv8>)
    requires |bytes| == PACKET_BYTES && buffer.Length == MAX_PACKET_LEN + 1
    modifies buffer
    ensures buffer[..MAX_PACKET_LEN] == Encode(bytes) && buffer[MAX_PACKET_LEN] == 0
  {
    hide DigitOf, Encode, PairOf;
    EncodeNothing(bytes);
    forall k | 0 <= k < buffer.Length {
      buffer[k] := 0;
    }
    var i := 0;
    while i < PACKET_BYTES
      invariant 0 <= i <= PACKET_BYTES && buffer[MAX_PACKET_LEN] == 0
      invariant buffer[..3 * i] == Encode(bytes[..i])
    {
      ghost var before := buffer[..3 * i];
      EncodeOneMore(bytes, i);
      buffer[i * 3] := DigitOf(bytes[i] >> 4);
      buffer[i * 3 + 1] := DigitOf(bytes[i] & 0x0F);
      buffer[i * 3 + 2] := SPACE;
      assert buffer[..3 * i] == before;
      assert buffer[..3 * (i + 1)] == before + [buffer[3 * i]] + [buffer[3 * i + 1]] + [buffer[3 * i + 2]];
      i := i + 1;
    }
    assert bytes[..4] == bytes;
  }

  lemma EncodeNothing(bytes: Octets)
    ensures Encode(bytes[..0]) == []
  {
  }

  lemma EncodeOneMore(bytes: Octets, i: nat)
    requires i < |bytes|
    ensures Encode(bytes[..i + 1]) ==
            Encode(bytes[..i]) + [DigitOf(bytes[i] >> 4)] + [DigitOf(bytes[i] & 0x0F)] + [SPACE]
  {
    hide DigitOf;
    assert bytes[..i + 1][..i] == bytes[..i];
  }

  /** The encoder writes capital letters. */
  lemma DigitValue(n: bv8)
    requires n <= 0x0F
    ensures ValueOf(DigitOf(n)) == n && DigitOf(n) != SPACE
    ensures 0x30 <= DigitOf(n) <= 0x39 || 0x41 <= DigitOf(n) <= 0x46
  {
  }

  lemma NibblesRejoin(b: bv8)
    ensures b >> 4 <= 0x0F && b & 0x0F <= 0x0F
    ensures (((0 << 4) | (b >> 4)) << 4) | (b & 0x0F) == b
  {
  }

  lemma DigitsRejoin(b: bv8)
    ensures Shift(Shift(0, DigitOf(b >> 4)), DigitOf(b & 0x0F)) == b
    ensures DigitOf(b >> 4) != SPACE && DigitOf(b & 0x0F) != SPACE
  {
    hide DigitOf, ValueOf;
    NibblesRejoin(b);
    DigitValue(b >> 4);
    DigitValue(b & 0x0F);
  }

  lemma ScanPair(s: Octets, h: bv8, l: bv8, bytes: Octets, trim: nat)
    requires trim < PACKET_BYTES == |bytes| && bytes[trim] == 0 && Scan(s) == Scanned(bytes, trim, false)
    requires h != SPACE && l != SPACE
    ensures Scan(s + [h] + [l] + [SPACE]) == Scanned(bytes[trim := Shift(Shift(0, h), l)], trim + 1, false)
  {
    hide Scan, Shift;
    ScanSnoc(s, h);
    ScanSnoc(s + [h], l);
    ScanSnoc(s + [h] + [l], SPACE);
  }

  function Padded(bytes: Octets): (r: Octets)
    requires |bytes| <= PACKET_BYTES
    ensures |r| == PACKET_BYTES
  {
    bytes + seq(PACKET_BYTES - |bytes|, _ => 0)
  }

  /** The framer inverts the encoder on any bytes that fit a packet. */
  lemma {:induction false} ScanEncoded(bytes: Octets)
    requires |bytes| <= PACKET_BYTES
    ensures Scan(Encode(bytes)) == Scanned(Padded(bytes), |bytes|, false)
  {
    hide DigitOf, Shift, Scan, Padded;
    if |bytes| == 0 {
      EmptyScan();
      NothingPadded(bytes);
    } else {
      var front, b := bytes[..|bytes| - 1], bytes[|bytes| - 1];
      ScanEncoded(front);
      DigitsRejoin(b);
      var s, h, l := Encode(front), DigitOf(b >> 4), DigitOf(b & 0x0F);
      PaddedOneMore(bytes);
      ScanPair(s, h, l, Padded(front), |front|);
      assert Encode(bytes) == s + [h] + [l] + [SPACE];
    }
  }

  lemma NothingPadded(bytes: Octets)
    requires |bytes| == 0
    ensures Padded(bytes) == [0, 0, 0, 0]
  {
  }

  lemma PaddedOneMore(bytes: Octets)
    requires 0 < |bytes| <= PACKET_BYTES
    ensures var front := bytes[..|bytes| - 1];
            Padded(front)[|front|] == 0 && Padded(bytes) == Padded(front)[|front| := bytes[|bytes| - 1]]
  {
  }

  /** Encoding four bytes gives a packet that decodes to them; it is well formed exactly when the parser takes them. */
  lemma EncodedIsPacketIff(bytes: Octets)
    requires |bytes| == PACKET_BYTES
    ensures IsPacket(Encode(bytes)) && Scan(Encode(bytes)).bytes == bytes
    ensures WellFormed(Encode(bytes)) <==> Parse(bytes).Accepted? && !Parse(bytes).flushed
  {
    hide Parse, Scan, PairOf;
    ScanEncoded(bytes);
    assert Padded(bytes) == bytes;
    FewSpaces(Encode(bytes));
    EncodedLength(bytes);
  }

  lemma {:induction false} EncodedLength(bytes: Octets)
    ensures |Encode(bytes)| == 3 * |bytes| && (|bytes| > 0 ==> Encode(bytes)[3 * |bytes| - 1] == SPACE)
  {
    hide DigitOf;
    if |bytes| > 0 {
      EncodedLength(bytes[..|bytes| - 1]);
    }
  }
}
