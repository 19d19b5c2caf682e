/**
 MAC command streams (section 5 of the LoRaWAN Specification, section 14 for class B). A byte string is
 split into commands whose length depends on the command identifier and on who sent them.
 clientSide marks commands sent by the gateway to the device; the other direction is device to gateway.
 */
module MacStream {
  import opened Basics

  const ERR_CODE_MAC_TOO_SHORT: int := -542
  const ERR_CODE_MAC_INVALID: int := -543

  // command identifiers
  const RESET: byte := 0x01
  const LINK_CHECK: byte := 0x02
  const LINK_ADR: byte := 0x03
  const DUTY_CYCLE: byte := 0x04
  const RX_PARAM_SETUP: byte := 0x05
  const DEV_STATUS: byte := 0x06
  const NEW_CHANNEL: byte := 0x07
  const RX_TIMING_SETUP: byte := 0x08
  const TX_PARAM_SETUP: byte := 0x09
  const DL_CHANNEL: byte := 0x0a
  const REKEY: byte := 0x0b
  const ADR_PARAM_SETUP: byte := 0x0c
  const DEVICE_TIME: byte := 0x0d
  const FORCE_REJOIN: byte := 0x0e
  const REJOIN_PARAM_SETUP: byte := 0x0f
  const PING_SLOT_INFO: byte := 0x10
  const PING_SLOT_CHANNEL: byte := 0x11
  const BEACON_TIMING: byte := 0x12
  const BEACON_FREQ: byte := 0x13
  const DEVICE_MODE: byte := 0x20

  // Room for the identifier and the largest payload.
  const MAC_COMMAND_SIZE := 6

  datatype CommandType = Known | Proprietary | Invalid

  function IsMACCommand(cmd: byte): CommandType {
    if cmd >= 0x80 then Proprietary
    else if cmd == 0 || 0x14 <= cmd <= 0x1f || 0x21 <= cmd <= 0x7f then Invalid
    else Known
  }

  // What the two parsers take for each identifier, Unknown for the default branch.
  datatype Size = Unknown | Bytes(n: nat)

  function ParsedClientSide(cid: byte): Size {
    if cid == RESET then Bytes(2)
    else if cid == LINK_CHECK then Bytes(3)
    else if cid == LINK_ADR then Bytes(5)
    else if cid == DUTY_CYCLE then Bytes(2)
    else if cid == RX_PARAM_SETUP then Bytes(5)
    else if cid == DEV_STATUS then Bytes(1)
    else if cid == NEW_CHANNEL then Bytes(6)
    else if cid == RX_TIMING_SETUP then Bytes(2)
    else if cid == TX_PARAM_SETUP then Bytes(2)
    else if cid == DL_CHANNEL then Bytes(5)
    else if cid == REKEY then Bytes(2)
    else if cid == ADR_PARAM_SETUP then Bytes(2)
    else if cid == DEVICE_TIME then Bytes(6)
    else if cid == FORCE_REJOIN then Bytes(3)
    else if cid == REJOIN_PARAM_SETUP then Bytes(2)
    else if cid == PING_SLOT_INFO then Bytes(1)
    else if cid == PING_SLOT_CHANNEL then Bytes(5)
    else if cid == BEACON_TIMING then Bytes(4)
    else if cid == BEACON_FREQ then Bytes(4)
    else if cid == DEVICE_MODE then Bytes(2)
    else Unknown
  }

  function ParsedServerSide(cid: byte): Size {
    if cid == RESET then Bytes(2)
    else if cid == LINK_CHECK then Bytes(1)
    else if cid == LINK_ADR then Bytes(2)
    else if cid == DUTY_CYCLE then Bytes(1)
    else if cid == RX_PARAM_SETUP then Bytes(2)
    else if cid == DEV_STATUS then Bytes(3)
    else if cid == NEW_CHANNEL then Bytes(2)
    else if cid == RX_TIMING_SETUP then Bytes(1)
    else if cid == TX_PARAM_SETUP then Bytes(1)
    else if cid == DL_CHANNEL then Bytes(2)
    else if cid == REKEY then Bytes(2)
    else if cid == ADR_PARAM_SETUP then Bytes(1)
    else if cid == DEVICE_TIME then Bytes(1)
    else if cid == FORCE_REJOIN then Bytes(1)
    else if cid == REJOIN_PARAM_SETUP then Bytes(2)
    else if cid == PING_SLOT_INFO then Bytes(2)
    else if cid == PING_SLOT_CHANNEL then Bytes(2)
    else if cid == BEACON_TIMING then Bytes(1)
    else if cid == BEACON_FREQ then Bytes(2)
    else if cid == DEVICE_MODE then Bytes(2)
    else Unknown
  }

  // commandSize(): the printing side's own table of both directions, 0 for its default branch.
  function CommandSize(cid: byte, clientSide: bool): nat {
    match cid
    case 0x01 => 2
    case 0x02 => if clientSide then 3 else 1
    case 0x03 => if clientSide then 5 else 2
    case 0x04 => if clientSide then 2 else 1
    case 0x05 => if clientSide then 5 else 2
    case 0x06 => if clientSide then 1 else 3
    case 0x07 => if clientSide then 6 else 2
    case 0x08 => if clientSide then 2 else 1
    case 0x09 => if clientSide then 2 else 1
    case 0x0a => if clientSide then 5 else 2
    case 0x0b => 2
    case 0x0c => if clientSide then 2 else 1
    case 0x0d => if clientSide then 6 else 1
    case 0x0e => if clientSide then 3 else 1
    case 0x0f => 2
    case 0x10 => if clientSide then 1 else 2
    case 0x11 => if clientSide then 5 else 2
    case 0x12 => if clientSide then 4 else 1
    case 0x13 => if clientSide then 4 else 2
    case 0x20 => 2
    case _ => 0
  }

  function Parsed(cid: byte, clientSide: bool): Size {
    if clientSide then ParsedClientSide(cid) else ParsedServerSide(cid)
  }

  // Parsers, printer and the identifier test agree on every identifier, in both directions.
  lemma TablesAgree(cid: byte, clientSide: bool)
    ensures Parsed(cid, clientSide) == Unknown <==> CommandSize(cid, clientSide) == 0
    ensures Parsed(cid, clientSide) != Unknown ==> Parsed(cid, clientSide) == Bytes(CommandSize(cid, clientSide))
    ensures CommandSize(cid, clientSide) <= MAC_COMMAND_SIZE
    ensures CommandSize(cid, clientSide) > 0 <==> IsMACCommand(cid) == Known
  {
  }

  // ---- one command ----

  // The union behind a command always has its full size; a shorter command leaves the rest as it was.
  type Buffer = b: seq<byte> | |b| == MAC_COMMAND_SIZE witness [0, 0, 0, 0, 0, 0]

  // Parser result: the number of bytes taken or an error code, and the buffer afterwards.
  function ParseOne(buffer: Buffer, s: seq<byte>, clientSide: bool): (int, Buffer) {
    if |s| < 1 then (ERR_CODE_MAC_TOO_SHORT, buffer)
    else
      match Parsed(s[0], clientSide)
      case Unknown => (ERR_CODE_MAC_INVALID, buffer)
      case Bytes(n) =>
        if |s| < n then (ERR_CODE_MAC_TOO_SHORT, buffer)
        else TablesAgree(s[0], clientSide); (n, s[..n] + buffer[n..])
  }

  // A command as it is copied into a list.
  datatype Mac = Mac(command: Buffer, errcode: int, isClientSide: bool) {
    function Size(): nat {
      if errcode != 0 then 0 else CommandSize(command[0], isClientSide)
    }

    function ToString(): (s: seq<byte>)
      ensures |s| == Size()
    {
      TablesAgree(command[0], isClientSide);
      command[..Size()]
    }
  }

  // ---- lists of commands ----

  function Concat(list: seq<Mac>): seq<byte> {
    if list == [] then [] else list[0].ToString() + Concat(list[1..])
  }

  function Strings(list: seq<Mac>): (r: seq<seq<byte>>)
    ensures |r| == |list|
  {
    if list == [] then [] else [list[0].ToString()] + Strings(list[1..])
  }

  function Join(strings: seq<seq<byte>>): seq<byte> {
    if strings == [] then [] else strings[0] + Join(strings[1..])
  }

  function TotalSize(list: seq<Mac>): nat {
    if list == [] then 0 else list[0].Size() + TotalSize(list[1..])
  }

  // The commands at the front of s, and what is left. Elements never carry the direction flag.
  function ParseList(buffer: Buffer, s: seq<byte>, clientSide: bool): (seq<Mac>, seq<byte>)
    decreases |s|
  {
    var (r, b) := ParseOne(buffer, s, clientSide);
    if r <= 0 then ([], s)
    else
      var (list, rest) := ParseList(b, s[r..], clientSide);
      ([Mac(b, 0, false)] + list, rest)
  }

  const ZEROES: Buffer := [0, 0, 0, 0, 0, 0]

  /** A list of commands read from a payload. */
  class MacDataList {
    var isClientSide: bool
    var list: seq<Mac>

    constructor Parse(value: seq<byte>, clientSide: bool)
      ensures isClientSide == clientSide
      ensures list == ParseList(ZEROES, value, clientSide).0
    {
      isClientSide := clientSide;
      list := [];
      new;
      hide ParseOne, Parsed, CommandSize;
      var command: Buffer := ZEROES;
      var c, sz := 0, |value|;
      while true
        invariant 0 <= c <= |value| && c + sz == |value|
        invariant ParseList(ZEROES, value, clientSide).0 == list + ParseList(command, value[c..], clientSide).0
        invariant isClientSide == clientSide
        decreases sz
      {
        var (r, b) := ParseOne(command, value[c..], clientSide);
        PositiveSize(command, value[c..], clientSide);
        if r < 0 {
          break;
        }
        assert value[c..][r..] == value[c + r..];
        ghost var after := ParseList(b, value[c + r..], clientSide).0;
        assert list + ([Mac(b, 0, false)] + after) == (list + [Mac(b, 0, false)]) + after;
        command := b;
        list := list + [Mac(command, 0, false)];
        sz := sz - r;
        c := c + r;
      }
    }

    method Size() returns (sz: nat)
      ensures sz == TotalSize(list)
    {
      sz := 0;
      var i := 0;
      while i < |list|
        invariant i <= |list|
        invariant sz + TotalSize(list[i..]) == TotalSize(list)
      {
        sz := sz + list[i].Size();
        assert list[i..][1..] == list[i + 1..];
        i := i + 1;
      }
    }
  }

  lemma PositiveSize(buffer: Buffer, s: seq<byte>, clientSide: bool)
    ensures ParseOne(buffer, s, clientSide).0 != 0
    ensures ParseOne(buffer, s, clientSide).0 > 0 ==> |s| >= ParseOne(buffer, s, clientSide).0
  {
    if |s| > 0 {
      TablesAgree(s[0], clientSide);
    }
  }

  // ---- parsing is a maximal partition ----

  // Why parsing stopped: nothing left, an unknown identifier, or too few bytes for the command.
  predicate Stuck(s: seq<byte>, clientSide: bool) {
    s == [] || Parsed(s[0], clientSide) == Unknown || |s| < CommandSize(s[0], clientSide)
  }

  lemma ParseOneCuts(buffer: Buffer, s: seq<byte>, clientSide: bool)
    ensures ParseOne(buffer, s, clientSide).0 < 0 <==> Stuck(s, clientSide)
    ensures ParseOne(buffer, s, clientSide).0 < 0 ==> ParseOne(buffer, s, clientSide).1 == buffer
    ensures var (r, b) := ParseOne(buffer, s, clientSide);
      !Stuck(s, clientSide) ==> r == CommandSize(s[0], clientSide) && 0 < r <= |s| && b[..r] == s[..r] && b[0] == s[0]
  {
    if |s| > 0 {
      TablesAgree(s[0], clientSide);
    }
  }

  // In the device-to-gateway direction the printed commands, one after the other, are the input up to the
  // point where parsing got stuck, and size() counts these bytes.
  lemma {:induction false} ParsePartitions(buffer: Buffer, s: seq<byte>)
    ensures var (list, rest) := ParseList(buffer, s, false);
      s == Concat(list) + rest && Stuck(rest, false) && TotalSize(list) == |Concat(list)|
    decreases |s|
  {
    hide ParseOne, Parsed, CommandSize, Stuck;
    var (r, b) := ParseOne(buffer, s, false);
    ParseOneCuts(buffer, s, false);
    if r > 0 {
      ParsePartitions(b, s[r..]);
      assert Mac(b, 0, false).ToString() == s[..r];
      assert s == s[..r] + s[r..];
    }
  }

  // In either direction parsing takes the bytes of each command as its own table says; only printing a
  // command received from the gateway goes by the other table.
  function TakenBytes(list: seq<Mac>, clientSide: bool): seq<byte> {
    if list == [] then []
    else
      TablesAgree(list[0].command[0], clientSide);
      list[0].command[..CommandSize(list[0].command[0], clientSide)] + TakenBytes(list[1..], clientSide)
  }

  lemma {:induction false} ParseTakesPrefix(buffer: Buffer, s: seq<byte>, clientSide: bool)
    ensures var (list, rest) := ParseList(buffer, s, clientSide);
      s == TakenBytes(list, clientSide) + rest && Stuck(rest, clientSide)
    decreases |s|
  {
    hide ParseOne, Parsed, CommandSize, Stuck;
    var (r, b) := ParseOne(buffer, s, clientSide);
    ParseOneCuts(buffer, s, clientSide);
    if r > 0 {
      ParseTakesPrefix(b, s[r..], clientSide);
      assert s == s[..r] + s[r..];
    }
  }

  // What earlier commands left in the buffer never shows in the printed commands.
  lemma {:induction false} StaleBytesInvisible(buffer: Buffer, buffer': Buffer, s: seq<byte>)
    ensures Strings(ParseList(buffer, s, false).0) == Strings(ParseList(buffer', s, false).0)
    ensures ParseList(buffer, s, false).1 == ParseList(buffer', s, false).1
    decreases |s|
  {
    hide ParseOne, Parsed, CommandSize, Stuck;
    var (r, b) := ParseOne(buffer, s, false);
    var (r', b') := ParseOne(buffer', s, false);
    ParseOneCuts(buffer, s, false);
    ParseOneCuts(buffer', s, false);
    if r > 0 {
      StaleBytesInvisible(b, b', s[r..]);
      assert Mac(b, 0, false).ToString() == Mac(b', 0, false).ToString();
    }
  }

  // ---- unique decodability ----

  // A command as a device sends it.
  predicate DeviceCommand(c: seq<byte>) {
    c != [] && Parsed(c[0], false) != Unknown && |c| == CommandSize(c[0], false)
  }

  // Printing any commands and parsing the result gives the same commands, whatever follows them as long as
  // it does not start another one.
  lemma {:induction false} PrintThenParse(buffer: Buffer, commands: seq<seq<byte>>, rest: seq<byte>)
    requires forall i :: 0 <= i < |commands| ==> DeviceCommand(commands[i])
    requires Stuck(rest, false)
    ensures Strings(ParseList(buffer, Join(commands) + rest, false).0) == commands
    ensures ParseList(buffer, Join(commands) + rest, false).1 == rest
    decreases |commands|
  {
    hide ParseOne, Parsed, CommandSize;
    var s := Join(commands) + rest;
    ParseOneCuts(buffer, s, false);
    if commands == [] {
      assert s == rest;
    } else {
      var c := commands[0];
      assert s == c + (Join(commands[1..]) + rest);
      TablesAgree(c[0], false);
      var (r, b) := ParseOne(buffer, s, false);
      assert s[..|c|] == c && s[|c|..] == Join(commands[1..]) + rest;
      PrintThenParse(b, commands[1..], rest);
      assert Mac(b, 0, false).ToString() == c;
    }
  }

  // So two lists of commands with the same bytes are the same list.
  lemma UniquelyDecodable(commands: seq<seq<byte>>, commands': seq<seq<byte>>)
    requires forall i :: 0 <= i < |commands| ==> DeviceCommand(commands[i])
    requires forall i :: 0 <= i < |commands'| ==> DeviceCommand(commands'[i])
    requires Join(commands) == Join(commands')
    ensures commands == commands'
  {
    hide DeviceCommand, ParseList;
    PrintThenParse(ZEROES, commands, []);
    PrintThenParse(ZEROES, commands', []);
  }

  // ---- the gateway-to-device direction ----

  // Identifiers whose command has the same length in both directions.
  predicate SameSizeBothWays(cid: byte) {
    cid == RESET || cid == REKEY || cid == REJOIN_PARAM_SETUP || cid == DEVICE_MODE
  }

  // List elements print with the device's table. A command sent by the gateway therefore prints the bytes it
  // was read from exactly when it is one of these four.
  lemma GatewayElementPrints(buffer: Buffer, s: seq<byte>)
    requires !Stuck(s, true)
    ensures var (r, b) := ParseOne(buffer, s, true);
      r > 0 && (Mac(b, 0, false).ToString() == s[..r] <==> SameSizeBothWays(s[0]))
  {
    ParseOneCuts(buffer, s, true);
    TablesAgree(s[0], true);
    TablesAgree(s[0], false);
    var (r, b) := ParseOne(buffer, s, true);
    assert CommandSize(s[0], true) == CommandSize(s[0], false) <==> SameSizeBothWays(s[0]);
    assert |Mac(b, 0, false).ToString()| == CommandSize(s[0], false);
  }

  // ---- lists of commands sent by the gateway ----

  // Identifiers whose command is shorter from the gateway than from the device.
  predicate ShorterFromGateway(cid: byte) {
    cid == DEV_STATUS || cid == PING_SLOT_INFO
  }

  lemma DirectionSizes(cid: byte)
    requires CommandSize(cid, true) > 0
    ensures CommandSize(cid, false) > CommandSize(cid, true) <==> ShorterFromGateway(cid)
  {
  }

  // An element prints its first bytes, and behind them old bytes of the buffer exactly for these two identifiers.
  lemma StaleBytesShow(buffer: Buffer, s: seq<byte>)
    requires !Stuck(s, true)
    ensures var (r, b) := ParseOne(buffer, s, true);
      var n := CommandSize(s[0], false);
      && 0 < r <= |s| && n <= MAC_COMMAND_SIZE
      && (n > r <==> ShorterFromGateway(s[0]))
      && Mac(b, 0, false).ToString() == if n <= r then s[..n] else s[..r] + buffer[r..n]
  {
    TablesAgree(s[0], true);
    TablesAgree(s[0], false);
    DirectionSizes(s[0]);
    ParseOneCuts(buffer, s, true);
    var (r, b) := ParseOne(buffer, s, true);
    assert b == s[..r] + buffer[r..];
    hide CommandSize, Parsed, ParseOne, ShorterFromGateway;
    var n := CommandSize(s[0], false);
    if n <= r {
      assert b[..n] == s[..n];
    } else {
      assert b[..n] == s[..r] + buffer[r..n];
    }
  }

  // The slices of s that parsing takes, one for each command.
  function Cuts(s: seq<byte>, clientSide: bool): seq<seq<byte>>
    decreases |s|
  {
    if Stuck(s, clientSide) then []
    else
      TablesAgree(s[0], clientSide);
      var n := CommandSize(s[0], clientSide);
      [s[..n]] + Cuts(s[n..], clientSide)
  }

  lemma {:induction false} CutsAreTaken(buffer: Buffer, s: seq<byte>)
    ensures |Strings(ParseList(buffer, s, true).0)| == |Cuts(s, true)|
    ensures forall i :: 0 <= i < |Cuts(s, true)| ==> Cuts(s, true)[i] != []
    decreases |s|
  {
    hide ParseOne, Parsed, CommandSize, Stuck;
    var (r, b) := ParseOne(buffer, s, true);
    ParseOneCuts(buffer, s, true);
    if r > 0 {
      CutsAreTaken(b, s[r..]);
    }
  }

  // Every command of the list has one size in both directions.
  predicate OneSizeEach(cuts: seq<seq<byte>>) {
    forall i :: 0 <= i < |cuts| ==> cuts[i] != [] && SameSizeBothWays(cuts[i][0])
  }

  lemma OneSizeCons(c: seq<byte>, cuts: seq<seq<byte>>)
    requires c != []
    ensures OneSizeEach([c] + cuts) <==> SameSizeBothWays(c[0]) && OneSizeEach(cuts)
  {
    hide SameSizeBothWays;
    var all := [c] + cuts;
    assert all[0] == c;
    assert forall i :: 0 <= i < |cuts| ==> cuts[i] == all[i + 1];
    assert forall i :: 0 < i < |all| ==> all[i] == cuts[i - 1];
  }

  // Every element prints the slice it was read from exactly when all identifiers have one size in both directions.
  lemma {:induction false} GatewayListPrints(buffer: Buffer, s: seq<byte>)
    ensures Strings(ParseList(buffer, s, true).0) == Cuts(s, true) <==> OneSizeEach(Cuts(s, true))
    decreases |s|
  {
    hide ParseOne, Parsed, CommandSize, Stuck, SameSizeBothWays, OneSizeEach;
    var (r, b) := ParseOne(buffer, s, true);
    ParseOneCuts(buffer, s, true);
    if r > 0 {
      GatewayElementPrints(buffer, s);
      GatewayListPrints(b, s[r..]);
      OneSizeCons(s[..r], Cuts(s[r..], true));
      ListsEqual(Mac(b, 0, false).ToString(), Strings(ParseList(b, s[r..], true).0), s[..r], Cuts(s[r..], true));
    } else {
      NoCommands();
    }
  }

  lemma NoCommands()
    ensures OneSizeEach([])
  {
  }

  lemma ListsEqual(x: seq<byte>, xs: seq<seq<byte>>, y: seq<byte>, ys: seq<seq<byte>>)
    ensures [x] + xs == [y] + ys <==> x == y && xs == ys
  {
    if [x] + xs == [y] + ys {
      assert x == ([x] + xs)[0] && y == ([y] + ys)[0];
      assert xs == ([x] + xs)[1..] && ys == ([y] + ys)[1..];
    }
  }

  // No element prints a byte of the buffer that is older than the list: known is how many bytes of the buffer the
  // commands so far have overwritten.
  predicate Covered(s: seq<byte>, known: nat)
    decreases |s|
  {
    Stuck(s, true) ||
    (TablesAgree(s[0], true);
     var n := CommandSize(s[0], true);
     var k := if n > known then n else known;
     CommandSize(s[0], false) <= k && Covered(s[n..], k))
  }

  // Buffers that agree in their first k bytes and nowhere else.
  predicate AgreeBelow(x: Buffer, y: Buffer, k: nat) {
    forall i :: 0 <= i < MAC_COMMAND_SIZE ==> (x[i] == y[i] <==> i < k)
  }

  lemma OverwrittenAgree(x: Buffer, y: Buffer, k: nat, s: seq<byte>)
    requires AgreeBelow(x, y, k) && !Stuck(s, true)
    ensures var (r, x') := ParseOne(x, s, true);
      var y' := ParseOne(y, s, true).1;
      && AgreeBelow(x', y', if r > k then r else k)
      && (Mac(x', 0, false).ToString() == Mac(y', 0, false).ToString() <==>
            CommandSize(s[0], false) <= if r > k then r else k)
  {
    TablesAgree(s[0], true);
    TablesAgree(s[0], false);
    ParseOneCuts(x, s, true);
    ParseOneCuts(y, s, true);
    var (r, x') := ParseOne(x, s, true);
    var y' := ParseOne(y, s, true).1;
    assert x' == s[..r] + x[r..] && y' == s[..r] + y[r..];
    var m, n := CommandSize(s[0], false), if r > k then r else k;
    hide CommandSize, ParseOne, Parsed;
    assert AgreeBelow(x', y', n);
    if m > n {
      assert x'[..m][n] != y'[..m][n];
    }
  }

  lemma {:induction false} CoveredPrints(x: Buffer, y: Buffer, k: nat, s: seq<byte>)
    requires AgreeBelow(x, y, k)
    ensures Strings(ParseList(x, s, true).0) == Strings(ParseList(y, s, true).0) <==> Covered(s, k)
    decreases |s|
  {
    hide ParseOne, Parsed, CommandSize, Stuck, AgreeBelow;
    ParseOneCuts(x, s, true);
    ParseOneCuts(y, s, true);
    if !Stuck(s, true) {
      OverwrittenAgree(x, y, k, s);
      var (r, x') := ParseOne(x, s, true);
      var y' := ParseOne(y, s, true).1;
      CoveredPrints(x', y', if r > k then r else k, s[r..]);
      ListsEqual(Mac(x', 0, false).ToString(), Strings(ParseList(x', s[r..], true).0),
                 Mac(y', 0, false).ToString(), Strings(ParseList(y', s[r..], true).0));
    }
  }

  // A byte different from two others.
  function Other(x: byte, y: byte): (z: byte)
    ensures z != x && z != y
  {
    if x != 0 && y != 0 then 0 else if x != 1 && y != 1 then 1 else 2
  }

  // What the list prints depends on bytes the buffer held before exactly when some command is to print more than the
  // commands up to it have brought.
  lemma GatewayListStale(s: seq<byte>)
    ensures (forall x: Buffer, y: Buffer ::
               Strings(ParseList(x, s, true).0) == Strings(ParseList(y, s, true).0)) <==> Covered(s, 0)
  {
    hide ParseList, Strings, Covered;
    if Covered(s, 0) {
      forall x: Buffer, y: Buffer ensures Strings(ParseList(x, s, true).0) == Strings(ParseList(y, s, true).0) {
        var z: Buffer := [Other(x[0], y[0]), Other(x[1], y[1]), Other(x[2], y[2]),
                          Other(x[3], y[3]), Other(x[4], y[4]), Other(x[5], y[5])];
        CoveredPrints(x, z, 0, s);
        CoveredPrints(y, z, 0, s);
      }
    } else {
      var ones: Buffer := [1, 1, 1, 1, 1, 1];
      CoveredPrints(ZEROES, ones, 0, s);
    }
  }

  // Only the two shorter commands can do that.
  lemma {:induction false} CoveredUnlessShorter(s: seq<byte>, known: nat)
    requires forall i :: 0 <= i < |Cuts(s, true)| ==> Cuts(s, true)[i] != [] && !ShorterFromGateway(Cuts(s, true)[i][0])
    ensures Covered(s, known)
    decreases |s|
  {
    if !Stuck(s, true) {
      TablesAgree(s[0], true);
      TablesAgree(s[0], false);
      var n, cuts := CommandSize(s[0], true), Cuts(s, true);
      assert cuts[0] == s[..n] && cuts[0][0] == s[0];
      StaleBytesShow(ZEROES, s);
      hide CommandSize, Parsed, ShorterFromGateway;
      ParseOneCuts(ZEROES, s, true);
      assert cuts[1..] == Cuts(s[n..], true);
      assert forall i :: 0 <= i < |cuts[1..]| ==> cuts[1..][i] == cuts[i + 1];
      CoveredUnlessShorter(s[n..], if n > known then n else known);
    }
  }

  // The bytes of the whole list can be right although no element's are: what one prints too little the next one
  // prints too much, out of the old bytes.
  lemma WrongElementsRightBytes()
    ensures var s := [LINK_CHECK, DEV_STATUS, DEV_STATUS, DEV_STATUS];
      var list := ParseList(ZEROES, s, true).0;
      && Strings(list) == [[LINK_CHECK], [DEV_STATUS, DEV_STATUS, DEV_STATUS]]
      && Cuts(s, true) == [[LINK_CHECK, DEV_STATUS, DEV_STATUS], [DEV_STATUS]]
      && Concat(list) == s
  {
    var s := [LINK_CHECK, DEV_STATUS, DEV_STATUS, DEV_STATUS];
    var b1: Buffer := [LINK_CHECK, DEV_STATUS, DEV_STATUS, 0, 0, 0];
    var b2: Buffer := [DEV_STATUS, DEV_STATUS, DEV_STATUS, 0, 0, 0];
    assert s[..3] == [LINK_CHECK, DEV_STATUS, DEV_STATUS] && s[3..] == [DEV_STATUS];
    assert s[..3] + ZEROES[3..] == b1;
    assert ParseOne(ZEROES, s, true) == (3, b1);
    assert [DEV_STATUS][..1] == [DEV_STATUS] && [DEV_STATUS][1..] == [];
    assert [DEV_STATUS] + b1[1..] == b2;
    assert ParseOne(b1, [DEV_STATUS], true) == (1, b2);
    var one, two := Mac(b1, 0, false), Mac(b2, 0, false);
    assert one.ToString() == [LINK_CHECK] && two.ToString() == [DEV_STATUS, DEV_STATUS, DEV_STATUS];
    hide ParseOne, CommandSize, Parsed;
    assert ParseOne(b2, [], true).0 < 0 by { ParseOneCuts(b2, [], true); }
    assert ParseList(b2, [], true) == ([], []);
    assert ParseList(b1, [DEV_STATUS], true).0 == [two] + [];
    assert ParseList(ZEROES, s, true).0 == [one] + [two];
    var list := [one, two];
    assert list == [one] + [two] && list[1..] == [two] && [two][1..] == [];
    assert Strings([two]) == [two.ToString()] + Strings([]);
    assert Concat([two]) == two.ToString() + Concat([]);
    CutsOfTwo();
  }

  lemma CutsOfTwo()
    ensures Cuts([LINK_CHECK, DEV_STATUS, DEV_STATUS, DEV_STATUS], true) ==
            [[LINK_CHECK, DEV_STATUS, DEV_STATUS], [DEV_STATUS]]
  {
    var s := [LINK_CHECK, DEV_STATUS, DEV_STATUS, DEV_STATUS];
    assert s[..3] == [LINK_CHECK, DEV_STATUS, DEV_STATUS] && s[3..] == [DEV_STATUS];
    assert [DEV_STATUS][..1] == [DEV_STATUS] && [DEV_STATUS][1..] == [];
    assert Cuts([], true) == [];
    assert Cuts([DEV_STATUS], true) == [[DEV_STATUS]] + [];
  }
}
