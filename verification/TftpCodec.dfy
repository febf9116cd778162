/** TFTP packets as bytes: the parser and the printers of `TFTPPacket` (RFC 1350 section 5, RFC 2347). */
module TftpCodec {
  import opened Wrappers
  import opened Sequences
  import opened Ascii

  datatype OpCode = RRQ | WRQ | DATA | ACK | ERROR | OACK

  datatype CodecError = TooShort | BadOpcode | StructError | NotAscii

  /** The one record the source uses for every kind of packet, with the source's field defaults. */
  datatype Packet = Packet(
    opcode: OpCode,
    filename: string := "",
    mode: string := "octet",
    blockNum: int := 0,
    data: Bytes := [],
    errorCode: int := 0,
    errorMessage: string := "",
    options: map<string, string> := map[])

  // ---------------------------------------------------------------- text and 16-bit fields

  function EncodeAscii(s: string): Result<Bytes, CodecError> {
    if IsAscii(s) then Ok(AsciiBytes(s)) else Err(NotAscii)
  }

  function DecodeAscii(bs: Bytes): (r: Result<string, CodecError>)
    ensures r.Ok? ==> IsAscii(r.value) && AsciiBytes(r.value) == bs
  {
    if forall i :: 0 <= i < |bs| ==> bs[i] < 128 then
      Ok(seq(|bs|, i requires 0 <= i < |bs| => bs[i] as char))
    else
      Err(NotAscii)
  }

  lemma DecodeAsciiBytes(s: string)
    requires IsAscii(s)
    ensures DecodeAscii(AsciiBytes(s)) == Ok(s)
  {
    assert DecodeAscii(AsciiBytes(s)).Ok?;
    assert DecodeAscii(AsciiBytes(s)).value == s;
  }

  /** `struct.pack("!H", n)`. */
  function PackU16(n: int): Result<Bytes, CodecError> {
    if 0 <= n < 0x1_0000 then Ok(U16(n)) else Err(StructError)
  }

  function U16(n: int): Bytes
    requires 0 <= n < 0x1_0000
  {
    [n / 256, n % 256]
  }

  function BigEndian(high: int, low: int): int {
    high * 256 + low
  }

  /** `struct.unpack("!H", bs[:2])[0]`. */
  function UnpackU16(bs: Bytes): Result<int, CodecError> {
    if |bs| < 2 then Err(StructError) else Ok(BigEndian(bs[0], bs[1]))
  }

  function OpValue(op: OpCode): int {
    match op
    case RRQ => 1
    case WRQ => 2
    case DATA => 3
    case ACK => 4
    case ERROR => 5
    case OACK => 6
  }

  function OpOf(n: int): Result<OpCode, CodecError> {
    match n
    case 1 => Ok(RRQ)
    case 2 => Ok(WRQ)
    case 3 => Ok(DATA)
    case 4 => Ok(ACK)
    case 5 => Ok(ERROR)
    case 6 => Ok(OACK)
    case _ => Err(BadOpcode)
  }

  // ---------------------------------------------------------------- printers

  function BuildData(blockNum: int, data: Bytes): Result<Bytes, CodecError> {
    var n := PackU16(blockNum);
    if n.Err? then Err(n.error) else Ok(U16(OpValue(DATA)) + n.value + data)
  }

  function BuildAck(blockNum: int): Result<Bytes, CodecError> {
    var n := PackU16(blockNum);
    if n.Err? then Err(n.error) else Ok(U16(OpValue(ACK)) + n.value)
  }

  function BuildError(errorCode: int, message: string): Result<Bytes, CodecError> {
    var n, text := PackU16(errorCode), EncodeAscii(message);
    if n.Err? then Err(n.error)
    else if text.Err? then Err(text.error)
    else Ok(U16(OpValue(ERROR)) + n.value + text.value + [0])
  }

  /** An options dict as the sequence of its items in insertion order. */
  type Options = seq<(string, string)>

  predicate AsciiOptions(options: Options) {
    forall i :: 0 <= i < |options| ==> IsAscii(options[i].0) && IsAscii(options[i].1)
  }

  predicate DistinctKeys(options: Options) {
    forall i, j :: 0 <= i < j < |options| ==> options[i].0 != options[j].0
  }

  function OptionBytes(options: Options): Bytes
    requires AsciiOptions(options)
  {
    if options == [] then []
    else AsciiBytes(options[0].0) + [0] + (AsciiBytes(options[0].1) + [0] + OptionBytes(options[1..]))
  }

  function OackBytes(options: Options): Bytes
    requires AsciiOptions(options)
  {
    U16(OpValue(OACK)) + OptionBytes(options)
  }

  lemma {:induction false} OptionBytesSnoc(options: Options, k: nat)
    requires AsciiOptions(options) && k < |options|
    ensures OptionBytes(options[..k + 1])
         == OptionBytes(options[..k]) + AsciiBytes(options[k].0) + [0] + AsciiBytes(options[k].1) + [0]
  {
    hide AsciiBytes;
    if k == 0 {
      assert options[..1][1..] == [];
      assert OptionBytes(options[..1][1..]) == [];
      assert options[..0] == [];
    } else {
      OptionBytesSnoc(options[1..], k - 1);
      assert options[..k + 1][1..] == options[1..][..k];
      assert options[..k][1..] == options[1..][..k - 1];
    }
  }

  /** `build_oack`: one append per option; raises on the first text that is not ASCII. */
  method BuildOack(options: Options) returns (r: Result<Bytes, CodecError>)
    ensures r == if AsciiOptions(options) then Ok(OackBytes(options)) else Err(NotAscii)
  {
    var packet := U16(OpValue(OACK));
    for k := 0 to |options|
      invariant AsciiOptions(options[..k])
      invariant packet == OackBytes(options[..k])
    {
      var key, value := EncodeAscii(options[k].0), EncodeAscii(options[k].1);
      if key.Err? || value.Err? {
        return Err(NotAscii);
      }
      packet := packet + key.value + [0] + value.value + [0];
      assert options[..k + 1][..k] == options[..k] && options[..k + 1][..k + 1] == options[..k + 1];
      OptionBytesSnoc(options[..k + 1], k);
    }
    assert options[..|options|] == options;
    return Ok(packet);
  }

  // ---------------------------------------------------------------- parser

  /** `data.split(b"\x00")`. */
  function SplitNul(bs: Bytes): (parts: seq<Bytes>)
    ensures |parts| >= 1
    ensures forall i, j :: 0 <= i < |parts| && 0 <= j < |parts[i]| ==> parts[i][j] != 0
  {
    if bs == [] then [[]]
    else
      var rest := SplitNul(bs[1..]);
      if bs[0] == 0 then [[]] + rest else [[bs[0]] + rest[0]] + rest[1..]
  }

  /** The option loop of `_parse_request`, started at part `i` with the dict `acc` built so far. */
  function RequestOptions(parts: seq<Bytes>, i: nat, acc: map<string, string>): Result<map<string, string>, CodecError>
    decreases |parts| - i
  {
    if i + 1 < |parts| && parts[i] != [] then
      var key, value := DecodeAscii(parts[i]), DecodeAscii(parts[i + 1]);
      if key.Err? || value.Err? then Err(NotAscii)
      else RequestOptions(parts, i + 2, acc[Lower(key.value) := value.value])
    else
      Ok(acc)
  }

  function RequestPacket(opcode: OpCode, data: Bytes): Result<Packet, CodecError> {
    var parts := SplitNul(data);
    var filename := DecodeAscii(parts[0]);
    var mode := if |parts| > 1 then DecodeAscii(parts[1]) else Ok("octet");
    if filename.Err? || mode.Err? then Err(NotAscii)
    else
      var options := RequestOptions(parts, 2, map[]);
      if options.Err? then Err(options.error)
      else Ok(Packet(opcode, filename := filename.value, mode := Lower(mode.value), options := options.value))
  }

  /** `_parse_request`, with its loop over the parts. */
  method ParseRequest(opcode: OpCode, data: Bytes) returns (r: Result<Packet, CodecError>)
    ensures r == RequestPacket(opcode, data)
  {
    var parts := SplitNul(data);
    var filename := DecodeAscii(parts[0]);
    var mode := if |parts| > 1 then DecodeAscii(parts[1]) else Ok("octet");
    if filename.Err? || mode.Err? {
      return Err(NotAscii);
    }
    assert Lower("octet") == "octet";
    var options: map<string, string> := map[];
    var i := 2;
    while i + 1 < |parts| && parts[i] != []
      invariant i >= 2
      invariant RequestOptions(parts, 2, map[]) == RequestOptions(parts, i, options)
      decreases |parts| - i
    {
      var key, value := DecodeAscii(parts[i]), DecodeAscii(parts[i + 1]);
      if key.Err? || value.Err? {
        return Err(NotAscii);
      }
      options := options[Lower(key.value) := value.value];
      i := i + 2;
    }
    return Ok(Packet(opcode, filename := filename.value, mode := Lower(mode.value), options := options));
  }

  function Parse(data: Bytes): Result<Packet, CodecError> {
    if |data| < 2 then Err(TooShort)
    else
      var opcode := OpOf(BigEndian(data[0], data[1]));
      if opcode.Err? then Err(opcode.error)
      else
        var body := data[2..];
        match opcode.value
        case RRQ => RequestPacket(RRQ, body)
        case WRQ => RequestPacket(WRQ, body)
        case DATA =>
          var n := UnpackU16(body);
          if n.Err? then Err(n.error) else Ok(Packet(DATA, blockNum := n.value, data := body[2..]))
        case ACK =>
          var n := UnpackU16(body);
          if n.Err? then Err(n.error) else Ok(Packet(ACK, blockNum := n.value))
        case ERROR =>
          var n := UnpackU16(body);
          if n.Err? then Err(n.error)
          else
            var message := DecodeAscii(SplitNul(body[2..])[0]);
            if message.Err? then Err(message.error)
            else Ok(Packet(ERROR, errorCode := n.value, errorMessage := message.value))
        case OACK => Err(BadOpcode)
  }

  // ---------------------------------------------------------------- the wire format

  /** `n` in two bytes, high byte first (section 5 of RFC 1350). */
  predicate NetworkOrder(bs: Bytes, n: int) {
    |bs| == 2 && bs[0] as int * 256 + bs[1] as int == n
  }

  /** Each packet starts with its two-byte operation code, 1 to 6 in the order of the RFCs, and the number it carries
      follows in network order. */
  lemma WireFormat(blockNum: int, data: Bytes, errorCode: int, message: string, options: Options)
    requires 0 <= blockNum < 0x1_0000 && 0 <= errorCode < 0x1_0000 && IsAscii(message) && AsciiOptions(options)
    ensures var packet := BuildData(blockNum, data).value;
      packet[..2] == [0, 3] && NetworkOrder(packet[2..4], blockNum) && packet[4..] == data
    ensures var packet := BuildAck(blockNum).value; packet[..2] == [0, 4] && NetworkOrder(packet[2..], blockNum)
    ensures var packet := BuildError(errorCode, message).value;
      packet[..2] == [0, 5] && NetworkOrder(packet[2..4], errorCode) && packet[4..] == AsciiBytes(message) + [0]
    ensures OackBytes(options)[..2] == [0, 6] && OackBytes(options)[2..] == OptionBytes(options)
    ensures U16(OpValue(RRQ)) == [0, 1] && U16(OpValue(WRQ)) == [0, 2]
  {
    hide AsciiBytes, IsAscii, OptionBytes, AsciiOptions;
  }

  /** Only packets of at least two bytes with the codes 1 to 5 in network order are parsed; an OACK is not. */
  lemma ParsedOpcodes(data: Bytes)
    ensures Parse(data).Ok? ==>
      |data| >= 2 && NetworkOrder(data[..2], OpValue(Parse(data).value.opcode)) && Parse(data).value.opcode != OACK
    ensures |data| < 2 ==> Parse(data) == Err(TooShort)
    ensures |data| >= 2 && !(data[0] == 0 && 1 <= data[1] <= 5) ==> Parse(data) == Err(BadOpcode)
  {
    hide DecodeAscii, SplitNul, UnpackU16, RequestOptions, Lower;
    assert |data| >= 2 ==> data[..2][0] == data[0] && data[..2][1] == data[1];
  }

  /** A request without a mode counts as one in octet mode. */
  lemma ModeDefaultsToOctet(opcode: OpCode, filename: string)
    requires (opcode == RRQ || opcode == WRQ) && IsAscii(filename) && NulFree(filename)
    ensures Parse(U16(OpValue(opcode)) + AsciiBytes(filename))
         == Ok(Packet(opcode, filename := filename, mode := "octet", options := map[]))
  {
    var packet := U16(OpValue(opcode)) + AsciiBytes(filename);
    assert packet[2..] == AsciiBytes(filename);
    SplitNoNul(AsciiBytes(filename));
    DecodeAsciiBytes(filename);
    assert Lower("octet") == "octet";
    hide SplitNul, DecodeAscii, AsciiBytes, Lower;
  }

  lemma {:induction false} SplitNoNul(bs: Bytes)
    requires forall i :: 0 <= i < |bs| ==> bs[i] != 0
    ensures SplitNul(bs) == [bs]
  {
    if bs != [] {
      SplitNoNul(bs[1..]);
      assert [bs[0]] + bs[1..] == bs;
    }
  }

  // ---------------------------------------------------------------- round trips

  lemma ParseBuildData(blockNum: int, data: Bytes)
    ensures BuildData(blockNum, data).Ok? <==> 0 <= blockNum < 0x1_0000
    ensures BuildData(blockNum, data).Ok? ==>
      Parse(BuildData(blockNum, data).value) == Ok(Packet(DATA, blockNum := blockNum, data := data))
  {
    if 0 <= blockNum < 0x1_0000 {
      var packet := BuildData(blockNum, data).value;
      assert packet[2..] == U16(blockNum) + data;
      assert packet[2..][2..] == data;
    }
  }

  lemma ParseBuildAck(blockNum: int)
    ensures BuildAck(blockNum).Ok? <==> 0 <= blockNum < 0x1_0000
    ensures BuildAck(blockNum).Ok? ==> Parse(BuildAck(blockNum).value) == Ok(Packet(ACK, blockNum := blockNum))
  {
    if 0 <= blockNum < 0x1_0000 {
      assert BuildAck(blockNum).value[2..] == U16(blockNum);
    }
  }

  lemma {:induction false} SplitNulText(text: string, rest: Bytes)
    requires IsAscii(text) && NulFree(text)
    ensures SplitNul(AsciiBytes(text) + [0] + rest) == [AsciiBytes(text)] + SplitNul(rest)
  {
    var bs := AsciiBytes(text) + [0] + rest;
    if text == "" {
      assert bs[1..] == rest;
      assert AsciiBytes(text) == [];
    } else {
      assert AsciiBytes(text[1..]) == AsciiBytes(text)[1..];
      assert bs[1..] == AsciiBytes(text[1..]) + [0] + rest;
      SplitNulText(text[1..], rest);
      assert [AsciiBytes(text)[0]] + AsciiBytes(text)[1..] == AsciiBytes(text);
    }
  }

  lemma FirstPartIff(message: string)
    requires IsAscii(message)
    ensures DecodeAscii(SplitNul(AsciiBytes(message) + [0])[0]) == Ok(message) <==> NulFree(message)
  {
    if NulFree(message) {
      SplitNulText(message, []);
      assert AsciiBytes(message) + [0] + [] == AsciiBytes(message) + [0];
      DecodeAsciiBytes(message);
    }
    if DecodeAscii(SplitNul(AsciiBytes(message) + [0])[0]) == Ok(message) {
      assert forall i :: 0 <= i < |message| ==> message[i] as int == AsciiBytes(message)[i];
    }
  }

  /** How an ERROR packet is taken apart. */
  lemma ErrorBody(errorCode: int, text: Bytes)
    requires 0 <= errorCode < 0x1_0000
    ensures var packet := U16(OpValue(ERROR)) + U16(errorCode) + text + [0];
      && |packet| >= 4 && OpOf(BigEndian(packet[0], packet[1])) == Ok(ERROR)
      && UnpackU16(packet[2..]) == Ok(errorCode) && packet[2..][2..] == text + [0]
  {
    var packet := U16(OpValue(ERROR)) + U16(errorCode) + text + [0];
    assert packet[2..] == U16(errorCode) + (text + [0]);
  }

  /** ERROR packets survive the round trip exactly when their text holds no NUL. */
  lemma ParseBuildError(errorCode: int, message: string)
    ensures BuildError(errorCode, message).Ok? <==> 0 <= errorCode < 0x1_0000 && IsAscii(message)
    ensures BuildError(errorCode, message).Ok? ==>
      (Parse(BuildError(errorCode, message).value)
         == Ok(Packet(ERROR, errorCode := errorCode, errorMessage := message))
       <==> NulFree(message))
  {
    hide SplitNul, DecodeAscii, AsciiBytes, IsAscii, NulFree, RequestPacket, OpOf, UnpackU16, U16, BigEndian;
    if BuildError(errorCode, message).Ok? {
      FirstPartIff(message);
      ErrorBody(errorCode, AsciiBytes(message));
    }
  }

  /** A request as a client prints it: filename, mode, then key/value pairs as `build_oack` prints them. */
  function RequestBytes(opcode: OpCode, filename: string, mode: string, options: Options): Bytes
    requires IsAscii(filename) && IsAscii(mode) && AsciiOptions(options)
  {
    U16(OpValue(opcode)) + (AsciiBytes(filename) + [0] + (AsciiBytes(mode) + [0] + OackBytes(options)[2..]))
  }

  function OptionsMap(options: Options, acc: map<string, string>): map<string, string> {
    if options == [] then acc else OptionsMap(options[1..], acc[options[0].0 := options[0].1])
  }

  /** Keys and values RFC 2347 allows: non-empty lower-case keys, no NUL anywhere. */
  predicate PlainOptions(options: Options) {
    forall i :: 0 <= i < |options| ==>
      options[i].0 != "" && IsLower(options[i].0) && NulFree(options[i].0) && NulFree(options[i].1)
  }

  lemma OptionLoopStep(parts: seq<Bytes>, i: nat, acc: map<string, string>, key: string, value: string)
    requires i + 1 < |parts| && IsAscii(key) && IsAscii(value)
    requires parts[i] == AsciiBytes(key) && parts[i + 1] == AsciiBytes(value)
    requires key != "" && IsLower(key)
    ensures RequestOptions(parts, i, acc) == RequestOptions(parts, i + 2, acc[key := value])
  {
    DecodeAsciiBytes(key);
    DecodeAsciiBytes(value);
    LowerOfLower(key);
    assert parts[i] != [];
  }

  lemma SplitFirstOption(options: Options)
    requires options != [] && AsciiOptions(options) && PlainOptions(options)
    ensures SplitNul(OptionBytes(options))
         == [AsciiBytes(options[0].0), AsciiBytes(options[0].1)] + SplitNul(OptionBytes(options[1..]))
  {
    var (key, value) := options[0];
    var tail := OptionBytes(options[1..]);
    SplitNulText(value, tail);
    SplitNulText(key, AsciiBytes(value) + [0] + tail);
    hide SplitNul, AsciiBytes;
  }

  lemma {:induction false} OptionLoopInverts(options: Options, before: seq<Bytes>, acc: map<string, string>)
    requires AsciiOptions(options) && PlainOptions(options)
    ensures RequestOptions(before + SplitNul(OptionBytes(options)), |before|, acc) == Ok(OptionsMap(options, acc))
    decreases |options|
  {
    var parts := before + SplitNul(OptionBytes(options));
    if options == [] {
      assert SplitNul(OptionBytes(options)) == [[]];
    } else {
      hide SplitNul, OptionBytes, DecodeAscii;
      var (key, value) := options[0];
      var longer := before + [AsciiBytes(key), AsciiBytes(value)];
      SplitFirstOption(options);
      assert parts == longer + SplitNul(OptionBytes(options[1..]));
      OptionLoopStep(parts, |before|, acc, key, value);
      OptionLoopInverts(options[1..], longer, acc[key := value]);
    }
  }

  predicate PlainMap(m: map<string, string>) {
    forall k :: k in m ==> k != "" && IsLower(k) && NulFree(k) && NulFree(m[k])
  }

  /** Whatever the bytes, the option loop only ever yields plain keys and values. */
  lemma {:induction false} RequestOptionsPlain(parts: seq<Bytes>, i: nat, acc: map<string, string>)
    requires PlainMap(acc)
    requires forall k, j :: 0 <= k < |parts| && 0 <= j < |parts[k]| ==> parts[k][j] != 0
    ensures RequestOptions(parts, i, acc).Ok? ==> PlainMap(RequestOptions(parts, i, acc).value)
    decreases |parts| - i
  {
    if i + 1 < |parts| && parts[i] != [] {
      var key, value := DecodeAscii(parts[i]), DecodeAscii(parts[i + 1]);
      if key.Ok? && value.Ok? {
        LowerOfLower(key.value);
        assert forall j :: 0 <= j < |key.value| ==> AsciiBytes(key.value)[j] != 0;
        assert forall j :: 0 <= j < |value.value| ==> AsciiBytes(value.value)[j] != 0;
        assert NulFree(Lower(key.value)) && NulFree(value.value) && Lower(key.value) != "";
        RequestOptionsPlain(parts, i + 2, acc[Lower(key.value) := value.value]);
      }
    }
  }

  lemma {:induction false} OptionsMapItems(options: Options, acc: map<string, string>)
    requires DistinctKeys(options)
    ensures forall i :: 0 <= i < |options| ==>
      options[i].0 in OptionsMap(options, acc) && OptionsMap(options, acc)[options[i].0] == options[i].1
    ensures forall k :: k in acc && (forall i :: 0 <= i < |options| ==> options[i].0 != k) ==>
      k in OptionsMap(options, acc) && OptionsMap(options, acc)[k] == acc[k]
  {
    if options != [] {
      var rest := options[1..];
      OptionsMapItems(rest, acc[options[0].0 := options[0].1]);
      forall i | 0 <= i < |options|
        ensures options[i].0 in OptionsMap(options, acc) && OptionsMap(options, acc)[options[i].0] == options[i].1
      {
        if i > 0 {
          assert rest[i - 1] == options[i];
        } else {
          assert forall j :: 0 <= j < |rest| ==> rest[j] == options[j + 1];
        }
      }
      forall k | k in acc && (forall i :: 0 <= i < |options| ==> options[i].0 != k)
        ensures k in OptionsMap(options, acc) && OptionsMap(options, acc)[k] == acc[k]
      {
        assert options[0].0 != k;
        assert forall j :: 0 <= j < |rest| ==> rest[j] == options[j + 1];
      }
    }
  }

  lemma RequestParts(opcode: OpCode, filename: string, mode: string, options: Options)
    requires IsAscii(filename) && IsAscii(mode) && AsciiOptions(options) && NulFree(filename) && NulFree(mode)
    ensures RequestBytes(opcode, filename, mode, options)[..2] == U16(OpValue(opcode))
    ensures SplitNul(RequestBytes(opcode, filename, mode, options)[2..])
         == [AsciiBytes(filename), AsciiBytes(mode)] + SplitNul(OptionBytes(options))
  {
    var tail := OptionBytes(options);
    SplitNulText(mode, tail);
    SplitNulText(filename, AsciiBytes(mode) + [0] + tail);
    hide SplitNul, OptionBytes, AsciiBytes;
    assert OackBytes(options)[2..] == tail;
    assert RequestBytes(opcode, filename, mode, options)[2..]
      == AsciiBytes(filename) + [0] + (AsciiBytes(mode) + [0] + tail);
  }

  lemma ParseRequestBytes(opcode: OpCode, filename: string, mode: string, options: Options)
    requires opcode == RRQ || opcode == WRQ
    requires IsAscii(filename) && IsAscii(mode) && AsciiOptions(options) && NulFree(filename) && NulFree(mode)
    ensures var parsed := RequestOptions([AsciiBytes(filename), AsciiBytes(mode)] + SplitNul(OptionBytes(options)), 2,
                                         map[]);
      Parse(RequestBytes(opcode, filename, mode, options)) ==
        if parsed.Err? then Err(parsed.error)
        else Ok(Packet(opcode, filename := filename, mode := Lower(mode), options := parsed.value))
  {
    RequestParts(opcode, filename, mode, options);
    DecodeAsciiBytes(filename);
    DecodeAsciiBytes(mode);
    hide SplitNul, OptionBytes, AsciiBytes, DecodeAscii, RequestOptions, Lower;
    var packet := RequestBytes(opcode, filename, mode, options);
    assert packet[0] == packet[..2][0] && packet[1] == packet[..2][1];
    assert BigEndian(packet[0], packet[1]) == OpValue(opcode);
  }

  /** For every options dict and every file name and mode, parsing the printed request gives the
      file name, the lower-cased mode and the dict back; the dict comes back exactly when it is plain. */
  lemma ParseRequestInverts(opcode: OpCode, filename: string, mode: string, options: Options)
    requires opcode == RRQ || opcode == WRQ
    requires IsAscii(filename) && IsAscii(mode) && AsciiOptions(options) && DistinctKeys(options)
    requires NulFree(filename) && NulFree(mode)
    ensures var expected := Packet(opcode, filename := filename, mode := Lower(mode),
                                   options := OptionsMap(options, map[]));
            Parse(RequestBytes(opcode, filename, mode, options)) == Ok(expected) <==> PlainOptions(options)
  {
    ParseRequestBytes(opcode, filename, mode, options);
    hide Parse, RequestBytes, OptionBytes, AsciiBytes, Lower;
    var before := [AsciiBytes(filename), AsciiBytes(mode)];
    if PlainOptions(options) {
      OptionLoopInverts(options, before, map[]);
    } else {
      RequestOptionsPlain(before + SplitNul(OptionBytes(options)), 2, map[]);
      OptionsMapItems(options, map[]);
    }
  }
}
