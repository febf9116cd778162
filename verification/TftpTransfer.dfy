/** One TFTP read transfer: `TFTPTransfer` sending a file over UDP to a client that follows
    section 2 of RFC 1350. Every `await` of the source is a call of `Interleave`, in which the
    network and the client take any number of steps of any kind. */
module TftpTransfer {
  import opened Wrappers
  import opened Sequences
  import opened Ascii
  import opened TftpCodec
  import opened TftpBlocks

  const MAX_RETRIES := 3
  const ERROR_NOT_DEFINED := 0
  const ERROR_FILE_NOT_FOUND := 1
  const ERROR_ACCESS_VIOLATION := 2

  // ---------------------------------------------------------------- the client and the network

  /** What the client holds, how many blocks it accepted, and whether it saw a short block. */
  datatype Client = Client(held: Bytes, accepted: nat, finished: bool)

  /** Datagrams are never taken off the wire: a step may deliver any datagram ever sent, at any
      time and any number of times, or never, so loss, duplication and reordering are all covered. */
  datatype Net = Net(toClient: set<Bytes>, toServer: set<Bytes>, client: Client, sent: nat)

  const IdleNet := Net({}, {}, Client([], 0, false), 0)

  predicate IsOack(d: Bytes) {
    |d| >= 2 && d[..2] == U16(OpValue(OACK))
  }

  predicate IsData(d: Bytes) {
    Parse(d).Ok? && Parse(d).value.opcode == DATA
  }

  /** The client: acknowledge an OACK with ACK 0, append the next block, acknowledge again
      a block already accepted, and ignore everything else. */
  function ClientReceives(c: Client, blksize: int, d: Bytes): (Client, Option<Bytes>) {
    if IsOack(d) then
      (c, Some(U16(OpValue(ACK)) + U16(0)))
    else if IsData(d) then
      var packet := Parse(d).value;
      var n, ack := packet.blockNum, BuildAck(packet.blockNum);
      var reply := if ack.Ok? then Some(ack.value) else None;
      if n == c.accepted + 1 && !c.finished then
        (Client(c.held + packet.data, n, |packet.data| < blksize), reply)
      else if n <= c.accepted then
        (c, reply)
      else
        (c, None)
    else
      (c, None)
  }

  function DeliverToClient(net: Net, blksize: int, d: Bytes): Net {
    var (c, reply) := ClientReceives(net.client, blksize, d);
    net.(client := c, toServer := if reply.Some? then net.toServer + {reply.value} else net.toServer)
  }

  // ---------------------------------------------------------------- the protocol invariant

  /** What the client holds at the moment the sender's block number is `blockNum`. */
  ghost predicate ClientAt(blocks: seq<Bytes>, blksize: int, blockNum: int, c: Client) {
    && blockNum - 1 <= c.accepted <= blockNum
    && c.accepted <= |blocks|
    && c.held == Flatten(blocks[..c.accepted])
    && (c.finished ==> c.accepted > 0 && |blocks[c.accepted - 1]| < blksize)
  }

  /** A datagram on its way to the client: if it is DATA, it is one of the blocks begun so far. */
  ghost predicate FromServer(blocks: seq<Bytes>, blockNum: int, d: Bytes) {
    IsData(d) ==>
      var packet := Parse(d).value;
      1 <= packet.blockNum <= blockNum && packet.blockNum <= |blocks| && packet.data == blocks[packet.blockNum - 1]
  }

  /** A datagram on its way to the server: an ACK only ever names a block the client accepted. */
  ghost predicate FromClient(c: Client, d: Bytes) {
    Parse(d).Ok? && Parse(d).value.opcode == ACK ==> Parse(d).value.blockNum <= c.accepted
  }

  ghost predicate Inv(blocks: seq<Bytes>, blksize: int, blockNum: int, lastAck: int, net: Net) {
    && ClientAt(blocks, blksize, blockNum, net.client)
    && lastAck <= net.client.accepted
    && (forall d :: d in net.toClient ==> FromServer(blocks, blockNum, d))
    && (forall d :: d in net.toServer ==> FromClient(net.client, d))
  }

  lemma InvDeliverToClient(blocks: seq<Bytes>, blksize: int, blockNum: int, lastAck: int, net: Net, d: Bytes)
    requires Inv(blocks, blksize, blockNum, lastAck, net) && d in net.toClient
    ensures Inv(blocks, blksize, blockNum, lastAck, DeliverToClient(net, blksize, d))
    ensures net.client.accepted <= DeliverToClient(net, blksize, d).client.accepted
  {
    hide Parse, Flatten;
    var c := net.client;
    var (c', reply) := ClientReceives(c, blksize, d);
    assert FromServer(blocks, blockNum, d);
    if IsOack(d) {
      assert BuildAck(0).value == U16(OpValue(ACK)) + U16(0);
      ParseBuildAck(0);
    } else if IsData(d) {
      var n := Parse(d).value.blockNum;
      ParseBuildAck(n);
      if n == c.accepted + 1 && !c.finished {
        assert blocks[..n] == blocks[..c.accepted] + [blocks[n - 1]];
        FlattenSnoc(blocks[..c.accepted], blocks[n - 1]);
      }
    }
  }

  const CLIENT_ERROR: Bytes := U16(OpValue(ERROR)) + U16(ERROR_NOT_DEFINED) + [0]

  lemma InvClientError(blocks: seq<Bytes>, blksize: int, blockNum: int, lastAck: int, net: Net)
    requires Inv(blocks, blksize, blockNum, lastAck, net)
    ensures Inv(blocks, blksize, blockNum, lastAck, net.(toServer := net.toServer + {CLIENT_ERROR}))
  {
    assert FromClient(net.client, CLIENT_ERROR);
  }

  lemma OackIsNotData(options: Options)
    requires AsciiOptions(options)
    ensures IsOack(OackBytes(options)) && !IsData(OackBytes(options))
  {
  }

  /** The sender may move to the next block exactly when the last acknowledgement it saw names the current one. */
  lemma InvAdvance(blocks: seq<Bytes>, blksize: int, blockNum: int, net: Net)
    requires Inv(blocks, blksize, blockNum, blockNum, net)
    ensures net.client.accepted == blockNum
    ensures Inv(blocks, blksize, blockNum + 1, blockNum, net)
  {
    forall d | d in net.toClient
      ensures FromServer(blocks, blockNum + 1, d)
    {
      assert FromServer(blocks, blockNum, d);
    }
  }

  lemma InvSendData(blocks: seq<Bytes>, blksize: int, blockNum: int, lastAck: int, net: Net, d: Bytes)
    requires Inv(blocks, blksize, blockNum, lastAck, net)
    requires 1 <= blockNum <= |blocks| && BuildData(blockNum, blocks[blockNum - 1]) == Ok(d)
    ensures Inv(blocks, blksize, blockNum, lastAck, net.(toClient := net.toClient + {d}, sent := net.sent + 1))
  {
    hide Parse, BuildData, Flatten;
    ParseBuildData(blockNum, blocks[blockNum - 1]);
  }

  // ---------------------------------------------------------------- the request

  /** What the requested name resolves to. */
  datatype Lookup = NotFound | OutsideRoot | NotAFile(size: nat) | Found(content: Bytes)

  /** The options the source looks at; the text of `blksize` is `None` when `int()` rejects it. */
  datatype Requested = Requested(tsize: bool, blksize: Option<Option<int>>)

  function Digits(n: nat): (s: string)
    ensures IsAscii(s)
  {
    (if n < 10 then "" else Digits(n / 10)) + [(48 + n % 10) as char]
  }

  /** `str(n)`. */
  function Decimal(n: int): (s: string)
    ensures IsAscii(s)
  {
    if n < 0 then "-" + Digits(-n) else Digits(n)
  }

  predicate IsDigit(c: char) {
    '0' <= c <= '9'
  }

  /** The number a row of digits denotes, read from the left. */
  function Value(s: string): int {
    if s == "" then 0 else 10 * Value(s[..|s| - 1]) + (s[|s| - 1] as int - '0' as int)
  }

  /** The number a decimal text denotes. */
  function Denoted(s: string): int {
    if s != "" && s[0] == '-' then -Value(s[1..]) else Value(s)
  }

  /** Digits without a leading zero, but for the number 0. */
  predicate IsNumeral(s: string) {
    s != "" && (forall i :: 0 <= i < |s| ==> IsDigit(s[i])) && (s[0] == '0' ==> |s| == 1)
  }

  lemma {:induction false} DigitsDenote(n: nat)
    ensures IsNumeral(Digits(n)) && Value(Digits(n)) == n
    ensures Digits(n)[0] == '0' <==> n == 0
  {
    if n < 10 {
      assert Digits(n) == [(48 + n) as char];
      assert Digits(n)[..0] == "";
    } else {
      DigitsDenote(n / 10);
      var head := Digits(n / 10);
      assert Digits(n) == head + [(48 + n % 10) as char];
      assert Digits(n)[..|head|] == head;
    }
  }

  /** `str(n)` denotes `n`, for every integer. */
  lemma DecimalDenotes(n: int)
    ensures Denoted(Decimal(n)) == n
    ensures n >= 0 ==> IsNumeral(Decimal(n))
    ensures n < 0 ==> Decimal(n)[..1] == "-" && IsNumeral(Decimal(n)[1..])
  {
    hide Digits, Value;
    if n < 0 {
      DigitsDenote(-n);
      assert Decimal(n)[1..] == Digits(-n);
    } else {
      DigitsDenote(n);
    }
  }

  function AgreedBlksize(requested: Requested): int {
    if requested.blksize.Some? && requested.blksize.value.Some?
    then Min(requested.blksize.value.value, MAX_BLKSIZE) else DEFAULT_BLKSIZE
  }

  function SizeOption(lookup: Lookup, requested: Requested): (options: Options)
    ensures AsciiOptions(options)
  {
    if requested.tsize && lookup.Found? then [("tsize", Decimal(|lookup.content|))]
    else if requested.tsize && lookup.NotAFile? then [("tsize", Decimal(lookup.size))] else []
  }

  function BlksizeOption(requested: Requested): (options: Options)
    ensures AsciiOptions(options)
  {
    if requested.blksize.Some? then [("blksize", Decimal(AgreedBlksize(requested)))] else []
  }

  function OackOptions(lookup: Lookup, requested: Requested): (options: Options)
    ensures AsciiOptions(options)
  {
    SizeOption(lookup, requested) + BlksizeOption(requested)
  }

  predicate HasKey(options: Options, key: string) {
    exists i :: 0 <= i < |options| && options[i].0 == key
  }

  /** Every item under `key` is the decimal text of `n`. */
  predicate Announced(options: Options, key: string, n: int) {
    forall i :: 0 <= i < |options| && options[i].0 == key ==> Denoted(options[i].1) == n
  }

  /** What RFC 2348 and RFC 2349 have an OACK say: `blksize` exactly when it was requested, with the block size the
      transfer uses; `tsize` exactly when it was requested and the path exists, with its size; nothing else. */
  ghost predicate Announces(options: Options, lookup: Lookup, requested: Requested) {
    && AsciiOptions(options) && DistinctKeys(options)
    && (forall i :: 0 <= i < |options| ==> options[i].0 == "tsize" || options[i].0 == "blksize")
    && (HasKey(options, "blksize") <==> requested.blksize.Some?)
    && (requested.blksize.Some? && requested.blksize.value.Some? ==>
          Announced(options, "blksize", Min(requested.blksize.value.value, 65464)))
    && (HasKey(options, "tsize") <==> requested.tsize && (lookup.Found? || lookup.NotAFile?))
    && (requested.tsize && lookup.Found? ==> Announced(options, "tsize", |lookup.content|))
    && (requested.tsize && lookup.NotAFile? ==> Announced(options, "tsize", lookup.size))
  }

  lemma TwoItems(size: Option<string>, blksize: Option<string>)
    ensures var options := (if size.Some? then [("tsize", size.value)] else [])
        + (if blksize.Some? then [("blksize", blksize.value)] else []);
      && DistinctKeys(options)
      && (forall i :: 0 <= i < |options| ==> options[i].0 == "tsize" || options[i].0 == "blksize")
      && (HasKey(options, "tsize") <==> size.Some?)
      && (HasKey(options, "blksize") <==> blksize.Some?)
      && (size.Some? ==> Announced(options, "tsize", Denoted(size.value)))
      && (blksize.Some? ==> Announced(options, "blksize", Denoted(blksize.value)))
  {
    hide Denoted;
    assert "tsize" != "blksize" by {
      assert |"tsize"| == 5 && |"blksize"| == 7;
    }
    var options := (if size.Some? then [("tsize", size.value)] else [])
      + (if blksize.Some? then [("blksize", blksize.value)] else []);
    assert size.Some? ==> options[0].0 == "tsize";
    assert blksize.Some? ==> options[|options| - 1].0 == "blksize";
  }

  lemma OackAnnounces(lookup: Lookup, requested: Requested)
    ensures Announces(OackOptions(lookup, requested), lookup, requested)
  {
    hide Decimal, Denoted, HasKey, Announced, DistinctKeys, AsciiOptions;
    var size := if !requested.tsize then None else match lookup
      case Found(content) => Some(Decimal(|content|))
      case NotAFile(n) => Some(Decimal(n))
      case _ => None;
    var blksize := if requested.blksize.Some? then Some(Decimal(AgreedBlksize(requested))) else None;
    TwoItems(size, blksize);
    DecimalDenotes(AgreedBlksize(requested));
    if lookup.Found? {
      DecimalDenotes(|lookup.content|);
    } else if lookup.NotAFile? {
      DecimalDenotes(lookup.size);
    }
  }

  /** Whether there is an option to acknowledge. */
  predicate Negotiates(lookup: Lookup, requested: Requested) {
    requested.blksize.Some? || (requested.tsize && (lookup.Found? || lookup.NotAFile?))
  }

  lemma NegotiatesIff(lookup: Lookup, requested: Requested)
    ensures OackOptions(lookup, requested) != [] <==> Negotiates(lookup, requested)
  {
    hide Decimal;
  }

  ghost predicate IsAnnouncement(d: Bytes, lookup: Lookup, requested: Requested) {
    exists options :: Announces(options, lookup, requested) && d == OackBytes(options)
  }

  /** The chunks `read_file` yields, none when it raises. */
  function SentChunks(lookup: Lookup, requested: Requested): seq<Bytes> {
    if lookup.Found? && FileChunks(lookup.content, AgreedBlksize(requested)).Some?
    then FileChunks(lookup.content, AgreedBlksize(requested)).value else []
  }

  function SentBlocks(lookup: Lookup, requested: Requested): seq<Bytes> {
    Blocks(SentChunks(lookup, requested), AgreedBlksize(requested))
  }

  /** The content a transfer delivers: the file, but nothing under a block size of 0 or below -1. */
  function Payload(lookup: Lookup, requested: Requested): Bytes {
    if lookup.Found? && (AgreedBlksize(requested) >= 1 || AgreedBlksize(requested) == -1) then lookup.content else []
  }

  predicate Served(lookup: Lookup, requested: Requested) {
    && lookup.Found?
    && (requested.blksize.Some? ==> requested.blksize.value.Some?)
    && FileChunks(lookup.content, AgreedBlksize(requested)).Some?
  }

  lemma SentBlocksCarryPayload(lookup: Lookup, requested: Requested)
    ensures Flatten(SentBlocks(lookup, requested)) == Payload(lookup, requested)
    ensures Flatten(SentChunks(lookup, requested)) == Payload(lookup, requested)
    ensures AgreedBlksize(requested) >= 1 ==>
      forall i :: 0 <= i < |SentBlocks(lookup, requested)| - 1 ==>
        |SentBlocks(lookup, requested)[i]| == AgreedBlksize(requested)
    ensures requested.blksize.None? ==> AgreedBlksize(requested) == 512
  {
    hide Chunks;
    var b, chunks := AgreedBlksize(requested), SentChunks(lookup, requested);
    if lookup.Found? && b >= 1 {
      BlockSizes(lookup.content, b);
      ChunkSizes(lookup.content, b);
    } else if chunks != [] {
      assert chunks == [lookup.content] && Flatten(chunks[1..]) == [];
    }
    FlattenSnoc(chunks, []);
  }

  /** Every payload but the last has exactly the size that the OACK announces, when that is at least 1. */
  lemma BlocksAsAnnounced(lookup: Lookup, requested: Requested, options: Options, i: nat, k: nat)
    requires Announces(options, lookup, requested) && requested.blksize != Some(None)
    requires i < |options| && options[i].0 == "blksize" && Denoted(options[i].1) >= 1
    requires k + 1 < |SentBlocks(lookup, requested)|
    ensures |SentBlocks(lookup, requested)[k]| == Denoted(options[i].1)
  {
    hide Denoted, SentBlocks;
    SentBlocksCarryPayload(lookup, requested);
    assert HasKey(options, "blksize");
  }

  /** A request is served exactly when the file is found and its block size, if any, is a number of at least -1. */
  lemma ServedIff(lookup: Lookup, requested: Requested)
    ensures Served(lookup, requested) <==>
      && lookup.Found?
      && (requested.blksize.Some? ==> requested.blksize.value.Some? && requested.blksize.value.value >= -1)
  {
    hide Chunks;
  }

  /** The transfer carries the whole file exactly when the agreed block size is not 0, or the file
      is empty: a client that asks for `blksize` 0 is served one empty block. */
  lemma DeliversWholeFile(lookup: Lookup, requested: Requested)
    requires Served(lookup, requested)
    ensures Payload(lookup, requested) == lookup.content <==> AgreedBlksize(requested) != 0 || lookup.content == []
    ensures requested.blksize == Some(Some(0)) ==> SentBlocks(lookup, requested) == [[]]
  {
  }

  /** What the invariant means for the file: the client holds a prefix of it, and all of it once it saw a
      short block. */
  lemma ClientHoldsPrefix(lookup: Lookup, requested: Requested, blockNum: int, c: Client)
    requires ClientAt(SentBlocks(lookup, requested), AgreedBlksize(requested), blockNum, c)
    ensures c.held <= Payload(lookup, requested)
    ensures c.finished ==> lookup.Found? && c.held == lookup.content
    ensures c.accepted >= |SentChunks(lookup, requested)| ==> c.held == Payload(lookup, requested)
  {
    var b, chunks, blocks := AgreedBlksize(requested), SentChunks(lookup, requested), SentBlocks(lookup, requested);
    SentBlocksCarryPayload(lookup, requested);
    FlattenPrefix(blocks, c.accepted);
    if c.finished {
      assert c.accepted == |blocks|;
    }
    if c.accepted == |blocks| {
      assert blocks[..|blocks|] == blocks;
    } else if c.accepted == |chunks| {
      assert blocks[..|chunks|] == chunks;
    }
  }

  lemma HistoryHoldsPrefix(lookup: Lookup, requested: Requested, history: seq<Moment>)
    requires forall i :: 0 <= i < |history| ==>
      ClientAt(SentBlocks(lookup, requested), AgreedBlksize(requested), history[i].blockNum, history[i].client)
    ensures forall i :: 0 <= i < |history| ==>
      && history[i].client.held <= Payload(lookup, requested)
      && history[i].blockNum - 1 <= history[i].client.accepted <= history[i].blockNum
      && (history[i].client.finished ==> lookup.Found? && history[i].client.held == lookup.content)
  {
    forall i | 0 <= i < |history|
      ensures history[i].client.held <= Payload(lookup, requested)
      ensures history[i].client.finished ==> lookup.Found? && history[i].client.held == lookup.content
    {
      ClientHoldsPrefix(lookup, requested, history[i].blockNum, history[i].client);
    }
  }

  lemma AnnouncementsOnly(sent: set<Bytes>, lookup: Lookup, requested: Requested)
    requires forall d :: d in sent ==> IsData(d) || IsAnnouncement(d, lookup, requested)
    ensures forall d :: d in sent && IsOack(d) ==> IsAnnouncement(d, lookup, requested)
  {
    hide IsData, IsOack, IsAnnouncement;
    forall d | d in sent && IsOack(d)
      ensures IsAnnouncement(d, lookup, requested)
    {
      DataIsNotOack(d);
    }
  }

  // ---------------------------------------------------------------- the sender

  /** How one `wait_for(ack_event.wait())` of `wait_for_ack` ended. */
  datatype Wake = Timeout | OtherAck | Stopped | Acked

  /** One instant of the run: the sender's block number and the client. */
  datatype Moment = Moment(blockNum: int, client: Client)

  datatype Raised = FileNotFoundError | PermissionError | OtherError

  /** Every payload went out under its own block number. */
  ghost predicate AllSent(blocks: seq<Bytes>, sent: set<Bytes>) {
    forall k :: 0 <= k < |blocks| ==> BuildData(k + 1, blocks[k]).Ok? && BuildData(k + 1, blocks[k]).value in sent
  }

  lemma AllSentNext(blocks: seq<Bytes>, k: nat, sent: set<Bytes>, d: Bytes)
    requires k < |blocks| && AllSent(blocks[..k], sent) && BuildData(k + 1, blocks[k]) == Ok(d)
    ensures AllSent(blocks[..k + 1], sent + {d})
  {
    assert forall j :: 0 <= j < k ==> blocks[..k + 1][j] == blocks[..k][j];
  }

  function ErrorDatagram(raised: Raised): (d: Bytes)
    ensures !IsData(d)
  {
    match raised
    case FileNotFoundError => BuildError(ERROR_FILE_NOT_FOUND, "File not found").value
    case PermissionError => BuildError(ERROR_ACCESS_VIOLATION, "Access denied").value
    case OtherError => BuildError(ERROR_NOT_DEFINED, "Transfer error").value
  }

  /** The ERROR packets are those of section 5 of RFC 1350: 1 for a missing file, 2 for a refused one, 0 otherwise. */
  lemma ErrorDatagrams(raised: Raised)
    ensures var p := Parse(ErrorDatagram(raised));
      && p.Ok? && p.value.opcode == ERROR
      && p.value.errorCode == (match raised case FileNotFoundError => 1 case PermissionError => 2 case OtherError => 0)
  {
    hide Parse, BuildError;
    match raised
    case FileNotFoundError => ParseBuildError(1, "File not found");
    case PermissionError => ParseBuildError(2, "Access denied");
    case OtherError => ParseBuildError(0, "Transfer error");
  }

  lemma DataIsNotOack(d: Bytes)
    ensures IsData(d) ==> !IsOack(d)
  {
  }

  lemma ErrorIsNotOack(d: Bytes)
    requires Parse(d).Ok?
    ensures !IsOack(d)
  {
    ParsedOpcodes(d);
  }

  /** What makes `send_file` raise. */
  ghost predicate Causes(raised: Raised, lookup: Lookup, requested: Requested) {
    match raised
    case FileNotFoundError => lookup.NotFound?
    case PermissionError => lookup.OutsideRoot? || lookup.NotAFile?
    case OtherError =>
      || (requested.blksize.Some? && (requested.blksize.value.None? || requested.blksize.value.value < -1))
      || |SentBlocks(lookup, requested)| >= 0x1_0000
  }

  lemma InvSendOther(blocks: seq<Bytes>, blksize: int, blockNum: int, lastAck: int, net: Net, d: Bytes)
    requires Inv(blocks, blksize, blockNum, lastAck, net) && !IsData(d)
    ensures Inv(blocks, blksize, blockNum, lastAck, net.(toClient := net.toClient + {d}, sent := net.sent + 1))
  {
  }

  lemma InvInitial(blocks: seq<Bytes>, blksize: int)
    ensures Inv(blocks, blksize, 1, -1, IdleNet)
  {
    assert blocks[..0] == [];
  }

  class TFTPTransfer {
    var ackEvent: bool
    var lastAckBlock: int
    var done: bool
    /** The locals `block_num` and `blksize` of `send_file`; the client works with the same block size. */
    var blockNum: int
    var blksize: int
    var net: Net
    ghost var blocks: seq<Bytes>
    /** Every instant so far, and the number of `wait_for_ack` calls that gave up. */
    ghost var history: seq<Moment>
    ghost var failedWaits: nat
    /** The datagrams sent to the client, in order. */
    ghost var wire: seq<Bytes>

    ghost predicate Valid()
      reads this
    {
      && Inv(blocks, blksize, blockNum, lastAckBlock, net)
      && forall i :: 0 <= i < |history| ==>
           ClientAt(blocks, blksize, history[i].blockNum, history[i].client)
    }

    constructor ()
      ensures ackEvent == false && lastAckBlock == -1 && done == false && blockNum == 1 && net == IdleNet
      ensures history == [] && failedWaits == 0 && wire == []
    {
      ackEvent, lastAckBlock, done, blockNum, net := false, -1, false, 1, IdleNet;
      blksize := DEFAULT_BLKSIZE;
      history, failedWaits, wire := [], 0, [];
    }

    /** `datagram_received`: an ACK is remembered and wakes the sender, an ERROR aborts the
        transfer once any ACK was seen, and everything else is ignored. */
    method DatagramReceived(d: Bytes)
      modifies this`lastAckBlock, this`ackEvent, this`done
      ensures var p := Parse(d);
        if p.Ok? && p.value.opcode == ACK then
          lastAckBlock == p.value.blockNum && ackEvent && done == old(done)
        else if p.Ok? && p.value.opcode == ERROR && old(lastAckBlock) >= 0 then
          lastAckBlock == old(lastAckBlock) && ackEvent && done
        else
          lastAckBlock == old(lastAckBlock) && ackEvent == old(ackEvent) && done == old(done)
    {
      var p := Parse(d);
      if p.Ok? {
        if p.value.opcode == ACK {
          lastAckBlock := p.value.blockNum;
          ackEvent := true;
        } else if p.value.opcode == ERROR {
          if lastAckBlock >= 0 {
            done := true;
            ackEvent := true;
          }
        }
      }
    }

    /** The rest of the world during one `await`: any number of deliveries in either direction,
        client errors and transport errors, in any order. */
    method Interleave()
      requires Valid()
      modifies this`ackEvent, this`lastAckBlock, this`done, this`net, this`history
      ensures Valid()
      ensures net.sent == old(net.sent) && net.toClient == old(net.toClient)
      ensures net.client.accepted >= old(net.client.accepted)
      ensures old(history) + [Moment(blockNum, old(net).client)] <= history
    {
      hide Parse, Flatten, ClientReceives;
      history := history + [Moment(blockNum, net.client)];
      var steps: nat := *;
      while steps > 0
        invariant Valid()
        invariant net.sent == old(net.sent) && net.toClient == old(net.toClient)
        invariant net.client.accepted >= old(net.client.accepted)
        invariant old(history) + [Moment(blockNum, old(net).client)] <= history
      {
        var kind: int := *;
        if kind == 0 && net.toClient != {} {
          var d :| d in net.toClient;
          InvDeliverToClient(blocks, blksize, blockNum, lastAckBlock, net, d);
          net := DeliverToClient(net, blksize, d);
        } else if kind == 1 && net.toServer != {} {
          var d :| d in net.toServer;
          assert FromClient(net.client, d);
          DatagramReceived(d);
        } else if kind == 2 {
          InvClientError(blocks, blksize, blockNum, lastAckBlock, net);
          net := net.(toServer := net.toServer + {CLIENT_ERROR});
        } else if kind == 3 {
          done, ackEvent := true, true;
        }
        history := history + [Moment(blockNum, net.client)];
        steps := steps - 1;
      }
    }

    /** `transport.sendto`. */
    method SendTo(d: Bytes)
      requires Inv(blocks, blksize, blockNum, lastAckBlock, net.(toClient := net.toClient + {d}, sent := net.sent + 1))
      modifies this`net, this`wire
      ensures wire == old(wire) + [d]
      ensures net == old(net).(toClient := old(net).toClient + {d}, sent := old(net).sent + 1)
    {
      wire := wire + [d];
      net := net.(toClient := net.toClient + {d}, sent := net.sent + 1);
    }

    /** `wait_for_ack`: up to three waits, each ending in a timeout, a stop, the wanted ACK or another one. */
    method WaitForAck(expectedBlock: int) returns (acked: bool, ghost wakes: seq<Wake>)
      requires Valid()
      modifies this`ackEvent, this`lastAckBlock, this`done, this`net, this`history, this`failedWaits
      ensures Valid()
      ensures net.sent == old(net.sent) && net.toClient == old(net.toClient)
      ensures net.client.accepted >= old(net.client.accepted) && old(history) <= history
      ensures 0 < |wakes| <= 3
      ensures forall i :: 0 <= i < |wakes| - 1 ==> wakes[i] == Timeout || wakes[i] == OtherAck
      ensures acked <==> wakes[|wakes| - 1] == Acked
      ensures !acked ==> wakes[|wakes| - 1] == Stopped || |wakes| == 3
      ensures acked ==> lastAckBlock == expectedBlock
      ensures failedWaits == old(failedWaits) + (if acked then 0 else 1)
    {
      wakes := [];
      for retry := 0 to MAX_RETRIES
        invariant Valid()
        invariant net.sent == old(net.sent) && net.toClient == old(net.toClient)
        invariant net.client.accepted >= old(net.client.accepted) && old(history) <= history
        invariant |wakes| == retry
        invariant forall i :: 0 <= i < |wakes| ==> wakes[i] == Timeout || wakes[i] == OtherAck
        invariant failedWaits == old(failedWaits)
      {
        ackEvent := false;
        Interleave();
        var inTime: bool := *;
        if ackEvent && inTime {
          if done {
            wakes, failedWaits := wakes + [Stopped], failedWaits + 1;
            return false, wakes;
          }
          if lastAckBlock == expectedBlock {
            wakes := wakes + [Acked];
            return true, wakes;
          }
          wakes := wakes + [OtherAck];
        } else {
          wakes := wakes + [Timeout];
        }
      }
      failedWaits := failedWaits + 1;
      return false, wakes;
    }

    /** The block loop's body for one chunk: send it up to three times. */
    method SendBlock(d: Bytes) returns (ok: bool)
      requires Valid()
      requires 1 <= blockNum <= |blocks| && BuildData(blockNum, blocks[blockNum - 1]) == Ok(d)
      modifies this`ackEvent, this`lastAckBlock, this`done, this`net, this`wire, this`history, this`failedWaits
      ensures Valid() && old(wire) <= wire
      ensures net.toClient == old(net.toClient) + {d} && old(history) <= history
      ensures old(net.sent) < net.sent <= old(net.sent) + 3
      ensures ok ==> lastAckBlock == blockNum
      ensures failedWaits - old(failedWaits) == net.sent - old(net.sent) - (if ok then 1 else 0)
      ensures !ok ==> failedWaits == old(failedWaits) + 3
    {
      hide Parse, BuildData, Flatten;
      for retry := 0 to MAX_RETRIES
        invariant Valid()
        invariant retry > 0 ==> net.toClient == old(net.toClient) + {d}
        invariant retry == 0 ==> net.toClient == old(net.toClient)
        invariant net.sent == old(net.sent) + retry && old(history) <= history && old(wire) <= wire
        invariant failedWaits == old(failedWaits) + retry
      {
        InvSendData(blocks, blksize, blockNum, lastAckBlock, net, d);
        SendTo(d);
        var acked, _ := WaitForAck(blockNum);
        if acked {
          return true;
        }
      }
      return false;
    }

    /** The option negotiation of `send_file`. */
    method SendOack(lookup: Lookup, requested: Requested) returns (r: Result<bool, Raised>)
      requires Valid()
      modifies this`ackEvent, this`lastAckBlock, this`done, this`net, this`wire, this`history, this`failedWaits
      ensures Valid() && old(wire) <= wire
      ensures r.Ok? && Negotiates(lookup, requested) ==>
        |wire| == |old(wire)| + 1 && IsAnnouncement(wire[|old(wire)|], lookup, requested)
      ensures r.Err? ==> wire == old(wire)
      ensures failedWaits == old(failedWaits) + (if r == Ok(false) then 1 else 0)
      ensures r == Err(PermissionError) <==> requested.tsize && lookup.OutsideRoot?
      ensures r == Err(OtherError) <==> !(requested.tsize && lookup.OutsideRoot?) && requested.blksize == Some(None)
      ensures r != Err(FileNotFoundError) && (r.Err? ==> !Served(lookup, requested))
      ensures net.sent <= old(net.sent) + 1 && old(net.toClient) <= net.toClient
      // The OACK goes out exactly when there is an option to acknowledge; then its acknowledgement decides.
      ensures r.Err? || OackOptions(lookup, requested) == [] ==>
        net.sent == old(net.sent) && net.toClient == old(net.toClient) && (r.Ok? ==> r.value)
      ensures r.Ok? && OackOptions(lookup, requested) != [] ==>
        net.sent == old(net.sent) + 1 && net.toClient == old(net.toClient) + {OackBytes(OackOptions(lookup, requested))}
      ensures r.Ok? && !Negotiates(lookup, requested) ==> net.toClient == old(net.toClient)
      ensures r.Ok? && Negotiates(lookup, requested) ==>
        exists d :: IsAnnouncement(d, lookup, requested) && net.toClient == old(net.toClient) + {d}
    {
      hide Parse, Flatten, OackBytes, OackOptions, Negotiates, IsOack, Announces;
      NegotiatesIff(lookup, requested);
      OackAnnounces(lookup, requested);
      if requested.tsize && lookup.OutsideRoot? {
        return Err(PermissionError);
      }
      if requested.blksize.Some? && requested.blksize.value.None? {
        return Err(OtherError);
      }
      var oackOptions := OackOptions(lookup, requested);
      if oackOptions != [] {
        var packet := BuildOack(oackOptions);
        OackIsNotData(oackOptions);
        assert IsAnnouncement(packet.value, lookup, requested);
        InvSendOther(blocks, blksize, blockNum, lastAckBlock, net, packet.value);
        SendTo(packet.value);
        var acked, _ := WaitForAck(0);
        return Ok(acked);
      }
      return Ok(true);
    }

    /** The `async for` loop of `send_file` over the chunks of the file. */
    method SendChunks(chunks: seq<Bytes>) returns (r: Result<bool, Raised>)
      requires Valid() && blockNum == 1 && blocks == Blocks(chunks, blksize)
      modifies this`ackEvent, this`lastAckBlock, this`done, this`blockNum, this`net, this`wire, this`history
      modifies this`failedWaits
      ensures Valid() && old(wire) <= wire
      ensures old(net.toClient) <= net.toClient && net.sent <= old(net.sent) + 3 * |chunks|
      ensures r == Ok(true) ==> blockNum == |chunks| + 1 && |chunks| < 0x1_0000
      ensures r == Ok(true) ==> net.client.accepted >= |chunks| && AllSent(chunks, net.toClient)
      ensures r == Ok(true) ==> failedWaits >= old(failedWaits)
      ensures r == Ok(false) ==> failedWaits > old(failedWaits)
      ensures r.Err? ==> |chunks| >= 0x1_0000 && r.error == OtherError
      ensures forall d :: d in net.toClient ==> d in old(net.toClient) || IsData(d)
    {
      hide Parse, BuildData, Flatten;
      for k := 0 to |chunks|
        invariant Valid() && blockNum == k + 1
        invariant forall d :: d in net.toClient ==> d in old(net.toClient) || IsData(d)
        invariant net.client.accepted >= k && k < 0x1_0000 && old(wire) <= wire
        invariant net.sent <= old(net.sent) + 3 * k && failedWaits >= old(failedWaits)
        invariant old(net.toClient) <= net.toClient && AllSent(chunks[..k], net.toClient)
      {
        Interleave();
        var packet := BuildData(blockNum, chunks[k]);
        ParseBuildData(blockNum, chunks[k]);
        if packet.Err? {
          return Err(OtherError);
        }
        AllSentNext(chunks, k, net.toClient, packet.value);
        assert blocks[k] == chunks[k];
        var ok := SendBlock(packet.value);
        if !ok {
          return Ok(false);
        }
        InvAdvance(blocks, blksize, blockNum, net);
        blockNum := blockNum + 1;
      }
      assert chunks[..|chunks|] == chunks;
      return Ok(true);
    }

    /** The closing empty block of `send_file`; its acknowledgement is not looked at. */
    method SendFinalBlock(chunks: seq<Bytes>) returns (r: Result<bool, Raised>)
      requires Valid() && blockNum == |chunks| + 1 && blocks == Blocks(chunks, blksize)
      requires AllSent(chunks, net.toClient)
      modifies this`ackEvent, this`lastAckBlock, this`done, this`net, this`wire, this`history, this`failedWaits
      ensures Valid() && old(wire) <= wire
      ensures old(net.toClient) <= net.toClient && net.client.accepted >= old(net.client.accepted)
      ensures net.sent <= old(net.sent) + (if r.Ok? then 1 else 0)
      ensures r == if |blocks| == |chunks| || |blocks| < 0x1_0000 then Ok(true) else Err(OtherError)
      ensures r.Ok? ==> AllSent(blocks, net.toClient)
      ensures forall d :: d in net.toClient ==> d in old(net.toClient) || IsData(d)
    {
      hide Parse, BuildData, Flatten;
      if |(if chunks == [] then [] else chunks[|chunks| - 1])| == blksize {
        assert blocks == chunks + [[]];
        var packet := BuildData(blockNum, []);
        ParseBuildData(blockNum, []);
        if packet.Err? {
          return Err(OtherError);
        }
        assert AllSent(blocks, net.toClient + {packet.value}) by {
          assert blocks[..|chunks|] == chunks && blocks[..|blocks|] == blocks;
          AllSentNext(blocks, |chunks|, net.toClient, packet.value);
        }
        InvSendData(blocks, blksize, blockNum, lastAckBlock, net, packet.value);
        SendTo(packet.value);
        var _, _ := WaitForAck(blockNum);
      }
      return Ok(true);
    }

    /** The `try` block of `send_file`. */
    method TrySend(lookup: Lookup, requested: Requested) returns (r: Result<bool, Raised>)
      requires Valid() && blockNum == 1 && net == IdleNet && failedWaits == 0 && wire == []
      requires blksize == AgreedBlksize(requested) && blocks == SentBlocks(lookup, requested)
      modifies this`ackEvent, this`lastAckBlock, this`done, this`blockNum, this`net, this`wire, this`history
      modifies this`failedWaits
      ensures Valid()
      ensures Negotiates(lookup, requested) && wire != [] ==> IsAnnouncement(wire[0], lookup, requested)
      ensures r.Ok? && Negotiates(lookup, requested) ==> wire != []
      ensures net.sent <= 3 * |SentChunks(lookup, requested)| + (if r.Ok? then 2 else 1)
      ensures r == Ok(true) ==> Served(lookup, requested) && net.client.accepted >= |SentChunks(lookup, requested)|
      ensures r == Ok(true) ==> |blocks| < 0x1_0000
      ensures r == Ok(true) ==> AllSent(blocks, net.toClient)
      ensures r == Ok(true) && OackOptions(lookup, requested) != [] ==>
        OackBytes(OackOptions(lookup, requested)) in net.toClient
      ensures r == Ok(false) ==> failedWaits > 0
      ensures r.Err? ==> !Served(lookup, requested) || |blocks| >= 0x1_0000
      ensures r.Err? ==> Causes(r.error, lookup, requested)
      ensures r.Ok? && Negotiates(lookup, requested) ==>
        exists d :: d in net.toClient && IsAnnouncement(d, lookup, requested)
      ensures forall d :: d in net.toClient ==> IsData(d) || IsAnnouncement(d, lookup, requested)
    {
      hide Parse, BuildData, Flatten, OackBytes, OackOptions, AllSent, ClientAt, IsAnnouncement, Negotiates, IsData;
      r := SendOack(lookup, requested);
      if r != Ok(true) {
        return;
      }
      if lookup.NotFound? {
        return Err(FileNotFoundError);
      } else if !lookup.Found? {
        return Err(PermissionError);
      }
      var yielded := ReadFile(lookup.content, blksize);
      if yielded.None? {
        return Err(OtherError);
      }
      var chunks := yielded.value;
      r := SendChunks(chunks);
      if r != Ok(true) {
        return;
      }
      Interleave();
      r := SendFinalBlock(chunks);
    }

    /** The `except` clauses of `send_file`. */
    method Report(raised: Raised)
      requires Valid()
      modifies this`net, this`wire
      ensures Valid() && wire == old(wire) + [ErrorDatagram(raised)] && !IsOack(ErrorDatagram(raised))
      ensures net == old(net).(toClient := old(net).toClient + {ErrorDatagram(raised)}, sent := old(net).sent + 1)
    {
      hide Parse, ErrorDatagram, IsOack;
      ErrorDatagrams(raised);
      ErrorIsNotOack(ErrorDatagram(raised));
      InvSendOther(blocks, blksize, blockNum, lastAckBlock, net, ErrorDatagram(raised));
      SendTo(ErrorDatagram(raised));
    }

    /** `send_file`: an exception in the `try` block sends one ERROR packet and the result is False. */
    method SendFile(lookup: Lookup, requested: Requested) returns (ok: bool, ghost raised: Option<Raised>)
      requires lastAckBlock == -1 && blockNum == 1 && net == IdleNet && history == [] && failedWaits == 0 && wire == []
      modifies this
      // At every instant of every run the client holds a prefix of the file, and has accepted the
      // sender's current block number or one less; a client that saw a short block holds the file.
      ensures forall i :: 0 <= i < |history| ==>
        && history[i].client.held <= Payload(lookup, requested)
        && history[i].blockNum - 1 <= history[i].client.accepted <= history[i].blockNum
        && (history[i].client.finished ==> lookup.Found? && history[i].client.held == lookup.content)
      // The run ends, after at most three datagrams a block and two more.
      ensures net.sent <= 3 * |SentChunks(lookup, requested)| + 2
      // A True result means that the client holds all that was to be sent, and that every payload was sent.
      ensures ok ==> Served(lookup, requested) && net.client.held == Payload(lookup, requested)
      ensures ok ==> |SentBlocks(lookup, requested)| < 0x1_0000
      ensures ok ==> AllSent(SentBlocks(lookup, requested), net.toClient)
      ensures ok && OackOptions(lookup, requested) != [] ==> OackBytes(OackOptions(lookup, requested)) in net.toClient
      // When there is an option to acknowledge, an OACK that announces it comes first, unless the request is refused;
      // no other OACK is ever sent.
      ensures raised.None? && Negotiates(lookup, requested) ==> wire != [] && IsAnnouncement(wire[0], lookup, requested)
      ensures Negotiates(lookup, requested) && |wire| > 1 ==> IsAnnouncement(wire[0], lookup, requested)
      ensures ok && Negotiates(lookup, requested) ==>
        exists d :: d in net.toClient && IsAnnouncement(d, lookup, requested)
      ensures forall d :: d in net.toClient && IsOack(d) ==> IsAnnouncement(d, lookup, requested)
      // An exception has its cause, and is reported in an ERROR packet of its own code.
      ensures raised.Some? ==>
        !ok && Causes(raised.value, lookup, requested) && ErrorDatagram(raised.value) in net.toClient
      ensures raised.None? ==> ok || failedWaits > 0
      // A False result has a cause: the request, the 16-bit block number, or acknowledgements that did not come.
      ensures !ok ==> !Served(lookup, requested) || |SentBlocks(lookup, requested)| >= 0x1_0000 || failedWaits > 0
    {
      hide Parse, BuildData, Flatten, OackBytes, OackOptions, AllSent, IsAnnouncement, IsOack, ErrorDatagram, ClientAt,
        Served;
      blksize, blocks := AgreedBlksize(requested), SentBlocks(lookup, requested);
      InvInitial(blocks, blksize);
      var r := TrySend(lookup, requested);
      AnnouncementsOnly(net.toClient, lookup, requested);
      if r.Err? {
        Report(r.error);
      }
      ok, raised := r.Ok? && r.value, if r.Err? then Some(r.error) else None;
      ClientHoldsPrefix(lookup, requested, blockNum, net.client);
      HistoryHoldsPrefix(lookup, requested, history);
    }
  }
}
