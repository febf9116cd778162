/** The proxy DHCP server: parsing BOOTP/DHCP packets (RFC 2132) and building the PXE offer (`dhcp_proxy.py`). */
module DhcpProxy {
  import opened Wrappers
  import opened Sequences
  import opened Ascii

  datatype Architecture = BIOS | UEFI_X64 | UEFI_X64_ALT

  /** `ClientArchitecture(n)` (RFC 4578); unknown types are no architecture. */
  function ArchitectureOf(n: int): Option<Architecture> {
    if n == 0 then Some(BIOS) else if n == 7 then Some(UEFI_X64) else if n == 9 then Some(UEFI_X64_ALT) else None
  }

  type OptionMap = map<Byte, Bytes>

  datatype Packet = Packet(
    op: Byte, htype: Byte, hlen: Byte, xid: Bytes, clientMac: Bytes,
    clientArch: Option<Architecture>, isIpxe: bool, options: OptionMap)

  datatype DhcpError = TooShort | IndexError | StructError | ValueError

  const MAGIC_COOKIE: Bytes := [0x63, 0x82, 0x53, 0x63]

  // ---------------------------------------------------------------- Python slices

  /** `s[lo:hi]`. */
  function Slice(s: Bytes, lo: nat, hi: nat): Bytes {
    var l := Min(lo, |s|);
    s[l..Max(l, Min(hi, |s|))]
  }

  /** `s[lo:hi] = v` on a bytearray: its length may change. */
  function SliceAssign(s: Bytes, lo: nat, hi: nat, v: Bytes): Bytes {
    var l := Min(lo, |s|);
    s[..l] + v + s[Max(l, Min(hi, |s|))..]
  }

  // ---------------------------------------------------------------- parsing

  /** What the option loop keeps: the options so far, and what it read off them. */
  datatype Scan = Scan(options: OptionMap, clientArch: Option<Architecture>, isIpxe: bool)

  const NO_OPTIONS := Scan(map[], None, false)

  /** `data.decode("ascii", errors="ignore")`, as bytes. */
  function AsciiOnly(data: Bytes): Bytes {
    if data == [] then [] else (if data[0] < 128 then [data[0]] else []) + AsciiOnly(data[1..])
  }

  predicate Contains(data: Bytes, text: Bytes) {
    text <= data || (data != [] && Contains(data[1..], text))
  }

  const IPXE: Bytes := AsciiBytes("iPXE")

  /** One option taken in: later duplicates replace earlier ones. */
  function Take(scan: Scan, code: Byte, length: int, data: Bytes): Scan
    requires code == 93 && length >= 2 ==> |data| >= 2
  {
    Scan(
      scan.options[code := data],
      if code == 93 && length >= 2 then ArchitectureOf(Word(data[0], data[1])) else scan.clientArch,
      scan.isIpxe || (code == 77 && Contains(AsciiOnly(data), IPXE)) || code == 175)
  }

  function Word(high: int, low: int): int {
    high * 256 + low
  }

  /** The option loop of `parse` from index `i` on. */
  function ScanOptions(data: Bytes, i: nat, scan: Scan): Result<Scan, DhcpError>
    decreases |data| - i
  {
    if i >= |data| || data[i] == 255 then Ok(scan)
    else if data[i] == 0 then ScanOptions(data, i + 1, scan)
    else if i + 1 >= |data| then Err(IndexError)
    else
      var length := data[i + 1];
      var value := Slice(data, i + 2, i + 2 + length);
      if data[i] == 93 && length >= 2 && |value| < 2 then Err(StructError)
      else ScanOptions(data, i + 2 + length, Take(scan, data[i], length, value))
  }

  function HardwareAddress(data: Bytes, length: int): Bytes
    requires length >= 0
  {
    Slice(data, 28, 28 + length)
  }

  function ParsePacket(data: Bytes): Result<Packet, DhcpError> {
    if |data| < 240 then Err(TooShort)
    else
      var scan := if data[236..240] == MAGIC_COOKIE then ScanOptions(data, 240, NO_OPTIONS) else Ok(NO_OPTIONS);
      if scan.Err? then Err(scan.error)
      else Ok(Packet(data[0], data[1], data[2], data[4..8], HardwareAddress(data, data[2]),
                     scan.value.clientArch, scan.value.isIpxe, scan.value.options))
  }

  /** `DHCPPacket.parse`, with its loop over the options. */
  method Parse(data: Bytes) returns (r: Result<Packet, DhcpError>)
    ensures r == ParsePacket(data)
  {
    if |data| < 240 {
      return Err(TooShort);
    }
    var options: OptionMap, clientArch: Option<Architecture>, isIpxe := map[], None, false;
    if data[236..240] == MAGIC_COOKIE {
      var i := 240;
      while i < |data|
        invariant ScanOptions(data, 240, NO_OPTIONS) == ScanOptions(data, i, Scan(options, clientArch, isIpxe))
        decreases |data| - i
      {
        var code := data[i];
        if code == 255 {
          break;
        }
        if code == 0 {
          i := i + 1;
          continue;
        }
        if i + 1 >= |data| {
          return Err(IndexError);
        }
        var length := data[i + 1];
        var value := Slice(data, i + 2, i + 2 + length);
        options := options[code := value];
        if code == 93 && length >= 2 {
          if |value| < 2 {
            return Err(StructError);
          }
          clientArch := ArchitectureOf(Word(value[0], value[1]));
        }
        if code == 77 {
          if Contains(AsciiOnly(value), IPXE) {
            isIpxe := true;
          }
        }
        if code == 175 {
          isIpxe := true;
        }
        i := i + 2 + length;
      }
    }
    return Ok(Packet(data[0], data[1], data[2], data[4..8], HardwareAddress(data, data[2]), clientArch, isIpxe,
                     options));
  }

  // ---------------------------------------------------------------- option lists

  /** An options field as RFC 2132 describes it: options, with pads anywhere between them. */
  datatype Item = Pad | Opt(code: Byte, data: Bytes)

  predicate ItemOk(item: Item) {
    item.Opt? ==> item.code != 0 && item.code != 255 && |item.data| <= 255
  }

  predicate WellFormed(items: seq<Item>) {
    forall i :: 0 <= i < |items| ==> ItemOk(items[i])
  }

  function EncodeItem(item: Item): Bytes
    requires ItemOk(item)
  {
    if item.Pad? then [0] else [item.code, |item.data|] + item.data
  }

  function Encode(items: seq<Item>): Bytes
    requires WellFormed(items)
  {
    if items == [] then [] else EncodeItem(items[0]) + Encode(items[1..])
  }

  /** What one item does to the options read so far; a pad does nothing. */
  function TakeItem(item: Item, scan: Scan): Scan {
    if item.Pad? then scan else Take(scan, item.code, |item.data|, item.data)
  }

  function TakeAll(items: seq<Item>, scan: Scan): Scan {
    if items == [] then scan else TakeAll(items[1..], TakeItem(items[0], scan))
  }

  /** `item` stands at index `i`. */
  predicate StandsAt(data: Bytes, i: nat, item: Item) {
    && i < |data| && data[i] == (if item.Pad? then 0 else item.code)
    && (item.Opt? ==>
      i + 1 < |data| && data[i + 1] == |item.data| && Slice(data, i + 2, i + 2 + |item.data|) == item.data)
  }

  function Width(item: Item): nat {
    if item.Pad? then 1 else 2 + |item.data|
  }

  lemma Middle(data: Bytes, left: Bytes, v: Bytes, right: Bytes)
    requires data == left + v + right
    ensures data[|left|..|left| + |v|] == v && data[|left| + |v|..] == right
  {
  }

  lemma SliceOfRest(data: Bytes, i: nat, lo: nat, hi: nat)
    requires i <= |data| && lo <= hi <= |data| - i
    ensures data[i..][lo..hi] == data[i + lo..i + hi]
  {
  }

  lemma NextItem(data: Bytes, i: nat, item: Item, rest: Bytes)
    requires ItemOk(item) && i <= |data| && data[i..] == EncodeItem(item) + rest
    ensures StandsAt(data, i, item) && i + Width(item) <= |data| && data[i + Width(item)..] == rest
  {
    var tail, width := data[i..], Width(item);
    Middle(tail, [], EncodeItem(item), rest);
    SliceOfRest(data, i, width, |tail|);
    assert data[i] == tail[0];
    if item.Opt? {
      assert tail == [item.code, |item.data|] + item.data + rest;
      Middle(tail, [item.code, |item.data|], item.data, rest);
      SliceOfRest(data, i, 2, width);
      assert data[i + 1] == tail[1];
    }
  }

  lemma ScanItem(data: Bytes, i: nat, item: Item, scan: Scan)
    requires ItemOk(item) && StandsAt(data, i, item)
    ensures ScanOptions(data, i, scan)
         == ScanOptions(data, i + Width(item), TakeItem(item, scan))
  {
    hide Take, Slice;
  }

  /** `items` stand encoded from index `i` on, before an end option or the end of the packet. */
  predicate EncodedAt(data: Bytes, i: nat, items: seq<Item>, after: Bytes) {
    WellFormed(items) && (after == [] || after[0] == 255) && i <= |data| && data[i..] == Encode(items) + after
  }

  lemma EncodedNext(data: Bytes, i: nat, items: seq<Item>, after: Bytes)
    requires EncodedAt(data, i, items, after) && items != []
    ensures ItemOk(items[0]) && StandsAt(data, i, items[0])
    ensures EncodedAt(data, i + Width(items[0]), items[1..], after)
  {
    hide EncodeItem, StandsAt, Width, ItemOk;
    assert ItemOk(items[0]) && forall k :: 1 <= k < |items| ==> ItemOk(items[k]);
    assert data[i..] == EncodeItem(items[0]) + (Encode(items[1..]) + after);
    NextItem(data, i, items[0], Encode(items[1..]) + after);
  }

  lemma EncodedEnd(data: Bytes, i: nat, after: Bytes, scan: Scan)
    requires EncodedAt(data, i, [], after)
    ensures ScanOptions(data, i, scan) == Ok(scan)
  {
    assert data[i..] == after;
    assert after != [] ==> data[i] == data[i..][0];
  }

  /** Parsing inverts every well-formed option list, whether an end option or the end of the packet follows. */
  lemma {:induction false} ScanInverts(data: Bytes, i: nat, items: seq<Item>, after: Bytes, scan: Scan)
    requires EncodedAt(data, i, items, after)
    ensures ScanOptions(data, i, scan) == Ok(TakeAll(items, scan))
    decreases |items|
  {
    hide ScanOptions, EncodedAt, TakeItem, StandsAt, Width, ItemOk;
    if items == [] {
      EncodedEnd(data, i, after, scan);
    } else {
      EncodedNext(data, i, items, after);
      ScanItem(data, i, items[0], scan);
      ScanInverts(data, i + Width(items[0]), items[1..], after, TakeItem(items[0], scan));
    }
  }

  predicate HasCode(item: Item, code: Byte) {
    item.Opt? && item.code == code
  }

  /** The last option of a code wins, and nothing else is in the result. */
  lemma {:induction false} LastDuplicateWins(items: seq<Item>, scan: Scan, code: Byte)
    ensures var options := TakeAll(items, scan).options;
      && (code in options <==> code in scan.options || exists i :: 0 <= i < |items| && HasCode(items[i], code))
      && (forall i :: LastWith(items, i, code) ==> code in options && options[code] == items[i].data)
      && (code in scan.options && (forall i :: 0 <= i < |items| ==> !HasCode(items[i], code)) ==>
            options[code] == scan.options[code])
    decreases |items|
  {
    if items != [] {
      var item, rest := items[0], items[1..];
      LastDuplicateWins(rest, TakeItem(item, scan), code);
      assert forall i :: 0 <= i < |rest| ==> rest[i] == items[i + 1];
      assert forall i :: 1 <= i < |items| ==> items[i] == rest[i - 1];
      forall i | LastWith(items, i, code)
        ensures code in TakeAll(items, scan).options && TakeAll(items, scan).options[code] == items[i].data
      {
        if i > 0 {
          assert LastWith(rest, i - 1, code);
        }
      }
    }
  }

  predicate LastWith(items: seq<Item>, i: int, code: Byte) {
    && 0 <= i < |items| && HasCode(items[i], code)
    && forall j :: i < j < |items| ==> !HasCode(items[j], code)
  }

  /** How an option announces iPXE: its own option, or its name in the user class. */
  predicate AnnouncesIpxe(item: Item) {
    item.Opt? && (item.code == 175 || (item.code == 77 && Contains(AsciiOnly(item.data), IPXE)))
  }

  /** A client counts as iPXE exactly when it says so in its user class or sends the iPXE option. */
  lemma {:induction false} IpxeDetected(items: seq<Item>, scan: Scan)
    ensures TakeAll(items, scan).isIpxe <==> scan.isIpxe || exists i :: 0 <= i < |items| && AnnouncesIpxe(items[i])
    decreases |items|
  {
    if items != [] {
      var item, rest := items[0], items[1..];
      hide Contains, AsciiOnly;
      IpxeDetected(rest, TakeItem(item, scan));
      assert forall i :: 0 <= i < |rest| ==> rest[i] == items[i + 1];
      assert forall i :: 1 <= i < |items| ==> items[i] == rest[i - 1];
    }
  }

  lemma {:induction false} ContainsIff(data: Bytes, text: Bytes)
    ensures Contains(data, text) <==> exists k: nat :: FoundAt(data, k, text)
  {
    FoundFirst(data, text);
    hide FoundAt;
    if data == [] {
      if k: nat :| FoundAt(data, k, text) {
        FoundInside(data, k, text);
      }
    } else {
      ContainsIff(data[1..], text);
      if k: nat :| FoundAt(data[1..], k, text) {
        FoundLater(data, k, text);
      }
      if k: nat :| FoundAt(data, k, text) {
        if k > 0 {
          FoundLater(data, k - 1, text);
        }
      }
    }
  }

  lemma FoundFirst(data: Bytes, text: Bytes)
    ensures FoundAt(data, 0, text) <==> text <= data
  {
  }

  lemma FoundInside(data: Bytes, k: nat, text: Bytes)
    requires FoundAt(data, k, text)
    ensures k + |text| <= |data|
    ensures data == [] ==> text == []
  {
  }

  lemma FoundLater(data: Bytes, k: nat, text: Bytes)
    requires data != []
    ensures FoundAt(data[1..], k, text) <==> FoundAt(data, k + 1, text)
  {
    if k + 1 + |text| <= |data| {
      SliceOfRest(data, 1, k, k + |text|);
    }
  }

  predicate FoundAt(data: Bytes, k: nat, text: Bytes) {
    k + |text| <= |data| && data[k..k + |text|] == text
  }

  /** What is not ASCII is dropped byte by byte, and the rest is kept in order. */
  lemma {:induction false} AsciiOnlyKeeps(left: Bytes, b: Byte, right: Bytes)
    ensures AsciiOnly(left + [b] + right)
         == AsciiOnly(left) + (if b < 128 then [b] else []) + AsciiOnly(right)
    ensures (forall k :: 0 <= k < |left| ==> left[k] < 128) ==> AsciiOnly(left) == left
    decreases |left|
  {
    if left == [] {
      assert left + [b] + right == [b] + right;
      assert AsciiOnly(left) == [] && ([b] + right)[1..] == right;
    } else {
      assert left + [b] + right == [left[0]] + (left[1..] + [b] + right);
      AsciiOnlyKeeps(left[1..], b, right);
      var first: Bytes := if left[0] < 128 then [left[0]] else [];
      var middle: Bytes := if b < 128 then [b] else [];
      assert first + (AsciiOnly(left[1..]) + middle + AsciiOnly(right))
          == first + AsciiOnly(left[1..]) + middle + AsciiOnly(right);
      assert [left[0]] + left[1..] == left;
    }
  }

  /** The text looked for, with whatever ASCII bytes around it in the user class. */
  lemma UserClassSays(before: Bytes, after: Bytes)
    requires forall k :: 0 <= k < |before| ==> before[k] < 128
    requires forall k :: 0 <= k < |after| ==> after[k] < 128
    ensures AnnouncesIpxe(Opt(77, before + [0x69, 0x50, 0x58, 0x45] + after))
  {
    var name: Bytes := [0x69, 0x50, 0x58, 0x45];
    var data := before + name + after;
    IpxeBytes();
    assert FoundAt(data, |before|, name);
    hide AsciiOnly, Contains, FoundAt;
    AsciiOnlyKeeps(data, 0, []);
    ContainsIff(data, name);
  }

  lemma IpxeBytes()
    ensures IPXE == [0x69, 0x50, 0x58, 0x45]
  {
    assert IPXE[0] == 'i' as int && IPXE[1] == 'P' as int && IPXE[2] == 'X' as int && IPXE[3] == 'E' as int;
  }

  /** `items[i]` is the last option that gives an architecture. */
  predicate LastArchitecture(items: seq<Item>, i: int) {
    && 0 <= i < |items| && GivesArchitecture(items[i])
    && forall j :: i < j < |items| ==> !GivesArchitecture(items[j])
  }

  predicate GivesArchitecture(item: Item) {
    item.Opt? && item.code == 93 && |item.data| >= 2
  }

  /** The last architecture option decides, even by being unknown. */
  lemma {:induction false} LastArchitectureDecides(items: seq<Item>, scan: Scan)
    ensures forall i :: LastArchitecture(items, i) ==>
      TakeAll(items, scan).clientArch == ArchitectureOf(Word(items[i].data[0], items[i].data[1]))
    ensures (forall i :: 0 <= i < |items| ==> !GivesArchitecture(items[i])) ==>
      TakeAll(items, scan).clientArch == scan.clientArch
    decreases |items|
  {
    hide ArchitectureOf, Word;
    if items != [] {
      var item, rest := items[0], items[1..];
      LastArchitectureDecides(rest, TakeItem(item, scan));
      assert forall i :: 0 <= i < |rest| ==> rest[i] == items[i + 1];
      assert forall i :: 1 <= i < |items| ==> items[i] == rest[i - 1];
      forall i | LastArchitecture(items, i)
        ensures TakeAll(items, scan).clientArch == ArchitectureOf(Word(items[i].data[0], items[i].data[1]))
      {
        if i > 0 {
          assert LastArchitecture(rest, i - 1);
        }
      }
    }
  }

  /** What a packet holds that carries these options: parsing succeeds, and the options decide the rest. */
  lemma ParsesItems(data: Bytes, items: seq<Item>, after: Bytes)
    requires |data| >= 240 && data[236..240] == MAGIC_COOKIE && EncodedAt(data, 240, items, after)
    ensures ParsePacket(data).Ok?
    ensures var packet := ParsePacket(data).value;
      && packet.isIpxe == TakeAll(items, NO_OPTIONS).isIpxe
      && packet.clientArch == TakeAll(items, NO_OPTIONS).clientArch
      && packet.options == TakeAll(items, NO_OPTIONS).options
  {
    hide EncodedAt, TakeAll, ScanOptions;
    ScanInverts(data, 240, items, after, NO_OPTIONS);
  }

  /** Where the fields of a request lie: op, hardware type, address length and hops, four bytes of transaction id,
      twenty more, and then the address. */
  lemma ParsesFields(op: Byte, htype: Byte, hlen: Byte, hops: Byte, xid: Bytes, between: Bytes, mac: Bytes, rest: Bytes)
    requires |xid| == 4 && |between| == 20 && |mac| == hlen as int
    ensures var data := [op, htype, hlen, hops] + (xid + (between + (mac + rest)));
      ParsePacket(data).Ok? ==>
        var packet := ParsePacket(data).value;
        && packet.op == op && packet.htype == htype && packet.hlen == hlen
        && packet.xid == xid && packet.clientMac == mac
  {
    hide ScanOptions;
    var data := [op, htype, hlen, hops] + (xid + (between + (mac + rest)));
    Middle(data, [op, htype, hlen, hops], xid, between + (mac + rest));
    assert data == [op, htype, hlen, hops] + xid + between + mac + rest;
    Middle(data, [op, htype, hlen, hops] + xid + between, mac, rest);
  }

  // ---------------------------------------------------------------- the offer

  function BootFile(arch: Option<Architecture>): (file: string)
    ensures IsAscii(file) && 0 < |file| <= 63
  {
    if arch == Some(UEFI_X64) || arch == Some(UEFI_X64_ALT) then "uefi/ipxe.efi" else "bios/undionly.kpxe"
  }

  /** The loader for the architecture numbers of RFC 4578 that the server knows. */
  function LoaderOf(high: int, low: int): string {
    var number := high * 256 + low;
    if number == 7 || number == 9 then "uefi/ipxe.efi" else "bios/undionly.kpxe"
  }

  lemma LoaderFor(high: int, low: int)
    ensures BootFile(ArchitectureOf(Word(high, low))) == LoaderOf(high, low)
  {
  }

  lemma BiosLoader()
    ensures BootFile(None) == "bios/undionly.kpxe"
  {
  }

  /** Option 67 is this file name, ended by a NUL. */
  predicate NamesFile(options: OptionMap, file: string) {
    && 67 in options && |options[67]| == |file| + 1 && options[67][|file|] == 0
    && forall k :: 0 <= k < |file| ==> options[67][k] == file[k] as int
  }

  function ScriptUrl(httpServer: string): string {
    "http://" + (httpServer + "/api/v1/ipxe/boot.ipxe")
  }

  function Zeros(n: nat): (z: Bytes)
    ensures |z| == n
  {
    seq(n, _ => 0)
  }

  lemma ZerosAreZero(n: nat)
    ensures forall k :: 0 <= k < n ==> Zeros(n)[k] == 0
  {
  }

  lemma PutNothing(s: Bytes, i: nat)
    requires i <= |s|
    ensures SliceAssign(s, i, i, []) == s
  {
  }

  /** A request as `parse` gives it: a whole xid, and a hardware address that the packet may have cut short. */
  predicate Regular(request: Packet) {
    |request.xid| == 4 && |request.clientMac| <= request.hlen as int
  }

  /** Every packet that `parse` accepts makes such a request; the address is whole if the packet is long enough. */
  lemma ParsedIsRegular(data: Bytes)
    requires ParsePacket(data).Ok?
    ensures Regular(ParsePacket(data).value)
    ensures |ParsePacket(data).value.clientMac| == data[2] as int <==> 28 + data[2] as int <= |data|
  {
    hide ScanOptions;
  }

  /** The server name field: the boot file for firmware, cut to 63 bytes, and nothing for iPXE. */
  function ServerName(request: Packet): (name: Bytes)
    ensures |name| <= 63
  {
    if request.isIpxe then [] else AsciiBytes(BootFile(request.clientArch))
  }

  /** One byte of the header. An address too long for its field runs into the next ones, which are written later. */
  function HeaderByte(request: Packet, k: int): Byte
    requires Regular(request) && 0 <= k < 240
  {
    var mac, name := request.clientMac, ServerName(request);
    if k == 0 then 2
    else if k == 1 then request.htype
    else if k == 2 then request.hlen
    else if 4 <= k < 8 then request.xid[k - 4]
    else if 236 <= k then MAGIC_COOKIE[k - 236]
    else if 108 <= k < 108 + |name| then name[k - 108]
    else if 28 <= k < 28 + |mac| then mac[k - 28]
    else 0
  }

  function OfferHeader(request: Packet): (header: Bytes)
    requires Regular(request)
    ensures |header| == 240
  {
    seq(240, k requires 0 <= k < 240 => HeaderByte(request, k))
  }

  /** The buffer's size once the address is in: an address cut short makes it smaller. */
  function BufferSize(request: Packet): (size: nat)
    requires Regular(request)
    ensures 257 <= size <= 512
  {
    512 - (request.hlen as int - |request.clientMac|)
  }

  /** What a slice assignment leaves at each place when it puts as much as it takes out. */
  lemma Overwritten(s: Bytes, lo: nat, v: Bytes)
    requires lo + |v| <= |s|
    ensures var t := SliceAssign(s, lo, lo + |v|, v);
      |t| == |s| && forall k :: 0 <= k < |s| ==> t[k] == if lo <= k < lo + |v| then v[k - lo] else s[k]
  {
  }

  /** The same when it puts less, in front of zeros. */
  lemma Shortened(s: Bytes, lo: nat, hi: nat, v: Bytes)
    requires lo + |v| <= hi <= |s| && forall k :: lo <= k < |s| ==> s[k] == 0
    ensures var t := SliceAssign(s, lo, hi, v);
      && |t| == |s| - (hi - lo - |v|)
      && forall k :: 0 <= k < |t| ==> t[k] == if lo <= k < lo + |v| then v[k - lo] else s[k]
  {
  }

  lemma HeaderComplete(request: Packet, response: Bytes)
    requires Regular(request) && |response| >= 240
    requires forall k :: 0 <= k < 240 ==> response[k] == HeaderByte(request, k)
    ensures response[..240] == OfferHeader(request)
  {
    hide HeaderByte;
  }

  /** The header of an offer in one piece, for an address of at most 80 bytes that the request holds whole. */
  lemma HeaderLayout(request: Packet)
    requires Regular(request) && |request.clientMac| == request.hlen as int <= 80
    ensures var mac, name := request.clientMac, ServerName(request);
      OfferHeader(request)
        == [2, request.htype, request.hlen, 0] + request.xid + Zeros(20) + mac + Zeros(80 - |mac|) + name
           + Zeros(128 - |name|) + [0x63, 0x82, 0x53, 0x63]
    ensures request.isIpxe ==> ServerName(request) == []
    ensures !request.isIpxe ==> ServerName(request) == AsciiBytes(BootFile(request.clientArch))
  {
    hide BootFile, AsciiBytes;
    ZerosAreZero(20);
    ZerosAreZero(80 - |request.clientMac|);
    ZerosAreZero(128 - |ServerName(request)|);
    hide Zeros;
  }

  lemma {:induction false} EncodeSnoc(items: seq<Item>, item: Item)
    requires WellFormed(items) && ItemOk(item)
    ensures WellFormed(items + [item]) && Encode(items + [item]) == Encode(items) + EncodeItem(item)
    decreases |items|
  {
    hide EncodeItem, ItemOk;
    if items != [] {
      assert WellFormed(items[1..]);
      EncodeSnoc(items[1..], item);
      assert (items + [item])[1..] == items[1..] + [item];
    } else {
      assert items + [item] == [item];
      assert EncodeItem(item) + [] == EncodeItem(item);
    }
  }

  /** Writing at the end of what is written so far; past the end of the buffer it grows. */
  lemma PutAtEnd(s: Bytes, i: nat, v: Bytes)
    requires i <= |s|
    ensures var t := SliceAssign(s, i, i + |v|, v); |t| == Max(|s|, i + |v|) && t[..i + |v|] == s[..i] + v
  {
  }

  /** The buffer holds `head` and `items` up to `i`; past the end of the buffer it has grown to fit. */
  ghost predicate Written(response: Bytes, size: nat, i: nat, head: Bytes, items: seq<Item>) {
    && |response| == Max(size, i) && i <= |response|
    && WellFormed(items) && response[..i] == head + Encode(items)
  }

  lemma WriteOption(response: Bytes, size: nat, i: nat, head: Bytes, items: seq<Item>, item: Item, end: nat)
    requires Written(response, size, i, head, items) && ItemOk(item) && end == i + |EncodeItem(item)|
    ensures Written(SliceAssign(response, i, end, EncodeItem(item)), size, end, head, items + [item])
  {
    EncodeSnoc(items, item);
    hide SliceAssign, EncodeItem, Encode, WellFormed, ItemOk;
    PutAtEnd(response, i, EncodeItem(item));
    Associative(head, Encode(items), EncodeItem(item));
  }

  lemma Associative(a: Bytes, b: Bytes, c: Bytes)
    ensures (a + b) + c == a + (b + c)
  {
  }

  lemma OfferEncoded(offer: Bytes, items: seq<Item>)
    requires WellFormed(items) && |offer| >= 240 && offer[240..] == Encode(items) + [255]
    ensures EncodedAt(offer, 240, items, [255])
  {
  }

  /** The fields `parse` reads from the header of an offer, whatever follows it. */
  lemma HeaderFields(request: Packet, body: Bytes)
    requires Regular(request)
    ensures var offer := OfferHeader(request) + body;
      && offer[0] == 2 && offer[1] == request.htype && offer[2] == request.hlen && offer[4..8] == request.xid
      && offer[236..240] == MAGIC_COOKIE
  {
    var offer := OfferHeader(request) + body;
    hide ServerName;
    assert forall k :: 0 <= k < 240 ==> offer[k] == HeaderByte(request, k);
    assert forall k :: 0 <= k < 4 ==> offer[4..8][k] == request.xid[k];
    assert forall k :: 0 <= k < 4 ==> offer[236..240][k] == MAGIC_COOKIE[k];
  }

  /** The hardware address has the length that is read back, and agrees with what is written over its far end: the
      server name from the 80th byte on, the cookie from the 208th, and the options from the 212th. */
  predicate AddressSurvives(request: Packet, body: Bytes)
    requires Regular(request)
  {
    var mac, name := request.clientMac, ServerName(request);
    && |mac| == Min(request.hlen as int, 212 + |body|)
    && (forall k :: 80 <= k < |mac| && k < 80 + |name| ==> mac[k] == name[k - 80])
    && (forall k :: 208 <= k < |mac| && k < 212 ==> mac[k] == MAGIC_COOKIE[k - 208])
    && forall k :: 212 <= k < |mac| ==> mac[k] == body[k - 212]
  }

  lemma AddressReturned(request: Packet, body: Bytes)
    requires Regular(request)
    ensures HardwareAddress(OfferHeader(request) + body, request.hlen as int) == request.clientMac
        <==> AddressSurvives(request, body)
    ensures |request.clientMac| == request.hlen as int <= 80 ==> AddressSurvives(request, body)
  {
    hide ServerName;
    var offer, mac := OfferHeader(request) + body, request.clientMac;
    var address := HardwareAddress(offer, request.hlen as int);
    assert |address| == Min(request.hlen as int, 212 + |body|);
    assert forall k :: 0 <= k < |address| ==>
      address[k] == if k < 212 then HeaderByte(request, k + 28) else body[k - 212];
    if address == mac {
      assert forall k :: 0 <= k < |mac| ==> address[k] == mac[k];
    }
  }

  lemma LastTaken(item: Item, scan: Scan)
    requires item.Opt? && item.code !in {77, 93, 175}
    ensures TakeAll([item], scan) == scan.(options := scan.options[item.code := item.data])
  {
    assert TakeAll([item], scan) == TakeAll([item][1..], TakeItem(item, scan));
  }

  class DHCPProxy {
    const tftpServer: string
    const httpServer: string
    /** The four bytes of the TFTP server's address. */
    const serverIp: Bytes

    constructor (tftpServer: string, httpServer: string, serverIp: Bytes)
      requires |serverIp| == 4
      ensures this.tftpServer == tftpServer && this.httpServer == httpServer && this.serverIp == serverIp
    {
      this.tftpServer, this.httpServer, this.serverIp := tftpServer, httpServer, serverIp;
    }

    function Target(request: Packet): string {
      if request.isIpxe then ScriptUrl(httpServer) else BootFile(request.clientArch)
    }

    /** The options of an offer. */
    function OfferItems(request: Packet): seq<Item>
      requires TextFits(request)
    {
      [Opt(53, [2]), Opt(54, serverIp)]
        + (if request.isIpxe then [] else [Opt(66, AsciiBytes(tftpServer) + [0])])
        + [Opt(67, AsciiBytes(Target(request)) + [0])]
    }

    /** Each text is ASCII and fits an option. */
    predicate TextFits(request: Packet) {
      && IsAscii(Target(request)) && |Target(request)| <= 254
      && (!request.isIpxe ==> IsAscii(tftpServer) && |tftpServer| <= 254)
    }

    /** The index of the end option. */
    function OfferEnd(request: Packet): nat {
      252 + |Target(request)| + if request.isIpxe then 0 else 3 + |tftpServer|
    }

    /** The options a client reads from the offer; option 66 is only for firmware. */
    function OfferOptions(request: Packet): OptionMap
      requires TextFits(request)
    {
      var common: OptionMap := map[53 := [2], 54 := serverIp, 67 := AsciiBytes(Target(request)) + [0]];
      if request.isIpxe then common else common[66 := AsciiBytes(tftpServer) + [0]]
    }

    lemma OfferItemsRead(request: Packet)
      requires TextFits(request) && |serverIp| == 4
      ensures WellFormed(OfferItems(request))
      ensures TakeAll(OfferItems(request), NO_OPTIONS) == Scan(OfferOptions(request), None, false)
    {
      hide Target, IsAscii;
      var items := OfferItems(request);
      var s1 := Scan(map[53 := [2]], None, false);
      var s2 := Scan(map[53 := [2], 54 := serverIp], None, false);
      assert TakeAll(items, NO_OPTIONS) == TakeAll(items[1..], s1) == TakeAll(items[1..][1..], s2);
      var last := Opt(67, AsciiBytes(Target(request)) + [0]);
      if request.isIpxe {
        assert items[1..][1..] == [last];
        LastTaken(last, s2);
      } else {
        var s3 := Scan(s2.options[66 := AsciiBytes(tftpServer) + [0]], None, false);
        assert items[1..][1..] == [Opt(66, AsciiBytes(tftpServer) + [0]), last];
        assert TakeAll(items[1..][1..], s2) == TakeAll([last], s3);
        LastTaken(last, s3);
      }
    }

    /** Parsing an offer gives back the request's transaction, its address field, and exactly these options. */
    lemma OfferParses(request: Packet)
      requires Regular(request) && TextFits(request) && |serverIp| == 4
      ensures WellFormed(OfferItems(request))
      ensures var offer := OfferHeader(request) + Encode(OfferItems(request)) + [255];
        && ParsePacket(offer)
           == Ok(Packet(2, request.htype, request.hlen, request.xid, HardwareAddress(offer, request.hlen as int),
                        None, false, OfferOptions(request)))
        && (ParsePacket(offer).value.clientMac == request.clientMac <==> AddressSurvives(request, offer[240..]))
        && (|request.clientMac| == request.hlen as int <= 80 ==>
          ParsePacket(offer).value.clientMac == request.clientMac)
    {
      hide Encode, ScanOptions, OfferItems, TakeAll, OfferHeader, HardwareAddress, TextFits, WellFormed, OfferOptions,
        AddressSurvives;
      OfferItemsRead(request);
      var body := Encode(OfferItems(request)) + [255];
      var offer := OfferHeader(request) + body;
      Associative(OfferHeader(request), Encode(OfferItems(request)), [255]);
      assert offer[240..] == body;
      HeaderFields(request, body);
      OfferEncoded(offer, OfferItems(request));
      ScanInverts(offer, 240, OfferItems(request), [255], NO_OPTIONS);
      AddressReturned(request, body);
    }

    /** What each option of an offer says. */
    lemma OfferSays(request: Packet)
      requires TextFits(request)
      ensures var options := OfferOptions(request);
        && options.Keys == {53, 54, 67} + (if request.isIpxe then {} else {66})
        && options[53] == [2] && options[54] == serverIp
        && (!request.isIpxe ==> options[66] == AsciiBytes(tftpServer) + [0])
        && (request.isIpxe ==> "http://" + httpServer + "/api/v1/ipxe/boot.ipxe" == Target(request))
        && options[67] == AsciiBytes(Target(request)) + [0]
    {
      assert "http://" + httpServer + "/api/v1/ipxe/boot.ipxe" == "http://" + (httpServer + "/api/v1/ipxe/boot.ipxe");
    }

    /** From request to offer: firmware whose last architecture option says 7 or 9 is offered the UEFI loader, and all
        other firmware the BIOS one, in option 67. */
    lemma FirmwareGetsItsLoader(data: Bytes, items: seq<Item>, after: Bytes)
      requires |data| >= 240 && data[236..240] == MAGIC_COOKIE && EncodedAt(data, 240, items, after)
      requires forall i :: 0 <= i < |items| ==> !AnnouncesIpxe(items[i])
      requires IsAscii(tftpServer) && |tftpServer| <= 254
      ensures ParsePacket(data).Ok? && TextFits(ParsePacket(data).value)
      ensures forall i :: LastArchitecture(items, i) ==>
        NamesFile(OfferOptions(ParsePacket(data).value), LoaderOf(items[i].data[0], items[i].data[1]))
      ensures (forall i :: 0 <= i < |items| ==> !GivesArchitecture(items[i])) ==>
        NamesFile(OfferOptions(ParsePacket(data).value), "bios/undionly.kpxe")
    {
      hide EncodedAt, TakeAll, ParsePacket, AnnouncesIpxe, IsAscii, BootFile, LoaderOf, NamesFile, ArchitectureOf;
      ParsesItems(data, items, after);
      IpxeDetected(items, NO_OPTIONS);
      LastArchitectureDecides(items, NO_OPTIONS);
      FileNamed(ParsePacket(data).value);
      forall i | LastArchitecture(items, i)
        ensures BootFile(ParsePacket(data).value.clientArch) == LoaderOf(items[i].data[0], items[i].data[1])
      {
        LoaderFor(items[i].data[0], items[i].data[1]);
      }
      BiosLoader();
    }

    lemma FileNamed(request: Packet)
      requires TextFits(request)
      ensures NamesFile(OfferOptions(request), Target(request))
    {
    }

    /** When an offer can be built: each text is ASCII and fits its option with the NUL, and the options end within the
        512 bytes, of which an address cut short takes those it lacks. */
    lemma OfferLimits(request: Packet)
      requires Regular(request)
      ensures TextFits(request) <==>
        && IsAscii(Target(request)) && |Target(request)| + 1 <= 255
        && (request.isIpxe || (IsAscii(tftpServer) && |tftpServer| + 1 <= 255))
      ensures TextFits(request) && |serverIp| == 4 ==>
        WellFormed(OfferItems(request)) && 240 + |Encode(OfferItems(request))| == OfferEnd(request)
      ensures BufferSize(request) + (request.hlen as int - |request.clientMac|) == 512
    {
      if TextFits(request) && |serverIp| == 4 {
        hide Target, IsAscii;
        OfferLength(request);
      }
    }

    lemma OfferLength(request: Packet)
      requires TextFits(request) && |serverIp| == 4
      ensures WellFormed(OfferItems(request)) && 240 + |Encode(OfferItems(request))| == OfferEnd(request)
    {
      hide Target, IsAscii;
      var last := Opt(67, AsciiBytes(Target(request)) + [0]);
      OneItem(last);
      if request.isIpxe {
        assert OfferItems(request) == [Opt(53, [2])] + ([Opt(54, serverIp)] + [last]);
        EncodeCons(Opt(54, serverIp), [last]);
        EncodeCons(Opt(53, [2]), [Opt(54, serverIp)] + [last]);
      } else {
        var name := Opt(66, AsciiBytes(tftpServer) + [0]);
        assert OfferItems(request) == [Opt(53, [2])] + ([Opt(54, serverIp)] + ([name] + [last]));
        EncodeCons(name, [last]);
        EncodeCons(Opt(54, serverIp), [name] + [last]);
        EncodeCons(Opt(53, [2]), [Opt(54, serverIp)] + ([name] + [last]));
      }
    }

    /** The client is sent to the boot script over HTTP exactly when it is iPXE; firmware gets a boot file by TFTP. */
    lemma ScriptOnlyForIpxe(request: Packet)
      requires TextFits(request) && IsAscii(ScriptUrl(httpServer))
      ensures OfferOptions(request)[67] == AsciiBytes(ScriptUrl(httpServer)) + [0] <==> request.isIpxe
      ensures forall code: Byte ::
        code in OfferOptions(request) <==> code in {53, 54, 67} || (code == 66 && !request.isIpxe)
    {
      assert AsciiBytes(ScriptUrl(httpServer))[0] == 'h' as int;
      assert !request.isIpxe ==> AsciiBytes(Target(request))[0] != 'h' as int;
    }

    /** The header fields of `build_offer`, written into the buffer one after the other. */
    method BuildHeader(request: Packet) returns (response: Bytes)
      requires Regular(request)
      ensures |response| == BufferSize(request) && response[..240] == OfferHeader(request)
    {
      hide Zeros, SliceAssign, BootFile, AsciiBytes;
      response := Zeros(512);
      ZerosAreZero(512);
      response := response[0 := 2][1 := request.htype][2 := request.hlen];
      Overwritten(response, 4, request.xid);
      response := SliceAssign(response, 4, 8, request.xid);
      Shortened(response, 28, 28 + request.hlen as int, request.clientMac);
      response := SliceAssign(response, 28, 28 + request.hlen as int, request.clientMac);
      Overwritten(response, 108, ServerName(request));
      response := PutServerName(request, response);
      Overwritten(response, 236, MAGIC_COOKIE);
      response := SliceAssign(response, 236, 240, MAGIC_COOKIE);
      HeaderComplete(request, response);
    }

    method PutServerName(request: Packet, buffer: Bytes) returns (response: Bytes)
      requires |buffer| >= 240
      ensures response == SliceAssign(buffer, 108, 108 + |ServerName(request)|, ServerName(request))
    {
      hide SliceAssign;
      response := buffer;
      if !request.isIpxe {
        var name := AsciiBytes(BootFile(request.clientArch));
        assert name[..Min(63, |name|)] == name;
        name := name[..Min(63, |name|)];
        response := SliceAssign(response, 108, 108 + |name|, name);
      } else {
        PutNothing(response, 108);
      }
    }

    /** `build_offer`: it succeeds exactly when the texts fit and the end option lies in the buffer. */
    method BuildOffer(request: Packet) returns (r: Result<Bytes, DhcpError>)
      requires Regular(request) && |serverIp| == 4
      ensures r.Ok? <==> TextFits(request) && OfferEnd(request) < BufferSize(request)
      ensures r.Ok? ==> WellFormed(OfferItems(request))
      ensures r.Ok? ==> r.value == OfferHeader(request) + Encode(OfferItems(request)) + [255]
      ensures r.Err? ==> r.error == if TextFits(request) then IndexError else ValueError
    {
      hide Written, SliceAssign, OfferHeader, BufferSize, Encode, Target;
      var bootFile := Target(request);
      if !IsAscii(bootFile) {
        return Err(ValueError);
      }
      var response := BuildHeader(request);
      ghost var head, size := OfferHeader(request), |response|;
      StartWriting(response, head);
      ghost var items: seq<Item> := [];
      var i := 240;
      WriteOption(response, size, i, head, items, Opt(53, [2]), i + 3);
      response := SliceAssign(response, i, i + 3, [53, 1] + [2]);
      i, items := i + 3, items + [Opt(53, [2])];
      WriteOption(response, size, i, head, items, Opt(54, serverIp), i + 6);
      response := SliceAssign(response, i, i + 6, [54, 4] + serverIp);
      i, items := i + 6, items + [Opt(54, serverIp)];
      if !request.isIpxe {
        if !IsAscii(tftpServer) || |tftpServer| + 1 > 255 {
          return Err(ValueError);
        }
        var text := AsciiBytes(tftpServer) + [0];
        WriteOption(response, size, i, head, items, Opt(66, text), i + 2 + |tftpServer| + 1);
        response := SliceAssign(response, i, i + 2 + |tftpServer| + 1, [66, |tftpServer| + 1] + text);
        i, items := i + 2 + |tftpServer| + 1, items + [Opt(66, text)];
      }
      if |bootFile| + 1 > 255 {
        return Err(ValueError);
      }
      var text := AsciiBytes(bootFile) + [0];
      WriteOption(response, size, i, head, items, Opt(67, text), i + 2 + |bootFile| + 1);
      response := SliceAssign(response, i, i + 2 + |bootFile| + 1, [67, |bootFile| + 1] + text);
      i, items := i + 2 + |bootFile| + 1, items + [Opt(67, text)];
      assert items == OfferItems(request);
      EndWriting(response, size, i, head, items);
      if i >= |response| {
        return Err(IndexError);
      }
      response := response[i := 255];
      return Ok(response[..i + 1]);
    }
  }

  lemma OneItem(item: Item)
    requires ItemOk(item)
    ensures WellFormed([item]) && |Encode([item])| == Width(item)
  {
    assert Encode([item]) == EncodeItem(item) + Encode([item][1..]);
  }

  lemma EncodeCons(item: Item, rest: seq<Item>)
    requires ItemOk(item) && WellFormed(rest)
    ensures WellFormed([item] + rest) && |Encode([item] + rest)| == Width(item) + |Encode(rest)|
  {
    assert ([item] + rest)[1..] == rest;
  }

  lemma StartWriting(response: Bytes, head: Bytes)
    requires |response| >= 240 == |head| && response[..240] == head
    ensures Written(response, |response|, 240, head, [])
  {
    assert head + Encode([]) == head;
  }

  lemma EndWriting(response: Bytes, size: nat, i: nat, head: Bytes, items: seq<Item>)
    requires Written(response, size, i, head, items)
    ensures WellFormed(items) && |response| == Max(size, i)
    ensures i < |response| ==> response[i := 255][..i + 1] == head + Encode(items) + [255]
  {
    if i < |response| {
      assert response[i := 255][..i + 1] == response[..i] + [255];
    }
  }
}
