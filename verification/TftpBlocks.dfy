/** How `read_file` and `send_file` cut a file into DATA payloads (RFC 1350 section 6, RFC 2348). */
module TftpBlocks {
  import opened Wrappers
  import opened Sequences

  const DEFAULT_BLKSIZE := 512
  const MAX_BLKSIZE := 65464

  /** The chunks of repeated `f.read(b)` up to the first empty one, for a positive `b`. */
  function Chunks(file: Bytes, b: int): (chunks: seq<Bytes>)
    requires b >= 1
    ensures forall i :: 0 <= i < |chunks| ==> chunks[i] != []
  {
    if |file| == 0 then [] else [file[..Min(b, |file|)]] + Chunks(file[Min(b, |file|)..], b)
  }

  /** `read_file` for every block size a client can ask for: 0 reads nothing, -1 reads the
      whole file at once, and anything below makes `f.read` raise. */
  function FileChunks(file: Bytes, blksize: int): Option<seq<Bytes>> {
    var b := Min(blksize, MAX_BLKSIZE);
    if b >= 1 then Some(Chunks(file, b))
    else if b == 0 || (b == -1 && file == []) then Some([])
    else if b == -1 then Some([file])
    else None
  }

  lemma ChunksAt(file: Bytes, pos: nat, size: nat, b: int)
    requires b >= 1 && pos < |file| && size == Min(b, |file| - pos)
    ensures Chunks(file[pos..], b) == [file[pos..pos + size]] + Chunks(file[pos + size..], b)
  {
    assert file[pos..][..size] == file[pos..pos + size] && file[pos..][size..] == file[pos + size..];
  }

  lemma NoChunks(b: int)
    requires b >= 1
    ensures Chunks([], b) == []
  {
  }

  /** The reading loop of `read_file`: `None` is the `ValueError` of a block size below -1. */
  method ReadFile(file: Bytes, blksize: int) returns (chunks: Option<seq<Bytes>>)
    ensures chunks == FileChunks(file, blksize)
  {
    hide Chunks;
    var b := Min(blksize, MAX_BLKSIZE);
    if b < -1 {
      return None;
    }
    var read: seq<Bytes>, pos: nat := [], 0;
    while true
      invariant pos <= |file|
      invariant b >= 1 ==> Chunks(file, b) == read + Chunks(file[pos..], b)
      invariant b == 0 ==> read == []
      invariant b == -1 ==> read == (if pos == 0 then [] else [file]) && (pos == 0 || pos == |file|)
      decreases |file| - pos
    {
      var size := if b == -1 then |file| - pos else Min(b, |file| - pos);
      var chunk := file[pos..pos + size];
      if chunk == [] {
        if b >= 1 {
          NoChunks(b);
          assert file[pos..] == [] && read + [] == read;
        }
        break;
      }
      assert b == -1 ==> pos == 0 && chunk == file;
      if b >= 1 {
        ChunksAt(file, pos, size, b);
      }
      read, pos := read + [chunk], pos + size;
    }
    return Some(read);
  }

  /** The payloads `send_file` sends: an empty block follows a last chunk of full size. */
  function Blocks(chunks: seq<Bytes>, blksize: int): seq<Bytes> {
    if |(if chunks == [] then [] else chunks[|chunks| - 1])| == blksize then chunks + [[]] else chunks
  }

  /** The receiver of RFC 1350 section 6: append every payload up to the first short one. */
  function Receive(blocks: seq<Bytes>, b: int): Option<Bytes> {
    if blocks == [] then None
    else if |blocks[0]| < b then Some(blocks[0])
    else
      var rest := Receive(blocks[1..], b);
      if rest.None? then None else Some(blocks[0] + rest.value)
  }

  lemma {:induction false} ChunkSizes(file: Bytes, b: int)
    requires b >= 1
    ensures Flatten(Chunks(file, b)) == file
    ensures forall i :: 0 <= i < |Chunks(file, b)| - 1 ==> |Chunks(file, b)[i]| == b
    ensures file != [] ==>
      var chunks := Chunks(file, b);
      && chunks != []
      && |chunks[|chunks| - 1]| <= b
      && |file| == (|chunks| - 1) * b + |chunks[|chunks| - 1]|
  {
    if file != [] {
      var size := Min(b, |file|);
      var rest := file[size..];
      ChunkSizes(rest, b);
      var chunks := Chunks(file, b);
      assert chunks[1..] == Chunks(rest, b);
      assert file[..size] + rest == file;
      if rest != [] {
        assert (|chunks| - 1) * b == (|chunks[1..]| - 1) * b + b;
      }
      forall i | 0 <= i < |chunks| - 1
        ensures |chunks[i]| == b
      {
        if i > 0 {
          assert chunks[i] == chunks[1..][i - 1];
        }
      }
    }
  }

  lemma {:induction false} ReceiveFullBlocks(blocks: seq<Bytes>, b: int)
    requires blocks != [] && |blocks[|blocks| - 1]| < b
    requires forall i :: 0 <= i < |blocks| - 1 ==> |blocks[i]| == b
    ensures Receive(blocks, b) == Some(Flatten(blocks))
  {
    if |blocks| > 1 {
      ReceiveFullBlocks(blocks[1..], b);
    } else {
      assert Flatten(blocks[1..]) == [];
      assert blocks[0] + [] == blocks[0];
    }
  }

  /** Every payload but the last has the full block size, the last is shorter, and together they
      are the file; a non-empty file of `n` bytes has the least number of payloads whose full size exceeds `n`. */
  lemma BlockSizes(file: Bytes, b: int)
    requires b >= 1
    ensures var blocks := Blocks(Chunks(file, b), b);
            && Flatten(blocks) == file
            && (file == [] ==> blocks == [])
            && (file != [] ==> blocks != [] && |blocks[|blocks| - 1]| < b)
            && (file != [] ==> (|blocks| - 1) * b <= |file| < |blocks| * b)
            && (forall i :: 0 <= i < |blocks| - 1 ==> |blocks[i]| == b)
  {
    ChunkSizes(file, b);
    var chunks := Chunks(file, b);
    var blocks := Blocks(chunks, b);
    if file != [] {
      if blocks != chunks {
        FlattenSnoc(chunks, []);
      }
      TimesSuccessor(|chunks| - 1, b);
      TimesSuccessor(|chunks|, b);
      forall i | 0 <= i < |blocks| - 1
        ensures |blocks[i]| == b
      {
        assert blocks[i] == chunks[i];
      }
    }
  }

  /** The block numbers fit in 16 bits exactly when the file is shorter than 65535 full blocks. */
  lemma BlockNumbersFit(file: Bytes, b: int)
    requires b >= 1
    ensures |Blocks(Chunks(file, b), b)| < 0x1_0000 <==> |file| < 0xFFFF * b
  {
    BlockSizes(file, b);
    var n := |Blocks(Chunks(file, b), b)|;
    if file != [] {
      if n < 0x1_0000 {
        TimesMonotone(n, 0xFFFF, b);
      } else {
        TimesMonotone(0xFFFF, n - 1, b);
      }
    }
  }

  lemma TimesMonotone(m: int, n: int, b: int)
    requires m <= n && b >= 0
    ensures m * b <= n * b
  {
  }

  lemma TimesSuccessor(n: int, b: int)
    ensures (n + 1) * b == n * b + b
  {
  }

  /** A receiver that stops at the first short block gets exactly the file, unless the file is
      empty: then no DATA packet is sent at all and it gets nothing. */
  lemma ReceiverRecovers(file: Bytes, b: int)
    requires b >= 1
    ensures Receive(Blocks(Chunks(file, b), b), b) == (if file == [] then None else Some(file))
    ensures Receive(Blocks(Chunks(file, b), b), b) == Some(file) <==> file != []
  {
    BlockSizes(file, b);
    if file != [] {
      ReceiveFullBlocks(Blocks(Chunks(file, b), b), b);
    }
  }
}
