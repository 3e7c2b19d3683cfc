/** Wire layouts of the chunked deploy protocol (packages/proto/src/deploy.ts): little-endian fields at fixed offsets. */
module DeployWire {
  import opened Wrappers

  const UPLOAD_BEGIN := 240
  const UPLOAD_CHUNK := 241
  const DEPLOY := 242

  const CHUNK_DATA_MAX: nat := 1008
  const MAX_WASM_MODULE_SIZE: nat := 4 * 1024 * 1024
  const WASM_ABI_VERSION: nat := 8

  const BEGIN_SIZE: nat := 48
  const CHUNK_HEADER_SIZE: nat := 14
  const DEPLOY_SIZE: nat := 84
  /** A DEPLOY without its 32-byte name is still whole. */
  const DEPLOY_HEADER_SIZE: nat := DEPLOY_SIZE - 32

  datatype BeginFields = BeginFields(sessionId: nat, totalSize: nat, chunkCount: nat, finalHash: Bytes)
  datatype ChunkFields = ChunkFields(sessionId: nat, seqNo: nat, len: nat)
  datatype DeployFields = DeployFields(sessionId: nat, targetSlot: nat, finalHash: Bytes, abiVersion: nat)

  function ReadLE(b: Bytes): nat {
    if b == [] then 0 else b[0] + 256 * ReadLE(b[1..])
  }

  function WriteLE(n: nat, size: nat): (b: Bytes)
    ensures |b| == size
  {
    if size == 0 then [] else [n % 256] + WriteLE(n / 256, size - 1)
  }

  function Range(size: nat): (r: nat)
    ensures r >= 1
  {
    if size == 0 then 1 else 256 * Range(size - 1)
  }

  lemma {:induction false} ReadBack(n: nat, size: nat)
    requires n < Range(size)
    ensures ReadLE(WriteLE(n, size)) == n
  {
    if size != 0 {
      ReadBack(n / 256, size - 1);
      assert WriteLE(n, size)[1..] == WriteLE(n / 256, size - 1);
    }
  }

  lemma {:induction false} WriteBack(b: Bytes)
    ensures ReadLE(b) < Range(|b|) && WriteLE(ReadLE(b), |b|) == b
  {
    if b != [] {
      WriteBack(b[1..]);
      assert b == [b[0]] + b[1..];
    }
  }

  function ParseBegin(p: Bytes): BeginFields
    requires |p| >= BEGIN_SIZE
  {
    BeginFields(ReadLE(p[0..8]), ReadLE(p[8..12]), ReadLE(p[12..16]), p[16..48])
  }

  function ParseChunk(p: Bytes): ChunkFields
    requires |p| >= CHUNK_HEADER_SIZE
  {
    ChunkFields(ReadLE(p[0..8]), ReadLE(p[8..12]), ReadLE(p[12..14]))
  }

  function ParseDeploy(p: Bytes): DeployFields
    requires |p| >= DEPLOY_HEADER_SIZE
  {
    DeployFields(ReadLE(p[0..8]), ReadLE(p[8..12]), p[12..44], ReadLE(p[44..48]))
  }

  function EncodeBegin(m: BeginFields): Bytes
    requires |m.finalHash| == 32
  {
    WriteLE(m.sessionId, 8) + WriteLE(m.totalSize, 4) + WriteLE(m.chunkCount, 4) + m.finalHash
  }

  function EncodeChunk(sessionId: nat, seqNo: nat, bytes: Bytes): Bytes {
    WriteLE(sessionId, 8) + WriteLE(seqNo, 4) + WriteLE(|bytes|, 2) + bytes
  }

  function EncodeDeploy(m: DeployFields, stateLayoutVersion: nat, name: Bytes): Bytes
    requires |m.finalHash| == 32 && |name| == 32
  {
    WriteLE(m.sessionId, 8) + WriteLE(m.targetSlot, 4) + m.finalHash + WriteLE(m.abiVersion, 4)
    + WriteLE(stateLayoutVersion, 4) + name
  }

  /** Chunks needed for `total` bytes, rounding up. */
  function ChunkCount(total: nat): nat {
    (total + CHUNK_DATA_MAX - 1) / CHUNK_DATA_MAX
  }

  function Least(a: int, b: int): int { if a < b then a else b }

  /** Chunk number `i` of a client's split. */
  function SplitChunk(bytes: Bytes, i: nat): (c: Bytes)
    requires i * CHUNK_DATA_MAX <= |bytes|
    ensures |c| == Least(CHUNK_DATA_MAX, |bytes| - i * CHUNK_DATA_MAX)
  {
    bytes[i * CHUNK_DATA_MAX..Least((i + 1) * CHUNK_DATA_MAX, |bytes|)]
  }

  const UINT16_RANGE: nat := 0x1_0000
  const UINT32_RANGE: nat := 0x1_0000_0000
  const UINT64_RANGE: nat := 0x1_0000_0000_0000_0000

  lemma Ranges()
    ensures Range(2) == UINT16_RANGE && Range(4) == UINT32_RANGE && Range(8) == UINT64_RANGE
  {
    assert Range(4) == 256 * (256 * (256 * (256 * Range(0))));
    assert Range(8) == 256 * (256 * (256 * (256 * Range(4))));
  }

  lemma BeginRoundTrip(m: BeginFields)
    requires |m.finalHash| == 32 && m.sessionId < UINT64_RANGE && m.totalSize < UINT32_RANGE && m.chunkCount < UINT32_RANGE
    ensures |EncodeBegin(m)| == BEGIN_SIZE && ParseBegin(EncodeBegin(m)) == m
  {
    Ranges();
    var p := EncodeBegin(m);
    assert p[0..8] == WriteLE(m.sessionId, 8) && p[8..12] == WriteLE(m.totalSize, 4) && p[12..16] == WriteLE(m.chunkCount, 4);
    assert p[16..48] == m.finalHash;
    ReadBack(m.sessionId, 8);
    ReadBack(m.totalSize, 4);
    ReadBack(m.chunkCount, 4);
  }

  lemma ChunkRoundTrip(sessionId: nat, seqNo: nat, bytes: Bytes)
    requires sessionId < UINT64_RANGE && seqNo < UINT32_RANGE && |bytes| <= CHUNK_DATA_MAX
    ensures var p := EncodeChunk(sessionId, seqNo, bytes);
            && |p| == CHUNK_HEADER_SIZE + |bytes|
            && ParseChunk(p) == ChunkFields(sessionId, seqNo, |bytes|)
            && p[CHUNK_HEADER_SIZE..] == bytes
  {
    Ranges();
    var p := EncodeChunk(sessionId, seqNo, bytes);
    assert p[0..8] == WriteLE(sessionId, 8) && p[8..12] == WriteLE(seqNo, 4) && p[12..14] == WriteLE(|bytes|, 2);
    ReadBack(sessionId, 8);
    ReadBack(seqNo, 4);
    ReadBack(|bytes|, 2);
  }

  lemma DeployRoundTrip(m: DeployFields, stateLayoutVersion: nat, name: Bytes)
    requires |m.finalHash| == 32 && |name| == 32
    requires m.sessionId < UINT64_RANGE && m.targetSlot < UINT32_RANGE && m.abiVersion < UINT32_RANGE
    ensures var p := EncodeDeploy(m, stateLayoutVersion, name); |p| == DEPLOY_SIZE && ParseDeploy(p) == m
  {
    Ranges();
    var p := EncodeDeploy(m, stateLayoutVersion, name);
    assert p[0..8] == WriteLE(m.sessionId, 8) && p[8..12] == WriteLE(m.targetSlot, 4) && p[44..48] == WriteLE(m.abiVersion, 4);
    assert p[12..44] == m.finalHash;
    ReadBack(m.sessionId, 8);
    ReadBack(m.targetSlot, 4);
    ReadBack(m.abiVersion, 4);
  }

  function Zeros(size: nat): (z: Bytes)
    ensures |z| == size
  {
    seq(size, _ => 0)
  }

  /** Bytes written into a buffer. */
  function Put(mem: Bytes, at: nat, bytes: Bytes): (r: Bytes)
    requires at + |bytes| <= |mem|
    ensures |r| == |mem|
  {
    seq(|mem|, i requires 0 <= i < |mem| => if at <= i < at + |bytes| then bytes[i - at] else mem[i])
  }
}
