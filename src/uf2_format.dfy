/**
 * The UF2 images the server and the two Python scripts build to reconfigure a device (the UF2
 * specification, "File format" section): 512-byte blocks, each a 32-byte header of little-endian
 * words, a 476-byte data area of which the first 256 bytes are the payload, and an end magic.
 * Every image here is 16 blocks covering one 4 KiB flash sector; block 0 carries the configuration
 * payload and blocks 1..15 carry zeros.
 *
 * This module holds the layout shared by server/src/handlers/uf2.rs, create_uf2.py and
 * create_wifi_uf2.py: the block each of their `gen_block`s appends, the field view a UF2 loader
 * reads back, the two configuration payloads and how the device reads them.
 */
module Uf2Format {
  import opened Wrappers
  import opened Bytes
  import StaticData
  import Utf8

  /** First and second start magic, end magic (UF2 specification, "File format"). */
  const MAGIC_START0: u32 := 0x0A324655
  const MAGIC_START1: u32 := 0x9E5D5157
  const MAGIC_END: u32 := 0x0AB16F30
  /** Flag 0x00002000: the word at offset 28 is a family ID rather than a file size. */
  const FLAG_FAMILY_ID_PRESENT: u32 := 0x0000_2000
  /** The family ID of the RP2040. */
  const RP2040_FAMILY_ID: u32 := 0xe48bff56

  const BLOCK_SIZE: nat := 512
  const PAYLOAD_SIZE: nat := 256
  const DATA_AREA_SIZE: nat := 476
  const NUM_BLOCKS: nat := 16

  /** Where the `.wifi_info` and `.device_info` sections start in flash. */
  const WIFI_BASE_ADDRESS: u32 := 0x10fff000
  const DEVICE_BASE_ADDRESS: u32 := 0x10ffe000

  /** The byte literals the builders append, in the order they append them. */
  const START_MAGIC_BYTES: seq<byte> := [0x55, 0x46, 0x32, 0x0a, 0x57, 0x51, 0x5d, 0x9e]
  const FLAG_BYTES: seq<byte> := [0x00, 0x20, 0x00, 0x00]
  const PAYLOAD_SIZE_BYTES: seq<byte> := [0x00, 0x01, 0x00, 0x00]
  const FAMILY_ID_BYTES: seq<byte> := [0x56, 0xff, 0x8b, 0xe4]
  const END_MAGIC_BYTES: seq<byte> := [0x30, 0x6f, 0xb1, 0x0a]

  /** A block as a UF2 loader sees it: the header words, the data area and the end magic. */
  datatype BlockFields = BlockFields(
    magicStart0: u32,
    magicStart1: u32,
    flags: u32,
    targetAddr: u32,
    payloadSize: u32,
    blockNo: u32,
    numBlocks: u32,
    familyId: u32,
    data: seq<byte>,
    magicEnd: u32)

  /** Read a block the way the UF2 specification lays it out; anything but 512 bytes is no block. */
  function ReadBlock(b: seq<byte>): (r: Option<BlockFields>)
    ensures r.Some? <==> |b| == BLOCK_SIZE
    ensures r.Some? ==> r.value.data == b[32..508] && |r.value.data| == DATA_AREA_SIZE
  {
    if |b| != BLOCK_SIZE then None
    else Some(BlockFields(
      FromLE32(b[0..4]), FromLE32(b[4..8]), FromLE32(b[8..12]), FromLE32(b[12..16]),
      FromLE32(b[16..20]), FromLE32(b[20..24]), FromLE32(b[24..28]), FromLE32(b[28..32]),
      b[32..508], FromLE32(b[508..512])))
  }

  /**
   * The fields of a well-formed RP2040 block of a 16-block image: both start magics, the family-ID
   * flag, the target address, a 256-byte payload, the block number, 16 blocks, the RP2040 family,
   * the payload followed by zeros, the end magic.
   */
  function Rp2040Block(address: u32, blockNo: u32, payload: seq<byte>): BlockFields
  {
    BlockFields(MAGIC_START0, MAGIC_START1, FLAG_FAMILY_ID_PRESENT, address, PAYLOAD_SIZE as u32,
                blockNo, NUM_BLOCKS as u32, RP2040_FAMILY_ID, payload + Zeros(DATA_AREA_SIZE - PAYLOAD_SIZE),
                MAGIC_END)
  }

  /** The 32-byte header every `gen_block` appends before the data. */
  function Header(address: u32, blockNo: u32): (h: seq<byte>)
    ensures |h| == 32
  {
    START_MAGIC_BYTES + FLAG_BYTES + LE32(address) + PAYLOAD_SIZE_BYTES + LE32(blockNo)
    + LE32(NUM_BLOCKS as u32) + FAMILY_ID_BYTES
  }

  /** The block `gen_block(address, block_id, data)` builds from the words `address` and `block_id`. */
  function Block(address: u32, blockNo: u32, payload: seq<byte>): (b: seq<byte>)
    requires |payload| == PAYLOAD_SIZE
    ensures |b| == BLOCK_SIZE
  {
    Header(address, blockNo) + payload + Zeros(DATA_AREA_SIZE - PAYLOAD_SIZE) + END_MAGIC_BYTES
  }

  /**
   * Layout: a built block reads back as the RP2040 block with that address, number and payload, so
   * magics, flags, sizes and the family ID sit where the UF2 specification puts them.
   */
  lemma BlockLayout(address: u32, blockNo: u32, payload: seq<byte>)
    requires |payload| == PAYLOAD_SIZE
    ensures ReadBlock(Block(address, blockNo, payload)) == Some(Rp2040Block(address, blockNo, payload))
  {
    var b := Block(address, blockNo, payload);
    var h := Header(address, blockNo);
    assert b[..32] == h;
    assert h[0..4] == [0x55, 0x46, 0x32, 0x0a] && h[4..8] == [0x57, 0x51, 0x5d, 0x9e];
    assert h[8..12] == FLAG_BYTES && h[12..16] == LE32(address) && h[16..20] == PAYLOAD_SIZE_BYTES;
    assert h[20..24] == LE32(blockNo) && h[24..28] == LE32(NUM_BLOCKS as u32) && h[28..32] == FAMILY_ID_BYTES;
    assert b[0..4] == h[0..4] && b[4..8] == h[4..8] && b[8..12] == h[8..12] && b[12..16] == h[12..16];
    assert b[16..20] == h[16..20] && b[20..24] == h[20..24] && b[24..28] == h[24..28] && b[28..32] == h[28..32];
    assert b[32..508] == payload + Zeros(DATA_AREA_SIZE - PAYLOAD_SIZE);
    assert b[508..512] == END_MAGIC_BYTES;
    LE32RoundTrip(address);
    LE32RoundTrip(blockNo);
    LE32RoundTrip(NUM_BLOCKS as u32);
  }

  /** Two equal little-endian words at `at` are the same four bytes. */
  lemma SameWord(b: seq<byte>, c: seq<byte>, at: nat)
    requires at + 4 <= |b| && at + 4 <= |c|
    requires FromLE32(b[at..at + 4]) == FromLE32(c[at..at + 4])
    ensures b[at..at + 4] == c[at..at + 4]
  {
    LE32Onto(b[at..at + 4]);
    LE32Onto(c[at..at + 4]);
  }

  /** A 512-byte block is its eight header words, its data area and its end magic. */
  lemma Pieces(b: seq<byte>)
    requires |b| == BLOCK_SIZE
    ensures b == b[0..4] + b[4..8] + b[8..12] + b[12..16] + b[16..20] + b[20..24] + b[24..28] + b[28..32]
                 + b[32..508] + b[508..512]
  {
  }

  /** `ReadBlock` loses nothing: two blocks that read the same are the same bytes. */
  lemma ReadBlockInjective(b: seq<byte>, c: seq<byte>)
    requires ReadBlock(b).Some? && ReadBlock(b) == ReadBlock(c)
    ensures b == c
  {
    var f, g := ReadBlock(b).value, ReadBlock(c).value;
    assert f.magicStart0 == g.magicStart0 && f.magicStart1 == g.magicStart1 && f.flags == g.flags;
    assert f.targetAddr == g.targetAddr && f.payloadSize == g.payloadSize && f.blockNo == g.blockNo;
    assert f.numBlocks == g.numBlocks && f.familyId == g.familyId && f.magicEnd == g.magicEnd;
    SameWord(b, c, 0);
    SameWord(b, c, 4);
    SameWord(b, c, 8);
    SameWord(b, c, 12);
    SameWord(b, c, 16);
    SameWord(b, c, 20);
    SameWord(b, c, 24);
    SameWord(b, c, 28);
    SameWord(b, c, 508);
    Pieces(b);
    Pieces(c);
  }

  /** The converse of `BlockLayout`: the only bytes that read as that RP2040 block are the built block. */
  lemma BlockIsDetermined(b: seq<byte>, address: u32, blockNo: u32, payload: seq<byte>)
    requires |payload| == PAYLOAD_SIZE
    requires ReadBlock(b) == Some(Rp2040Block(address, blockNo, payload))
    ensures b == Block(address, blockNo, payload)
  {
    BlockLayout(address, blockNo, payload);
    ReadBlockInjective(b, Block(address, blockNo, payload));
  }

  /** `struct.pack('<I', x)`: four little-endian bytes, or `struct.error` outside `0..2^32`. */
  function PackU32(x: int): (r: Outcome<seq<byte>>)
    ensures r.Returns? <==> 0 <= x < U32_LIMIT
    ensures r.Returns? ==> |r.value| == 4 && FromLE32(r.value) == x
  {
    if 0 <= x < U32_LIMIT then
      LE32RoundTrip(x);
      Returns(LE32(x))
    else Panics("struct.error: argument out of range")
  }

  predicate InI32(x: int)
  {
    -0x8000_0000 <= x < 0x8000_0000
  }

  /** The 32-bit pattern of a signed word: itself when non-negative, `x + 2^32` when negative. */
  function TwosComplement(x: int): (w: u32)
    requires InI32(x)
    ensures x >= 0 ==> w == x
    ensures x < 0 ==> w >= 0x8000_0000
  {
    if x >= 0 then x else x + U32_LIMIT
  }

  /**
   * `struct.pack('<i', x)`: the two's-complement little-endian bytes, or `struct.error` outside
   * `-2^31..2^31`.
   */
  function PackI32(x: int): (r: Outcome<seq<byte>>)
    ensures r.Returns? <==> InI32(x)
    ensures r.Returns? ==> r.value == LE32(TwosComplement(x)) && FromLE32(r.value) == TwosComplement(x)
  {
    if InI32(x) then
      LE32RoundTrip(TwosComplement(x));
      Returns(LE32(TwosComplement(x)))
    else Panics("struct.error: 'i' format requires -2147483648 <= number <= 2147483647")
  }

  /** The data of block `i` of an image: the configuration payload in block 0, zeros after it. */
  function BlockData(payload: seq<byte>, i: nat): (d: seq<byte>)
    requires |payload| == PAYLOAD_SIZE
    ensures |d| == PAYLOAD_SIZE
  {
    if i == 0 then payload else Zeros(PAYLOAD_SIZE)
  }

  /** The last block of an image stays inside the 32-bit address space. */
  predicate FitsBase(base: u32)
  {
    base + PAYLOAD_SIZE * (NUM_BLOCKS - 1) < U32_LIMIT
  }

  /** The first `n` blocks of the image at `base`: block `i` targets `base + 256 * i`. */
  function Blocks(base: u32, payload: seq<byte>, n: nat): (f: seq<byte>)
    requires |payload| == PAYLOAD_SIZE && n <= NUM_BLOCKS && FitsBase(base)
    ensures |f| == BLOCK_SIZE * n
  {
    if n == 0 then []
    else Blocks(base, payload, n - 1) + Block(base + PAYLOAD_SIZE * (n - 1), n - 1, BlockData(payload, n - 1))
  }

  /** One more block: the next block of the image, appended. */
  lemma BlocksSnoc(base: u32, payload: seq<byte>, n: nat)
    requires |payload| == PAYLOAD_SIZE && n < NUM_BLOCKS && FitsBase(base)
    ensures Blocks(base, payload, n + 1) == Blocks(base, payload, n) + Block(base + PAYLOAD_SIZE * n, n, BlockData(payload, n))
  {
  }

  /** The whole 16-block image, 8 KiB. */
  function File(base: u32, payload: seq<byte>): (f: seq<byte>)
    requires |payload| == PAYLOAD_SIZE && FitsBase(base)
    ensures |f| == BLOCK_SIZE * NUM_BLOCKS
  {
    Blocks(base, payload, NUM_BLOCKS)
  }

  /** Block `i` of a file, by position. */
  function NthBlock(f: seq<byte>, i: nat): (b: seq<byte>)
    requires BLOCK_SIZE * (i + 1) <= |f|
    ensures |b| == BLOCK_SIZE
  {
    f[BLOCK_SIZE * i..BLOCK_SIZE * (i + 1)]
  }

  lemma {:induction false} BlocksLayout(base: u32, payload: seq<byte>, n: nat)
    requires |payload| == PAYLOAD_SIZE && n <= NUM_BLOCKS && FitsBase(base)
    ensures forall i :: 0 <= i < n ==>
              NthBlock(Blocks(base, payload, n), i) == Block(base + PAYLOAD_SIZE * i, i, BlockData(payload, i))
  {
    if n > 0 {
      BlocksLayout(base, payload, n - 1);
      var prev := Blocks(base, payload, n - 1);
      var f := Blocks(base, payload, n);
      assert f == prev + Block(base + PAYLOAD_SIZE * (n - 1), n - 1, BlockData(payload, n - 1));
      forall i | 0 <= i < n
        ensures NthBlock(f, i) == Block(base + PAYLOAD_SIZE * i, i, BlockData(payload, i))
      {
        if i < n - 1 {
          assert NthBlock(f, i) == NthBlock(prev, i);
        } else {
          assert NthBlock(f, i) == f[|prev|..];
        }
      }
    }
  }

  /**
   * The image a loader receives: exactly 16 blocks, block `i` targets `base + 256 * i` with block
   * number `i` of 16, block 0 carries the payload and every other block zeros.
   */
  lemma FileLayout(base: u32, payload: seq<byte>)
    requires |payload| == PAYLOAD_SIZE && FitsBase(base)
    ensures |File(base, payload)| == NUM_BLOCKS * BLOCK_SIZE
    ensures forall i :: 0 <= i < NUM_BLOCKS ==>
              ReadBlock(NthBlock(File(base, payload), i))
              == Some(Rp2040Block(base + PAYLOAD_SIZE * i, i, BlockData(payload, i)))
  {
    BlocksLayout(base, payload, NUM_BLOCKS);
    forall i | 0 <= i < NUM_BLOCKS
      ensures ReadBlock(NthBlock(File(base, payload), i))
              == Some(Rp2040Block(base + PAYLOAD_SIZE * i, i, BlockData(payload, i)))
    {
      BlockLayout(base + PAYLOAD_SIZE * i, i, BlockData(payload, i));
    }
  }

  /**
   * The Wi-Fi payload: the SSID zero-padded to 32 bytes, the password zero-padded to 32 bytes, then
   * 192 zeros, matching the two 32-byte buffers at the start of `.wifi_info`.
   */
  function WifiPayload(ssid: seq<byte>, pw: seq<byte>): (p: seq<byte>)
    requires |ssid| <= 32 && |pw| <= 32
    ensures |p| == PAYLOAD_SIZE
    ensures p[..32] == ssid + Zeros(32 - |ssid|) && p[32..64] == pw + Zeros(32 - |pw|)
    ensures forall i :: 64 <= i < PAYLOAD_SIZE ==> p[i] == 0
  {
    var p := ssid + Zeros(32 - |ssid|) + pw + Zeros(32 - |pw|) + Zeros(256 - 64);
    assert p[..32] == ssid + Zeros(32 - |ssid|);
    assert p[32..64] == pw + Zeros(32 - |pw|);
    p
  }

  /** The device-id payload: the id as a little-endian word, then 252 zeros. */
  function DevPayload(deviceId: u32): (p: seq<byte>)
    ensures |p| == PAYLOAD_SIZE
  {
    LE32(deviceId) + Zeros(256 - 4)
  }

  /** The device reads `DEVICE_ID` as the little-endian word at the start of `.device_info`. */
  lemma DevPayloadReadsBack(deviceId: u32)
    ensures FromLE32(DevPayload(deviceId)[..4]) == deviceId
    ensures forall i :: 4 <= i < PAYLOAD_SIZE ==> DevPayload(deviceId)[i] == 0
  {
    assert DevPayload(deviceId)[..4] == LE32(deviceId);
    LE32RoundTrip(deviceId);
  }

  /** What the `<= 32` asserts of create_uf2.py and create_wifi_uf2.py let through. */
  predicate ScriptAsserts(ssid: seq<byte>, pw: seq<byte>)
  {
    |ssid| <= 32 && |pw| <= 32
  }

  /** Credentials that leave room for the NUL terminator in the device's 32-byte buffers. */
  predicate FitsBuffers(ssid: seq<byte>, pw: seq<byte>)
  {
    |ssid| < 32 && |pw| < 32
  }

  /** A string the device can hand back: valid UTF-8 with no NUL inside it. */
  predicate Readable(s: seq<byte>)
  {
    0 !in s && Utf8.Valid(s)
  }

  /**
   * After the payload is flashed, `wifi_ssid` and `wifi_password` return exactly the SSID and the
   * password when they fit their buffers; a credential that fills all 32 bytes leaves no NUL and
   * reads as nothing.
   */
  lemma WifiPayloadReadsBack(ssid: seq<byte>, pw: seq<byte>, c: StaticData.FlashConfig)
    requires ScriptAsserts(ssid, pw) && Readable(ssid) && Readable(pw)
    requires StaticData.WellSized(c)
    requires c.wifiSsidBytes == WifiPayload(ssid, pw)[..32] && c.wifiPwBytes == WifiPayload(ssid, pw)[32..64]
    ensures |ssid| < 32 ==> StaticData.WifiSsid(c) == Some(ssid)
    ensures |ssid| == 32 ==> StaticData.WifiSsid(c) == None
    ensures |pw| < 32 ==> StaticData.WifiPassword(c) == Some(pw)
    ensures |pw| == 32 ==> StaticData.WifiPassword(c) == None
  {
    var payload := WifiPayload(ssid, pw);
    assert c.wifiSsidBytes == ssid + Zeros(32 - |ssid|);
    assert c.wifiPwBytes == pw + Zeros(32 - |pw|);
    StaticData.PaddedReadsBack(ssid, 32);
    StaticData.PaddedReadsBack(pw, 32);
  }

  /**
   * The gap between the script asserts and the buffers: a 32-byte ASCII SSID passes `<= 32`, yet the
   * device finds no NUL in its buffer and `wifi_ssid` is `None`.
   */
  lemma FullLengthSsidIsUnreadable(c: StaticData.FlashConfig)
    requires StaticData.WellSized(c)
    requires c.wifiSsidBytes == WifiPayload(seq(32, _ => 0x61), [])[..32]
    ensures ScriptAsserts(seq(32, _ => 0x61), []) && !FitsBuffers(seq(32, _ => 0x61), [])
    ensures StaticData.WifiSsid(c) == None
  {
    var ssid: seq<byte> := seq(32, _ => 0x61);
    Utf8.AsciiValid(ssid);
    StaticData.PaddedReadsBack(ssid, 32);
  }
}
