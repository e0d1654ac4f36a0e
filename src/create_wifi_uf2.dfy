/**
 * create_wifi_uf2.py: writes `wifi.uf2` for the `.wifi_info` sector. Unlike create_uf2.py it packs
 * the header words with `struct.pack('<i', ...)`, signed, so each must lie in `-2^31..2^31`. The
 * script's SSID and password constants are parameters here and the file is returned instead of
 * written to disk.
 */
module CreateWifiUf2 {
  import opened Wrappers
  import opened Bytes
  import opened Uf2Format

  const ASSERTION_ERROR: string := "AssertionError"

  /**
   * `gen_block` with signed packing: it fails when a word is outside the signed 32-bit range, and a
   * negative word lands in the block as its two's complement.
   */
  method GenBlock(address: int, blockId: int, data: seq<byte>) returns (r: Outcome<seq<byte>>)
    requires |data| == PAYLOAD_SIZE
    ensures r.Returns? <==> InI32(address) && InI32(blockId)
    ensures r.Returns? ==> r.value == Block(TwosComplement(address), TwosComplement(blockId), data)
  {
    var f: seq<byte> := [];
    f := f + [0x55, 0x46, 0x32, 0x0a];
    f := f + [0x57, 0x51, 0x5d, 0x9e];
    f := f + [0x00, 0x20, 0x00, 0x00];
    var a := PackI32(address);
    if a.Panics? {
      return Panics(a.reason);
    }
    f := f + a.value;
    f := f + [0x00, 0x01, 0x00, 0x00];
    var id := PackI32(blockId);
    if id.Panics? {
      return Panics(id.reason);
    }
    f := f + id.value;
    var total := PackI32(16);
    f := f + total.value;
    f := f + [0x56, 0xff, 0x8b, 0xe4];
    assert f == Header(TwosComplement(address), TwosComplement(blockId));
    f := f + data;
    f := f + Zeros(476 - 256);
    f := f + [0x30, 0x6f, 0xb1, 0x0a];
    assert f == Block(TwosComplement(address), TwosComplement(blockId), data);
    return Returns(f);
  }

  /** The base address and every block address after it fit a signed 32-bit word. */
  lemma AddressesFitSigned()
    ensures forall i :: 0 <= i < NUM_BLOCKS ==> InI32(WIFI_BASE_ADDRESS + PAYLOAD_SIZE * i) && InI32(i)
  {
  }

  /** The top-level file loop: block 0 at the base, then `for i in range(1, 16)` a zero block at `base + 256 * i`. */
  method GenFile(wifiData: seq<byte>) returns (file: seq<byte>)
    requires |wifiData| == PAYLOAD_SIZE
    ensures file == File(WIFI_BASE_ADDRESS, wifiData)
  {
    file := [];
    assert TwosComplement(WIFI_BASE_ADDRESS) == WIFI_BASE_ADDRESS && TwosComplement(0) == 0;
    var first := GenBlock(WIFI_BASE_ADDRESS, 0, wifiData);
    assert first.value == Block(WIFI_BASE_ADDRESS, 0, BlockData(wifiData, 0));
    BlocksSnoc(WIFI_BASE_ADDRESS, wifiData, 0);
    file := file + first.value;
    assert file == Blocks(WIFI_BASE_ADDRESS, wifiData, 1);
    for i := 1 to 16
      invariant file == Blocks(WIFI_BASE_ADDRESS, wifiData, i)
    {
      var address := WIFI_BASE_ADDRESS + 256 * i;
      assert 0 <= address < 0x8000_0000 && TwosComplement(address) == address && TwosComplement(i) == i;
      var block := GenBlock(address, i, Zeros(256));
      assert block.value == Block(address, i, BlockData(wifiData, i));
      BlocksSnoc(WIFI_BASE_ADDRESS, wifiData, i);
      file := file + block.value;
    }
  }

  /**
   * The script's top level with the credential check at the buffer size (`< 32` rather than the
   * script's `<= 32`): the padded payload, then its image. No signed packing fails, so this is the
   * same image create_uf2.py and the server build.
   */
  method CreateWifiFile(ssid: seq<byte>, password: seq<byte>) returns (r: Outcome<seq<byte>>)
    ensures r.Panics? <==> !FitsBuffers(ssid, password)
    ensures r.Returns? ==> r.value == File(WIFI_BASE_ADDRESS, WifiPayload(ssid, password))
  {
    if !FitsBuffers(ssid, password) {
      return Panics(ASSERTION_ERROR);
    }
    var wifiData := ssid + Zeros(32 - |ssid|);
    wifiData := wifiData + password + Zeros(32 - |password|);
    wifiData := wifiData + Zeros(256 - 64);
    var file := GenFile(wifiData);
    return Returns(file);
  }
}
