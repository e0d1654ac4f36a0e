/**
 * create_uf2.py: writes `wifi.uf2` (the `.wifi_info` sector) and `dev.uf2` (the `.device_info`
 * sector). The script's constants (the SSID, the password, the device id) are parameters here and
 * the two files are returned instead of written to disk.
 */
module CreateUf2 {
  import opened Wrappers
  import opened Bytes
  import opened Uf2Format

  /** The `AssertionError` the script's `assert` statements raise. */
  const ASSERTION_ERROR: string := "AssertionError"

  /**
   * `gen_block`: the header with `address`, `block_id` and 16 packed by `struct.pack('<I', ...)`, the
   * data, 220 zeros and the end magic. Packing fails outside the unsigned 32-bit range.
   */
  method GenBlock(address: int, blockId: int, data: seq<byte>) returns (r: Outcome<seq<byte>>)
    requires |data| == PAYLOAD_SIZE
    ensures r.Returns? <==> 0 <= address < U32_LIMIT && 0 <= blockId < U32_LIMIT
    ensures r.Returns? ==> r.value == Block(address, blockId, data)
  {
    var f: seq<byte> := [];
    f := f + [0x55, 0x46, 0x32, 0x0a];
    f := f + [0x57, 0x51, 0x5d, 0x9e];
    f := f + [0x00, 0x20, 0x00, 0x00];
    var a := PackU32(address);
    if a.Panics? {
      return Panics(a.reason);
    }
    f := f + a.value;
    f := f + [0x00, 0x01, 0x00, 0x00];
    var id := PackU32(blockId);
    if id.Panics? {
      return Panics(id.reason);
    }
    f := f + id.value;
    var total := PackU32(16);
    f := f + total.value;
    f := f + [0x56, 0xff, 0x8b, 0xe4];
    assert f == Header(address, blockId);
    f := f + data;
    f := f + Zeros(476 - 256);
    f := f + [0x30, 0x6f, 0xb1, 0x0a];
    return Returns(f);
  }

  /** Block 0 with the payload, then `for i in range(1, 16)` a zero block at `base + 256 * i`. */
  method GenFile(base: u32, payload: seq<byte>) returns (file: seq<byte>)
    requires |payload| == PAYLOAD_SIZE && FitsBase(base)
    ensures file == File(base, payload)
  {
    file := [];
    var first := GenBlock(base, 0, payload);
    BlocksSnoc(base, payload, 0);
    file := file + first.value;
    for i := 1 to 16
      invariant file == Blocks(base, payload, i)
    {
      assert base + 256 * i < U32_LIMIT;
      var block := GenBlock(base + 256 * i, i, Zeros(256));
      BlocksSnoc(base, payload, i);
      file := file + block.value;
    }
  }

  /** `gen_wifi`: the padded SSID and password, then the image of the `.wifi_info` sector. */
  method GenWifi(ssid: seq<byte>, password: seq<byte>) returns (file: seq<byte>)
    requires ScriptAsserts(ssid, password)
    ensures file == File(WIFI_BASE_ADDRESS, WifiPayload(ssid, password))
  {
    var wifiData := ssid + Zeros(32 - |ssid|);
    wifiData := wifiData + password + Zeros(32 - |password|);
    wifiData := wifiData + Zeros(256 - 64);
    file := GenFile(WIFI_BASE_ADDRESS, wifiData);
  }

  /** `gen_dev`: the device id as a little-endian word and 252 zeros, imaged onto `.device_info`. */
  method GenDev(deviceId: u32) returns (file: seq<byte>)
    ensures file == File(DEVICE_BASE_ADDRESS, DevPayload(deviceId))
  {
    var packed := PackU32(deviceId);
    var deviceData := packed.value;
    deviceData := deviceData + Zeros(256 - 4);
    file := GenFile(DEVICE_BASE_ADDRESS, deviceData);
  }

  /**
   * The whole script with the credential check at the buffer size (`< 32` rather than the script's
   * `<= 32`): an `AssertionError` for credentials with no room for a NUL, otherwise the Wi-Fi image
   * and the device image.
   */
  method CreateFiles(ssid: seq<byte>, password: seq<byte>, deviceId: u32) returns (r: Outcome<(seq<byte>, seq<byte>)>)
    ensures r.Panics? <==> !FitsBuffers(ssid, password)
    ensures r.Returns? ==> r.value.0 == File(WIFI_BASE_ADDRESS, WifiPayload(ssid, password))
                           && r.value.1 == File(DEVICE_BASE_ADDRESS, DevPayload(deviceId))
  {
    if !FitsBuffers(ssid, password) {
      return Panics(ASSERTION_ERROR);
    }
    var wifi := GenWifi(ssid, password);
    var dev := GenDev(deviceId);
    return Returns((wifi, dev));
  }

  /**
   * A device flashed with both images reads the configured SSID, password and device id, and each
   * image's block `i` targets its sector's base plus `256 * i`.
   */
  lemma FlashedFilesReadBack(ssid: seq<byte>, password: seq<byte>, deviceId: u32, c: StaticData.FlashConfig)
    requires FitsBuffers(ssid, password) && Readable(ssid) && Readable(password)
    requires StaticData.WellSized(c)
    requires c.wifiSsidBytes == WifiPayload(ssid, password)[..32]
    requires c.wifiPwBytes == WifiPayload(ssid, password)[32..64]
    requires LE32(c.deviceId) == DevPayload(deviceId)[..4]
    ensures StaticData.WifiSsid(c) == Some(ssid) && StaticData.WifiPassword(c) == Some(password)
    ensures c.deviceId == deviceId
    ensures forall i :: 0 <= i < NUM_BLOCKS ==>
              ReadBlock(NthBlock(File(DEVICE_BASE_ADDRESS, DevPayload(deviceId)), i))
              == Some(Rp2040Block(DEVICE_BASE_ADDRESS + PAYLOAD_SIZE * i, i, BlockData(DevPayload(deviceId), i)))
  {
    WifiPayloadReadsBack(ssid, password, c);
    DevPayloadReadsBack(deviceId);
    LE32RoundTrip(c.deviceId);
    FileLayout(DEVICE_BASE_ADDRESS, DevPayload(deviceId));
  }
}
