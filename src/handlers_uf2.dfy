/**
 * The server's Wi-Fi configuration download (server/src/handlers/uf2.rs): the submitted SSID and
 * password become a 16-block UF2 image for the `.wifi_info` flash sector. The HTTP form, the
 * response headers and the logging are not part of this model; the handler here takes the form's
 * two strings as UTF-8 bytes and returns the file or the error the web layer reports.
 */
module Uf2Handler {
  import opened Wrappers
  import opened Bytes
  import opened Uf2Format
  import Consts

  const TOO_LONG: string := "Wifi password or SSID are too long."

  /** What `usize` subtraction does in a debug build when the result would be negative. */
  const SUBTRACT_OVERFLOW: string := "attempt to subtract with overflow"

  /**
   * `gen_block`: append the header, the 256 data bytes, 220 zeros and the end magic. The result is
   * the block a UF2 loader reads as an RP2040 block at `address` with number `blockId` of 16.
   */
  method GenBlock(address: u32, blockId: u32, data: seq<byte>) returns (result: seq<byte>)
    requires |data| == PAYLOAD_SIZE
    ensures result == Block(address, blockId, data)
  {
    result := [];
    result := result + [0x55, 0x46, 0x32, 0x0a, 0x57, 0x51, 0x5d, 0x9e];
    result := result + [0x00, 0x20, 0x00, 0x00];
    result := result + LE32(address);
    result := result + [0x00, 0x01, 0x00, 0x00];
    result := result + LE32(blockId);
    result := result + LE32(16);
    result := result + [0x56, 0xff, 0x8b, 0xe4];
    assert result == Header(address, blockId);
    result := result + data;
    result := result + Zeros(476 - 256);
    result := result + [0x30, 0x6f, 0xb1, 0x0a];
  }

  /**
   * The payload half of `submit_wifi_config`: the SSID, `32 - len` zeros, the password, `32 - len`
   * zeros, 192 zeros. A credential longer than 32 bytes makes `32 - len` underflow.
   */
  method BuildWifiData(ssid: seq<byte>, pw: seq<byte>) returns (r: Outcome<seq<byte>>)
    ensures r.Panics? <==> |ssid| > 32 || |pw| > 32
    ensures r.Returns? ==> r.value == WifiPayload(ssid, pw)
  {
    var wifiData := [];
    wifiData := wifiData + ssid;
    if |ssid| > 32 {
      return Panics(SUBTRACT_OVERFLOW);
    }
    wifiData := wifiData + Zeros(32 - |ssid|);
    wifiData := wifiData + pw;
    if |pw| > 32 {
      return Panics(SUBTRACT_OVERFLOW);
    }
    wifiData := wifiData + Zeros(32 - |pw|);
    wifiData := wifiData + Zeros(256 - 64);
    return Returns(wifiData);
  }

  /** The file half: block 0 with the payload, then `for i in 1..16` a zero block at `base + 256 * i`. */
  method BuildWifiFile(wifiData: seq<byte>) returns (file: seq<byte>)
    requires |wifiData| == PAYLOAD_SIZE
    ensures file == File(WIFI_BASE_ADDRESS, wifiData)
  {
    file := [];
    var first := GenBlock(WIFI_BASE_ADDRESS, 0, wifiData);
    BlocksSnoc(WIFI_BASE_ADDRESS, wifiData, 0);
    file := file + first;
    for i := 1 to 16
      invariant file == Blocks(WIFI_BASE_ADDRESS, wifiData, i)
    {
      var block := GenBlock(WIFI_BASE_ADDRESS + 256 * i, i, Zeros(256));
      BlocksSnoc(WIFI_BASE_ADDRESS, wifiData, i);
      file := file + block;
    }
  }

  /** The guard as written: reject at 64 bytes, the `WIFI_SSID_LEN`/`WIFI_PW_LEN` of consts.rs. */
  predicate RejectedAsWritten(ssid: seq<byte>, pw: seq<byte>)
  {
    |ssid| >= Consts.WIFI_SSID_LEN || |pw| >= Consts.WIFI_PW_LEN
  }

  /**
   * The guard the handler's comment asks for: strictly shorter than the device's 32-byte buffers, so
   * the NUL terminator fits.
   */
  predicate Rejected(ssid: seq<byte>, pw: seq<byte>)
  {
    !FitsBuffers(ssid, pw)
  }

  /**
   * `submit_wifi_config` as written: too-long credentials are an error, but lengths 33..63 pass the
   * guard and then panic on the underflowing `32 - len`.
   */
  method SubmitWifiConfigAsWritten(ssid: seq<byte>, pw: seq<byte>) returns (r: Outcome<Result<seq<byte>, string>>)
    ensures r == Returns(Err(TOO_LONG)) <==> RejectedAsWritten(ssid, pw)
    ensures r.Panics? <==> !RejectedAsWritten(ssid, pw) && !ScriptAsserts(ssid, pw)
    ensures r.Returns? && r.value.Ok? ==> ScriptAsserts(ssid, pw) && r.value.value == File(WIFI_BASE_ADDRESS, WifiPayload(ssid, pw))
  {
    if RejectedAsWritten(ssid, pw) {
      return Returns(Err(TOO_LONG));
    }
    var wifiData := BuildWifiData(ssid, pw);
    if wifiData.Panics? {
      return Panics(wifiData.reason);
    }
    var file := BuildWifiFile(wifiData.value);
    return Returns(Ok(file));
  }

  /** A 40-byte SSID passes the 64-byte guard, and the handler then panics on it. */
  lemma MidLengthSsidPassesGuard()
    ensures !RejectedAsWritten(seq(40, _ => 0x61), []) && !ScriptAsserts(seq(40, _ => 0x61), [])
  {
  }

  /**
   * `submit_wifi_config` with the guard at the buffer size: it never panics, rejects exactly the
   * credentials without room for a NUL, and otherwise returns the 16-block image of their payload.
   */
  method SubmitWifiConfig(ssid: seq<byte>, pw: seq<byte>) returns (r: Result<seq<byte>, string>)
    ensures r == Err(TOO_LONG) <==> Rejected(ssid, pw)
    ensures r.Ok? ==> FitsBuffers(ssid, pw) && r.value == File(WIFI_BASE_ADDRESS, WifiPayload(ssid, pw))
  {
    if Rejected(ssid, pw) {
      return Err(TOO_LONG);
    }
    var wifiData := BuildWifiData(ssid, pw);
    var file := BuildWifiFile(wifiData.value);
    return Ok(file);
  }

  /**
   * What a device flashed with an accepted image reads: block 0 targets the `.wifi_info` sector and
   * its SSID and password buffers read back as the submitted credentials.
   */
  lemma SubmittedConfigReadsBack(ssid: seq<byte>, pw: seq<byte>, c: StaticData.FlashConfig)
    requires !Rejected(ssid, pw) && Readable(ssid) && Readable(pw)
    requires StaticData.WellSized(c)
    requires c.wifiSsidBytes == WifiPayload(ssid, pw)[..32] && c.wifiPwBytes == WifiPayload(ssid, pw)[32..64]
    ensures ReadBlock(NthBlock(File(WIFI_BASE_ADDRESS, WifiPayload(ssid, pw)), 0))
            == Some(Rp2040Block(WIFI_BASE_ADDRESS, 0, WifiPayload(ssid, pw)))
    ensures StaticData.WifiSsid(c) == Some(ssid) && StaticData.WifiPassword(c) == Some(pw)
  {
    FileLayout(WIFI_BASE_ADDRESS, WifiPayload(ssid, pw));
    WifiPayloadReadsBack(ssid, pw, c);
  }
}
