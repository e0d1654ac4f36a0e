/**
 * The device's flash configuration (pico/src/static_data.rs): a device id, the Wi-Fi SSID and
 * password as NUL-terminated 32-byte buffers, and the server's IPv4 address and port. The UF2 images
 * built on the server side overwrite these buffers.
 */
module StaticData {
  import opened Wrappers
  import opened Bytes
  import opened MinBy
  import Utf8

  /** The `.device_info` and `.wifi_info` statics. */
  datatype FlashConfig = FlashConfig(
    deviceId: u32,
    wifiSsidBytes: seq<byte>,
    wifiPwBytes: seq<byte>,
    serverIpBytes: seq<byte>,
    serverPort: u16)

  predicate WellSized(c: FlashConfig)
  {
    |c.wifiSsidBytes| == 32 && |c.wifiPwBytes| == 32 && |c.serverIpBytes| == 4
  }

  /** The values the firmware is built with, before any configuration image is flashed. */
  const DEFAULT_CONFIG: FlashConfig :=
    FlashConfig(0xbabebabe, Zeros(32), Zeros(32), [202, 61, 254, 108], 1337)

  /**
   * `CStr::from_bytes_until_nul(bytes)` followed by `to_str()`: the bytes before the first NUL,
   * provided there is a NUL and those bytes are valid UTF-8.
   */
  function CStrUntilNul(bytes: seq<byte>): (r: Option<seq<byte>>)
    ensures r.Some? <==> (exists k :: 0 <= k < |bytes| && bytes[k] == 0)
                         && Utf8.Valid(bytes[..FirstWhere(bytes, b => b == 0).value])
    ensures r.Some? ==> |r.value| < |bytes| && bytes[|r.value|] == 0 && r.value == bytes[..|r.value|]
    ensures r.Some? ==> forall i :: 0 <= i < |r.value| ==> r.value[i] != 0
    ensures r.Some? ==> Utf8.Valid(r.value)
  {
    match FirstWhere(bytes, b => b == 0)
    case None => None
    case Some(k) =>
      var s := bytes[..k];
      if Utf8.Valid(s) then Some(s) else None
  }

  /** `wifi_ssid` */
  function WifiSsid(c: FlashConfig): (r: Option<seq<byte>>)
    requires WellSized(c)
    ensures r.Some? ==> |r.value| < 32 && c.wifiSsidBytes[|r.value|] == 0
                        && r.value == c.wifiSsidBytes[..|r.value|] && 0 !in r.value
    ensures (forall i :: 0 <= i < 32 ==> c.wifiSsidBytes[i] != 0) ==> r.None?
    ensures r.Some? ==> Utf8.Valid(r.value)
    ensures r == CStrUntilNul(c.wifiSsidBytes)
  {
    CStrUntilNul(c.wifiSsidBytes)
  }

  /** `wifi_password` */
  function WifiPassword(c: FlashConfig): (r: Option<seq<byte>>)
    requires WellSized(c)
    ensures r.Some? ==> |r.value| < 32 && c.wifiPwBytes[|r.value|] == 0
                        && r.value == c.wifiPwBytes[..|r.value|] && 0 !in r.value
    ensures (forall i :: 0 <= i < 32 ==> c.wifiPwBytes[i] != 0) ==> r.None?
    ensures r.Some? ==> Utf8.Valid(r.value)
    ensures r == CStrUntilNul(c.wifiPwBytes)
  {
    CStrUntilNul(c.wifiPwBytes)
  }

  /**
   * What `CStrUntilNul` reads back from a buffer written as `s` followed by zero padding: `s` itself
   * when `s` is shorter than the buffer, has no NUL and is valid UTF-8; nothing when `s` fills the
   * whole buffer.
   */
  lemma {:induction false} PaddedReadsBack(s: seq<byte>, n: nat)
    requires 0 !in s && Utf8.Valid(s)
    requires |s| <= n
    ensures |s| < n ==> CStrUntilNul(s + Zeros(n - |s|)) == Some(s)
    ensures |s| == n ==> CStrUntilNul(s + Zeros(n - |s|)) == None
  {
    var b := s + Zeros(n - |s|);
    assert forall i :: 0 <= i < |s| ==> b[i] == s[i] && s[i] != 0;
    if |s| < n {
      assert b[|s|] == 0;
      assert b[..|s|] == s;
      MinBy.FirstWhereIs(b, x => x == 0, |s|);
    } else {
      assert b == s;
    }
  }

  /** A NUL at k with none before it and a valid UTF-8 prefix: the string read is that prefix. */
  lemma FirstNulReads(bytes: seq<byte>, k: nat)
    requires k < |bytes| && bytes[k] == 0
    requires forall j :: 0 <= j < k ==> bytes[j] != 0
    requires Utf8.Valid(bytes[..k])
    ensures CStrUntilNul(bytes) == Some(bytes[..k])
  {
    MinBy.FirstWhereIs(bytes, x => x == 0, k);
  }

  /** The unflashed configuration reads as an empty SSID and an empty password. */
  lemma DefaultIsEmpty()
    ensures WifiSsid(DEFAULT_CONFIG) == Some([]) && WifiPassword(DEFAULT_CONFIG) == Some([])
  {
    PaddedReadsBack([], 32);
    assert [] + Zeros(32) == Zeros(32);
  }

  datatype Ipv4Address = Ipv4Address(octets: seq<byte>)

  datatype IpEndpoint = IpEndpoint(addr: Ipv4Address, port: u16)

  /** `server_endpoint`: the address from the four configured octets in order, and the port. */
  function ServerEndpoint(c: FlashConfig): (r: IpEndpoint)
    requires WellSized(c)
    ensures r.addr.octets == c.serverIpBytes && r.port == c.serverPort
    ensures |r.addr.octets| == 4 && FromBE32(r.addr.octets) == FromBE32(c.serverIpBytes)
  {
    IpEndpoint(Ipv4Address([c.serverIpBytes[0], c.serverIpBytes[1], c.serverIpBytes[2], c.serverIpBytes[3]]), c.serverPort)
  }
}
