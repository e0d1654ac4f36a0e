/**
 * The device protocol of the shared crate (common/src/protocols/pico.rs): the update and command
 * values the device and the server exchange, the payload size an update announces, the check the
 * device applies before accepting an update, the error text, and the buffer-length contract around
 * the postcard encoding.
 *
 * Postcard's byte format belongs to a library outside this model: `ToBytes` and `FromBytes` take the
 * encoder and decoder as parameters, and the per-type `BUFFER_SIZE` (postcard's maximum size) as a
 * parameter too.
 */
module Pico {
  import opened Wrappers
  import opened Bytes
  import opened Types
  import Consts

  /** `protocols::pico::Error` */
  datatype Error = Length(length: nat, max: nat) | Postcard(description: string)

  datatype UpdateKind = Image | Text(size: u32)

  datatype Update = Update(lifetimeSec: u32, id: UpdateID, kind: UpdateKind)

  datatype CheckUpdateResult = NoUpdate | Update(update: Update)

  datatype ClientCommand = CheckUpdate(device: DeviceID, after: Option<UpdateID>) | RequestUpdate(id: UpdateID)

  /** `UpdateKind::size`: how many payload bytes follow the update announcing this kind. */
  function Size(k: UpdateKind): (n: nat)
    ensures k.Image? ==> n == Consts.IMAGE_BUFFER_SIZE
    ensures k.Text? ==> n == k.size
  {
    match k
    case Image => Consts.IMAGE_BUFFER_SIZE
    case Text(size) => size
  }

  /** `CheckUpdateResult::check_valid` */
  function CheckValid(r: CheckUpdateResult): (res: Result<(), Error>)
    ensures res.Err? <==> r.Update? && r.update.kind.Text? && r.update.kind.size > Consts.TEXT_BUFFER_SIZE
    ensures res.Err? ==> res.error == Length(r.update.kind.size, Consts.TEXT_BUFFER_SIZE)
  {
    match r
    case NoUpdate => Ok(())
    case Update(u) =>
      match u.kind
      case Image => Ok(())
      case Text(size) =>
        if size > Consts.TEXT_BUFFER_SIZE then Err(Length(size, Consts.TEXT_BUFFER_SIZE)) else Ok(())
  }

  /**
   * What the check buys the device: an accepted update announces a payload that fits the buffer
   * reserved for its kind (a text slot or an image slot).
   */
  lemma AcceptedPayloadFits(u: Update)
    requires CheckValid(CheckUpdateResult.Update(u)).Ok?
    ensures u.kind.Text? ==> Size(u.kind) <= Consts.TEXT_BUFFER_SIZE
    ensures u.kind.Image? ==> Size(u.kind) == Consts.IMAGE_BUFFER_SIZE
  {
  }

  /** `Error::fmt` */
  function ErrorMessage(e: Error): (s: string)
    ensures e.Length? ==> s == "Length is " + Render(e.length, 10, false) + " but max is " + Render(e.max, 10, false) + "."
    ensures e.Postcard? ==> s == "Serialization error: " + e.description
  {
    match e
    case Length(length, max) => "Length is " + Render(length, 10, false) + " but max is " + Render(max, 10, false) + "."
    case Postcard(description) => "Serialization error: " + description
  }

  /** A digit string followed by a non-digit can be split in only one way. */
  lemma {:induction false} DigitsThenOther(x: string, y: string, x2: string, y2: string)
    requires AllDigits(x, 10) && AllDigits(x2, 10)
    requires |y| > 0 && |y2| > 0 && !IsDigit(y[0], 10) && !IsDigit(y2[0], 10)
    requires x + y == x2 + y2
    ensures x == x2 && y == y2
  {
    var joined := x + y;
    assert joined[|x|] == y[0] && (x2 + y2)[|x2|] == y2[0];
    assert forall k :: 0 <= k < |x| ==> IsDigit(joined[k], 10);
    assert forall k :: 0 <= k < |x2| ==> IsDigit((x2 + y2)[k], 10);
    assert |x| == |x2|;
    assert x == (x + y)[..|x|];
    assert x2 == (x2 + y2)[..|x2|];
    assert y == (x + y)[|x|..];
    assert y2 == (x2 + y2)[|x2|..];
  }

  /** Two digit strings around " but max is " and a final "." can be split in only one way. */
  lemma DigitPairInjective(da: string, db: string, dc: string, dd: string)
    requires AllDigits(da, 10) && AllDigits(db, 10) && AllDigits(dc, 10) && AllDigits(dd, 10)
    requires da + (" but max is " + (db + ".")) == dc + (" but max is " + (dd + "."))
    ensures da == dc && db == dd
  {
    var middle := " but max is ";
    DigitsThenOther(da, middle + (db + "."), dc, middle + (dd + "."));
    assert db + "." == (middle + (db + "."))[|middle|..];
    assert dd + "." == (middle + (dd + "."))[|middle|..];
    DigitsThenOther(db, ".", dd, ".");
  }

  /** After its fixed prefix, the `Length` message is the first number, the middle text and the second. */
  lemma LengthMessageShape(a: nat, b: nat)
    ensures |ErrorMessage(Length(a, b))| >= 10
    ensures ErrorMessage(Length(a, b))[10..]
            == Render(a, 10, false) + (" but max is " + (Render(b, 10, false) + "."))
  {
    var rest := Render(a, 10, false) + (" but max is " + (Render(b, 10, false) + "."));
    assert ErrorMessage(Length(a, b)) == "Length is " + rest;
  }

  /** The `Length` message names its two numbers unambiguously: equal messages, equal errors. */
  lemma LengthMessageInjective(a: nat, b: nat, c: nat, d: nat)
    requires ErrorMessage(Length(a, b)) == ErrorMessage(Length(c, d))
    ensures a == c && b == d
  {
    LengthMessageShape(a, b);
    LengthMessageShape(c, d);
    DigitPairInjective(Render(a, 10, false), Render(b, 10, false), Render(c, 10, false), Render(d, 10, false));
    RenderValue(a, 10, false);
    RenderValue(b, 10, false);
    RenderValue(c, 10, false);
    RenderValue(d, 10, false);
  }

  /**
   * `SerDe::to_bytes`: the buffer must be exactly `BUFFER_SIZE` long (the assertion in the source is
   * the caller's obligation); postcard writes the encoding at the front and fails when it does not
   * fit; on success the whole buffer is handed back, not just the written prefix.
   */
  method ToBytes<T>(value: T, buf: array<byte>, bufferSize: nat, encode: T -> seq<byte>)
      returns (r: Result<seq<byte>, Error>)
    requires buf.Length == bufferSize
    modifies buf
    ensures r.Ok? <==> |encode(value)| <= bufferSize
    ensures r.Ok? ==> |r.value| == bufferSize && r.value == buf[..]
    ensures r.Ok? ==> buf[..] == encode(value) + old(buf[|encode(value)|..])
    ensures r.Err? ==> r.error.Postcard?
  {
    var bytes := encode(value);
    if |bytes| > buf.Length {
      return Err(Postcard("SerializeBufferFull"));
    }
    CopyFromSlice(buf, 0, bytes);
    assert old(buf[..0]) == [];
    r := Ok(buf[..]);
  }

  /** `SerDe::from_bytes`: the input must be exactly `BUFFER_SIZE` long; decode errors are wrapped. */
  function FromBytes<T>(buf: seq<byte>, bufferSize: nat, decode: seq<byte> -> Result<T, string>): (r: Result<T, Error>)
    requires |buf| == bufferSize
    ensures r.Ok? <==> decode(buf).Ok?
    ensures r.Ok? ==> r.value == decode(buf).value
    ensures r.Err? ==> r.error == Postcard(decode(buf).error)
  {
    match decode(buf)
    case Ok(v) => Ok(v)
    case Err(e) => Err(Postcard(e))
  }
}
