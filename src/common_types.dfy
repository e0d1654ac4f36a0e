/**
 * The identifier newtypes of the shared crate (common/src/types.rs): `DeviceID` and `UpdateID`
 * wrap a `u32`; `DeviceID` parses from hexadecimal text with an optional `0x` prefix and renders
 * as hexadecimal, `UpdateID` parses from decimal text; both order like their inner number.
 *
 * The parse is Rust's `u32::from_str_radix`: an optional `+`, then at least one digit, each digit
 * checked before the running value is multiplied and added with overflow checks.
 */
module Types {
  import opened Wrappers
  import opened Bytes

  datatype DeviceID = DeviceID(value: u32)

  datatype UpdateID = UpdateID(value: u32)

  /** `core::num::IntErrorKind`, the cases `from_str_radix` can produce for an unsigned type. */
  datatype IntErrorKind = Empty | InvalidDigit | PosOverflow

  type Radix = r: nat | r == 10 || r == 16 witness 10

  // ---------------------------------------------------------------- digits and their value

  /** `char::to_digit(radix)` */
  function DigitValue(c: char, radix: Radix): Option<nat>
  {
    if '0' <= c <= '9' then Some(c as int - '0' as int)
    else if radix == 16 && 'a' <= c <= 'f' then Some(c as int - 'a' as int + 10)
    else if radix == 16 && 'A' <= c <= 'F' then Some(c as int - 'A' as int + 10)
    else None
  }

  predicate IsDigit(c: char, radix: Radix)
  {
    DigitValue(c, radix).Some?
  }

  predicate AllDigits(s: string, radix: Radix)
  {
    forall i :: 0 <= i < |s| ==> IsDigit(s[i], radix)
  }

  function Digit(c: char, radix: Radix): (d: nat)
    requires IsDigit(c, radix)
    ensures d < radix
  {
    DigitValue(c, radix).value
  }

  /** The positional value of a digit string, most significant digit first (no bound). */
  function Value(s: string, radix: Radix): nat
    requires AllDigits(s, radix)
  {
    if |s| == 0 then 0 else Value(s[..|s| - 1], radix) * radix + Digit(s[|s| - 1], radix)
  }

  /** The same value, accumulated from the left starting at `acc` (no bound). */
  function ValueFrom(acc: nat, s: string, radix: Radix): nat
    requires AllDigits(s, radix)
    decreases |s|
  {
    if |s| == 0 then acc else ValueFrom(acc * radix + Digit(s[0], radix), s[1..], radix)
  }

  lemma {:induction false} ValueFromAtLeast(acc: nat, s: string, radix: Radix)
    requires AllDigits(s, radix)
    ensures ValueFrom(acc, s, radix) >= acc
    decreases |s|
  {
    if |s| > 0 {
      ValueFromAtLeast(acc * radix + Digit(s[0], radix), s[1..], radix);
    }
  }

  lemma {:induction false} ValueFromExtends(p: string, s: string, radix: Radix)
    requires AllDigits(p, radix) && AllDigits(s, radix)
    ensures AllDigits(p + s, radix)
    ensures ValueFrom(Value(p, radix), s, radix) == Value(p + s, radix)
    decreases |s|
  {
    assert forall i :: 0 <= i < |p + s| ==> (p + s)[i] == if i < |p| then p[i] else s[i - |p|];
    if |s| > 0 {
      var p' := p + [s[0]];
      assert p'[..|p'| - 1] == p && p'[|p'| - 1] == s[0];
      assert AllDigits(p', radix);
      assert Value(p', radix) == Value(p, radix) * radix + Digit(s[0], radix);
      assert AllDigits(s[1..], radix);
      assert ValueFrom(Value(p, radix), s, radix) == ValueFrom(Value(p', radix), s[1..], radix);
      ValueFromExtends(p', s[1..], radix);
      assert p' + s[1..] == p + s;
    } else {
      assert p + s == p;
    }
  }

  // ---------------------------------------------------------------- u32::from_str_radix

  /** The digit loop of `from_str_radix`, starting from the running value `acc`. */
  function Accumulate(digits: string, radix: Radix, acc: u32): (r: Result<u32, IntErrorKind>)
    ensures r.Ok? <==> AllDigits(digits, radix) && ValueFrom(acc, digits, radix) < U32_LIMIT
    ensures r.Ok? ==> r.value == ValueFrom(acc, digits, radix)
    ensures !AllDigits(digits, radix) ==> r.Err?
    decreases |digits|
  {
    if |digits| == 0 then Ok(acc)
    else
      match DigitValue(digits[0], radix)
      case None => Err(InvalidDigit)
      case Some(d) =>
        var next := acc * radix + d;
        if next >= U32_LIMIT then
          assert AllDigits(digits, radix) ==> ValueFrom(acc, digits, radix) >= U32_LIMIT by {
            if AllDigits(digits, radix) {
              ValueFromAtLeast(next, digits[1..], radix);
            }
          }
          Err(PosOverflow)
        else
          var r := Accumulate(digits[1..], radix, next);
          assert AllDigits(digits, radix) <==> AllDigits(digits[1..], radix) by {
            assert forall i :: 1 <= i < |digits| ==> digits[1..][i - 1] == digits[i];
          }
          r
  }

  /** `u32::from_str_radix(src, radix)` */
  function FromStrRadix(src: string, radix: Radix): Result<u32, IntErrorKind>
  {
    if |src| == 0 then Err(Empty)
    else if |src| == 1 && (src[0] == '+' || src[0] == '-') then Err(InvalidDigit)
    else if src[0] == '+' then Accumulate(src[1..], radix, 0)
    else Accumulate(src, radix, 0)
  }

  /** `from_str_radix` accepts a non-empty digit string exactly when its value fits in 32 bits. */
  lemma DigitsParse(s: string, radix: Radix)
    requires |s| > 0 && AllDigits(s, radix)
    ensures FromStrRadix(s, radix).Ok? <==> Value(s, radix) < U32_LIMIT
    ensures FromStrRadix(s, radix).Ok? ==> FromStrRadix(s, radix).value == Value(s, radix)
  {
    assert IsDigit(s[0], radix);
    assert s[0] != '+' && s[0] != '-';
    assert FromStrRadix(s, radix) == Accumulate(s, radix, 0);
    ValueFromExtends([], s, radix);
    assert [] + s == s;
    assert Value([], radix) == 0;
  }

  // ---------------------------------------------------------------- FromStr

  function StartsWith(s: string, prefix: string): bool
  {
    |prefix| <= |s| && s[..|prefix|] == prefix
  }

  /** `DeviceID::from_str`: strip one leading `0x`, then parse base 16. */
  function DeviceIdFromStr(s: string): Result<DeviceID, IntErrorKind>
  {
    var digits := if StartsWith(s, "0x") then s[2..] else s;
    match FromStrRadix(digits, 16)
    case Ok(id) => Ok(DeviceID(id))
    case Err(e) => Err(e)
  }

  /** `UpdateID::from_str`: plain decimal, no prefix handling. */
  function UpdateIdFromStr(s: string): Result<UpdateID, IntErrorKind>
  {
    match FromStrRadix(s, 10)
    case Ok(id) => Ok(UpdateID(id))
    case Err(e) => Err(e)
  }

  /** The failure cases of `DeviceID::from_str`: nothing after the prefix, a second prefix, a bad digit. */
  lemma DeviceIdRejects()
    ensures DeviceIdFromStr("0x") == Err(Empty)
    ensures DeviceIdFromStr("") == Err(Empty)
    ensures DeviceIdFromStr("0x0x1") == Err(InvalidDigit)
    ensures DeviceIdFromStr("0xg") == Err(InvalidDigit)
  {
    assert "0x"[2..] == [];
    assert "0x0x1"[..2] == "0x" && "0x0x1"[2..] == "0x1";
    assert "0x0x1"[2..][1..] == "x1";
    assert "0xg"[..2] == "0x" && "0xg"[2..] == "g";
  }

  /** A digit string whose value does not fit in 32 bits fails with `PosOverflow`, not another error. */
  lemma {:induction false} LargeValueOverflows(digits: string, radix: Radix, acc: u32)
    requires AllDigits(digits, radix) && ValueFrom(acc, digits, radix) >= U32_LIMIT
    ensures Accumulate(digits, radix, acc) == Err(PosOverflow)
    decreases |digits|
  {
    if |digits| > 0 {
      var next := acc * radix + Digit(digits[0], radix);
      if next < U32_LIMIT {
        assert AllDigits(digits[1..], radix) by {
          assert forall i :: 1 <= i < |digits| ==> digits[1..][i - 1] == digits[i];
        }
        LargeValueOverflows(digits[1..], radix, next);
      }
    }
  }

  /**
   * A hexadecimal digit string too large for 32 bits is `PosOverflow`, with or without the `0x`
   * prefix (nine digits such as `100000000` are enough).
   */
  lemma DeviceIdOverflows(s: string)
    requires |s| > 0 && AllDigits(s, 16) && Value(s, 16) >= U32_LIMIT
    ensures DeviceIdFromStr(s) == Err(PosOverflow)
    ensures DeviceIdFromStr("0x" + s) == Err(PosOverflow)
  {
    assert !StartsWith(s, "0x") by {
      if |s| >= 2 { assert IsDigit(s[1], 16); }
    }
    assert ("0x" + s)[..2] == "0x" && ("0x" + s)[2..] == s;
    assert IsDigit(s[0], 16);
    assert FromStrRadix(s, 16) == Accumulate(s, 16, 0);
    ValueFromExtends([], s, 16);
    assert [] + s == s;
    assert Value([], 16) == 0;
    LargeValueOverflows(s, 16, 0);
  }

  // ---------------------------------------------------------------- formatting

  /** The digit character `fmt::LowerHex` / `fmt::UpperHex` / `Display` write for `d`. */
  function DigitChar(d: nat, radix: Radix, upper: bool): (c: char)
    requires d < radix
    ensures IsDigit(c, radix) && Digit(c, radix) == d
  {
    if d < 10 then ('0' as int + d) as char
    else if upper then ('A' as int + d - 10) as char
    else ('a' as int + d - 10) as char
  }

  /** The digits of `n` without leading zeros; `0` renders as "0". */
  function Render(n: nat, radix: Radix, upper: bool): (s: string)
    ensures |s| > 0 && AllDigits(s, radix)
  {
    if n < radix then [DigitChar(n, radix, upper)]
    else Render(n / radix, radix, upper) + [DigitChar(n % radix, radix, upper)]
  }

  lemma {:induction false} RenderValue(n: nat, radix: Radix, upper: bool)
    ensures Value(Render(n, radix, upper), radix) == n
  {
    var s := Render(n, radix, upper);
    if n >= radix {
      RenderValue(n / radix, radix, upper);
      assert s[..|s| - 1] == Render(n / radix, radix, upper);
    }
  }

  /** `format!("{:x}", id)` */
  function LowerHex(id: DeviceID): string
  {
    Render(id.value, 16, false)
  }

  /** `format!("{:X}", id)` */
  function UpperHex(id: DeviceID): string
  {
    Render(id.value, 16, true)
  }

  /** `format!("{:08x}", id)`: zero-padded to at least eight digits. */
  function LowerHex08(id: DeviceID): string
  {
    var s := LowerHex(id);
    seq(if |s| < 8 then 8 - |s| else 0, _ => '0') + s
  }

  lemma {:induction false} LeadingZerosKeepValue(k: nat, s: string, radix: Radix)
    requires AllDigits(s, radix)
    ensures AllDigits(seq(k, _ => '0') + s, radix)
    ensures Value(seq(k, _ => '0') + s, radix) == Value(s, radix)
  {
    var z := seq(k, _ => '0');
    assert AllDigits(z, radix);
    ValueFromExtends(z, s, radix);
    assert Value(z, radix) == 0 by { ZerosHaveNoValue(k, radix); }
    ValueFromExtends([], s, radix);
    assert [] + s == s;
  }

  lemma {:induction false} ZerosHaveNoValue(k: nat, radix: Radix)
    ensures AllDigits(seq(k, _ => '0'), radix) && Value(seq(k, _ => '0'), radix) == 0
  {
    if k > 0 {
      ZerosHaveNoValue(k - 1, radix);
      assert seq(k, _ => '0')[..k - 1] == seq(k - 1, _ => '0');
    }
  }

  lemma {:induction false} HexRenderingParses(s: string, id: DeviceID)
    requires |s| > 0 && AllDigits(s, 16) && Value(s, 16) == id.value
    ensures DeviceIdFromStr(s) == Ok(id)
    ensures DeviceIdFromStr("0x" + s) == Ok(id)
  {
    // 'x' is not a hexadecimal digit, so a digit string never starts with "0x".
    assert !StartsWith(s, "0x") by {
      if |s| >= 2 { assert IsDigit(s[1], 16); }
    }
    assert ("0x" + s)[..2] == "0x" && ("0x" + s)[2..] == s;
    DigitsParse(s, 16);
  }

  /**
   * Parsing what `{:x}`, `{:X}` or `0x{:08x}` wrote gives the same `DeviceID` back, with or without
   * the `0x` prefix.
   */
  lemma HexRoundTrip(id: DeviceID)
    ensures DeviceIdFromStr(LowerHex(id)) == Ok(id)
    ensures DeviceIdFromStr("0x" + LowerHex(id)) == Ok(id)
    ensures DeviceIdFromStr(UpperHex(id)) == Ok(id)
    ensures DeviceIdFromStr("0x" + LowerHex08(id)) == Ok(id)
  {
    RenderValue(id.value, 16, false);
    RenderValue(id.value, 16, true);
    HexRenderingParses(LowerHex(id), id);
    HexRenderingParses(UpperHex(id), id);
    var s := LowerHex(id);
    LeadingZerosKeepValue(if |s| < 8 then 8 - |s| else 0, s, 16);
    HexRenderingParses(LowerHex08(id), id);
  }

  /** Parsing the decimal rendering of an `UpdateID` gives it back. */
  lemma DecimalRoundTrip(id: UpdateID)
    ensures UpdateIdFromStr(Render(id.value, 10, false)) == Ok(id)
  {
    RenderValue(id.value, 10, false);
    var s := Render(id.value, 10, false);
    assert IsDigit(s[0], 10);
    DigitsParse(s, 10);
  }

  // ---------------------------------------------------------------- derived ordering

  datatype Ordering = Less | Equal | Greater

  /** `Ord::cmp` on `u32` */
  function CompareU32(a: u32, b: u32): Ordering
  {
    if a < b then Less else if a == b then Equal else Greater
  }

  /** The derived `Ord` of a one-field tuple struct compares that field. */
  function CompareDeviceId(a: DeviceID, b: DeviceID): (o: Ordering)
    ensures o == Less <==> CompareU32(b.value, a.value) == Greater
    ensures o == Equal <==> a == b
  {
    CompareU32(a.value, b.value)
  }

  function CompareUpdateId(a: UpdateID, b: UpdateID): (o: Ordering)
    ensures o == Less <==> CompareU32(b.value, a.value) == Greater
    ensures o == Equal <==> a == b
  {
    CompareU32(a.value, b.value)
  }

  /** `cmp::max(a, b)`: the larger one, `b` when they are equal. */
  function MaxUpdateId(a: UpdateID, b: UpdateID): (r: UpdateID)
    ensures r == a || r == b
    ensures r.value >= a.value && r.value >= b.value
  {
    match CompareUpdateId(a, b)
    case Greater => a
    case _ => b
  }
}
