/**
 * Rust's unsigned integer parsing (`u32::from_str`, `u8::from_str_radix`) and the two
 * formats the encoder prints numbers in (`{}` for a `u32`, `{:#04X}` for a `u8`).
 */
module Numbers {
  import opened Wrappers

  type Byte = x: int | 0 <= x < 256

  const U32_MAX: nat := 0xFFFF_FFFF

  type U32 = x: int | 0 <= x <= 0xFFFF_FFFF

  function Min(a: nat, b: nat): nat {
    if a < b then a else b
  }

  /** The kinds of `ParseIntError` an unsigned parse can report. */
  datatype IntErrorKind = Empty | InvalidDigit | PosOverflow

  /** `char::to_digit(radix)`: decimal digits, then letters of either case from 10 on. */
  function DigitValue(c: char, radix: nat): (d: Option<nat>)
    requires 2 <= radix <= 36
    ensures d.Some? ==> d.value < radix
    ensures d.Some? <==> ('0' <= c <= '9' && (c as int) - ('0' as int) < radix)
                         || ('a' <= c <= 'z' && (c as int) - ('a' as int) + 10 < radix)
                         || ('A' <= c <= 'Z' && (c as int) - ('A' as int) + 10 < radix)
  {
    var v := if '0' <= c <= '9' then (c as int) - ('0' as int)
             else if 'a' <= c <= 'z' then (c as int) - ('a' as int) + 10
             else if 'A' <= c <= 'Z' then (c as int) - ('A' as int) + 10
             else radix;
    if v < radix then Some(v) else None
  }

  /** The digit loop of `from_str_radix`, left to right: an invalid digit is reported
      before the overflow it would have caused; `acc` is the value read so far. */
  function Accumulate(digits: string, radix: nat, max: nat, acc: nat): (r: Result<nat, IntErrorKind>)
    requires 2 <= radix <= 36 && acc <= max
    ensures r.Success? ==> r.value <= max
    ensures r.Failure? ==> r.error != Empty
    decreases |digits|
  {
    if digits == [] then Success(acc)
    else match DigitValue(digits[0], radix)
      case None => Failure(InvalidDigit)
      case Some(d) =>
        if acc * radix + d > max then Failure(PosOverflow)
        else Accumulate(digits[1..], radix, max, acc * radix + d)
  }

  /** `from_str_radix` for an unsigned type whose largest value is `max`: a lone sign is an
      invalid digit, a leading `+` is skipped, and a `-` is just an invalid digit. */
  function FromStrRadix(s: string, radix: nat, max: nat): (r: Result<nat, IntErrorKind>)
    requires 2 <= radix <= 36
    ensures r.Success? ==> r.value <= max
    ensures r == Failure(Empty) <==> s == []
  {
    if s == [] then Failure(Empty)
    else if (s[0] == '+' || s[0] == '-') && |s| == 1 then Failure(InvalidDigit)
    else if s[0] == '+' then Accumulate(s[1..], radix, max, 0)
    else Accumulate(s, radix, max, 0)
  }

  /** `u32::from_str` */
  function ParseU32(s: string): (r: Result<nat, IntErrorKind>)
    ensures r.Success? ==> r.value <= U32_MAX
    ensures r == Failure(Empty) <==> s == []
  {
    FromStrRadix(s, 10, U32_MAX)
  }

  ghost predicate AllDigits(ds: string, radix: nat)
    requires 2 <= radix <= 36
  {
    forall i :: 0 <= i < |ds| ==> DigitValue(ds[i], radix).Some?
  }

  /** The positional value of a string of valid digits, read from the right. */
  function PositionalValue(ds: string, radix: nat): nat
    requires 2 <= radix <= 36
  {
    if ds == [] then 0
    else match DigitValue(ds[|ds| - 1], radix)
      case None => 0
      case Some(d) => PositionalValue(ds[..|ds| - 1], radix) * radix + d
  }

  /** The digit loop is positional notation: when every digit is valid it yields the
      digits' value, and overflows exactly when that value exceeds `max`. */
  lemma {:induction false} AccumulateValue(ds: string, radix: nat, max: nat)
    requires 2 <= radix <= 36 && AllDigits(ds, radix)
    ensures var v := PositionalValue(ds, radix);
            Accumulate(ds, radix, max, 0) == if v <= max then Success(v) else Failure(PosOverflow)
    decreases |ds|
  {
    if ds != [] {
      var init := ds[..|ds| - 1];
      var c := ds[|ds| - 1];
      assert ds == init + [c];
      assert AllDigits(init, radix) by {
        forall i | 0 <= i < |init| ensures DigitValue(init[i], radix).Some? {
          assert init[i] == ds[i];
        }
      }
      AccumulateValue(init, radix, max);
      AccumulateSnoc(init, c, radix, max, 0);
      var p := PositionalValue(init, radix);
      var d := DigitValue(c, radix).value;
      assert PositionalValue(ds, radix) == p * radix + d;
      if p > max {
        MulGrows(p, radix);
      }
    }
  }

  /** `a * b` is one `a` more than `a * (b - 1)`. */
  lemma MulPred(a: nat, b: nat)
    requires b > 0
    ensures a * b == a + a * (b - 1) && b * a == a + (b - 1) * a
  {
  }

  lemma MulGrows(p: nat, k: nat)
    requires k >= 1
    ensures p * k >= p
  {
    assert p * k == p + p * (k - 1);
  }

  /** Any char other than a valid digit makes the digit loop fail with InvalidDigit, unless an overflow comes first. */
  lemma {:induction false} AccumulateInvalid(ds: string, radix: nat, max: nat, acc: nat, k: nat)
    requires 2 <= radix <= 36 && acc <= max
    requires k < |ds| && DigitValue(ds[k], radix).None?
    ensures Accumulate(ds, radix, max, acc).Failure?
    decreases |ds|
  {
    if k > 0 {
      match DigitValue(ds[0], radix)
      case None =>
      case Some(d) =>
        if acc * radix + d <= max {
          assert ds[1..][k - 1] == ds[k];
          AccumulateInvalid(ds[1..], radix, max, acc * radix + d, k - 1);
        }
    }
  }

  function DecimalDigit(d: nat): (c: char)
    requires d < 10
  {
    (('0' as int) + d) as char
  }

  /** `format!("{}", n)` for an unsigned integer: its decimal digits, no sign, no leading zeros. */
  function Decimal(n: nat): (s: string)
    ensures s != []
    ensures forall i :: 0 <= i < |s| ==> '0' <= s[i] <= '9'
    ensures |s| > 1 ==> s[0] != '0'
  {
    if n < 10 then [DecimalDigit(n)] else Decimal(n / 10) + [DecimalDigit(n % 10)]
  }

  lemma {:induction false} AccumulateSnoc(ds: string, c: char, radix: nat, max: nat, acc: nat)
    requires 2 <= radix <= 36 && acc <= max
    ensures Accumulate(ds + [c], radix, max, acc)
         == match Accumulate(ds, radix, max, acc)
            case Failure(e) => Failure(e)
            case Success(v) =>
              match DigitValue(c, radix)
              case None => Failure(InvalidDigit)
              case Some(d) => if v * radix + d > max then Failure(PosOverflow) else Success(v * radix + d)
    decreases |ds|
  {
    if ds == [] {
      assert ([] + [c])[1..] == [];
    } else {
      assert (ds + [c])[0] == ds[0];
      assert (ds + [c])[1..] == ds[1..] + [c];
      match DigitValue(ds[0], radix)
      case None =>
      case Some(d) =>
        if acc * radix + d <= max {
          AccumulateSnoc(ds[1..], c, radix, max, acc * radix + d);
        }
    }
  }

  /** `u32::from_str` reads back what `{}` printed. */
  lemma {:induction false} ParseDecimal(n: nat)
    requires n <= U32_MAX
    ensures ParseU32(Decimal(n)) == Success(n)
  {
    DecimalAccumulates(n);
  }

  lemma {:induction false} DecimalAccumulates(n: nat)
    requires n <= U32_MAX
    ensures Accumulate(Decimal(n), 10, U32_MAX, 0) == Success(n)
  {
    if n < 10 {
      assert Decimal(n)[1..] == [];
    } else {
      DecimalAccumulates(n / 10);
      AccumulateSnoc(Decimal(n / 10), DecimalDigit(n % 10), 10, U32_MAX, 0);
    }
  }

  function UpperHexDigit(d: nat): (c: char)
    requires d < 16
  {
    if d < 10 then (('0' as int) + d) as char else (('A' as int) + d - 10) as char
  }

  lemma UpperHexDigitValue(d: nat)
    requires d < 16
    ensures DigitValue(UpperHexDigit(d), 16) == Some(d)
  {
  }

  /** `format!("{:#04X}", b)` for a byte: `0x` and two upper-case hex digits. */
  function HexByte(b: Byte): (s: string)
    ensures |s| == 4 && s[..2] == "0x"
    ensures forall i :: 2 <= i < 4 ==> '0' <= s[i] <= '9' || 'A' <= s[i] <= 'F'
  {
    "0x" + [UpperHexDigit(b / 16), UpperHexDigit(b % 16)]
  }

  /** `{:#04X}` gives four ASCII chars, `0x` then two hex digits; `u8::from_str_radix(_, 16)` reads the digits back. */
  lemma HexByteParses(b: Byte)
    ensures var s := HexByte(b);
            |s| == 4 && s[..2] == "0x" && s[2] != 'x' && s[2] != '+' && s[2] != '-' && s[3] != 'x'
            && (forall i :: 0 <= i < 4 ==> s[i] < '\U{0080}' && s[i] != ',' && s[i] != ' ')
            && FromStrRadix(s[2..], 16, 255) == Success(b)
  {
    var s := HexByte(b);
    var hi, lo := b / 16, b % 16;
    UpperHexDigitValue(hi);
    UpperHexDigitValue(lo);
    var t := s[2..];
    assert t == [UpperHexDigit(hi), UpperHexDigit(lo)];
    assert t[1..] == [t[1]];
    assert [t[1]][1..] == [];
    assert hi * 16 + lo == b;
    assert Accumulate([t[1]], 16, 255, hi) == Success(b);
    assert Accumulate(t, 16, 255, 0) == Success(b);
  }
}
