/** Integer text forms the core reads and writes: `str(n)` and `f"{n}"` in
    decimal, `hex(n)` and `int(text, 16)`, `str.isdigit()` and `int(text)`,
    and the bitwise `&` on non-negative integers. */
module Numerals {

  import opened Values
  import Text

  predicate IsDecimalDigit(c: char)
  {
    '0' <= c <= '9'
  }

  predicate IsHexDigit(c: char)
  {
    '0' <= c <= '9' || 'a' <= c <= 'f' || 'A' <= c <= 'F'
  }

  /** The numeric value of one hexadecimal digit, either case. */
  function HexDigitValue(c: char): (d: nat)
    requires IsHexDigit(c)
    ensures d < 16
    ensures IsDecimalDigit(c) ==> d < 10
  {
    if '0' <= c <= '9' then c as int - '0' as int
    else if 'a' <= c <= 'f' then c as int - 'a' as int + 10
    else c as int - 'A' as int + 10
  }

  /** The digit Python writes for `d`, lower case for the hexadecimal ones. */
  function DigitChar(d: nat): (c: char)
    requires d < 16
    ensures IsHexDigit(c) && HexDigitValue(c) == d
    ensures d < 10 ==> IsDecimalDigit(c)
  {
    if d < 10 then ('0' as int + d) as char else ('a' as int + d - 10) as char
  }

  /** Positional value of a digit string in base `base`: `int(digits, base)`. */
  function ValueOf(ds: string, base: nat): nat
    requires base == 10 || base == 16
    requires forall i :: 0 <= i < |ds| ==> IsHexDigit(ds[i])
  {
    if ds == [] then 0
    else ValueOf(ds[..|ds| - 1], base) * base + HexDigitValue(ds[|ds| - 1])
  }

  /** Digits of `n` in base `base`, most significant first, no leading zero. */
  function DigitsOf(n: nat, base: nat): (r: string)
    requires base == 10 || base == 16
    ensures r != []
    ensures forall i :: 0 <= i < |r| ==> IsHexDigit(r[i]) && HexDigitValue(r[i]) < base
    ensures |r| > 1 ==> r[0] != '0'
    decreases n
  {
    if n < base then [DigitChar(n)]
    else DigitsOf(n / base, base) + [DigitChar(n % base)]
  }

  /** Reading back the digits of a number gives that number. */
  lemma {:induction false} DigitsRoundTrip(n: nat, base: nat)
    requires base == 10 || base == 16
    ensures ValueOf(DigitsOf(n, base), base) == n
    decreases n
  {
    var r := DigitsOf(n, base);
    if n >= base {
      DigitsRoundTrip(n / base, base);
      assert r[..|r| - 1] == DigitsOf(n / base, base);
      calc {
        ValueOf(r, base);
        ValueOf(DigitsOf(n / base, base), base) * base + n % base;
        (n / base) * base + n % base;
        n;
      }
    }
  }

  /** `str(i)` / `f"{i}"` for an integer. */
  function Decimal(i: int): (r: string)
    ensures r != []
    ensures i >= 0 ==> forall k :: 0 <= k < |r| ==> IsDecimalDigit(r[k])
    ensures i < 0 ==> r[0] == '-'
  {
    if i < 0 then "-" + DigitsOf(-i, 10) else DigitsOf(i, 10)
  }

  /** `hex(n)` for a non-negative integer. */
  function Hex(n: nat): (r: string)
    ensures |r| >= 3 && r[..2] == "0x"
  {
    "0x" + DigitsOf(n, 16)
  }

  /** `s.isdigit()` restricted to ASCII digits: non-empty and all digits. */
  predicate IsDigitString(s: string)
  {
    s != [] && forall i :: 0 <= i < |s| ==> IsDecimalDigit(s[i])
  }

  /** `int(s)` for a string that passed `isdigit()`. */
  function DecimalValue(s: string): nat
    requires IsDigitString(s)
  {
    ValueOf(s, 10)
  }

  /** `int(Decimal(n))` gives `n` back, and the text of a non-negative
      number passes `isdigit()`. */
  lemma DecimalRoundTrip(n: nat)
    ensures IsDigitString(Decimal(n)) && DecimalValue(Decimal(n)) == n
  {
    DigitsRoundTrip(n, 10);
  }

  /** The hexadecimal strings `int(text, 16)` is modelled as accepting:
      surrounding whitespace, an optional `0x`/`0X` prefix, then one or more
      hexadecimal digits of either case. */
  function HexBody(text: string): string
  {
    var t := Text.Strip(text);
    if |t| >= 2 && t[0] == '0' && (t[1] == 'x' || t[1] == 'X') then t[2..] else t
  }

  predicate IsHexText(text: string)
  {
    var b := HexBody(text);
    b != [] && forall i :: 0 <= i < |b| ==> IsHexDigit(b[i])
  }

  /** `int(text, 16)`. */
  function ParseHex(text: string): nat
    requires IsHexText(text)
  {
    ValueOf(HexBody(text), 16)
  }

  /** `int(hex(n), 16) == n`: a mask written into a trace line reads back as
      the same mask. */
  lemma HexRoundTrip(n: nat)
    ensures IsHexText(Hex(n)) && ParseHex(Hex(n)) == n
  {
    var h := Hex(n);
    DigitsRoundTrip(n, 16);
    assert !Text.IsSpace(h[0]);
    assert !Text.IsSpace(h[|h| - 1]) by {
      assert IsHexDigit(h[|h| - 1]);
    }
    assert Text.TrimStart(h) == h;
    assert Text.TrimEnd(h) == h;
    assert HexBody(h) == DigitsOf(n, 16);
  }

  /** Python's `a & b` on non-negative integers, bit by bit from the low end. */
  function And(a: nat, b: nat): (r: nat)
    ensures r <= a && r <= b
    decreases a
  {
    if a == 0 || b == 0 then 0
    else 2 * And(a / 2, b / 2) + (if a % 2 == 1 && b % 2 == 1 then 1 else 0)
  }

  lemma {:induction false} AndCommutes(a: nat, b: nat)
    ensures And(a, b) == And(b, a)
    decreases a
  {
    if a != 0 && b != 0 {
      AndCommutes(a / 2, b / 2);
    }
  }

  lemma {:induction false} AndAssociates(a: nat, b: nat, c: nat)
    ensures And(And(a, b), c) == And(a, And(b, c))
    decreases a
  {
    if a != 0 && b != 0 && c != 0 {
      AndAssociates(a / 2, b / 2, c / 2);
      var ab := And(a, b);
      var bc := And(b, c);
      assert ab / 2 == And(a / 2, b / 2) && ab % 2 == (if a % 2 == 1 && b % 2 == 1 then 1 else 0);
      assert bc / 2 == And(b / 2, c / 2) && bc % 2 == (if b % 2 == 1 && c % 2 == 1 then 1 else 0);
    }
  }

  /** Masking first with a wider mask `m` does not change which bits of `sub`
      are seen, when every bit of `sub` is in `m`. */
  lemma AndThroughMask(v: nat, m: nat, sub: nat)
    requires And(m, sub) == sub
    ensures And(And(v, m), sub) == And(v, sub)
  {
    AndAssociates(v, m, sub);
  }

  function Pow2(k: nat): (r: nat)
    ensures r >= 1
  {
    if k == 0 then 1 else 2 * Pow2(k - 1)
  }

  /** Bit `k` of `v` is set. */
  predicate Bit(v: nat, k: nat)
  {
    if k == 0 then v % 2 == 1 else Bit(v / 2, k - 1)
  }

  /** Testing against a one-bit mask reads exactly that bit:
      `v & (1 << k)` is `1 << k` when bit `k` of `v` is set and `0` otherwise. */
  lemma {:induction false} AndPow2(v: nat, k: nat)
    ensures And(v, Pow2(k)) == if Bit(v, k) then Pow2(k) else 0
  {
    if k > 0 {
      AndPow2(v / 2, k - 1);
      assert Pow2(k) / 2 == Pow2(k - 1) && Pow2(k) % 2 == 0;
    }
  }

  /** Bit `k` of `a & b` is set exactly when it is set in both. */
  lemma {:induction false} AndBit(a: nat, b: nat, k: nat)
    ensures Bit(And(a, b), k) <==> Bit(a, k) && Bit(b, k)
  {
    if a == 0 || b == 0 {
      ZeroHasNoBits(k);
    } else if k > 0 {
      AndBit(a / 2, b / 2, k - 1);
    }
  }

  lemma {:induction false} ZeroHasNoBits(k: nat)
    ensures !Bit(0, k)
  {
    if k > 0 {
      ZeroHasNoBits(k - 1);
    }
  }

  /** `str(v)` for a scalar field value. */
  function ValueText(v: Value): string
    requires !v.List?
  {
    match v
    case Null => "None"
    case Str(s) => s
    case Int(i) => Decimal(i)
    case Bool(b) => if b then "True" else "False"
  }
}
