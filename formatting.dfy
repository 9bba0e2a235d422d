/** The text formatting main.go relies on: the `%d` and `%x` verbs of fmt,
    hex.EncodeToString, and filepath.Split. Each formatter comes with the
    parser that inverts it. */
module Formatting {
  import opened Common

  /** The lower-case digit for `d` in any base up to 16: "0"-"9", then "a"-"f". */
  function DigitChar(d: nat): (c: char)
    requires d < 16
    ensures DigitValue(c) == d
  {
    if d < 10 then ('0' as int + d) as char else ('a' as int + d - 10) as char
  }

  /** The value of a lower-case hexadecimal digit, or -1 for any other char. */
  function DigitValue(c: char): (v: int)
    ensures -1 <= v < 16
    ensures v == -1 <==> !('0' <= c <= '9' || 'a' <= c <= 'f')
  {
    if '0' <= c <= '9' then c as int - '0' as int
    else if 'a' <= c <= 'f' then c as int - 'a' as int + 10
    else -1
  }

  /** Every char of `s` is a digit of `base`. */
  predicate AllDigits(s: string, base: nat)
  {
    forall i :: 0 <= i < |s| ==> 0 <= DigitValue(s[i]) < base
  }

  /** `n` written in `base` with no leading zeros, as fmt prints it. */
  function Numeral(n: nat, base: nat): (s: string)
    requires 2 <= base <= 16
    ensures |s| >= 1 && AllDigits(s, base)
    ensures s[0] == '0' ==> n == 0
    decreases n
  {
    if n < base then [DigitChar(n)]
    else
      DivMod(n, base);
      Numeral(n / base, base) + [DigitChar(n % base)]
  }

  lemma DivMod(n: nat, base: nat)
    requires 2 <= base <= n
    ensures n == (n / base) * base + n % base
    ensures 0 <= n % base < base && 1 <= n / base < n
  {
  }

  /** The number a string of digits of `base` denotes. */
  function Value(s: string, base: nat): nat
    requires 2 <= base <= 16 && AllDigits(s, base)
  {
    if s == [] then 0 else Value(s[..|s| - 1], base) * base + DigitValue(s[|s| - 1])
  }

  lemma {:induction false} NumeralValue(n: nat, base: nat)
    requires 2 <= base <= 16
    ensures Value(Numeral(n, base), base) == n
    decreases n
  {
    if n >= base {
      var s := Numeral(n, base);
      DivMod(n, base);
      assert s[..|s| - 1] == Numeral(n / base, base);
      NumeralValue(n / base, base);
    }
  }

  function Pow(b: nat, k: nat): nat
  {
    if k == 0 then 1 else b * Pow(b, k - 1)
  }

  /** A number below base^k takes at most k digits. */
  lemma {:induction false} NumeralLength(n: nat, base: nat, k: nat)
    requires 2 <= base <= 16 && 1 <= k && n < Pow(base, k)
    ensures |Numeral(n, base)| <= k
    decreases k
  {
    if n >= base {
      if k == 1 {
        assert false;
      } else {
        assert n / base < Pow(base, k - 1) by {
          assert n < base * Pow(base, k - 1);
        }
        NumeralLength(n / base, base, k - 1);
      }
    }
  }

  /** fmt's `%d` of a Go int: a minus sign, then the decimal digits of the magnitude. */
  function Decimal(x: int): (r: string)
    ensures |r| >= 1 && (r[0] == '-' <==> x < 0)
    ensures x < 0 ==> AllDigits(r[1..], 10)
    ensures x >= 0 ==> AllDigits(r, 10)
  {
    if x < 0 then "-" + Numeral(-x, 10) else Numeral(x, 10)
  }

  /** The integer a `%d` rendering denotes; None for any other string. */
  function ParseDecimal(s: string): Option<int>
  {
    if |s| >= 2 && s[0] == '-' && AllDigits(s[1..], 10) then Some(-(Value(s[1..], 10) as int))
    else if |s| >= 1 && AllDigits(s, 10) then Some(Value(s, 10))
    else None
  }

  lemma DecimalRoundTrip(x: int)
    ensures ParseDecimal(Decimal(x)) == Some(x)
  {
    if x < 0 {
      var digits := Numeral(-x, 10);
      var s := "-" + digits;
      assert s[1..] == digits;
      NumeralValue(-x, 10);
      assert ParseDecimal(s) == Some(-(Value(digits, 10) as int));
    } else {
      var s := Numeral(x, 10);
      assert s[0] != '-' by {
        assert 0 <= DigitValue(s[0]);
      }
      NumeralValue(x, 10);
      assert ParseDecimal(s) == Some(Value(s, 10));
    }
  }

  lemma DecimalInjective(x: int, y: int)
    ensures Decimal(x) == Decimal(y) <==> x == y
  {
    DecimalRoundTrip(x);
    DecimalRoundTrip(y);
  }

  /** Every char of `s` is one of 0-9 a-f. */
  predicate IsLowerHex(s: string)
  {
    AllDigits(s, 16)
  }

  /** hex.EncodeToString: two lower-case hex digits per byte, high nibble first. */
  function HexEncode(b: seq<byte>): (s: string)
    ensures |s| == 2 * |b| && IsLowerHex(s)
  {
    if b == [] then [] else [DigitChar(b[0] as int / 16), DigitChar(b[0] as int % 16)] + HexEncode(b[1..])
  }

  /** The bytes a string of hex digit pairs denotes; None when it is not one. */
  function HexDecode(s: string): Option<seq<byte>>
  {
    if s == [] then Some([])
    else if |s| < 2 || !(0 <= DigitValue(s[0]) && 0 <= DigitValue(s[1])) then None
    else match HexDecode(s[2..])
      case None => None
      case Some(rest) => Some([(DigitValue(s[0]) * 16 + DigitValue(s[1])) as byte] + rest)
  }

  lemma {:induction false} HexRoundTrip(b: seq<byte>)
    ensures HexDecode(HexEncode(b)) == Some(b)
  {
    if b != [] {
      var s := HexEncode(b);
      var hi, lo := b[0] as int / 16, b[0] as int % 16;
      assert s[0] == DigitChar(hi) && s[1] == DigitChar(lo);
      assert s[2..] == HexEncode(b[1..]);
      HexRoundTrip(b[1..]);
      assert (DigitValue(s[0]) * 16 + DigitValue(s[1])) as byte == b[0];
      assert HexDecode(s) == Some([b[0]] + b[1..]);
      assert [b[0]] + b[1..] == b;
    }
  }

  /** The path separator filepath uses on a Unix system. */
  const Separator: char := '/'

  /** filepath.Split: the directory (up to and including the final separator) and
      the file name after it; an empty directory when there is no separator. */
  function Split(path: string): (r: (string, string))
    ensures r.0 + r.1 == path
    ensures Separator !in r.1
    ensures r.0 == [] || r.0[|r.0| - 1] == Separator
  {
    if path == [] then ([], [])
    else if path[|path| - 1] == Separator then (path, [])
    else
      var (dir, file) := Split(path[..|path| - 1]);
      (dir, file + [path[|path| - 1]])
  }

  /** The three properties of Split determine it: there is exactly one such split. */
  lemma {:induction false} SplitUnique(path: string, dir: string, file: string)
    requires dir + file == path && Separator !in file
    requires dir == [] || dir[|dir| - 1] == Separator
    ensures Split(path) == (dir, file)
    decreases |file|
  {
    if file == [] {
      assert dir == path;
    } else {
      assert path[|path| - 1] == file[|file| - 1] != Separator;
      assert Separator !in file[..|file| - 1];
      assert dir + file[..|file| - 1] == path[..|path| - 1];
      SplitUnique(path[..|path| - 1], dir, file[..|file| - 1]);
      assert file[..|file| - 1] + [path[|path| - 1]] == file;
    }
  }

  /** The file-name half of filepath.Split. */
  function Basename(path: string): string
  {
    Split(path).1
  }
}
