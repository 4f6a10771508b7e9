/** The number fields of an archive header: `atoi` reads twelve bytes as digits of a radix, passing
    over NUL bytes, in 32-bit arithmetic. */
module Octal {

  const WORD: nat := 0x1_0000_0000
  const FIELD: nat := 12

  function Wrap(x: int): (r: nat)
    ensures r < WORD
  {
    x % WORD
  }

  function Pow(radix: nat, n: nat): nat {
    if n == 0 then 1 else radix * Pow(radix, n - 1)
  }

  /** How many bytes are not NUL. */
  function Count(s: seq<int>): nat {
    if s == [] then 0 else (if s[0] != 0 then 1 else 0) + Count(s[1..])
  }

  /** The number that the bytes other than NUL write, most significant first. */
  function Value(s: seq<int>, radix: nat): int {
    if s == [] then 0
    else (if s[0] != 0 then (s[0] - '0' as int) * Pow(radix, Count(s[1..])) else 0) + Value(s[1..], radix)
  }

  lemma WrapShift(x: int, k: int)
    ensures Wrap(x + WORD * k) == Wrap(x)
  {
  }

  lemma WrapAdd(a: int, b: int)
    ensures Wrap(Wrap(a) + Wrap(b)) == Wrap(a + b)
  {
    WrapShift(a % WORD + b % WORD, a / WORD + b / WORD);
  }

  lemma WrapMul(a: int, b: int)
    ensures Wrap(a * Wrap(b)) == Wrap(a * b)
  {
    var q, r := b / WORD, b % WORD;
    assert b == r + WORD * q;
    assert a * b == a * r + WORD * (a * q) by {
      assert a * (WORD * q) == WORD * (a * q);
    }
    WrapShift(a * r, a * q);
  }

  method Atoi(str: seq<int>, radix: nat) returns (res: nat)
    requires |str| == FIELD
    ensures res == Wrap(Value(str, radix))
  {
    var order: nat := 1;
    res := 0;
    var i: nat := FIELD;
    while i > 0
      invariant i <= FIELD
      invariant res == Wrap(Value(str[i..], radix)) && order == Wrap(Pow(radix, Count(str[i..])))
    {
      var c := str[i - 1];
      assert str[i - 1..][1..] == str[i..];
      if c != 0 {
        var digit := c - '0' as int;
        ghost var p := Pow(radix, Count(str[i..]));
        WrapMul(digit, p);
        WrapAdd(digit * p, Value(str[i..], radix));
        WrapMul(radix, p);
        res := Wrap(res + Wrap(digit * order));
        order := Wrap(radix * order);
      }
      i := i - 1;
    }
    assert str[0..] == str;
  }

  // ---- reading back what an archive writer wrote ----

  /** `n` in exactly `width` octal digits. */
  function Digits(n: nat, width: nat): (s: seq<int>)
    ensures |s| == width
  {
    if width == 0 then [] else Digits(n / 8, width - 1) + ['0' as int + n % 8]
  }

  lemma {:induction false} ValueAppend(s: seq<int>, c: int, radix: nat)
    requires c != 0
    ensures Value(s + [c], radix) == radix * Value(s, radix) + (c - '0' as int)
    ensures Count(s + [c]) == Count(s) + 1
  {
    if s == [] {
      assert s + [c] == [c] && [c][1..] == [];
    } else {
      var rest := s[1..];
      assert (s + [c])[1..] == rest + [c] && (s + [c])[0] == s[0];
      ValueAppend(rest, c, radix);
      if s[0] != 0 {
        var d, p := s[0] - '0' as int, Pow(radix, Count(rest));
        assert Pow(radix, Count(rest + [c])) == radix * p;
        Distribute(radix, d, p, Value(rest, radix));
      }
    }
  }

  lemma Distribute(radix: nat, d: int, p: nat, v: int)
    ensures radix * (d * p + v) == d * (radix * p) + radix * v
  {
  }

  lemma {:induction false} DigitsValue(n: nat, width: nat)
    requires n < Pow(8, width)
    ensures Value(Digits(n, width), 8) == n
  {
    if width > 0 {
      DigitsValue(n / 8, width - 1);
      ValueAppend(Digits(n / 8, width - 1), '0' as int + n % 8, 8);
    }
  }

  lemma {:induction false} ValueZeroEnd(s: seq<int>, radix: nat)
    ensures Value(s + [0], radix) == Value(s, radix) && Count(s + [0]) == Count(s)
  {
    if s == [] {
      assert s + [0] == [0] && [0][1..] == [];
    } else {
      assert (s + [0])[1..] == s[1..] + [0];
      ValueZeroEnd(s[1..], radix);
    }
  }

  lemma PowEleven()
    ensures Pow(8, 11) >= WORD
  {
  }

  /** Eleven octal digits and a closing NUL, the size field of the ustar format, are read back
      exactly for every size below four gigabytes. */
  lemma SizeRoundTrip(n: nat)
    requires n < WORD
    ensures |Digits(n, FIELD - 1) + [0]| == FIELD
    ensures Wrap(Value(Digits(n, FIELD - 1) + [0], 8)) == n
  {
    PowEleven();
    DigitsValue(n, FIELD - 1);
    ValueZeroEnd(Digits(n, FIELD - 1), 8);
  }

  /** Larger sizes, up to what the field can hold, lose their multiples of four gigabytes. */
  lemma LargeSizeWraps(n: nat)
    requires n < Pow(8, FIELD - 1)
    ensures Wrap(Value(Digits(n, FIELD - 1) + [0], 8)) == n <==> n < WORD
  {
    DigitsValue(n, FIELD - 1);
    ValueZeroEnd(Digits(n, FIELD - 1), 8);
  }
}
