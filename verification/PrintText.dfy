/**
 What the formatter prints for one integer (kernel/src/util/printf.cc) and what `str_to_int`
 (kernel/src/util/string.hh) reads back.
 */
module PrintText {
  import opened Machine

  /** `printfNTOA_BUFFER_SIZE`: the digits of one number are built in a buffer this long. */
  const ROOM: nat := 32

  datatype Flags = Flags(zeropad: bool, left: bool, plus: bool, space: bool, hash: bool, upper: bool, precision: bool)

  function NoFlags(): Flags {
    Flags(false, false, false, false, false, false, false)
  }

  function Repeat(c: char, n: int): (s: string)
    ensures |s| == if n > 0 then n else 0
    ensures forall i :: 0 <= i < |s| ==> s[i] == c
  {
    if n <= 0 then [] else Repeat(c, n - 1) + [c]
  }

  function Reverse(s: string): (r: string)
    ensures |r| == |s|
  {
    if s == [] then [] else Reverse(s[1..]) + [s[0]]
  }

  // ---- digits, least significant first ----

  function Digit(d: nat, upper: bool): char
    requires d < 16
  {
    if d < 10 then ('0' as int + d) as char else ((if upper then 'A' else 'a') as int + (d - 10)) as char
  }

  lemma QuotientNat(value: nat, base: nat)
    requires base > 0
    ensures value / base >= 0
  {
  }

  function Digits(value: nat, base: nat, upper: bool, room: nat): (s: string)
    requires 2 <= base <= 16 && room > 0
    ensures 0 < |s| <= room
    decreases room
  {
    QuotientNat(value, base);
    [Digit(value % base, upper)]
    + if value / base == 0 || room == 1 then [] else Digits(value / base, base, upper, room - 1)
  }

  predicate IsDigit(c: char) {
    '0' <= c <= '9'
  }

  predicate IsUpper(c: char) {
    'A' <= c <= 'Z'
  }

  predicate IsLower(c: char) {
    'a' <= c <= 'z'
  }

  /** What `str_to_int` takes as part of a number. */
  predicate Accepts(c: char, base: nat) {
    IsDigit(c) || (base > 10 && (IsLower(c) || IsUpper(c)))
  }

  function DigitValue(c: char): (d: nat)
    requires IsDigit(c) || IsLower(c) || IsUpper(c)
  {
    if IsUpper(c) then c as int - 'A' as int + 10
    else if IsLower(c) then c as int - 'a' as int + 10
    else c as int - '0' as int
  }

  predicate Numeral(s: string, base: nat) {
    forall i :: 0 <= i < |s| ==> Accepts(s[i], base)
  }

  /** The number a least-significant-first numeral stands for. */
  function Value(s: string, base: nat): nat
    requires Numeral(s, base)
  {
    if s == [] then 0 else DigitValue(s[0]) + base * Value(s[1..], base)
  }

  function Power(b: nat, n: nat): (p: nat)
    ensures b > 0 ==> p > 0
  {
    if n == 0 then 1 else b * Power(b, n - 1)
  }

  lemma DigitRoundTrip(d: nat, upper: bool, base: nat)
    requires d < base <= 16
    ensures Accepts(Digit(d, upper), base) && DigitValue(Digit(d, upper)) == d
  {
  }

  lemma {:induction false} DigitsAccepted(value: nat, base: nat, upper: bool, room: nat)
    requires 2 <= base <= 16 && room > 0
    ensures Numeral(Digits(value, base, upper, room), base)
    decreases room
  {
    DigitRoundTrip(value % base, upper, base);
    if value / base != 0 && room > 1 {
      DigitsAccepted(value / base, base, upper, room - 1);
    }
  }

  /** The digit loop keeps exactly what fits in its buffer. */
  lemma {:induction false} DigitsValue(value: nat, base: nat, upper: bool, room: nat)
    requires 2 <= base <= 16 && room > 0
    requires Numeral(Digits(value, base, upper, room), base)
    ensures Value(Digits(value, base, upper, room), base) == value % Power(base, room)
    decreases room
  {
    hide Digits, Digit, DigitValue, Accepts, Value, Power;
    var d, q := value % base, value / base;
    var c := Digit(d, upper);
    DigitRoundTrip(d, upper, base);
    DigitsUnfold(value, base, upper, room);
    if q == 0 || room == 1 {
      ValueStep(c, [], base);
      LastDigit(value, base, room);
    } else {
      DigitsAccepted(q, base, upper, room - 1);
      ValueStep(c, Digits(q, base, upper, room - 1), base);
      DigitsValue(q, base, upper, room - 1);
      NextDigit(value, base, room);
    }
  }

  lemma NextDigit(value: nat, base: nat, room: nat)
    requires base >= 2 && room > 1
    ensures value % Power(base, room) == value % base + base * (value / base % Power(base, room - 1))
  {
    PowerStep(base, room);
    DivisionLaw(value, base);
    hide Power;
    LongMod(value / base, value % base, base, Power(base, room - 1));
  }

  lemma DigitsUnfold(value: nat, base: nat, upper: bool, room: nat)
    requires 2 <= base <= 16 && room > 0
    ensures Digits(value, base, upper, room) ==
            [Digit(value % base, upper)]
            + if value / base == 0 || room == 1 then [] else Digits(value / base, base, upper, room - 1)
  {
  }

  lemma ValueStep(c: char, rest: string, base: nat)
    requires Accepts(c, base) && Numeral(rest, base)
    ensures Numeral([c] + rest, base) && Value([c] + rest, base) == DigitValue(c) + base * Value(rest, base)
    ensures rest == [] ==> Value([c] + rest, base) == DigitValue(c)
  {
    assert ([c] + rest)[1..] == rest;
  }

  lemma PowerStep(b: nat, n: nat)
    requires n > 0
    ensures Power(b, n) == b * Power(b, n - 1)
  {
  }

  lemma DivisionLaw(x: nat, b: nat)
    requires b > 0
    ensures x == x / b * b + x % b
  {
  }

  lemma LastDigit(value: nat, base: nat, room: nat)
    requires base >= 2 && room > 0 && (value / base == 0 || room == 1)
    ensures value % Power(base, room) == value % base
  {
    if room == 1 {
      assert Power(base, 1) == base * Power(base, 0);
    } else {
      PowerGrows(base, room);
      SmallMod(value, base);
      SmallMod(value, Power(base, room));
    }
  }

  lemma PowerGrows(b: nat, n: nat)
    requires b > 0 && n > 0
    ensures Power(b, n) >= b
  {
    assert Power(b, n) == b * Power(b, n - 1);
    MulMono(1, Power(b, n - 1), b);
  }

  lemma LongMod(q: nat, d: nat, b: nat, m: nat)
    requires d < b && m > 0
    ensures (q * b + d) % (b * m) == d + b * (q % m)
  {
    var h, l := q / m, q % m;
    assert q == h * m + l;
    var r := d + b * l;
    assert q * b + d == h * (b * m) + r by {
      assert (h * m + l) * b == h * (b * m) + b * l by { Regroup(h, m, l, b); }
    }
    assert r < b * m by { MulMono(l + 1, m, b); assert (l + 1) * b == b * l + b; }
    DivModUnique(q * b + d, b * m, h, r);
  }

  // ---- the text of one integer ----

  /** `_ntoa_format` takes one column away from the zero padding when a sign will come. */
  function FieldWidth(negative: bool, width: nat, f: Flags): nat {
    if !f.left && width > 0 && f.zeropad && (negative || f.plus || f.space) then width - 1 else width
  }

  function ZerosTo(s: string, n: nat): (r: string)
    ensures |s| <= ROOM ==> |r| <= ROOM
  {
    s + Repeat('0', Min(n, ROOM) - |s|)
  }

  function Room(s: string, c: char): (r: string)
    ensures |s| <= ROOM ==> |r| <= ROOM
  {
    if |s| < ROOM then s + [c] else s
  }

  /** The `#` prefix, which may first take back padding zeros. */
  function Prefixed(s: string, base: nat, prec: nat, width: nat, f: Flags): (r: string)
    ensures |s| <= ROOM ==> |r| <= ROOM
  {
    var a := if !f.precision && |s| > 0 && (|s| == prec || |s| == width)
             then var n := |s| - 1; s[..if n > 0 && base == 16 then n - 1 else n]
             else s;
    var b := if base == 16 then Room(a, if f.upper then 'X' else 'x') else if base == 2 then Room(a, 'b') else a;
    Room(b, '0')
  }

  function Signed(s: string, negative: bool, f: Flags): (r: string)
    ensures |s| <= ROOM ==> |r| <= ROOM
  {
    if negative then Room(s, '-') else if f.plus then Room(s, '+') else if f.space then Room(s, ' ') else s
  }

  /** The conversion buffer when `_ntoa_format` hands it on, least significant character first. */
  function Buffer(digits: string, negative: bool, base: nat, prec: nat, width: nat, f: Flags): (r: string)
    ensures |digits| <= ROOM ==> |r| <= ROOM
  {
    var w := FieldWidth(negative, width, f);
    var a := if f.left then digits else ZerosTo(digits, prec);
    var b := if !f.left && f.zeropad then ZerosTo(a, w) else a;
    var c := if f.hash then Prefixed(b, base, prec, w, f) else b;
    Signed(c, negative, f)
  }

  /** `_out_rev`: the buffer reversed, with the spaces that fill the field. */
  function Laid(buffer: string, width: nat, f: Flags): string {
    (if !f.left && !f.zeropad then Repeat(' ', width - |buffer|) else [])
    + Reverse(buffer)
    + (if f.left then Repeat(' ', width - |buffer|) else [])
  }

  /** `_ntoa_long_long` (and `_ntoa_long`, which is the same on amd64). */
  function IntText(value: nat, negative: bool, base: nat, prec: nat, width: nat, f: Flags): string
    requires 2 <= base <= 16
  {
    var g := if value == 0 then f.(hash := false) else f;
    var digits := if f.precision && value == 0 then [] else Digits(value, base, f.upper, ROOM);
    Laid(Buffer(digits, negative, base, prec, width, g), FieldWidth(negative, width, g), g)
  }

  // ---- reading it back ----

  function ParseRest(s: string, base: nat, acc: nat): nat {
    if s == [] || !Accepts(s[0], base) then acc else ParseRest(s[1..], base, acc * base + DigitValue(s[0]))
  }

  function Unsigned(s: string): string {
    if |s| > 0 && s[0] == '-' then s[1..] else s
  }

  predicate Hex(s: string) {
    |s| >= 2 && s[0] == '0' && s[1] == 'x'
  }

  function Magnitude(s: string, base: nat): nat {
    if Hex(s) then ParseRest(s[2..], 16, 0) else ParseRest(s, base, 0)
  }

  const TWO63: int := 0x8000_0000_0000_0000

  /** `str_to_int`, which has no defined result once its 64-bit accumulator overflows. */
  function StrToInt(s: string, base: nat): Outcome<int> {
    var m := Magnitude(Unsigned(s), base);
    if m >= TWO63 then Halted else Done(if Unsigned(s) == s then m else 0 - m)
  }

  lemma {:induction false} ParseGrows(s: string, base: nat, acc: nat)
    requires base > 0
    ensures ParseRest(s, base, acc) >= acc
    decreases |s|
  {
    if s != [] && Accepts(s[0], base) {
      ParseGrows(s[1..], base, acc * base + DigitValue(s[0]));
      MulMono(1, base, acc);
    }
  }

  /** The accumulating loop of `str_to_int`. */
  method ParseDigits(s: string, base: nat) returns (ret: Outcome<nat>)
    ensures ret == var m := ParseRest(s, base, 0); if m < TWO63 then Done(m) else Halted
  {
    var i, acc := 0, 0;
    assert s[0..] == s;
    while i < |s| && Accepts(s[i], base)
      invariant 0 <= i <= |s| && 0 <= acc < TWO63 && ParseRest(s[i..], base, acc) == ParseRest(s, base, 0)
    {
      assert s[i..][0] == s[i] && s[i..][1..] == s[i + 1..];
      acc, i := acc * base + DigitValue(s[i]), i + 1;
      if acc >= TWO63 {
        assert base > 0;
        ParseGrows(s[i..], base, acc);
        return Halted;
      }
    }
    return Done(acc);
  }

  method ParseInt(str: string, base0: nat) returns (r: Outcome<int>)
    ensures r == StrToInt(str, base0)
  {
    var s, base, neg := str, base0, false;
    if |s| > 0 && s[0] == '-' {
      neg, s := true, s[1..];
    }
    if |s| > 1 && s[0] == '0' && s[1] == 'x' {
      base, s := 16, s[2..];
    }
    var ret := ParseDigits(s, base);
    if ret.Halted? {
      return Halted;
    }
    var v: int := ret.value;
    if neg {
      v := v * -1;
    }
    return Done(v);
  }

  lemma {:induction false} ParseAppend(a: string, t: string, base: nat, acc: nat)
    requires Numeral(a, base)
    ensures ParseRest(a + t, base, acc) == ParseRest(t, base, ParseRest(a, base, acc))
    decreases |a|
  {
    if a == [] {
      assert a + t == t;
    } else {
      assert (a + t)[1..] == a[1..] + t;
      ParseAppend(a[1..], t, base, acc * base + DigitValue(a[0]));
    }
  }

  lemma {:induction false} ReverseNumeral(s: string, base: nat)
    requires Numeral(s, base)
    ensures Numeral(Reverse(s), base)
  {
    if s != [] {
      ReverseNumeral(s[1..], base);
    }
  }

  /** Reading a numeral most significant digit first gives its value. */
  lemma {:induction false} ParseReversed(s: string, base: nat)
    requires Numeral(s, base)
    ensures ParseRest(Reverse(s), base, 0) == Value(s, base)
  {
    if s != [] {
      var rest := s[1..];
      ParseReversed(rest, base);
      ReverseNumeral(rest, base);
      ParseAppend(Reverse(rest), [s[0]], base, 0);
      var acc := Value(rest, base);
      assert [s[0]][1..] == [];
      assert ParseRest([s[0]], base, acc) == acc * base + DigitValue(s[0]);
    }
  }

  predicate Stops(t: string, base: nat) {
    t == [] || !Accepts(t[0], base)
  }

  lemma ParseStops(a: string, t: string, base: nat)
    requires Numeral(a, base) && Stops(t, base)
    ensures ParseRest(a + t, base, 0) == ParseRest(a, base, 0)
  {
    ParseAppend(a, t, base, 0);
  }

  lemma {:induction false} ZerosAddNothing(s: string, base: nat, n: int)
    requires Numeral(s, base)
    ensures Numeral(s + Repeat('0', n), base) && Value(s + Repeat('0', n), base) == Value(s, base)
    decreases |s|
  {
    var z := Repeat('0', n);
    if s == [] {
      assert s + z == z;
      ZeroValue(z, base);
    } else {
      assert (s + z)[1..] == s[1..] + z;
      ZerosAddNothing(s[1..], base, n);
    }
  }

  lemma {:induction false} ZeroValue(z: string, base: nat)
    requires forall i :: 0 <= i < |z| ==> z[i] == '0'
    ensures Numeral(z, base) && Value(z, base) == 0
  {
    if z != [] {
      ZeroValue(z[1..], base);
    }
  }
}
