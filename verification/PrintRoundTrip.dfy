/** Printing an integer and reading it back (kernel/src/util/printf.cc, kernel/src/util/string.hh). */
module PrintRoundTrip {
  import opened Machine
  import opened PrintText
  import Printf

  // ---- powers and digit counts ----

  lemma {:induction false} PowerAdd(b: nat, m: nat, n: nat)
    ensures Power(b, m + n) == Power(b, m) * Power(b, n)
    decreases m
  {
    if m > 0 {
      PowerAdd(b, m - 1, n);
      PowerStep(b, m);
      PowerStep(b, m + n);
      hide Power;
      Associate(b, Power(b, m - 1), Power(b, n));
    }
  }

  lemma Associate(x: nat, y: nat, z: nat)
    ensures x * (y * z) == x * y * z
  {
  }

  lemma {:induction false} PowerMono(a: nat, b: nat, n: nat)
    requires a <= b
    ensures Power(a, n) <= Power(b, n)
  {
    if n > 0 {
      PowerMono(a, b, n - 1);
      MulMono(a, b, Power(a, n - 1));
      MulMono(Power(a, n - 1), Power(b, n - 1), b);
    }
  }

  lemma Doubled(b: nat, n: nat)
    ensures Power(b, 2 * n) == Power(b, n) * Power(b, n)
  {
    PowerAdd(b, n, n);
  }

  lemma PowerOfTwo()
    ensures Power(2, 32) == TWO32
  {
    assert Power(2, 4) == 16;
    hide Power;
    Doubled(2, 4);
    Doubled(2, 8);
    Doubled(2, 16);
  }

  lemma PowerOfEight()
    ensures Power(8, 32) >= TWO64
  {
    assert Power(8, 4) == 4096;
    hide Power;
    Doubled(8, 4);
    Doubled(8, 8);
    Doubled(8, 16);
  }

  lemma PowerOfTen()
    ensures Power(10, 20) >= TWO64
  {
    assert Power(10, 5) == 100000;
    hide Power;
    Doubled(10, 5);
    Doubled(10, 10);
  }

  /** Every 64-bit value fits the conversion buffer in base 8 and up. */
  lemma FitsRoom(value: nat, base: nat)
    requires value < TWO64 && 8 <= base
    ensures value % Power(base, ROOM) == value
  {
    PowerOfEight();
    PowerMono(8, base, ROOM);
    SmallMod(value, Power(base, ROOM));
  }

  lemma {:induction false} DigitsShort(value: nat, base: nat, upper: bool, room: nat, n: nat)
    requires 2 <= base <= 16 && 0 < n <= room && value < Power(base, n)
    ensures |Digits(value, base, upper, room)| <= n
    decreases n
  {
    DigitsUnfold(value, base, upper, room);
    hide Digits, Power;
    QuotientBelow(value, base, n);
    var q := value / base;
    if q != 0 && room > 1 {
      DigitsShort(q, base, upper, room - 1, n - 1);
    }
  }

  lemma QuotientBelow(value: nat, base: nat, n: nat)
    requires base >= 2 && n > 0 && value < Power(base, n)
    ensures value / base >= 0
    ensures if n == 1 then value / base == 0 else value / base < Power(base, n - 1)
  {
    PowerStep(base, n);
    if n == 1 {
      assert Power(base, 0) == 1;
      SmallDiv(value, base);
    } else {
      hide Power;
      DivBelow(value, base, Power(base, n - 1));
    }
  }

  lemma SmallDiv(x: nat, b: nat)
    requires x < b
    ensures x / b == 0
  {
  }

  lemma DivBelow(x: nat, b: nat, m: nat)
    requires b > 0 && x < b * m
    ensures x / b < m
  {
    DivisionLaw(x, b);
    if x / b >= m {
      MulMono(m, x / b, b);
    }
  }

  // ---- the characters of a number ----

  /** Digits as the formatter writes them: never a sign, a blank or the `x` of a prefix. */
  predicate Plain(s: string) {
    forall i :: 0 <= i < |s| ==> PlainChar(s[i])
  }

  predicate PlainChar(c: char) {
    IsDigit(c) || 'a' <= c <= 'f' || 'A' <= c <= 'F'
  }

  predicate Blank(s: string) {
    forall i :: 0 <= i < |s| ==> s[i] == ' '
  }

  lemma {:induction false} DigitsPlain(value: nat, base: nat, upper: bool, room: nat)
    requires 2 <= base <= 16 && room > 0
    ensures Plain(Digits(value, base, upper, room))
    decreases room
  {
    if value / base != 0 && room > 1 {
      DigitsPlain(value / base, base, upper, room - 1);
    }
  }

  lemma {:induction false} ReversePlain(s: string)
    requires Plain(s)
    ensures Plain(Reverse(s))
  {
    if s != [] {
      ReversePlain(s[1..]);
    }
  }

  lemma {:induction false} ReverseSnoc(s: string, c: char)
    ensures Reverse(s + [c]) == [c] + Reverse(s)
  {
    if s == [] {
      assert s + [c] == [c];
      assert [c][1..] == [];
    } else {
      assert (s + [c])[1..] == s[1..] + [c];
      ReverseSnoc(s[1..], c);
    }
  }

  /** The number with `k` zeros in front, as the formatter lays it out. */
  function Padded(value: nat, base: nat, upper: bool, k: int): string
    requires 2 <= base <= 16
  {
    Reverse(Digits(value, base, upper, ROOM) + Repeat('0', k))
  }

  lemma PaddedReads(value: nat, base: nat, upper: bool, k: int)
    requires 2 <= base <= 16
    ensures var t := Padded(value, base, upper, k);
            t != [] && Plain(t) && Numeral(t, base) && ParseRest(t, base, 0) == value % Power(base, ROOM)
  {
    var d := Digits(value, base, upper, ROOM);
    var s := d + Repeat('0', k);
    DigitsAccepted(value, base, upper, ROOM);
    DigitsValue(value, base, upper, ROOM);
    ZerosAddNothing(d, base, k);
    DigitsPlain(value, base, upper, ROOM);
    hide Digits, Value, Power, ParseRest;
    assert Plain(s);
    ReversePlain(s);
    ReverseNumeral(s, base);
    ParseReversed(s, base);
  }

  /** What `str_to_int` makes of digits, possibly signed, possibly followed by blanks. */
  lemma ReadsBack(t: string, blanks: string, base: nat)
    requires t != [] && Plain(t) && Numeral(t, base) && Blank(blanks)
    ensures var m := ParseRest(t, base, 0);
            && StrToInt(t + blanks, base) == (if m < TWO63 then Done(m) else Halted)
            && StrToInt("-" + t + blanks, base) == (if m < TWO63 then Done(0 - m) else Halted)
  {
    var s := t + blanks;
    ParseStops(t, blanks, base);
    assert PlainChar(s[0]) && (|s| > 1 ==> s[1] != 'x');
    assert ("-" + t + blanks)[1..] == s;
  }

  // ---- round trips ----

  function Abs(v: int): nat {
    if v < 0 then -v else v
  }

  /** The text of `%lld` with a width and the flags `f`. */
  function Decimal(v: int, width: nat, f: Flags): string {
    IntText(Abs(v), v < 0, 10, 0, width, f)
  }

  predicate Int64(v: int) {
    -TWO63 <= v < TWO63
  }

  lemma DecimalReads(v: int, k: int, blanks: string)
    requires Int64(v) && Blank(blanks)
    ensures var t := Padded(Abs(v), 10, false, k);
            && (StrToInt(t + blanks, 10) == Done(v) <==> v >= 0)
            && (StrToInt("-" + t + blanks, 10) == Done(v) <==> v <= 0 && v != -TWO63)
  {
    PaddedReads(Abs(v), 10, false, k);
    FitsRoom(Abs(v), 10);
    ReadsBack(Padded(Abs(v), 10, false, k), blanks, 10);
  }

  lemma DecimalDigits(v: int)
    requires Int64(v)
    ensures |Digits(Abs(v), 10, false, ROOM)| <= 20
  {
    PowerOfTen();
    DigitsShort(Abs(v), 10, false, ROOM, 20);
  }

  /** The zeros `_ntoa_format` adds under the `0` flag. */
  function ZerosAdded(v: int, width: nat): int {
    Min(if v < 0 && width > 0 then width - 1 else width, ROOM) - |Digits(Abs(v), 10, false, ROOM)|
  }

  /** Without `#` and without a precision, the text is the digits, padded and signed. */
  lemma SimpleText(value: nat, negative: bool, base: nat, width: nat, f: Flags)
    requires 2 <= base <= 16 && !f.hash && !f.precision
    ensures var d, w := Digits(value, base, f.upper, ROOM), FieldWidth(negative, width, f);
            IntText(value, negative, base, 0, width, f) ==
            Laid(Signed(if !f.left && f.zeropad then ZerosTo(d, w) else d, negative, f), w, f)
  {
    hide Digits, Repeat, Laid, Signed;
    assert f.(hash := false) == f;
    assert ZerosTo(Digits(value, base, f.upper, ROOM), 0) == Digits(value, base, f.upper, ROOM);
  }

  lemma ZeroPaddedText(v: int, width: nat)
    requires Int64(v)
    ensures var t := Padded(Abs(v), 10, false, ZerosAdded(v, width));
            Decimal(v, width, NoFlags().(zeropad := true)) == if v < 0 && width <= ROOM then "-" + t + "" else t + ""
  {
    hide Digits, Repeat, IntText, Reverse, Laid;
    var f := NoFlags().(zeropad := true);
    DecimalDigits(v);
    SimpleText(Abs(v), v < 0, 10, width, f);
    var b := ZerosTo(Digits(Abs(v), 10, false, ROOM), FieldWidth(v < 0, width, f));
    LaidUnspaced(Signed(b, v < 0, f), FieldWidth(v < 0, width, f), f);
    ReverseSnoc(b, '-');
  }

  lemma LaidUnspaced(b: string, width: nat, f: Flags)
    requires f.zeropad && !f.left
    ensures Laid(b, width, f) == Reverse(b) == Reverse(b) + ""
  {
  }

  /**
   `%0*lld` read back in base 10: right for every value but the least one, except that a field wider than the
   buffer loses the sign.
   */
  lemma ZeroPaddedRoundTrip(v: int, width: nat)
    requires Int64(v)
    ensures StrToInt(Decimal(v, width, NoFlags().(zeropad := true)), 10) == Done(v) <==>
            v >= 0 || (v != -TWO63 && width <= ROOM)
  {
    ZeroPaddedText(v, width);
    DecimalReads(v, ZerosAdded(v, width), "");
    hide Decimal, ZerosAdded, Padded, StrToInt;
  }

  lemma SignFirst(d: string, negative: bool, f: Flags)
    requires |d| < ROOM && !f.plus && !f.space
    ensures Reverse(Signed(d, negative, f)) == (if negative then "-" else "") + Reverse(d)
  {
    ReverseSnoc(d, '-');
  }

  lemma LaidOut(b: string, width: nat, f: Flags)
    requires f.zeropad ==> f.left
    ensures var t := Reverse(b);
            Laid(b, width, f) == if f.left then t + Repeat(' ', width - |t|) else Repeat(' ', width - |t|) + t
    ensures Laid(b, 0, f) == Reverse(b)
  {
  }

  lemma UnpaddedText(v: int, width: nat, f: Flags)
    requires Int64(v) && f == NoFlags().(left := f.left, zeropad := f.left && f.zeropad)
    ensures var t := (if v < 0 then "-" else "") + Padded(Abs(v), 10, false, 0);
            && Decimal(v, 0, f) == t && "" + Padded(Abs(v), 10, false, 0) == Padded(Abs(v), 10, false, 0)
            && Decimal(v, width, f) == if f.left then t + Repeat(' ', width - |t|) else Repeat(' ', width - |t|) + t
  {
    hide Digits, Repeat, IntText, Reverse, Signed, Laid;
    DecimalDigits(v);
    SimpleText(Abs(v), v < 0, 10, 0, f);
    SimpleText(Abs(v), v < 0, 10, width, f);
    var d := Digits(Abs(v), 10, false, ROOM);
    assert d + Repeat('0', 0) == d;
    SignFirst(d, v < 0, f);
    LaidOut(Signed(d, v < 0, f), width, f);
  }

  /** `%-*lld`, with or without the `0` flag: the blanks behind the number end the reading, so nothing is lost. */
  lemma LeftRoundTrip(v: int, width: nat, zeropad: bool)
    requires Int64(v)
    ensures StrToInt(Decimal(v, width, NoFlags().(left := true, zeropad := zeropad)), 10) == Done(v) <==> v != -TWO63
  {
    var f := NoFlags().(left := true, zeropad := zeropad);
    UnpaddedText(v, width, f);
    var t := Padded(Abs(v), 10, false, 0);
    var blanks := Repeat(' ', width - |(if v < 0 then "-" else "") + t|);
    DecimalReads(v, 0, blanks);
    hide Decimal, Padded, StrToInt;
  }

  /** `%*lld`: blanks in front make `str_to_int` stop at once, so only an unpadded number, or zero, is read back. */
  lemma RightRoundTrip(v: int, width: nat)
    requires Int64(v)
    ensures StrToInt(Decimal(v, width, NoFlags()), 10) == Done(v) <==>
            v == 0 || (v != -TWO63 && width <= |Decimal(v, 0, NoFlags())|)
  {
    UnpaddedText(v, width, NoFlags());
    var t := Decimal(v, 0, NoFlags());
    var blanks := Repeat(' ', width - |t|);
    if width <= |t| {
      assert blanks + t == t && t + "" == t;
      DecimalReads(v, 0, "");
    } else {
      assert (blanks + t)[0] == ' ';
    }
  }

  /** `%0*llx` and `%0*llX` read back in base 16. */
  lemma HexRoundTrip(v: nat, upper: bool, width: nat)
    requires v < TWO64
    ensures StrToInt(IntText(v, false, 16, 0, width, NoFlags().(zeropad := true, upper := upper)), 16) == Done(v) <==>
            v < TWO63
  {
    var k := Min(width, ROOM) - |Digits(v, 16, upper, ROOM)|;
    HexText(v, upper, width);
    PaddedReads(v, 16, upper, k);
    FitsRoom(v, 16);
    hide IntText, Padded, StrToInt, Power, ParseRest, Digits;
    ReadsBack(Padded(v, 16, upper, k), "", 16);
  }

  lemma HexText(v: nat, upper: bool, width: nat)
    ensures IntText(v, false, 16, 0, width, NoFlags().(zeropad := true, upper := upper)) ==
            Padded(v, 16, upper, Min(width, ROOM) - |Digits(v, 16, upper, ROOM)|) + ""
  {
    hide Digits, Repeat, IntText, Reverse;
    SimpleText(v, false, 16, width, NoFlags().(zeropad := true, upper := upper));
  }

  lemma HexDigits(v: nat, upper: bool)
    requires v < TWO64
    ensures |Digits(v, 16, upper, ROOM)| <= 20
  {
    PowerOfTen();
    PowerMono(10, 16, 20);
    DigitsShort(v, 16, upper, ROOM, 20);
  }

  lemma HashText(v: nat, upper: bool)
    requires 0 < v < TWO64
    ensures IntText(v, false, 16, 0, 0, NoFlags().(hash := true, upper := upper)) ==
            (if upper then "0X" else "0x") + Padded(v, 16, upper, 0)
  {
    HexDigits(v, upper);
    var d := Digits(v, 16, upper, ROOM);
    hide Digits, Repeat;
    assert ZerosTo(d, 0) == d && d + Repeat('0', 0) == d;
    var x := if upper then 'X' else 'x';
    ReverseSnoc(d, x);
    ReverseSnoc(d + [x], '0');
  }

  /**
   `%#llx` is read back in the default base, because its prefix selects base 16; the prefix of `%#llX` is not
   understood.
   */
  lemma HashRoundTrip(v: nat, upper: bool)
    requires v < TWO64
    ensures StrToInt(IntText(v, false, 16, 0, 0, NoFlags().(hash := true, upper := upper)), 10) == Done(v) <==>
            v == 0 || (!upper && v < TWO63)
  {
    if v == 0 {
      ZeroText(upper);
      hide IntText;
    } else {
      HashText(v, upper);
      PaddedReads(v, 16, upper, 0);
      FitsRoom(v, 16);
      var t := Padded(v, 16, upper, 0);
      hide IntText, Padded, Power, Digits, Plain;
      if upper {
        UpperPrefix(t);
      } else {
        assert ("0x" + t)[2..] == t;
      }
    }
  }

  lemma UpperPrefix(t: string)
    ensures StrToInt("0X" + t, 10) == Done(0)
  {
    var s := "0X" + t;
    assert s[1..][0] == 'X';
    assert DigitValue('0') == 0;
    assert ParseRest(s[1..], 10, 0) == 0;
    assert ParseRest(s, 10, 0) == 0;
  }

  lemma ZeroText(upper: bool)
    ensures IntText(0, false, 16, 0, 0, NoFlags().(hash := true, upper := upper)) == "0" && StrToInt("0", 10) == Done(0)
  {
    assert DigitValue('0') == 0 && "0"[1..] == [];
    assert ParseRest("0", 10, 0) == ParseRest([], 10, 0);
    assert Digits(0, 16, upper, ROOM) == "0";
    assert ZerosTo("0", 0) == "0";
  }

  /** `%llb` keeps the low 32 bits only: the digit loop stops when its buffer is full. */
  lemma BinaryRoundTrip(v: nat)
    requires v < TWO64
    ensures var r := StrToInt(IntText(v, false, 2, 0, 0, NoFlags()), 2);
            r == Done(v % TWO32) && (r == Done(v) <==> v < TWO32)
  {
    BinaryReads(v);
    PowerOfTwo();
    hide IntText, StrToInt, Power;
  }

  lemma BinaryReads(v: nat)
    ensures StrToInt(IntText(v, false, 2, 0, 0, NoFlags()), 2) == Done(v % Power(2, 32))
  {
    BinaryText(v);
    PaddedReads(v, 2, false, 0);
    hide IntText, Padded, StrToInt, ParseRest, Digits, Power;
    ReadsBack(Padded(v, 2, false, 0), "", 2);
    PowerOfTwo();
  }

  lemma BinaryText(v: nat)
    ensures IntText(v, false, 2, 0, 0, NoFlags()) == Padded(v, 2, false, 0) + ""
  {
    SimpleText(v, false, 2, 0, NoFlags());
    hide Digits, Repeat, IntText;
    assert Digits(v, 2, false, ROOM) + Repeat('0', 0) == Digits(v, 2, false, ROOM);
  }

  // ---- through the formatter ----

  /** A 64-bit value as the argument word that carries it. */
  function AsWord(v: int): nat
    requires Int64(v)
  {
    if v < 0 then v + TWO64 else v
  }

  lemma WordIsValue(v: int)
    requires Int64(v)
    ensures Printf.TwosComplement(AsWord(v), Printf.Long) == v
  {
    SmallMod(AsWord(v), TWO64);
  }

  /** Any mixture of the two flags that place a number in its field. */
  predicate Placing(fl: string) {
    forall i :: 0 <= i < |fl| ==> fl[i] == '0' || fl[i] == '-'
  }

  lemma PlacingFlags(fl: string)
    requires Placing(fl)
    ensures Printf.AllFlags(fl)
    ensures Printf.FlagsOf(fl, NoFlags()) == NoFlags().(left := '-' in fl, zeropad := '0' in fl)
  {
    PlacingOnto(fl, NoFlags());
  }

  lemma PlacingOne(f: Flags, c: char)
    requires c == '0' || c == '-'
    ensures Printf.WithFlag(f, c) == Some(f.(left := f.left || c == '-', zeropad := f.zeropad || c == '0'))
  {
  }

  lemma {:induction false} PlacingOnto(fl: string, f: Flags)
    requires Placing(fl)
    ensures Printf.AllFlags(fl)
    ensures Printf.FlagsOf(fl, f) == f.(left := f.left || '-' in fl, zeropad := f.zeropad || '0' in fl)
  {
    if fl != [] {
      hide Printf.WithFlag;
      PlacingOne(f, fl[0]);
      PlacingOne(NoFlags(), fl[0]);
      PlacingOnto(fl[1..], Printf.WithFlag(f, fl[0]).value);
      assert fl == [fl[0]] + fl[1..];
    }
  }

  /**
   When a decimal number comes back: on the left always, with zeros unless the sign is lost, with blanks only
   unpadded.
   */
  predicate DecimalSurvives(fl: string, width: nat, v: int) {
    if '-' in fl then v != -TWO63
    else if '0' in fl then v >= 0 || (v != -TWO63 && width <= ROOM)
    else v == 0 || (v != -TWO63 && width <= |Decimal(v, 0, NoFlags())|)
  }

  /** `snprintf` with `%*lld` under any placing flags, then `str_to_int`. */
  lemma PrintThenParse(fl: string, width: nat, v: int)
    requires Placing(fl) && Int64(v) && width < TWO32 / 2
    ensures var r := Printf.Rendered(Printf.Format(fl, true, 'd'), 0, [Printf.Word(width), Printf.Word(AsWord(v))], 0);
            r.Done? && (StrToInt(r.value, 10) == Done(v) <==> DecimalSurvives(fl, width, v))
  {
    hide Printf.Rendered, Printf.Format, StrToInt, IntText, Printf.FlagsOf, Placing;
    PlacingFlags(fl);
    Printf.FormatPrints(fl, true, 'd', [Printf.Word(width), Printf.Word(AsWord(v))], width, AsWord(v));
    WordIsValue(v);
    hide Printf.TwosComplement, AsWord;
    if '-' in fl {
      LeftRoundTrip(v, width, '0' in fl);
    } else if '0' in fl {
      ZeroPaddedRoundTrip(v, width);
    } else {
      RightRoundTrip(v, width);
    }
  }

  lemma OneFlag(c: char)
    requires Printf.WithFlag(NoFlags(), c).Some?
    ensures Printf.AllFlags([c]) && Printf.FlagsOf([c], NoFlags()) == Printf.WithFlag(NoFlags(), c).value
  {
    assert [c][1..] == [];
  }

  lemma NoFlag()
    ensures Printf.AllFlags([]) && Printf.FlagsOf([], NoFlags()) == NoFlags()
  {
  }

  function HexLetter(upper: bool): char {
    if upper then 'X' else 'x'
  }

  /** `snprintf` with `%0*llx` or `%0*llX`, then `str_to_int` in base 16. */
  lemma PrintThenParseHex(upper: bool, width: nat, v: nat)
    requires v < TWO64 && width < TWO32 / 2
    ensures var args := [Printf.Word(width), Printf.Word(v)];
            var r := Printf.Rendered(Printf.Format(['0'], true, HexLetter(upper)), 0, args, 0);
            r.Done? && (StrToInt(r.value, 16) == Done(v) <==> v < TWO63)
  {
    hide Printf.Rendered, Printf.Format, StrToInt, IntText, Printf.FlagsOf;
    OneFlag('0');
    Printf.FormatPrints(['0'], true, HexLetter(upper), [Printf.Word(width), Printf.Word(v)], width, v);
    SmallMod(v, TWO64);
    HexRoundTrip(v, upper, width);
  }

  /** `snprintf` with `%#llx` or `%#llX`, then `str_to_int` in its default base. */
  lemma PrintThenParseHash(upper: bool, v: nat)
    requires v < TWO64
    ensures var r := Printf.Rendered(Printf.Format(['#'], false, HexLetter(upper)), 0, [Printf.Word(v)], 0);
            r.Done? && (StrToInt(r.value, 10) == Done(v) <==> v == 0 || (!upper && v < TWO63))
  {
    hide Printf.Rendered, Printf.Format, StrToInt, IntText, Printf.FlagsOf;
    OneFlag('#');
    Printf.FormatPrints(['#'], false, HexLetter(upper), [Printf.Word(v)], 0, v);
    SmallMod(v, TWO64);
    HashRoundTrip(v, upper);
  }

  /** `snprintf` with `%llb`, then `str_to_int` in base 2. */
  lemma PrintThenParseBinary(v: nat)
    requires v < TWO64
    ensures var r := Printf.Rendered(Printf.Format([], false, 'b'), 0, [Printf.Word(v)], 0);
            r.Done? && StrToInt(r.value, 2) == Done(v % TWO32)
              && (StrToInt(r.value, 2) == Done(v) <==> v < TWO32)
  {
    hide Printf.Rendered, Printf.Format, StrToInt, IntText, Printf.FlagsOf;
    NoFlag();
    Printf.FormatPrints([], false, 'b', [Printf.Word(v)], 0, v);
    SmallMod(v, TWO64);
    BinaryRoundTrip(v);
  }
}
