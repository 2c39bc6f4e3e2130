/** What a number looks like when it is printed: numeral, zeros, prefix, sign and field (kernel/src/util/printf.cc). */
module PrintNumbers {
  import opened Machine
  import opened PrintText
  import opened PrintRoundTrip

  // ---- numerals ----

  /** c is a digit of the base, in the case asked for. */
  predicate IsDigitOf(c: char, base: nat, upper: bool) {
    var letter := if upper then 'A' else 'a';
    ('0' <= c <= '9' && c as int - '0' as int < base)
    || (letter <= c <= 'z' && c as int - letter as int + 10 < base)
  }

  predicate AllDigits(t: string, base: nat, upper: bool) {
    forall i :: 0 <= i < |t| ==> IsDigitOf(t[i], base, upper)
  }

  lemma {:induction false} DigitsAreDigits(value: nat, base: nat, upper: bool, room: nat)
    requires 2 <= base <= 16 && room > 0
    ensures AllDigits(Digits(value, base, upper, room), base, upper)
    decreases room
  {
    hide Digits;
    DigitsUnfold(value, base, upper, room);
    QuotientNat(value, base);
    if value / base != 0 && room > 1 {
      DigitsAreDigits(value / base, base, upper, room - 1);
    }
  }

  /** The most significant digit is not a zero. */
  lemma {:induction false} TopDigit(value: nat, base: nat, upper: bool, room: nat)
    requires 2 <= base <= 16 && room > 0 && 0 < value < Power(base, room)
    ensures var d := Digits(value, base, upper, room); d[|d| - 1] != '0'
    decreases room
  {
    hide Digits, Power;
    DigitsUnfold(value, base, upper, room);
    QuotientBelow(value, base, room);
    var q := value / base;
    if q != 0 && room > 1 {
      TopDigit(q, base, upper, room - 1);
    } else {
      SmallQuotient(value, base);
    }
  }

  lemma SmallQuotient(value: nat, base: nat)
    requires 2 <= base <= 16 && value > 0 && value / base == 0
    ensures Digit(value % base, true) != '0' && Digit(value % base, false) != '0'
  {
    DivisionLaw(value, base);
  }

  lemma {:induction false} ReverseJoin(a: string, b: string)
    ensures Reverse(a + b) == Reverse(b) + Reverse(a)
  {
    if a == [] {
      assert a + b == b;
    } else {
      assert (a + b)[1..] == a[1..] + b;
      ReverseJoin(a[1..], b);
    }
  }

  lemma {:induction false} ReverseAt(s: string, k: nat)
    requires k < |s|
    ensures Reverse(s)[k] == s[|s| - 1 - k]
  {
    if k < |s| - 1 {
      ReverseAt(s[1..], k);
    }
  }

  /** The digits of a value, most significant first. */
  function NumeralOf(value: nat, base: nat, upper: bool): string
    requires 2 <= base <= 16
  {
    Reverse(Digits(value, base, upper, ROOM))
  }

  /**
   The numeral of a value that fits the buffer: digits of the base, in the right case, without a leading zero, and worth
   the value.
   */
  lemma NumeralIs(value: nat, base: nat, upper: bool)
    requires 2 <= base <= 16 && value < Power(base, ROOM)
    ensures var t := NumeralOf(value, base, upper);
            && t != [] && AllDigits(t, base, upper) && (|t| > 1 ==> t[0] != '0') && ParseRest(t, base, 0) == value
            && (value > 0 ==> t[0] != '0')
  {
    hide Digits, Power, Reverse, ParseRest;
    var d := Digits(value, base, upper, ROOM);
    DigitsAccepted(value, base, upper, ROOM);
    DigitsValue(value, base, upper, ROOM);
    SmallMod(value, Power(base, ROOM));
    ParseReversed(d, base);
    DigitsAreDigits(value, base, upper, ROOM);
    forall i | 0 <= i < |d| ensures Reverse(d)[i] == d[|d| - 1 - i] {
      ReverseAt(d, i);
    }
    if value > 0 {
      TopDigit(value, base, upper, ROOM);
    } else {
      DigitsUnfold(0, base, upper, ROOM);
      NoQuotient(base);
    }
  }

  lemma NoQuotient(base: nat)
    requires base > 0
    ensures 0 / base == 0
  {
  }

  // ---- the parts around it ----

  function SignText(negative: bool, f: Flags): string {
    if negative then "-" else if f.plus then "+" else if f.space then " " else ""
  }

  function PrefixText(base: nat, f: Flags): string {
    if !f.hash then "" else if base == 16 then (if f.upper then "0X" else "0x") else if base == 2 then "0b" else "0"
  }

  /** The zeros between prefix and numeral that a precision, or the `0` flag and a width, ask for. */
  function ZeroCount(n: nat, negative: bool, base: nat, prec: nat, width: nat, f: Flags): (z: nat)
  {
    var fill := width - |SignText(negative, f)| - |PrefixText(base, f)|;
    if f.left then 0
    else if f.zeropad && fill > n && fill > prec then fill - n
    else if prec > n then prec - n
    else 0
  }

  function Whole(numeral: string, negative: bool, base: nat, prec: nat, width: nat, f: Flags): string {
    SignText(negative, f) + PrefixText(base, f) + Repeat('0', ZeroCount(|numeral|, negative, base, prec, width, f))
    + numeral
  }

  /** In a field: blanks in front, or behind under the `-` flag. */
  function InField(t: string, width: nat, left: bool): string {
    if left then t + Repeat(' ', width - |t|) else Repeat(' ', width - |t|) + t
  }

  /** What the callers of the conversion see to. */
  predicate Consistent(n: nat, negative: bool, base: nat, prec: nat, f: Flags) {
    && n <= ROOM && (prec > 0 ==> f.precision) && (f.zeropad ==> !f.precision)
    && (f.hash ==> n > 0 && base in {2, 8, 16} && !negative && !f.plus && !f.space)
  }

  /**
   A `#` without a precision takes back one place (two in base 16) when digits and zeros just fill the width. That is
   right only where those places are zeros put there for it.
   */
  predicate TakesDigits(n: nat, base: nat, width: nat, f: Flags) {
    f.hash && !f.precision &&
    if f.zeropad && !f.left && n < width then
      (if base == 16 then n + 2 > width else base == 2 && n + 1 < width) && width <= ROOM
    else n == width
  }

  /** Everything fits the conversion buffer and nothing is taken back wrongly. */
  predicate Regular(n: nat, negative: bool, base: nat, prec: nat, width: nat, f: Flags) {
    && n + ZeroCount(n, negative, base, prec, width, f) + |PrefixText(base, f)| + |SignText(negative, f)| <= ROOM
    && !TakesDigits(n, base, width, f)
  }

  /** The conversion buffer that holds the whole number, least significant character first. */
  function WholeBuffer(digits: string, negative: bool, base: nat, prec: nat, width: nat, f: Flags): string {
    digits + Repeat('0', ZeroCount(|digits|, negative, base, prec, width, f)) + Reverse(PrefixText(base, f))
    + Reverse(SignText(negative, f))
  }

  /** How many zeros the buffer gets before prefix and sign. */
  function Filled(n: nat, prec: nat, w: nat, f: Flags): (c: int) {
    if f.left then 0
    else if f.zeropad then Min(w, ROOM) - n
    else Min(prec, ROOM) - n
  }

  lemma FilledBuffer(digits: string, negative: bool, base: nat, prec: nat, width: nat, f: Flags)
    requires Consistent(|digits|, negative, base, prec, f)
    ensures var w := FieldWidth(negative, width, f);
            var b := digits + Repeat('0', Filled(|digits|, prec, w, f));
            Buffer(digits, negative, base, prec, width, f) ==
            Signed(if f.hash then Prefixed(b, base, prec, w, f) else b, negative, f)
  {
    hide Signed, Prefixed, Repeat;
    var w := FieldWidth(negative, width, f);
    assert digits + Repeat('0', 0) == digits;
    if !f.left && f.zeropad {
      assert ZerosTo(digits, prec) == digits;
    }
  }

  lemma SignedIs(b: string, negative: bool, f: Flags)
    ensures |b| + |SignText(negative, f)| <= ROOM ==> Signed(b, negative, f) == b + Reverse(SignText(negative, f))
    ensures |b| <= ROOM ==> |Signed(b, negative, f)| <= ROOM
  {
    OneReversed('-');
    OneReversed('+');
    OneReversed(' ');
  }

  lemma OneReversed(c: char)
    ensures Reverse([c]) == [c] && Reverse([]) == []
  {
    assert [c][1..] == [];
  }

  /** Without a `#` the buffer holds the whole number exactly when it is long enough. */
  lemma PlainBuffer(digits: string, negative: bool, base: nat, prec: nat, width: nat, f: Flags)
    requires Consistent(|digits|, negative, base, prec, f) && !f.hash
    ensures Buffer(digits, negative, base, prec, width, f) == WholeBuffer(digits, negative, base, prec, width, f) <==>
            Regular(|digits|, negative, base, prec, width, f)
  {
    hide Buffer, Signed, Repeat, Reverse;
    FilledBuffer(digits, negative, base, prec, width, f);
    var n := |digits|;
    var c := Filled(n, prec, FieldWidth(negative, width, f), f);
    var z := ZeroCount(n, negative, base, prec, width, f);
    var b := digits + Repeat('0', c);
    OneReversed(' ');
    SignedIs(b, negative, f);
    if Regular(n, negative, base, prec, width, f) {
      assert Repeat('0', c) == Repeat('0', z) by { SameRepeat('0', c, z); }
    }
  }

  lemma SameRepeat(c: char, m: int, n: int)
    requires m == n || (m <= 0 && n <= 0)
    ensures Repeat(c, m) == Repeat(c, n)
  {
  }

  /** What is left of b when the `#` has taken its places back. */
  function AfterTaking(b: string, base: nat, prec: nat, w: nat, f: Flags): string {
    if !f.precision && |b| > 0 && (|b| == prec || |b| == w)
    then var n := |b| - 1; b[..if n > 0 && base == 16 then n - 1 else n]
    else b
  }

  /** The letter of a prefix. */
  function Mark(base: nat, f: Flags): char {
    if base == 2 then 'b' else if f.upper then 'X' else 'x'
  }

  lemma PrefixedIs(b: string, base: nat, prec: nat, w: nat, f: Flags)
    requires f.hash && base in {2, 8, 16} && |b| <= ROOM
    ensures var a, p := AfterTaking(b, base, prec, w, f), Prefixed(b, base, prec, w, f);
            && |a| <= ROOM && |p| <= ROOM
            && (|a| + |PrefixText(base, f)| <= ROOM ==> p == a + Reverse(PrefixText(base, f)))
            && (|a| == ROOM ==> p == a)
            && (|a| < ROOM ==> |p| > |a| && p[..|a|] == a && (base != 8 ==> p[|a|] == Mark(base, f)))
            && (base == 8 && |a| < ROOM ==> |p| == |a| + 1)
  {
    TwoReversed('0', Mark(base, f));
    OneReversed('0');
  }

  lemma TwoReversed(c: char, d: char)
    ensures Reverse([c, d]) == [d, c]
  {
    assert [c, d][1..] == [d];
    OneReversed(d);
  }

  /** What is left is the digits and the right number of zeros exactly when no digit was taken. */
  lemma TakenIff(digits: string, base: nat, prec: nat, width: nat, f: Flags)
    requires Consistent(|digits|, false, base, prec, f) && f.hash
    ensures var n, c := |digits|, Filled(|digits|, prec, width, f);
            var a := AfterTaking(digits + Repeat('0', c), base, prec, width, f);
            var z := ZeroCount(n, false, base, prec, width, f);
            && (Regular(n, false, base, prec, width, f) ==> a == digits + Repeat('0', z))
            && (|a| == n + z && n + z + |PrefixText(base, f)| <= ROOM ==> Regular(n, false, base, prec, width, f))
            && (base == 8 && |a| == ROOM ==> n + z >= ROOM)
  {
    hide Repeat;
    var n, c := |digits|, Filled(|digits|, prec, width, f);
    var b := digits + Repeat('0', c);
    var a, z := AfterTaking(b, base, prec, width, f), ZeroCount(n, false, base, prec, width, f);
    if Regular(n, false, base, prec, width, f) {
      assert |a| == n + z;
      assert |a| >= n;
      assert forall i :: 0 <= i < |a| ==> a[i] == (digits + Repeat('0', z))[i];
    }
  }

  lemma NoMark(t: string, base: nat, upper: bool, f: Flags)
    requires AllDigits(t, base, upper) && base in {2, 16}
    ensures Mark(base, f) !in t && Mark(base, f) != '0'
  {
  }

  /** With a `#` the buffer holds the whole number exactly when it is long enough and no digit is taken back. */
  lemma HashBuffer(digits: string, base: nat, prec: nat, width: nat, f: Flags, upper: bool)
    requires Consistent(|digits|, false, base, prec, f) && f.hash && AllDigits(digits, base, upper)
    ensures Buffer(digits, false, base, prec, width, f) == WholeBuffer(digits, false, base, prec, width, f) <==>
            Regular(|digits|, false, base, prec, width, f)
  {
    hide Buffer, Signed, Prefixed, Repeat, Reverse, AfterTaking, Regular, ZeroCount, AllDigits, Filled;
    var n, w := |digits|, FieldWidth(false, width, f);
    assert w == width;
    var c, z := Filled(n, prec, w, f), ZeroCount(n, false, base, prec, width, f);
    FilledBuffer(digits, false, base, prec, width, f);
    var b := digits + Repeat('0', c);
    FilledFits(n, prec, w, f);
    var p, a := Prefixed(b, base, prec, w, f), AfterTaking(b, base, prec, w, f);
    PrefixedIs(b, base, prec, w, f);
    TakenIff(digits, base, prec, width, f);
    OneReversed(' ');
    NoSign(p, f);
    var whole := WholeBuffer(digits, false, base, prec, width, f);
    var front := digits + Repeat('0', z);
    assert whole == front + Reverse(PrefixText(base, f));
    if Regular(n, false, base, prec, width, f) {
      RegularFits(n, base, prec, width, f);
    } else if p == whole {
      SamePlace(digits, c, z, a, p, base, prec, width, f, upper);
    }
  }

  lemma FilledFits(n: nat, prec: nat, w: nat, f: Flags)
    requires n <= ROOM
    ensures n + (if Filled(n, prec, w, f) > 0 then Filled(n, prec, w, f) else 0) <= ROOM
  {
  }

  lemma RegularFits(n: nat, base: nat, prec: nat, width: nat, f: Flags)
    requires Regular(n, false, base, prec, width, f)
    ensures n + ZeroCount(n, false, base, prec, width, f) + |PrefixText(base, f)| <= ROOM
  {
  }

  lemma NoSign(p: string, f: Flags)
    ensures !f.plus && !f.space ==> Signed(p, false, f) == p && SignText(false, f) == ""
  {
  }

  /** Two buffers that are the same have their prefix at the same place. */
  lemma SamePlace(digits: string, c: int, z: nat, a: string, p: string, base: nat, prec: nat, width: nat, f: Flags,
                  upper: bool)
    requires Consistent(|digits|, false, base, prec, f) && f.hash && AllDigits(digits, base, upper)
    requires c == Filled(|digits|, prec, width, f) && z == ZeroCount(|digits|, false, base, prec, width, f)
    requires a == AfterTaking(digits + Repeat('0', c), base, prec, width, f) && |a| <= ROOM && |p| <= ROOM
    requires p == digits + Repeat('0', z) + Reverse(PrefixText(base, f))
    requires |a| == ROOM ==> p == a
    requires |a| < ROOM ==> |p| > |a| && p[..|a|] == a && (base != 8 ==> p[|a|] == Mark(base, f))
    requires base == 8 && |a| < ROOM ==> |p| == |a| + 1
    ensures Regular(|digits|, false, base, prec, width, f)
  {
    hide Repeat, Reverse, Regular, Filled, ZeroCount;
    var n := |digits|;
    TakenIff(digits, base, prec, width, f);
    PrefixSize(base, f);
    if base != 8 {
      NoMark(digits, base, upper, f);
      assert p[n + z] == Mark(base, f);
      assert forall i :: 0 <= i < n + z ==> p[i] != Mark(base, f);
      assert forall i :: 0 <= i < |a| ==> a[i] != Mark(base, f);
    }
  }

  lemma PrefixSize(base: nat, f: Flags)
    requires f.hash && base in {2, 8, 16}
    ensures |PrefixText(base, f)| == if base == 8 then 1 else 2
    ensures base != 8 ==> Reverse(PrefixText(base, f)) == [Mark(base, f), '0']
    ensures base == 8 ==> Reverse(PrefixText(base, f)) == ['0']
  {
    TwoReversed('0', Mark(base, f));
    OneReversed('0');
  }

  // ---- the whole text ----

  lemma BufferWhole(digits: string, negative: bool, base: nat, prec: nat, width: nat, f: Flags, upper: bool)
    requires Consistent(|digits|, negative, base, prec, f) && AllDigits(digits, base, upper)
    ensures Buffer(digits, negative, base, prec, width, f) == WholeBuffer(digits, negative, base, prec, width, f) <==>
            Regular(|digits|, negative, base, prec, width, f)
  {
    hide Buffer, WholeBuffer, Regular;
    if f.hash {
      HashBuffer(digits, base, prec, width, f, upper);
    } else {
      PlainBuffer(digits, negative, base, prec, width, f);
    }
  }

  lemma WholeReversed(digits: string, negative: bool, base: nat, prec: nat, width: nat, f: Flags)
    ensures Reverse(WholeBuffer(digits, negative, base, prec, width, f)) ==
            Whole(Reverse(digits), negative, base, prec, width, f)
  {
    hide Reverse, Repeat, SignText, PrefixText;
    var zeros := Repeat('0', ZeroCount(|digits|, negative, base, prec, width, f));
    var p, s := PrefixText(base, f), SignText(negative, f);
    ReverseJoin(digits + zeros + Reverse(p), Reverse(s));
    ReverseJoin(digits + zeros, Reverse(p));
    ReverseJoin(digits, zeros);
    ReverseTwice(p);
    ReverseTwice(s);
    ReverseRepeat('0', ZeroCount(|digits|, negative, base, prec, width, f));
    assert s + (p + (zeros + Reverse(digits))) == s + p + zeros + Reverse(digits);
  }

  lemma ReverseTwice(t: string)
    ensures Reverse(Reverse(t)) == t
  {
    hide Reverse;
    forall i | 0 <= i < |t| ensures Reverse(Reverse(t))[i] == t[i] {
      ReverseAt(Reverse(t), i);
      ReverseAt(t, |t| - 1 - i);
    }
  }

  lemma ReverseRepeat(c: char, n: nat)
    ensures Reverse(Repeat(c, n)) == Repeat(c, n)
  {
    hide Reverse;
    forall i | 0 <= i < n ensures Reverse(Repeat(c, n))[i] == c {
      ReverseAt(Repeat(c, n), i);
    }
  }

  /** Zeros fill the field as far as it goes. */
  lemma WholeFills(t: string, negative: bool, base: nat, prec: nat, width: nat, f: Flags)
    requires f.zeropad && !f.left && (prec > 0 ==> f.precision) && (f.zeropad ==> !f.precision)
    ensures |Whole(t, negative, base, prec, width, f)| >= width
  {
    hide Repeat, SignText, PrefixText;
  }

  lemma {:induction false} LaidField(b: string, w: nat, width: nat, f: Flags)
    requires if !f.left && f.zeropad then |b| >= width else w == width
    ensures Laid(b, w, f) == InField(Reverse(b), width, f.left)
  {
    hide Reverse, Repeat;
    var t, blanks := Reverse(b), Repeat(' ', width - |b|);
    if f.left {
      assert [] + t + blanks == t + blanks;
    } else if f.zeropad {
      assert blanks == [] && [] + t + [] == [] + t;
    } else {
      assert blanks + t + [] == blanks + t;
    }
  }

  /** A whole number in its field: where zeros fill the field no blanks are left to fill. */
  lemma LaidWhole(digits: string, negative: bool, base: nat, prec: nat, width: nat, f: Flags)
    requires Consistent(|digits|, negative, base, prec, f)
    ensures Laid(WholeBuffer(digits, negative, base, prec, width, f), FieldWidth(negative, width, f), f) ==
            InField(Whole(Reverse(digits), negative, base, prec, width, f), width, f.left)
  {
    hide Reverse, Laid, InField, Whole, WholeBuffer;
    WholeReversed(digits, negative, base, prec, width, f);
    if !f.left && f.zeropad {
      WholeFills(Reverse(digits), negative, base, prec, width, f);
    }
    LaidField(WholeBuffer(digits, negative, base, prec, width, f), FieldWidth(negative, width, f), width, f);
  }

  /** Zero has no prefix, and no digits either under a precision. */
  function NumberFlags(value: nat, f: Flags): Flags {
    if value == 0 then f.(hash := false) else f
  }

  function Numeral0(value: nat, base: nat, f: Flags): string
    requires 2 <= base <= 16
  {
    if f.precision && value == 0 then "" else NumeralOf(value, base, f.upper)
  }

  /** The text of one integer: sign, prefix, zeros and numeral in a field, wherever nothing is lost. */
  lemma IntTextIs(value: nat, negative: bool, base: nat, prec: nat, width: nat, f: Flags)
    requires 2 <= base <= 16
    requires var n, g := |Numeral0(value, base, f)|, NumberFlags(value, f);
             Consistent(n, negative, base, prec, g) && Regular(n, negative, base, prec, width, g)
    ensures IntText(value, negative, base, prec, width, f) ==
            InField(Whole(Numeral0(value, base, f), negative, base, prec, width, NumberFlags(value, f)), width, f.left)
  {
    hide Buffer, Laid, InField, Whole, WholeBuffer, Digits, Reverse, Regular, Consistent;
    OneReversed('0');
    var g := NumberFlags(value, f);
    var digits := if f.precision && value == 0 then [] else Digits(value, base, f.upper, ROOM);
    assert Reverse(digits) == Numeral0(value, base, f);
    if digits != [] {
      DigitsAreDigits(value, base, f.upper, ROOM);
    }
    BufferWhole(digits, negative, base, prec, width, g, f.upper);
    LaidWhole(digits, negative, base, prec, width, g);
  }

  lemma FiveDigits()
    ensures Digits(0x12345, 16, false, 32) == "54321"
  {
    assert Digits(0x1, 16, false, 28) == "1";
    assert Digits(0x12, 16, false, 29) == "21";
    assert Digits(0x123, 16, false, 30) == "321";
    assert Digits(0x1234, 16, false, 31) == "4321";
  }

  lemma FiveReversed()
    ensures Reverse("543x0") == "0x345"
  {
    assert "543x0" == "543" + "x0" && "543" == "54" + "3";
    TwoReversed('x', '0');
    TwoReversed('5', '4');
    OneReversed('3');
    hide Reverse;
    ReverseJoin("543", "x0");
    ReverseJoin("54", "3");
  }

  lemma FiveBuffered()
    ensures Buffer("54321", false, 16, 0, 5, NoFlags().(hash := true)) == "543x0"
  {
    var d := "54321";
    hide Repeat;
    assert d + Repeat('0', -5) == d && d[..3] == "543";
  }

  /** `%#5x` of 0x12345: the two leading digits give way to the prefix. */
  lemma DigitsGiveWay()
    ensures TakesDigits(5, 16, 5, NoFlags().(hash := true))
    ensures IntText(0x12345, false, 16, 0, 5, NoFlags().(hash := true)) == "0x345"
  {
    hide Digits, Buffer, Reverse, Repeat;
    FiveDigits();
    FiveBuffered();
    FiveReversed();
    assert Repeat(' ', 0) + "0x345" + [] == "0x345";
  }

  // ---- reading numbers ----

  /**
   `str_to_int` of a sign, a prefix, digits and whatever follows them: the digits' value in the base, or in base 16
   behind a `0x`, with the sign, as long as it stays below 2^63.
   */
  lemma {:induction false} ParsesTo(negative: bool, hex: bool, digits: string, tail: string, base: nat)
    requires var b := if hex then 16 else base;
             digits != [] && Numeral(digits, b) && Numeral(Reverse(digits), b) && Stops(tail, b)
    requires !hex ==> !Hex(digits + tail)
    ensures var m := Value(Reverse(digits), if hex then 16 else base);
            StrToInt((if negative then "-" else "") + ((if hex then "0x" else "") + digits + tail), base) ==
            if m >= TWO63 then Halted else Done(if negative then 0 - m else m)
  {
    hide ParseRest, Reverse, Value, Numeral, Stops;
    var b := if hex then 16 else base;
    ParseStops(digits, tail, b);
    ParseReversed(Reverse(digits), b);
    ReverseTwice(digits);
    var u := (if hex then "0x" else "") + digits + tail;
    FirstAccepted(digits, b);
    SignRead(negative, u);
    if hex {
      assert u[2..] == digits + tail;
    } else {
      assert u == digits + tail;
    }
  }

  lemma FirstAccepted(digits: string, base: nat)
    requires digits != [] && Numeral(digits, base)
    ensures digits[0] != '-'
  {
  }

  lemma {:induction false} SignRead(negative: bool, u: string)
    requires u != [] && u[0] != '-'
    ensures var s := (if negative then "-" else "") + u; Unsigned(s) == u && (Unsigned(s) == s <==> !negative)
  {
    assert ("-" + u)[1..] == u && "" + u == u;
  }
}
