/** What a format string means (kernel/src/util/printf.cc): literal text and directives, one after the other. */
module PrintFormats {
  import opened Machine
  import opened PrintText
  import opened Printf
  import opened PrintNumbers
  import PrintRoundTrip

  datatype Width = NoWidth | WidthNumber(digits: string) | WidthStar

  datatype Precision = NoPrecision | Dot | DotNumber(digits: string) | DotStar

  /** A stretch of ordinary characters, or `%` with flags, width, precision, size and conversion. */
  datatype Piece =
    | Literal(text: string)
    | Directive(flags: string, width: Width, prec: Precision, size: string, conv: char)

  // ---- how a piece is written ----

  function WidthChars(w: Width): string {
    match w case NoWidth => "" case WidthNumber(digits) => digits case WidthStar => "*"
  }

  function PrecisionChars(p: Precision): string {
    match p case NoPrecision => "" case Dot => "." case DotNumber(digits) => "." + digits case DotStar => ".*"
  }

  function Body(d: Piece): string
    requires d.Directive?
  {
    d.flags + WidthChars(d.width) + PrecisionChars(d.prec) + d.size + [d.conv]
  }

  function Chars(p: Piece): string {
    if p.Literal? then p.text else "%" + Body(p)
  }

  function FormatOf(ps: seq<Piece>): string {
    if ps == [] then "" else Chars(ps[0]) + FormatOf(ps[1..])
  }

  predicate IsNumber(t: string) {
    t != [] && forall i :: 0 <= i < |t| ==> '0' <= t[i] <= '9'
  }

  /** A conversion the formatter knows, floating point apart, or a character it prints as it is. */
  predicate IsConversion(c: char) {
    c !in "0123456789-+ #*.lhtjz" && c !in "fFeEgG" && c != NUL
  }

  predicate Written(p: Piece) {
    match p
    case Literal(text) => '%' !in text && NUL !in text
    case Directive(flags, width, prec, size, conv) =>
      && (forall i :: 0 <= i < |flags| ==> flags[i] in "0-+ #")
      && (width.WidthNumber? ==> IsNumber(width.digits) && width.digits[0] != '0')
      && (prec.DotNumber? ==> IsNumber(prec.digits))
      && size in {"", "h", "hh", "l", "ll", "t", "j", "z"}
      && IsConversion(conv)
  }

  // ---- what it means ----

  /** A decimal number in 32 bits. */
  function Number(digits: string): nat {
    ParseRest(digits, 10, 0) % 0x1_0000_0000
  }

  /** The next argument as a C `int`. */
  function IntArg(args: seq<Arg>, a: nat): Outcome<int> {
    if a >= |args| || !args[a].Word? then Halted
    else
      var n := args[a].bits % 0x1_0000_0000;
      Done(if n < 0x8000_0000 then n else n - 0x1_0000_0000)
  }

  /** Width (negative for left-justified), precision if any, and the argument that follows. */
  datatype Layout = Layout(width: int, prec: Option<nat>, arg: nat)

  function LayoutOf(d: Piece, args: seq<Arg>, a: nat): Outcome<Layout>
    requires d.Directive?
  {
    var w := match d.width
      case NoWidth => Done(0)
      case WidthNumber(digits) => Done(Number(digits))
      case WidthStar => IntArg(args, a);
    var b := if d.width.WidthStar? then a + 1 else a;
    if w.Halted? then Halted
    else match d.prec
      case NoPrecision => Done(Layout(w.value, None, b))
      case Dot => Done(Layout(w.value, Some(0), b))
      case DotNumber(digits) => Done(Layout(w.value, Some(Number(digits)), b))
      case DotStar =>
        match IntArg(args, b)
        case Halted => Halted
        case Done(p) => Done(Layout(w.value, Some(if p > 0 then p else 0), b + 1))
  }

  /** How many values an integer of that size has. */
  function Range(size: string): nat {
    if size == "" then 0x1_0000_0000 else if size == "h" then 0x1_0000 else if size == "hh" then 0x100
    else 0x1_0000_0000_0000_0000
  }

  /** The integer a word stands for. */
  function IntegerOf(conv: char, size: string, word: nat): int {
    var n := word % Range(size);
    if conv in "di" && n >= Range(size) / 2 then n - Range(size) else n
  }

  function BaseOf(conv: char): (b: nat)
    ensures b in {2, 8, 10, 16}
  {
    match conv case 'x' => 16 case 'X' => 16 case 'p' => 16 case 'o' => 8 case 'b' => 2 case _ => 10
  }

  /** The flags that count for a number. */
  function NumberFlagsOf(d: Piece, left: bool, precision: bool): Flags
    requires d.Directive?
  {
    var signed := d.conv in "di";
    Flags('0' in d.flags && !precision, left, '+' in d.flags && signed, ' ' in d.flags && signed,
          '#' in d.flags && BaseOf(d.conv) != 10, d.conv == 'X', precision)
  }

  function Magnitude(v: int): nat {
    if v < 0 then -v else v
  }

  function Columns(l: Layout): nat {
    Magnitude(l.width)
  }

  predicate LeftOf(d: Piece, l: Layout)
    requires d.Directive?
  {
    '-' in d.flags || l.width < 0
  }

  function PrecOf(l: Layout): nat {
    if l.prec.Some? then l.prec.value else 0
  }

  /** An integer directive whose text loses nothing to the conversion buffer. */
  predicate Lossless(d: Piece, l: Layout, v: int)
    requires d.Directive?
  {
    var f := NumberFlagsOf(d, LeftOf(d, l), l.prec.Some?);
    var n := |Numeral0(Magnitude(v), BaseOf(d.conv), f)|;
    Regular(n, v < 0, BaseOf(d.conv), PrecOf(l), Columns(l), NumberFlags(Magnitude(v), f))
  }

  function NumberText(d: Piece, l: Layout, v: int): string
    requires d.Directive?
  {
    var f := NumberFlagsOf(d, LeftOf(d, l), l.prec.Some?);
    var base := BaseOf(d.conv);
    InField(Whole(Numeral0(Magnitude(v), base, f), v < 0, base, PrecOf(l), Columns(l), NumberFlags(Magnitude(v), f)),
            Columns(l), f.left)
  }

  /** The characters of a string argument that are printed. */
  function StringText(chars: Option<string>, prec: Option<nat>): string {
    var t := match chars case None => "(null)" case Some(t) => CString(t);
    if prec.Some? && prec.value < |t| then t[..prec.value] else t
  }

  /** What a directive prints, and the argument that comes next. */
  function Means(d: Piece, args: seq<Arg>, a: nat): Outcome<(string, nat)> {
    if d.Literal? then Done((d.text, a))
    else
      match LayoutOf(d, args, a)
      case Halted => Halted
      case Done(l) =>
        if d.conv in "diuxXobcp" then
          if l.arg >= |args| || !args[l.arg].Word? then Halted
          else
            var word := args[l.arg].bits;
            Done((if d.conv == 'c' then InField([(word % 256) as char], Columns(l), LeftOf(d, l))
                  else if d.conv == 'p' then PointerDigits(word)
                  else NumberText(d, l, IntegerOf(d.conv, d.size, word)), l.arg + 1))
        else if d.conv == 's' then
          if l.arg >= |args| || !args[l.arg].Text? then Halted
          else Done((InField(StringText(args[l.arg].chars, l.prec), Columns(l), LeftOf(d, l)), l.arg + 1))
        else Done(([d.conv], l.arg))
  }

  /** Sixteen hexadecimal digits. */
  function PointerDigits(word: nat): string {
    var t := NumeralOf(word % 0x1_0000_0000_0000_0000, 16, true);
    Repeat('0', 16 - |t|) + t
  }

  /** The directives the meaning is exact for: numbers that lose nothing, and pointers without flags or precision. */
  predicate Exact(d: Piece, args: seq<Arg>, a: nat) {
    d.Directive? ==>
      match LayoutOf(d, args, a)
      case Halted => true
      case Done(l) =>
        && (d.conv in "diuxXob" && l.arg < |args| && args[l.arg].Word? ==>
              Lossless(d, l, IntegerOf(d.conv, d.size, args[l.arg].bits)))
        && (d.conv == 'p' ==> d.flags == "" && d.prec.NoPrecision? && l.width >= 0)
  }

  function MeansAll(ps: seq<Piece>, args: seq<Arg>, a: nat): Outcome<string> {
    if ps == [] then Done("")
    else
      match Means(ps[0], args, a)
      case Halted => Halted
      case Done(r) =>
        match MeansAll(ps[1..], args, r.1)
        case Halted => Halted
        case Done(t) => Done(r.0 + t)
  }

  predicate ExactAll(ps: seq<Piece>, args: seq<Arg>, a: nat) {
    ps != [] ==>
      Exact(ps[0], args, a) && (Means(ps[0], args, a).Done? ==> ExactAll(ps[1..], args, Means(ps[0], args, a).value.1))
  }

  // ---- scanning a directive ----

  lemma {:induction false} FlagsAre(fl: string, f: Flags)
    requires AllFlags(fl)
    ensures FlagsOf(fl, f) ==
            f.(zeropad := f.zeropad || '0' in fl, left := f.left || '-' in fl, plus := f.plus || '+' in fl,
               space := f.space || ' ' in fl, hash := f.hash || '#' in fl)
  {
    if fl != [] {
      hide WithFlag;
      assert AllFlags(fl[1..]);
      FlagStep(f, fl[0]);
      FlagsAre(fl[1..], WithFlag(f, fl[0]).value);
      Among(fl, '0');
      Among(fl, '-');
      Among(fl, '+');
      Among(fl, ' ');
      Among(fl, '#');
    }
  }

  lemma FlagStep(f: Flags, c: char)
    requires WithFlag(NoFlags(), c).Some?
    ensures WithFlag(f, c) ==
            Some(f.(zeropad := f.zeropad || c == '0', left := f.left || c == '-', plus := f.plus || c == '+',
                    space := f.space || c == ' ', hash := f.hash || c == '#'))
  {
  }

  lemma Among(t: string, c: char)
    requires t != []
    ensures c in t <==> c == t[0] || c in t[1..]
  {
  }

  lemma ModStep(m: nat, d: nat)
    ensures (m % TWO32 * 10 + d) % TWO32 == (m * 10 + d) % TWO32
  {
    var q, r := m / TWO32, m % TWO32;
    var x := r * 10 + d;
    assert m * 10 + d == q * 10 * TWO32 + x;
    DivModUnique(m * 10 + d, TWO32, q * 10 + x / TWO32, x % TWO32);
  }

  /** A run of digits is read to its end. */
  lemma {:induction false} NumberScanned(s: string, i: nat, digits: string, n: nat, m: nat)
    requires i + |digits| <= |s| && s[i..i + |digits|] == digits && !IsDigit(At(s, i + |digits|))
    requires (forall k :: 0 <= k < |digits| ==> IsDigit(digits[k])) && n == m % TWO32
    ensures NumberFrom(s, i, n) == (ParseRest(digits, 10, m) % TWO32, i + |digits|)
    decreases |digits|
  {
    if digits != [] {
      assert s[i] == digits[0] && s[i + 1..i + |digits|] == digits[1..];
      var d := DigitValue(digits[0]);
      ModStep(m, d);
      NumberScanned(s, i + 1, digits[1..], (n * 10 + d) % TWO32, m * 10 + d);
    }
  }

  lemma NumberRead(s: string, i: nat, digits: string)
    requires IsNumber(digits) && i + |digits| <= |s| && s[i..i + |digits|] == digits && !IsDigit(At(s, i + |digits|))
    ensures IsDigit(At(s, i)) && NumberFrom(s, i, 0) == (Number(digits), i + |digits|)
  {
    assert s[i] == digits[0];
    NumberScanned(s, i, digits, 0, 0);
  }

  /** Where the parts of a directive stand in a format that has it at i, behind the `%`. */
  predicate StandsAt(s: string, i: nat, d: Piece)
    requires d.Directive?
  {
    i + |Body(d)| <= |s| && s[i..i + |Body(d)|] == Body(d)
  }

  function AtWidth(i: nat, d: Piece): nat
    requires d.Directive?
  {
    i + |d.flags|
  }

  function AtPrecision(i: nat, d: Piece): nat
    requires d.Directive?
  {
    AtWidth(i, d) + |WidthChars(d.width)|
  }

  function AtSize(i: nat, d: Piece): nat
    requires d.Directive?
  {
    AtPrecision(i, d) + |PrecisionChars(d.prec)|
  }

  function AtConversion(i: nat, d: Piece): nat
    requires d.Directive?
  {
    AtSize(i, d) + |d.size|
  }

  lemma {:induction false} PartsStand(s: string, i: nat, d: Piece)
    requires d.Directive? && StandsAt(s, i, d)
    ensures AtConversion(i, d) == i + |Body(d)| - 1 < |s| && s[AtConversion(i, d)] == d.conv
    ensures s[i..AtWidth(i, d)] == d.flags
    ensures s[AtWidth(i, d)..AtPrecision(i, d)] == WidthChars(d.width)
    ensures s[AtPrecision(i, d)..AtSize(i, d)] == PrecisionChars(d.prec)
    ensures s[AtSize(i, d)..AtConversion(i, d)] == d.size
  {
    hide WidthChars, PrecisionChars;
    var b, w, p := Body(d), WidthChars(d.width), PrecisionChars(d.prec);
    var n1, n2, n3, n4 := |d.flags|, |d.flags| + |w|, |d.flags| + |w| + |p|, |d.flags| + |w| + |p| + |d.size|;
    FiveParts(d.flags, w, p, d.size, [d.conv]);
    hide Body;
    SubSlice(s, i, b, 0, n1);
    SubSlice(s, i, b, n1, n2);
    SubSlice(s, i, b, n2, n3);
    SubSlice(s, i, b, n3, n4);
    assert s[i + n4] == s[i..i + |b|][n4];
  }

  lemma FiveParts(a: string, b: string, c: string, d: string, e: string)
    ensures var t := a + b + c + d + e;
            && t[..|a|] == a && t[|a|..|a| + |b|] == b && t[|a| + |b|..|a| + |b| + |c|] == c
            && t[|a| + |b| + |c|..|a| + |b| + |c| + |d|] == d && t[|a| + |b| + |c| + |d|..] == e
  {
  }

  lemma SubSlice(s: string, i: nat, b: string, x: nat, y: nat)
    requires i + |b| <= |s| && s[i..i + |b|] == b && x <= y <= |b|
    ensures s[i + x..i + y] == b[x..y]
  {
    forall k | x <= k < y ensures s[i + k] == b[k] {
      assert s[i..i + |b|][k] == b[k];
    }
  }

  /** What follows each part never starts with a character the scanner would take for more of the same. */
  lemma NextChars(s: string, i: nat, d: Piece)
    requires d.Directive? && Written(d) && StandsAt(s, i, d)
    ensures AtConversion(i, d) < |s|
    ensures var c := s[AtSize(i, d)]; c !in "0-+ #*." && !IsDigit(c)
    ensures var c := s[AtPrecision(i, d)]; c !in "0-+ #*" && !IsDigit(c) && (c == '.' <==> !d.prec.NoPrecision?)
    ensures var c := s[AtWidth(i, d)];
            && c !in "0-+ #"
            && (c == '*' <==> d.width.WidthStar?) && (IsDigit(c) <==> d.width.WidthNumber?)
  {
    PartsStand(s, i, d);
    var j1, j2, j3, j4 := AtWidth(i, d), AtPrecision(i, d), AtSize(i, d), AtConversion(i, d);
    hide StandsAt;
    SizeFirst(s, j3, d);
    if !d.prec.NoPrecision? {
      assert s[j2..j3][0] == '.';
    }
    if !d.width.NoWidth? {
      assert s[j1] == s[j1..j2][0];
    }
  }

  lemma SizeFirst(s: string, j: nat, d: Piece)
    requires d.Directive? && Written(d) && j + |d.size| < |s|
    requires s[j..j + |d.size|] == d.size && s[j + |d.size|] == d.conv
    ensures var c := s[j]; c !in "0-+ #*." && !IsDigit(c)
  {
    if d.size != "" {
      assert s[j] == d.size[0];
    }
  }

  lemma NotFlag(c: char, f: Flags)
    requires c !in "0-+ #"
    ensures WithFlag(f, c).None?
  {
  }

  lemma AreFlags(fl: string)
    requires forall i :: 0 <= i < |fl| ==> fl[i] in "0-+ #"
    ensures AllFlags(fl)
  {
  }

  /** The flags as they stand before width and precision are known. */
  function WrittenFlags(d: Piece): Flags
    requires d.Directive?
  {
    Flags('0' in d.flags, '-' in d.flags, '+' in d.flags, ' ' in d.flags, '#' in d.flags, false, false)
  }

  lemma FlagsRead(s: string, i: nat, d: Piece)
    requires d.Directive? && Written(d) && StandsAt(s, i, d)
    ensures FlagsFrom(s, i, NoFlags()) == (WrittenFlags(d), AtWidth(i, d))
  {
    hide FlagsFrom, FlagsOf, StandsAt, WithFlag;
    PartsStand(s, i, d);
    NextChars(s, i, d);
    AreFlags(d.flags);
    NotFlag(s[AtWidth(i, d)], NoFlags());
    FlagsScanned(s, i, d.flags, NoFlags());
    FlagsAre(d.flags, NoFlags());
  }

  /** The 32-bit reading of an argument is a C `int`. */
  lemma IntArgRead(args: seq<Arg>, a: nat)
    ensures IntArg(args, a).Done? <==> WordAt(args, a).Done?
    ensures WordAt(args, a).Done? ==> IntArg(args, a) == Done(TwosComplement(WordAt(args, a).value, Plain))
  {
  }

  /** Flags, width and the next argument after the width part. */
  function WideSpec(d: Piece, w: int, next: nat, arg: nat): Spec
    requires d.Directive?
  {
    var f := WrittenFlags(d);
    Spec(f.(left := f.left || w < 0), Magnitude(w), 0, Plain, next, arg)
  }

  function WideArg(d: Piece, args: seq<Arg>, a: nat): Outcome<int>
    requires d.Directive?
  {
    match d.width
    case NoWidth => Done(0)
    case WidthNumber(digits) => Done(Number(digits))
    case WidthStar => IntArg(args, a)
  }

  function AfterWidth(d: Piece, a: nat): nat
    requires d.Directive?
  {
    if d.width.WidthStar? then a + 1 else a
  }

  lemma NumbersWritten(d: Piece)
    requires d.Directive? && Written(d)
    ensures d.width.WidthNumber? ==> IsNumber(d.width.digits)
    ensures d.prec.DotNumber? ==> IsNumber(d.prec.digits)
  {
  }

  lemma WidthRead(s: string, i: nat, d: Piece, args: seq<Arg>, a: nat)
    requires d.Directive? && Written(d) && StandsAt(s, i, d)
    ensures AtWidth(i, d) <= |s|
    ensures WidthFrom(s, Spec(WrittenFlags(d), 0, 0, Plain, AtWidth(i, d), a), args) ==
            match WideArg(d, args, a)
            case Halted => Halted
            case Done(w) => Done(WideSpec(d, w, AtPrecision(i, d), AfterWidth(d, a)))
  {
    hide Written, StandsAt, NumberFrom, Number, TwosComplement, IntArg, WordAt, IsNumber, Body;
    PartsStand(s, i, d);
    NextChars(s, i, d);
    NumbersWritten(d);
    match d.width
    case NoWidth =>
    case WidthNumber(digits) => NumberRead(s, AtWidth(i, d), digits);
    case WidthStar => IntArgRead(args, a);
  }

  lemma PrecisionRead(s: string, i: nat, d: Piece, sp: Spec, args: seq<Arg>)
    requires d.Directive? && Written(d) && StandsAt(s, i, d) && sp.next == AtPrecision(i, d) && sp.prec == 0
    ensures sp.next <= |s|
    ensures var sp' := sp.(flags := sp.flags.(precision := true), next := AtSize(i, d));
            PrecFrom(s, sp, args) ==
            match d.prec
            case NoPrecision => Done(sp.(next := AtSize(i, d)))
            case Dot => Done(sp')
            case DotNumber(digits) => Done(sp'.(prec := Number(digits)))
            case DotStar =>
              match IntArg(args, sp.arg)
              case Halted => Halted
              case Done(p) => Done(sp'.(prec := if p > 0 then p else 0, arg := sp.arg + 1))
  {
    hide Written, StandsAt, NumberFrom, Number, TwosComplement, IntArg, WordAt, IsNumber, Body, WidthChars;
    PartsStand(s, i, d);
    NextChars(s, i, d);
    NumbersWritten(d);
    var j2, j3 := AtPrecision(i, d), AtSize(i, d);
    match d.prec
    case NoPrecision =>
    case Dot =>
    case DotNumber(digits) =>
      assert s[j2 + 1..j3] == digits by { assert s[j2..j3][1..] == digits; }
      NumberRead(s, j2 + 1, digits);
    case DotStar =>
      assert s[j2 + 1] == s[j2..j3][1];
      IntArgRead(args, sp.arg);
  }

  function SizeOf(size: string): Size {
    if size == "" then Plain else if size == "h" then Short else if size == "hh" then Char else Long
  }

  lemma SizeRead(s: string, i: nat, d: Piece, sp: Spec)
    requires d.Directive? && Written(d) && StandsAt(s, i, d) && sp.next == AtSize(i, d) && sp.size == Plain
    ensures sp.next <= |s| && SizeFrom(s, sp) == sp.(size := SizeOf(d.size), next := AtConversion(i, d))
  {
    hide StandsAt;
    PartsStand(s, i, d);
    var j := AtSize(i, d);
    if d.size != "" {
      assert s[j] == s[j..AtConversion(i, d)][0];
      if |d.size| == 2 {
        assert s[j + 1] == s[j..AtConversion(i, d)][1];
      }
    }
  }

  /** The specification the scanner arrives at. */
  function SpecOf(d: Piece, l: Layout, next: nat): Spec
    requires d.Directive?
  {
    var f := WrittenFlags(d).(left := LeftOf(d, l), precision := l.prec.Some?);
    Spec(f, Columns(l), PrecOf(l), SizeOf(d.size), next, l.arg)
  }

  /** From the precision on. */
  lemma RestRead(s: string, i: nat, d: Piece, args: seq<Arg>, a: nat, w: int)
    requires d.Directive? && Written(d) && StandsAt(s, i, d) && WideArg(d, args, a) == Done(w)
    ensures AtPrecision(i, d) <= |s|
    ensures var sp := WideSpec(d, w, AtPrecision(i, d), AfterWidth(d, a));
            match LayoutOf(d, args, a)
            case Halted => PrecFrom(s, sp, args).Halted?
            case Done(l) =>
              && PrecFrom(s, sp, args).Done?
              && SizeFrom(s, PrecFrom(s, sp, args).value) == SpecOf(d, l, AtConversion(i, d))
  {
    hide StandsAt, PrecFrom, SizeFrom, IntArg, Number, Written, AtPrecision, AtSize, AtConversion, SizeOf;
    var sp := WideSpec(d, w, AtPrecision(i, d), AfterWidth(d, a));
    PrecisionRead(s, i, d, sp, args);
    if PrecFrom(s, sp, args).Done? {
      SizeRead(s, i, d, PrecFrom(s, sp, args).value);
    }
  }

  lemma SpecRead(s: string, i: nat, d: Piece, args: seq<Arg>, a: nat)
    requires d.Directive? && Written(d) && StandsAt(s, i, d)
    ensures i <= |s|
    ensures SpecFrom(s, i, args, a) ==
            match LayoutOf(d, args, a)
            case Halted => Halted
            case Done(l) => Done(SpecOf(d, l, AtConversion(i, d)))
  {
    hide StandsAt, WidthFrom, PrecFrom, SizeFrom, FlagsFrom, Written, LayoutOf, SpecOf, WideSpec, WideArg;
    FlagsRead(s, i, d);
    WidthRead(s, i, d, args, a);
    if WideArg(d, args, a).Done? {
      RestRead(s, i, d, args, a, WideArg(d, args, a).value);
    } else {
      NoWide(d, args, a);
    }
  }

  lemma NoWide(d: Piece, args: seq<Arg>, a: nat)
    requires d.Directive? && WideArg(d, args, a).Halted?
    ensures LayoutOf(d, args, a).Halted?
  {
  }

  // ---- converting its argument ----

  lemma NumberFlagsFit(d: Piece, l: Layout)
    requires d.Directive? && d.conv in "diuxXob"
    ensures var sp := SpecOf(d, l, 0);
            && IntFlags(d.conv, sp.flags) == NumberFlagsOf(d, LeftOf(d, l), l.prec.Some?)
            && Base(d.conv) == BaseOf(d.conv) && (IsSigned(d.conv) <==> d.conv in "di") && IsInteger(d.conv)
  {
  }

  lemma IntegerRead(conv: char, size: string, word: nat)
    requires conv in "diuxXob"
    ensures Range(size) == Bits(SizeOf(size))
    ensures IntegerOf(conv, size, word) ==
            if IsSigned(conv) then TwosComplement(word, SizeOf(size)) else Narrow(word, SizeOf(size))
    ensures conv !in "di" ==> IntegerOf(conv, size, word) >= 0
  {
  }

  /** A numeral never has more than 32 digits, and has one at least unless it is left out. */
  lemma NumeralSize(value: nat, base: nat, f: Flags)
    requires 2 <= base <= 16
    ensures |Numeral0(value, base, f)| <= ROOM
    ensures value > 0 ==> |Numeral0(value, base, f)| > 0
  {
  }

  lemma NumberConsistent(d: Piece, l: Layout, v: int)
    requires d.Directive? && d.conv in "diuxXob" && (d.conv !in "di" ==> v >= 0)
    ensures var f := NumberFlagsOf(d, LeftOf(d, l), l.prec.Some?);
            Consistent(|Numeral0(Magnitude(v), BaseOf(d.conv), f)|, v < 0, BaseOf(d.conv), PrecOf(l),
                       NumberFlags(Magnitude(v), f))
  {
    hide Numeral0;
    var f := NumberFlagsOf(d, LeftOf(d, l), l.prec.Some?);
    NumeralSize(Magnitude(v), BaseOf(d.conv), f);
  }

  /** An integer directive prints sign, prefix, zeros and numeral in its field. */
  lemma NumberConverted(d: Piece, l: Layout, word: nat, next: nat)
    requires d.Directive? && d.conv in "diuxXob" && Lossless(d, l, IntegerOf(d.conv, d.size, word))
    ensures IntegerText(d.conv, SpecOf(d, l, next), word) == NumberText(d, l, IntegerOf(d.conv, d.size, word))
  {
    hide IntText, Numeral0, Regular, Whole, InField, IntegerOf, TwosComplement, Narrow, IntFlags, NumberFlagsOf, Base;
    hide BaseOf, Consistent, NumberFlags;
    var v := IntegerOf(d.conv, d.size, word);
    NumberFlagsFit(d, l);
    IntegerRead(d.conv, d.size, word);
    NumberConsistent(d, l, v);
    var f := NumberFlagsOf(d, LeftOf(d, l), l.prec.Some?);
    FlagsKeepLeft(d, LeftOf(d, l), l.prec.Some?);
    IntTextIs(Magnitude(v), v < 0, BaseOf(d.conv), PrecOf(l), Columns(l), f);
  }

  lemma FlagsKeepLeft(d: Piece, left: bool, precision: bool)
    requires d.Directive?
    ensures NumberFlagsOf(d, left, precision).left == left
  {
  }

  lemma FieldIs(t: string, sp: Spec)
    ensures Field(t, |t|, sp) == InField(t, sp.width, sp.flags.left)
  {
    hide Repeat;
    var blanks := Repeat(' ', sp.width - |t|);
    assert [] + t + blanks == t + blanks && blanks + t + [] == blanks + t;
  }

  lemma StringIs(chars: Option<string>, d: Piece, l: Layout, next: nat)
    requires d.Directive?
    ensures StringBody(chars, SpecOf(d, l, next)) == StringText(chars, l.prec)
  {
    var p := match chars case None => "(null)" case Some(t) => CString(t);
    assert p[..|p|] == p;
  }

  /** A pointer is sixteen digits. */
  lemma PointerIs(d: Piece, l: Layout, next: nat, word: nat)
    requires d.Directive? && d.flags == "" && l.prec.None? && l.width >= 0
    ensures PointerText(SpecOf(d, l, next), word) == PointerDigits(word)
  {
    hide IntText, Regular, Numeral0, Whole, InField, NumeralOf, Consistent, NumberFlags;
    var v := word % TWO64;
    var f := NoFlags().(zeropad := true, upper := true);
    assert SpecOf(d, l, next).flags.(zeropad := true, upper := true) == f;
    PointerNumeral(v);
    NumeralShown(v, f);
    PointerRegular(|NumeralOf(v, 16, true)|);
    IntTextIs(v, false, 16, 0, 16, f);
    PointerWhole(NumeralOf(v, 16, true), f);
  }

  lemma {:induction false} PointerWhole(t: string, f: Flags)
    requires f == NoFlags().(zeropad := true, upper := true) && 0 < |t| <= 16
    ensures InField(Whole(t, false, 16, 0, 16, f), 16, false) == Repeat('0', 16 - |t|) + t
  {
    hide Repeat;
    var z := Repeat('0', 16 - |t|);
    assert ZeroCount(|t|, false, 16, 0, 16, f) == 16 - |t|;
    assert "" + "" + z + t == z + t;
    assert Repeat(' ', 16 - |z + t|) + (z + t) == z + t;
  }

  lemma NumeralShown(v: nat, f: Flags)
    requires !f.precision
    ensures Numeral0(v, 16, f) == NumeralOf(v, 16, f.upper)
  {
  }

  lemma PointerNumeral(v: nat)
    requires v < TWO64
    ensures 0 < |NumeralOf(v, 16, true)| <= 16
  {
    HexPower();
    hide Power;
    PrintRoundTrip.DigitsShort(v, 16, true, ROOM, 16);
  }

  lemma HexPower()
    ensures Power(16, 16) == TWO64
  {
    assert Power(16, 4) == 0x1_0000;
    hide Power;
    PrintRoundTrip.Doubled(16, 4);
    PrintRoundTrip.Doubled(16, 8);
  }

  lemma PointerRegular(n: nat)
    requires 0 < n <= 16
    ensures var f := NoFlags().(zeropad := true, upper := true);
            && (forall v: nat :: NumberFlags(v, f) == f)
            && Consistent(n, false, 16, 0, f) && Regular(n, false, 16, 0, 16, f)
            && ZeroCount(n, false, 16, 0, 16, f) == 16 - n
  {
  }

  /** The conversion prints what the directive means. */
  lemma ConvertedIs(s: string, i: nat, d: Piece, args: seq<Arg>, a: nat)
    requires d.Directive? && Written(d) && StandsAt(s, i, d) && Exact(d, args, a) && LayoutOf(d, args, a).Done?
    ensures Converted(s, SpecOf(d, LayoutOf(d, args, a).value, AtConversion(i, d)), args) == Means(d, args, a)
  {
    hide StandsAt, IntegerText, PointerText, Field, StringBody, NumberText, InField, StringText, PointerDigits;
    hide Lossless, IntegerOf, LayoutOf;
    PartsStand(s, i, d);
    var l := LayoutOf(d, args, a).value;
    var sp := SpecOf(d, l, AtConversion(i, d));
    KindOf(d.conv);
    if l.arg < |args| && args[l.arg].Word? {
      var word := args[l.arg].bits;
      if d.conv in "diuxXob" {
        NumberConverted(d, l, word, sp.next);
      } else if d.conv == 'c' {
        FieldIs([(word % 256) as char], sp);
      } else if d.conv == 'p' {
        LayoutPlain(d, args, a);
        PointerIs(d, l, sp.next, word);
      }
    } else if l.arg < |args| && d.conv == 's' {
      StringIs(args[l.arg].chars, d, l, sp.next);
      FieldIs(StringText(args[l.arg].chars, l.prec), sp);
    }
  }

  lemma LayoutPlain(d: Piece, args: seq<Arg>, a: nat)
    requires d.Directive? && d.prec.NoPrecision? && LayoutOf(d, args, a).Done?
    ensures LayoutOf(d, args, a).value.prec.None?
  {
  }

  lemma KindOf(c: char)
    ensures IsInteger(c) <==> c in "diuxXob"
    ensures c in "diuxXobcp" <==> c in "diuxXob" || c == 'c' || c == 'p'
  {
  }

  // ---- whole formats ----

  lemma {:induction false} LiteralRendered(s: string, i: nat, t: string, args: seq<Arg>, a: nat)
    requires i + |t| <= |s| && s[i..i + |t|] == t && '%' !in t && NUL !in t
    ensures Rendered(s, i, args, a) == Joined(t, Rendered(s, i + |t|, args, a))
    decreases |t|
  {
    if t == [] {
      JoinedNone(Rendered(s, i, args, a));
    } else {
      assert s[i] == t[0] && s[i + 1..i + |t|] == t[1..];
      LiteralRendered(s, i + 1, t[1..], args, a);
      JoinedTwice([t[0]], t[1..], Rendered(s, i + |t|, args, a));
      assert [t[0]] + t[1..] == t;
    }
  }

  lemma DirectiveRendered(s: string, i: nat, d: Piece, args: seq<Arg>, a: nat)
    requires d.Directive? && Written(d) && i < |s| && s[i] == '%' && StandsAt(s, i + 1, d) && Exact(d, args, a)
    ensures AtConversion(i + 1, d) < |s|
    ensures Rendered(s, i, args, a) ==
            match Means(d, args, a)
            case Halted => Halted
            case Done(r) => Joined(r.0, Rendered(s, AtConversion(i + 1, d) + 1, args, r.1))
  {
    hide SpecFrom, Converted, Means, LayoutOf, Exact, Written, StandsAt;
    SpecRead(s, i + 1, d, args, a);
    PartsStand(s, i + 1, d);
    if LayoutOf(d, args, a).Done? {
      ConvertedIs(s, i + 1, d, args, a);
    } else {
      NoLayout(d, args, a);
    }
  }

  lemma NoLayout(d: Piece, args: seq<Arg>, a: nat)
    requires d.Directive? && LayoutOf(d, args, a).Halted?
    ensures Means(d, args, a).Halted?
  {
  }

  lemma {:induction false} RenderedFrom(s: string, i: nat, ps: seq<Piece>, args: seq<Arg>, a: nat)
    requires i <= |s| && s[i..] == FormatOf(ps)
    requires (forall k :: 0 <= k < |ps| ==> Written(ps[k])) && ExactAll(ps, args, a)
    ensures Rendered(s, i, args, a) == MeansAll(ps, args, a)
    decreases |ps|
  {
    hide Rendered, Means, Exact, Written, Chars;
    if ps == [] {
      RenderedEnd(s, i, args, a, "");
      JoinedNone(Rendered(s, i, args, a));
    } else {
      var p, rest := ps[0], FormatOf(ps[1..]);
      Split(s, i, Chars(p), rest);
      PieceRendered(s, i, p, args, a);
      if Means(p, args, a).Done? {
        RenderedFrom(s, i + |Chars(p)|, ps[1..], args, Means(p, args, a).value.1);
      }
    }
  }

  lemma Split(s: string, i: nat, front: string, rest: string)
    requires i <= |s| && s[i..] == front + rest
    ensures i + |front| <= |s| && s[i..i + |front|] == front && s[i + |front|..] == rest
  {
    assert s[i..][..|front|] == front && s[i..][|front|..] == rest;
  }

  lemma PieceRendered(s: string, i: nat, p: Piece, args: seq<Arg>, a: nat)
    requires Written(p) && Exact(p, args, a) && i + |Chars(p)| <= |s| && s[i..i + |Chars(p)|] == Chars(p)
    ensures Rendered(s, i, args, a) ==
            match Means(p, args, a)
            case Halted => Halted
            case Done(r) => Joined(r.0, Rendered(s, i + |Chars(p)|, args, r.1))
  {
    hide Rendered, Body, Exact;
    if p.Literal? {
      LiteralRendered(s, i, p.text, args, a);
    } else {
      hide Means;
      var b := Body(p);
      assert s[i] == Chars(p)[0];
      SubSlice(s, i, Chars(p), 1, 1 + |b|);
      assert Chars(p)[1..1 + |b|] == b;
      PartsStand(s, i + 1, p);
      DirectiveRendered(s, i, p, args, a);
    }
  }

  /**
   A format of any pieces prints the meaning of each, one after the other, on the arguments they take in turn, and stops
   where the first of them has no argument to take.
   */
  lemma FormatMeans(ps: seq<Piece>, args: seq<Arg>)
    requires (forall k :: 0 <= k < |ps| ==> Written(ps[k])) && ExactAll(ps, args, 0)
    ensures Rendered(FormatOf(ps), 0, args, 0) == MeansAll(ps, args, 0)
  {
    hide Rendered, MeansAll, ExactAll, Written, FormatOf;
    assert FormatOf(ps)[0..] == FormatOf(ps);
    RenderedFrom(FormatOf(ps), 0, ps, args, 0);
  }

  lemma {:induction false} OnePiece(p: Piece, args: seq<Arg>, r: (string, nat))
    requires Means(p, args, 0) == Done(r)
    ensures FormatOf([p]) == Chars(p) && MeansAll([p], args, 0) == Done(r.0)
    ensures Exact(p, args, 0) ==> ExactAll([p], args, 0)
  {
    hide Means, Exact, Chars;
    assert [p][1..] == [] && Chars(p) + "" == Chars(p) && r.0 + "" == r.0;
  }

  /** In particular `%s` prints its string. */
  lemma {:induction false} StringPrints(t: string)
    requires NUL !in t
    ensures Rendered("%s", 0, [Text(Some(t))], 0) == Done(t)
  {
    hide Rendered, Repeat, MeansAll, ExactAll, FormatOf, CString;
    var d, args := Directive("", NoWidth, NoPrecision, "", 's'), [Text(Some(t))];
    CStringIs(t);
    assert Repeat(' ', 0 - |t|) + t == t;
    OnePiece(d, args, (t, 1));
    assert Chars(d) == "%s";
    FormatMeans([d], args);
  }

  lemma {:induction false} CStringIs(t: string)
    requires NUL !in t
    ensures CString(t) == t
  {
    hide CString;
    assert CString(t) == t[..|CString(t)|];
  }
}
