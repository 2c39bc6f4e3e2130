/** The bounded formatter (kernel/src/util/printf.cc): what it writes, where it stops and what it returns. */
module Printf {
  import opened Machine
  import opened PrintText

  // ---- output ----

  /** `out` written at the front of `before`, cut at `maxlen`. */
  function Cut(before: string, out: string, maxlen: nat): (r: string)
    requires maxlen <= |before|
    ensures |r| == |before|
  {
    var m := Min(|out|, maxlen);
    out[..m] + before[m..]
  }

  /** The buffer shows everything output so far, as much as it has room for. */
  ghost predicate Shows(buf: array<char>, idx: nat, maxlen: nat, before: string, out: string)
    reads buf
  {
    maxlen <= buf.Length == |before| && idx == |out| && buf[..] == Cut(before, out, maxlen)
  }

  /** `_out_buffer` */
  method Out(c: char, buf: array<char>, idx: nat, maxlen: nat, ghost before: string, ghost out: string)
    returns (next: nat)
    requires Shows(buf, idx, maxlen, before, out)
    modifies buf
    ensures Shows(buf, next, maxlen, before, out + [c])
  {
    if idx < maxlen {
      buf[idx] := c;
    }
    next := idx + 1;
  }

  /** The padding loops. */
  method Pad(c: char, count: int, buf: array<char>, idx: nat, maxlen: nat, ghost before: string, ghost out: string)
    returns (next: nat)
    requires Shows(buf, idx, maxlen, before, out)
    modifies buf
    ensures Shows(buf, next, maxlen, before, out + Repeat(c, count))
  {
    next := idx;
    assert out + Repeat(c, 0) == out;
    var i := 0;
    while i < count
      invariant 0 <= i && (count >= 0 ==> i <= count) && (count < 0 ==> i == 0)
      invariant Shows(buf, next, maxlen, before, out + Repeat(c, i))
    {
      next := Out(c, buf, next, maxlen, before, out + Repeat(c, i));
      i := i + 1;
      assert out + Repeat(c, i - 1) + [c] == out + Repeat(c, i);
    }
  }

  /** The reversing loop of `_out_rev`. */
  method OutReversed(tmp: array<char>, len: nat, buf: array<char>, idx: nat, maxlen: nat, ghost before: string,
                     ghost out: string) returns (next: nat)
    requires Shows(buf, idx, maxlen, before, out) && len <= tmp.Length && tmp != buf
    modifies buf
    ensures Shows(buf, next, maxlen, before, out + Reverse(tmp[..len]))
  {
    next := idx;
    var n := len;
    assert tmp[len..len] == [] && out + Reverse([]) == out;
    while n > 0
      invariant 0 <= n <= len && Shows(buf, next, maxlen, before, out + Reverse(tmp[n..len]))
    {
      n := n - 1;
      assert tmp[n..len] == [tmp[n]] + tmp[n + 1..len];
      next := Out(tmp[n], buf, next, maxlen, before, out + Reverse(tmp[n + 1..len]));
    }
    assert tmp[0..len] == tmp[..len];
  }

  /** `_out_rev` */
  method OutRev(tmp: array<char>, len: nat, width: nat, f: Flags, buf: array<char>, idx: nat, maxlen: nat,
                ghost before: string, ghost out: string)
    returns (next: nat)
    requires Shows(buf, idx, maxlen, before, out) && len <= tmp.Length && tmp != buf
    modifies buf
    ensures Shows(buf, next, maxlen, before, out + Laid(tmp[..len], width, f))
  {
    hide Shows, Repeat, Reverse;
    next := idx;
    ghost var text := tmp[..len];
    ghost var front := if !f.left && !f.zeropad then Repeat(' ', width - len) else [];
    assert out + [] == out;
    if !f.left && !f.zeropad {
      next := Pad(' ', width - len, buf, next, maxlen, before, out);
    }
    next := OutReversed(tmp, len, buf, next, maxlen, before, out + front);
    ghost var upto := out + front + Reverse(text);
    assert upto + [] == upto;
    if f.left {
      next := Pad(' ', width - len, buf, next, maxlen, before, upto);
      assert upto + Repeat(' ', width - len) == out + Laid(text, width, f);
    } else {
      assert upto == out + Laid(text, width, f);
    }
  }

  // ---- the conversion buffer ----

  /** The zero-padding loops. */
  method FillZeros(tmp: array<char>, len: nat, upto: nat) returns (n: nat)
    requires len <= ROOM == tmp.Length
    modifies tmp
    ensures n <= ROOM && tmp[..n] == ZerosTo(old(tmp[..len]), upto)
  {
    n := len;
    while n < upto && n < ROOM
      invariant len <= n <= ROOM && (n > len ==> n <= upto)
      invariant tmp[..n] == old(tmp[..len]) + Repeat('0', n - len)
    {
      tmp[n] := '0';
      n := n + 1;
    }
  }

  method Put(tmp: array<char>, len: nat, c: char) returns (n: nat)
    requires len <= ROOM == tmp.Length
    modifies tmp
    ensures n <= ROOM && tmp[..n] == Room(old(tmp[..len]), c)
  {
    n := len;
    if n < ROOM {
      tmp[n] := c;
      n := n + 1;
    }
  }

  /** The `#` part of `_ntoa_format`. */
  method PutPrefix(tmp: array<char>, len: nat, base: nat, prec: nat, width: nat, f: Flags) returns (n: nat)
    requires len <= ROOM == tmp.Length
    modifies tmp
    ensures n <= ROOM && tmp[..n] == Prefixed(old(tmp[..len]), base, prec, width, f)
  {
    n := len;
    if !f.precision && n > 0 && (n == prec || n == width) {
      n := n - 1;
      if n > 0 && base == 16 {
        n := n - 1;
      }
    }
    assert tmp[..n] == tmp[..len][..n];
    hide Room;
    if base == 16 && !f.upper {
      n := Put(tmp, n, 'x');
    } else if base == 16 && f.upper {
      n := Put(tmp, n, 'X');
    } else if base == 2 {
      n := Put(tmp, n, 'b');
    }
    n := Put(tmp, n, '0');
  }

  method PutSign(tmp: array<char>, len: nat, negative: bool, f: Flags) returns (n: nat)
    requires len <= ROOM == tmp.Length
    modifies tmp
    ensures n <= ROOM && tmp[..n] == Signed(old(tmp[..len]), negative, f)
  {
    n := len;
    if n < ROOM {
      if negative {
        n := Put(tmp, n, '-');
      } else if f.plus {
        n := Put(tmp, n, '+');
      } else if f.space {
        n := Put(tmp, n, ' ');
      }
    }
  }

  /** `_ntoa_format` */
  method NtoaFormat(tmp: array<char>, len0: nat, negative: bool, base: nat, prec: nat, width0: nat, f: Flags,
                    buf: array<char>, idx: nat, maxlen: nat, ghost before: string, ghost out: string)
    returns (next: nat)
    requires Shows(buf, idx, maxlen, before, out) && len0 <= ROOM == tmp.Length && tmp != buf
    modifies buf, tmp
    ensures var buffer := Buffer(old(tmp[..len0]), negative, base, prec, width0, f);
            Shows(buf, next, maxlen, before, out + Laid(buffer, FieldWidth(negative, width0, f), f))
  {
    hide Laid, Signed, Prefixed, ZerosTo;
    var len, width := len0, width0;
    if !f.left {
      if width > 0 && f.zeropad && (negative || f.plus || f.space) {
        width := width - 1;
      }
      len := FillZeros(tmp, len, prec);
      if f.zeropad {
        len := FillZeros(tmp, len, width);
      }
    }
    if f.hash {
      len := PutPrefix(tmp, len, base, prec, width, f);
    }
    len := PutSign(tmp, len, negative, f);
    next := OutRev(tmp, len, width, f, buf, idx, maxlen, before, out);
  }

  /** The digits the loop still has to write. */
  function Pending(value: nat, base: nat, upper: bool, room: nat): string
    requires 2 <= base <= 16
  {
    if value == 0 || room == 0 then [] else Digits(value, base, upper, room)
  }

  lemma DigitsStep(value: nat, base: nat, upper: bool, room: nat)
    requires 2 <= base <= 16 && room > 0
    ensures value / base >= 0
    ensures Digits(value, base, upper, room) ==
            [Digit(value % base, upper)] + Pending(value / base, base, upper, room - 1)
  {
    hide Digit;
    QuotientNat(value, base);
  }

  /** One turn of the digit loop moves one digit into the buffer. */
  method PutDigit(tmp: array<char>, len: nat, value: nat, base: nat, upper: bool) returns (n: nat, rest: nat)
    requires 2 <= base <= 16 && len < ROOM == tmp.Length
    modifies tmp
    ensures n == len + 1
    ensures tmp[..n] + Pending(rest, base, upper, ROOM - n) == old(tmp[..len]) + Digits(value, base, upper, ROOM - len)
  {
    hide Digits, Digit, Pending;
    DigitsStep(value, base, upper, ROOM - len);
    tmp[len] := Digit(value % base, upper);
    n, rest := len + 1, value / base;
    assert tmp[..n] == old(tmp[..len]) + [tmp[len]];
  }

  /** The digit loop. */
  method PutDigits(tmp: array<char>, value0: nat, base: nat, upper: bool) returns (len: nat)
    requires 2 <= base <= 16 && ROOM == tmp.Length
    modifies tmp
    ensures len <= ROOM && tmp[..len] == Digits(value0, base, upper, ROOM)
  {
    hide Digits;
    var value: nat;
    len, value := PutDigit(tmp, 0, value0, base, upper);
    while value > 0 && len < ROOM
      invariant 1 <= len <= ROOM
      invariant Digits(value0, base, upper, ROOM) == tmp[..len] + Pending(value, base, upper, ROOM - len)
      decreases ROOM - len
    {
      len, value := PutDigit(tmp, len, value, base, upper);
    }
  }

  /** `_ntoa_long_long` */
  method Ntoa(value: nat, negative: bool, base: nat, prec: nat, width: nat, f: Flags,
              buf: array<char>, idx: nat, maxlen: nat, ghost before: string, ghost out: string) returns (next: nat)
    requires Shows(buf, idx, maxlen, before, out) && 2 <= base <= 16
    modifies buf
    ensures Shows(buf, next, maxlen, before, out + IntText(value, negative, base, prec, width, f))
  {
    hide Laid, Buffer, Digits, FieldWidth;
    var tmp := new char[ROOM];
    var len := 0;
    var g := if value == 0 then f.(hash := false) else f;
    if !g.precision || value > 0 {
      len := PutDigits(tmp, value, base, g.upper);
    }
    next := NtoaFormat(tmp, len, negative, base, prec, width, g, buf, idx, maxlen, before, out);
  }

  // ---- the format string ----

  /** A variadic argument: a machine word, or a string pointer. */
  datatype Arg = Word(bits: nat) | Text(chars: Option<string>)

  datatype Size = Plain | Short | Char | Long

  /** A specification up to its conversion character, which stands at `next`; `arg` is the next unused argument. */
  datatype Spec = Spec(flags: Flags, width: nat, prec: nat, size: Size, next: nat, arg: nat)

  const NUL: char := 0 as char

  /** The character at `i`; a C string ends in a NUL, at the latest behind its last character. */
  function At(s: string, i: nat): char {
    if i < |s| then s[i] else NUL
  }

  /** What a C program sees of the characters: everything before the first NUL. */
  function CString(t: string): (r: string)
    ensures r <= t && NUL !in r && (|r| < |t| ==> t[|r|] == NUL)
  {
    if t == [] || t[0] == NUL then [] else [t[0]] + CString(t[1..])
  }

  function Bits(z: Size): nat {
    match z case Plain => TWO32 case Short => 0x1_0000 case Char => 256 case Long => TWO64
  }

  /** The low part of a word, read as unsigned or in two's complement. */
  function Narrow(word: nat, z: Size): nat {
    word % Bits(z)
  }

  function TwosComplement(word: nat, z: Size): int {
    var n := Narrow(word, z);
    if n >= Bits(z) / 2 then n - Bits(z) else n
  }

  function WithFlag(f: Flags, c: char): Option<Flags> {
    match c
    case '0' => Some(f.(zeropad := true))
    case '-' => Some(f.(left := true))
    case '+' => Some(f.(plus := true))
    case ' ' => Some(f.(space := true))
    case '#' => Some(f.(hash := true))
    case _ => None
  }

  function FlagsFrom(s: string, i: nat, f: Flags): (r: (Flags, nat))
    requires i <= |s|
    ensures i <= r.1 <= |s|
    decreases |s| - i
  {
    if i < |s| && WithFlag(f, s[i]).Some? then FlagsFrom(s, i + 1, WithFlag(f, s[i]).value) else (f, i)
  }

  method ScanFlags(s: string, i: nat) returns (f: Flags, next: nat)
    requires i <= |s|
    ensures (f, next) == FlagsFrom(s, i, NoFlags()) && next <= |s|
  {
    f, next := NoFlags(), i;
    var more := true;
    while more
      invariant i <= next <= |s| && FlagsFrom(s, next, f) == FlagsFrom(s, i, NoFlags())
      invariant !more ==> FlagsFrom(s, next, f) == (f, next)
      decreases |s| - next, more
    {
      var g := WithFlag(f, At(s, next));
      more := g.Some?;
      if more {
        f, next := g.value, next + 1;
      }
    }
  }

  /** `_atoi`, in 32-bit arithmetic. */
  function NumberFrom(s: string, i: nat, n: nat): (r: (nat, nat))
    requires i <= |s|
    ensures i <= r.1 <= |s|
    decreases |s| - i
  {
    if i < |s| && IsDigit(s[i]) then NumberFrom(s, i + 1, (n * 10 + DigitValue(s[i])) % TWO32) else (n, i)
  }

  method Atoi(s: string, i: nat) returns (n: nat, next: nat)
    requires i <= |s|
    ensures (n, next) == NumberFrom(s, i, 0) && next <= |s|
  {
    n, next := 0, i;
    while next < |s| && IsDigit(s[next])
      invariant i <= next <= |s| && NumberFrom(s, next, n) == NumberFrom(s, i, 0)
    {
      n, next := (n * 10 + DigitValue(s[next])) % TWO32, next + 1;
    }
  }

  function WordAt(args: seq<Arg>, a: nat): Outcome<nat> {
    if a < |args| && args[a].Word? then Done(args[a].bits) else Halted
  }

  predicate Onward(s: string, from: Spec, r: Outcome<Spec>) {
    r.Done? ==> from.next <= r.value.next <= |s|
  }

  function WidthFrom(s: string, sp: Spec, args: seq<Arg>): (r: Outcome<Spec>)
    requires sp.next <= |s|
    ensures Onward(s, sp, r)
  {
    if IsDigit(At(s, sp.next)) then
      var (n, next) := NumberFrom(s, sp.next, 0);
      Done(sp.(width := n, next := next))
    else if At(s, sp.next) == '*' then
      match WordAt(args, sp.arg)
      case Halted => Halted
      case Done(word) =>
        var w := TwosComplement(word, Plain);
        var sp' := sp.(next := sp.next + 1, arg := sp.arg + 1);
        Done(if w < 0 then sp'.(flags := sp.flags.(left := true), width := -w) else sp'.(width := w))
    else Done(sp)
  }

  method ScanWidth(s: string, sp: Spec, args: seq<Arg>) returns (r: Outcome<Spec>)
    requires sp.next <= |s|
    ensures r == WidthFrom(s, sp, args)
  {
    if IsDigit(At(s, sp.next)) {
      var n, next := Atoi(s, sp.next);
      return Done(sp.(width := n, next := next));
    }
    if At(s, sp.next) == '*' {
      var word := WordAt(args, sp.arg);
      if word.Halted? {
        return Halted;
      }
      var w, sp' := TwosComplement(word.value, Plain), sp.(next := sp.next + 1, arg := sp.arg + 1);
      if w < 0 {
        return Done(sp'.(flags := sp.flags.(left := true), width := -w));
      }
      return Done(sp'.(width := w));
    }
    return Done(sp);
  }

  function PrecFrom(s: string, sp: Spec, args: seq<Arg>): (r: Outcome<Spec>)
    requires sp.next <= |s|
    ensures Onward(s, sp, r)
  {
    if At(s, sp.next) != '.' then Done(sp)
    else
      var sp' := sp.(flags := sp.flags.(precision := true), next := sp.next + 1);
      if IsDigit(At(s, sp'.next)) then
        var (n, next) := NumberFrom(s, sp'.next, 0);
        Done(sp'.(prec := n, next := next))
      else if At(s, sp'.next) == '*' then
        match WordAt(args, sp.arg)
        case Halted => Halted
        case Done(word) =>
          var w := TwosComplement(word, Plain);
          Done(sp'.(prec := if w > 0 then w else 0, next := sp'.next + 1, arg := sp.arg + 1))
      else Done(sp')
  }

  method ScanPrec(s: string, sp: Spec, args: seq<Arg>) returns (r: Outcome<Spec>)
    requires sp.next <= |s|
    ensures r == PrecFrom(s, sp, args)
  {
    if At(s, sp.next) != '.' {
      return Done(sp);
    }
    var sp' := sp.(flags := sp.flags.(precision := true), next := sp.next + 1);
    if IsDigit(At(s, sp'.next)) {
      var n, next := Atoi(s, sp'.next);
      return Done(sp'.(prec := n, next := next));
    }
    if At(s, sp'.next) == '*' {
      var word := WordAt(args, sp.arg);
      if word.Halted? {
        return Halted;
      }
      var w := TwosComplement(word.value, Plain);
      return Done(sp'.(prec := if w > 0 then w else 0, next := sp'.next + 1, arg := sp.arg + 1));
    }
    return Done(sp');
  }

  function SizeFrom(s: string, sp: Spec): (r: Spec)
    requires sp.next <= |s|
    ensures sp.next <= r.next <= |s|
  {
    match At(s, sp.next)
    case 'l' => sp.(size := Long, next := sp.next + if At(s, sp.next + 1) == 'l' then 2 else 1)
    case 'h' =>
      if At(s, sp.next + 1) == 'h' then sp.(size := Char, next := sp.next + 2)
      else sp.(size := Short, next := sp.next + 1)
    case 't' => sp.(size := Long, next := sp.next + 1)
    case 'j' => sp.(size := Long, next := sp.next + 1)
    case 'z' => sp.(size := Long, next := sp.next + 1)
    case _ => sp
  }

  /** Everything between the `%` before `i` and the conversion character. */
  function SpecFrom(s: string, i: nat, args: seq<Arg>, a: nat): (r: Outcome<Spec>)
    requires i <= |s|
    ensures r.Done? ==> i <= r.value.next <= |s| && (r.value.prec > 0 ==> r.value.flags.precision)
  {
    var (f, j) := FlagsFrom(s, i, NoFlags());
    match WidthFrom(s, Spec(f, 0, 0, Plain, j, a), args)
    case Halted => Halted
    case Done(w) =>
      match PrecFrom(s, w, args)
      case Halted => Halted
      case Done(p) => Done(SizeFrom(s, p))
  }

  method ScanSpec(s: string, i: nat, args: seq<Arg>, a: nat) returns (r: Outcome<Spec>)
    requires i <= |s|
    ensures r == SpecFrom(s, i, args, a)
  {
    hide WidthFrom, PrecFrom, SizeFrom, FlagsFrom;
    var f, j := ScanFlags(s, i);
    var w := ScanWidth(s, Spec(f, 0, 0, Plain, j, a), args);
    if w.Halted? {
      return Halted;
    }
    var p := ScanPrec(s, w.value, args);
    if p.Halted? {
      return Halted;
    }
    return Done(SizeFrom(s, p.value));
  }

  // ---- conversions ----

  predicate IsInteger(c: char) {
    c in "diuxXob"
  }

  predicate IsSigned(c: char) {
    c in "di"
  }

  function Base(c: char): (b: nat)
    ensures 2 <= b <= 16
  {
    if c in "xX" then 16 else if c == 'o' then 8 else if c == 'b' then 2 else 10
  }

  function IntFlags(c: char, f: Flags): Flags {
    f.(hash := f.hash && Base(c) != 10, upper := f.upper || c == 'X',
       plus := f.plus && IsSigned(c), space := f.space && IsSigned(c),
       zeropad := f.zeropad && !f.precision)
  }

  function IntegerText(c: char, sp: Spec, word: nat): string {
    if IsSigned(c) then
      var v := TwosComplement(word, sp.size);
      IntText(if v > 0 then v else 0 - v, v < 0, Base(c), sp.prec, sp.width, IntFlags(c, sp.flags))
    else
      IntText(Narrow(word, sp.size), false, Base(c), sp.prec, sp.width, IntFlags(c, sp.flags))
  }

  /** A character or string in its field; `n` columns count as used. */
  function Field(body: string, n: nat, sp: Spec): string {
    (if sp.flags.left then [] else Repeat(' ', sp.width - n)) + body
      + (if sp.flags.left then Repeat(' ', sp.width - n) else [])
  }

  function StringBody(chars: Option<string>, sp: Spec): string {
    var p := match chars case None => "(null)" case Some(t) => CString(t);
    if sp.flags.precision then p[..Min(|p|, sp.prec)] else p
  }

  function PointerText(sp: Spec, word: nat): string {
    IntText(Narrow(word, Long), false, 16, sp.prec, 16, sp.flags.(zeropad := true, upper := true))
  }

  /** What the conversion at `sp.next` prints and the next argument after it. Floating point is not modelled. */
  function Converted(s: string, sp: Spec, args: seq<Arg>): Outcome<(string, nat)> {
    var c := At(s, sp.next);
    if IsInteger(c) || c == 'c' || c == 'p' then
      match WordAt(args, sp.arg)
      case Halted => Halted
      case Done(word) =>
        Done((if c == 'c' then Field([Narrow(word, Char) as char], 1, sp)
              else if c == 'p' then PointerText(sp, word)
              else IntegerText(c, sp, word), sp.arg + 1))
    else if c == 's' then
      if sp.arg < |args| && args[sp.arg].Text?
      then var body := StringBody(args[sp.arg].chars, sp); Done((Field(body, |body|, sp), sp.arg + 1))
      else Halted
    else if c in "fFeEgG" || c == NUL then Halted
    else Done(([c], sp.arg))
  }

  /** The whole output, however long. */
  function Rendered(s: string, i: nat, args: seq<Arg>, a: nat): Outcome<string>
    requires i <= |s|
    decreases |s| - i
  {
    if At(s, i) == NUL then Done([])
    else if s[i] != '%' then Joined([s[i]], Rendered(s, i + 1, args, a))
    else
      match SpecFrom(s, i + 1, args, a)
      case Halted => Halted
      case Done(sp) =>
        match Converted(s, sp, args)
        case Halted => Halted
        case Done(r) =>
          ConvertedInside(s, sp, args);
          Joined(r.0, Rendered(s, sp.next + 1, args, r.1))
  }

  function Joined(front: string, rest: Outcome<string>): Outcome<string> {
    match rest case Halted => Halted case Done(t) => Done(front + t)
  }

  // ---- the formatter ----

  /** The copying loop of `%s`. */
  method OutText(body: string, buf: array<char>, idx: nat, maxlen: nat, ghost before: string, ghost out: string)
    returns (next: nat)
    requires Shows(buf, idx, maxlen, before, out)
    modifies buf
    ensures Shows(buf, next, maxlen, before, out + body)
  {
    hide Shows;
    next := idx;
    assert out + body[..0] == out && body[..|body|] == body;
    for i := 0 to |body|
      invariant Shows(buf, next, maxlen, before, out + body[..i])
    {
      next := Out(body[i], buf, next, maxlen, before, out + body[..i]);
      assert out + body[..i] + [body[i]] == out + body[..i + 1];
    }
  }

  method OutField(body: string, n: nat, sp: Spec, buf: array<char>, idx: nat, maxlen: nat, ghost before: string,
                  ghost out: string)
    returns (next: nat)
    requires Shows(buf, idx, maxlen, before, out)
    modifies buf
    ensures Shows(buf, next, maxlen, before, out + Field(body, n, sp))
  {
    hide Shows, Repeat;
    next := idx;
    var blanks := sp.width - n;
    if sp.flags.left {
      next := OutText(body, buf, next, maxlen, before, out);
      next := Pad(' ', blanks, buf, next, maxlen, before, out + body);
      assert out + body + Repeat(' ', blanks) == out + Field(body, n, sp);
    } else {
      next := Pad(' ', blanks, buf, next, maxlen, before, out);
      next := OutText(body, buf, next, maxlen, before, out + Repeat(' ', blanks));
      assert out + Repeat(' ', blanks) + body == out + Field(body, n, sp);
    }
  }

  method OutInteger(c: char, sp: Spec, word: nat, buf: array<char>, idx: nat, maxlen: nat, ghost before: string,
                    ghost out: string)
    returns (next: nat)
    requires Shows(buf, idx, maxlen, before, out)
    modifies buf
    ensures Shows(buf, next, maxlen, before, out + IntegerText(c, sp, word))
  {
    hide Shows, IntText;
    var f := IntFlags(c, sp.flags);
    if IsSigned(c) {
      var v := TwosComplement(word, sp.size);
      next := Ntoa(if v > 0 then v else 0 - v, v < 0, Base(c), sp.prec, sp.width, f, buf, idx, maxlen, before, out);
    } else {
      next := Ntoa(Narrow(word, sp.size), false, Base(c), sp.prec, sp.width, f, buf, idx, maxlen, before, out);
    }
  }

  method OutString(chars: Option<string>, sp: Spec, buf: array<char>, idx: nat, maxlen: nat, ghost before: string,
                   ghost out: string)
    returns (next: nat)
    requires Shows(buf, idx, maxlen, before, out) && (sp.prec > 0 ==> sp.flags.precision)
    modifies buf
    ensures var body := StringBody(chars, sp); Shows(buf, next, maxlen, before, out + Field(body, |body|, sp))
  {
    hide Shows, Field;
    var p := match chars case None => "(null)" case Some(t) => CString(t);
    var l := if sp.prec > 0 then Min(|p|, sp.prec) else |p|;
    if sp.flags.precision {
      l := Min(l, sp.prec);
    }
    var body := if sp.flags.precision then p[..Min(|p|, sp.prec)] else p;
    next := OutField(body, l, sp, buf, idx, maxlen, before, out);
  }

  /** The conversion switch. */
  method Convert(s: string, sp: Spec, args: seq<Arg>, buf: array<char>, idx: nat, maxlen: nat, ghost before: string,
                 ghost out: string)
    returns (r: Outcome<(nat, nat)>)
    requires Shows(buf, idx, maxlen, before, out) && (sp.prec > 0 ==> sp.flags.precision)
    modifies buf
    ensures match Converted(s, sp, args)
            case Halted => r == Halted
            case Done(text) => r.Done? && r.value.1 == text.1 && Shows(buf, r.value.0, maxlen, before, out + text.0)
  {
    hide Shows, IntegerText, Field, StringBody, IntText;
    var c := At(s, sp.next);
    var next := idx;
    if IsInteger(c) || c == 'c' || c == 'p' {
      var word := WordAt(args, sp.arg);
      if word.Halted? {
        return Halted;
      } else if c == 'c' {
        next := OutField([Narrow(word.value, Char) as char], 1, sp, buf, idx, maxlen, before, out);
      } else if c == 'p' {
        var f := sp.flags.(zeropad := true, upper := true);
        next := Ntoa(Narrow(word.value, Long), false, 16, sp.prec, 16, f, buf, idx, maxlen, before, out);
      } else {
        next := OutInteger(c, sp, word.value, buf, idx, maxlen, before, out);
      }
      return Done((next, sp.arg + 1));
    }
    if c == 's' {
      if sp.arg >= |args| || !args[sp.arg].Text? {
        return Halted;
      }
      next := OutString(args[sp.arg].chars, sp, buf, idx, maxlen, before, out);
      return Done((next, sp.arg + 1));
    }
    if c in "fFeEgG" || c == NUL {
      return Halted;   // past the end of the format the reading would leave the string
    }
    next := Out(c, buf, idx, maxlen, before, out);
    return Done((next, sp.arg));
  }

  /** The closing NUL, which takes the last place when the text is too long. */
  method Terminate(buf: array<char>, idx: nat, maxlen: nat, ghost before: string, ghost out: string)
    requires Shows(buf, idx, maxlen, before, out)
    modifies buf
    ensures buf[..] == Truncated(before, out, maxlen)
  {
    if idx < maxlen {
      buf[idx] := NUL;
    } else if maxlen > 0 {
      buf[maxlen - 1] := NUL;
    }
  }

  /**
   A C string in a buffer of which `n` characters may be used: the first `n - 1` characters of `out`, a NUL, and
   nothing else touched.
   */
  function Truncated(before: string, out: string, n: nat): (r: string)
    requires n <= |before|
  {
    if n == 0 then before else var m := Min(|out|, n - 1); out[..m] + [NUL] + before[m + 1..]
  }

  /** Character by character: text, one NUL, and then what was there before. */
  lemma TruncatedAt(before: string, out: string, n: nat, i: nat)
    requires n <= |before| && i < |before|
    ensures |Truncated(before, out, n)| == |before|
    ensures var end := if |out| < n then |out| else n - 1;
            Truncated(before, out, n)[i] == if n == 0 || i > end then before[i] else if i == end then NUL else out[i]
  {
  }

  lemma JoinedTwice(a: string, b: string, rest: Outcome<string>)
    ensures Joined(a, Joined(b, rest)) == Joined(a + b, rest)
  {
    if rest.Done? {
      assert a + (b + rest.value) == a + b + rest.value;
    }
  }

  lemma JoinedNone(rest: Outcome<string>)
    ensures Joined("", rest) == rest
  {
    if rest.Done? {
      assert "" + rest.value == rest.value;
    }
  }

  lemma RenderedEnd(s: string, i: nat, args: seq<Arg>, a: nat, out: string)
    requires i <= |s| && At(s, i) == NUL
    ensures Joined(out, Rendered(s, i, args, a)) == Done(out)
  {
    assert out + [] == out;
  }

  lemma RenderedStep(s: string, i: nat, args: seq<Arg>, a: nat, sp: Spec, text: (string, nat))
    requires i < |s| && s[i] == '%' && SpecFrom(s, i + 1, args, a) == Done(sp) && Converted(s, sp, args) == Done(text)
             && sp.next < |s|
    ensures Rendered(s, i, args, a) == Joined(text.0, Rendered(s, sp.next + 1, args, text.1))
  {
    hide SpecFrom, Converted;
  }

  lemma ConvertedInside(s: string, sp: Spec, args: seq<Arg>)
    requires sp.next <= |s| && Converted(s, sp, args).Done?
    ensures sp.next < |s|
  {
  }

  /** One `%` of the format: its output, the next argument and where the format goes on. */
  method Directive(s: string, i: nat, args: seq<Arg>, a: nat, buf: array<char>, idx: nat, maxlen: nat,
                   ghost before: string, ghost out: string)
    returns (r: Outcome<(nat, nat, nat)>, ghost text: string)
    requires i < |s| && s[i] == '%' && Shows(buf, idx, maxlen, before, out)
    modifies buf
    ensures r.Halted? ==> Rendered(s, i, args, a) == Halted
    ensures r.Done? ==> var (next, a', i') := r.value;
            i < i' <= |s| && Shows(buf, next, maxlen, before, out + text)
              && Rendered(s, i, args, a) == Joined(text, Rendered(s, i', args, a'))
  {
    text := "";
    var sp := ScanSpec(s, i + 1, args, a);
    if sp.Halted? {
      return Halted, "";
    }
    hide Shows, SpecFrom;
    var c := Convert(s, sp.value, args, buf, idx, maxlen, before, out);
    if c.Halted? {
      return Halted, "";
    }
    ConvertedInside(s, sp.value, args);
    hide Converted;
    text := Converted(s, sp.value, args).value.0;
    RenderedStep(s, i, args, a, sp.value, Converted(s, sp.value, args).value);
    return Done((c.value.0, c.value.1, sp.value.next + 1)), text;
  }

  lemma LengthShown(buf: array<char>, idx: nat, maxlen: nat, before: string, out: string)
    requires Shows(buf, idx, maxlen, before, out)
    ensures idx == |out|
  {
  }

  /**
   `_vsnprintf` into a buffer: whatever its size, the result tells how long the whole text is and the buffer
   holds the start of it.
   */
  method Vsnprintf(buf: array<char>, maxlen: nat, s: string, args: seq<Arg>) returns (r: Outcome<int>)
    requires maxlen <= buf.Length
    modifies buf
    ensures match Rendered(s, 0, args, 0)
            case Halted => r == Halted
            case Done(text) =>
              r == Done(TwosComplement(|text|, Plain)) && buf[..] == Truncated(old(buf[..]), text, maxlen)
  {
    ghost var before, out := buf[..], "";
    var i, idx, a := 0, 0, 0;
    assert Shows(buf, 0, maxlen, before, out);
    hide Shows, Truncated, TwosComplement, SpecFrom, Converted;
    JoinedNone(Rendered(s, 0, args, 0));
    while At(s, i) != NUL
      invariant 0 <= i <= |s| && 0 <= idx && 0 <= a && Shows(buf, idx, maxlen, before, out)
      invariant Rendered(s, 0, args, 0) == Joined(out, Rendered(s, i, args, a))
      decreases |s| - i
    {
      if s[i] != '%' {
        idx := Out(s[i], buf, idx, maxlen, before, out);
        JoinedTwice(out, [s[i]], Rendered(s, i + 1, args, a));
        out, i := out + [s[i]], i + 1;
      } else {
        var step, text := Directive(s, i, args, a, buf, idx, maxlen, before, out);
        if step.Halted? {
          return Halted;
        }
        JoinedTwice(out, text, Rendered(s, step.value.2, args, step.value.1));
        idx, a, i, out := step.value.0, step.value.1, step.value.2, out + text;
      }
    }
    RenderedEnd(s, i, args, a, out);
    assert idx == |out| by { LengthShown(buf, idx, maxlen, before, out); }
    Terminate(buf, idx, maxlen, before, out);
    return Done(TwosComplement(idx, Plain));
  }

  /** The text, with its NUL, is in the buffer exactly when it is shorter than the buffer. */
  lemma Complete(before: string, out: string, n: nat)
    requires 0 < n <= |before|
    ensures |out| < n ==> out + [NUL] <= Truncated(before, out, n)
    ensures |out| >= n && NUL !in out ==> !(out + [NUL] <= Truncated(before, out, n))
  {
    var t, m := Truncated(before, out, n), Min(|out|, n - 1);
    assert t[m] == NUL;
    if |out| < n {
      assert t[..|out| + 1] == out + [NUL];
    } else {
      assert (out + [NUL])[m] == out[m];
    }
  }

  /** The result as an `int`: the low 32 bits of the length, in two's complement. */
  function Result(length: nat): (r: int)
    ensures -0x8000_0000 <= r < 0x8000_0000 && (length - r) % 0x1_0000_0000 == 0
  {
    LowBits(length);
    TwosComplement(length, Plain)
  }

  lemma LowBits(length: nat)
    ensures (length - length % TWO32) % TWO32 == 0 && (length - length % TWO32 + TWO32) % TWO32 == 0
  {
    var q := length / TWO32;
    DivModUnique(length - length % TWO32, TWO32, q, 0);
    DivModUnique(length - length % TWO32 + TWO32, TWO32, q + 1, 0);
  }

  /**
   The caller's test `0 <= result < n` is right about a text of this length: the length fits an `int`, or its low 32
   bits are negative as an `int` and the text is cut, or they are not below n, or the text fits although they are.
   */
  predicate TestIsRight(length: nat, n: nat) {
    var low := length % TWO32;
    if low >= TWO32 / 2 then n <= length else length < n || n <= low
  }

  lemma CompleteIff(before: string, out: string, n: nat)
    requires 0 < n <= |before| && NUL !in out
    ensures (out + [NUL] <= Truncated(before, out, n) <==> 0 <= Result(|out|) < n) <==> TestIsRight(|out|, n)
    ensures |out| < TWO32 / 2 ==> TestIsRight(|out|, n)
  {
    Complete(before, out, n);
    hide Truncated;
    ShortIsRight(|out|, n);
    LowPart(|out|);
  }

  lemma LowPart(length: nat)
    ensures length % TWO32 <= length
  {
  }

  lemma ShortIsRight(length: nat, n: nat)
    ensures length < TWO32 / 2 ==> TestIsRight(length, n)
  {
  }

  /** A text of 2^31 characters that fits is reported with a negative result, and one of 2^32 that is cut with 0. */
  lemma Misleading()
    ensures Result(TWO32 / 2) < 0 && forall n :: n > TWO32 / 2 ==> !TestIsRight(TWO32 / 2, n)
    ensures Result(TWO32) == 0 && forall n :: 0 < n <= TWO32 ==> !TestIsRight(TWO32, n)
  {
  }

  /** A larger buffer never shows less, and two buffers never disagree on what both show. */
  lemma LargerShowsMore(before: string, after: string, out: string, n: nat, n': nat)
    requires 0 < n <= n' && n <= |before| && n' <= |after|
    ensures var m := Min(|out|, n - 1);
            m <= Min(|out|, n' - 1) && Truncated(before, out, n)[..m] == Truncated(after, out, n')[..m] == out[..m]
  {
    var m := Min(|out|, n - 1);
    var m' := Min(|out|, n' - 1);
    assert Truncated(after, out, n')[..m'] == out[..m'];
    assert out[..m'][..m] == out[..m];
    assert Truncated(after, out, n')[..m] == Truncated(after, out, n')[..m'][..m];
  }

  // ---- formats of one directive ----

  predicate AllFlags(fl: string) {
    forall i :: 0 <= i < |fl| ==> WithFlag(NoFlags(), fl[i]).Some?
  }

  /** The flags one after the other. */
  function FlagsOf(fl: string, f: Flags): Flags
    requires AllFlags(fl)
  {
    if fl == [] then f else FlagsOf(fl[1..], WithFlag(f, fl[0]).value)
  }

  /** `%`, flags, perhaps a `*`, and a 64-bit conversion. */
  function Format(fl: string, star: bool, c: char): string {
    "%" + fl + (if star then "*ll" else "ll") + [c]
  }

  lemma {:induction false} FlagsScanned(s: string, i: nat, fl: string, f: Flags)
    requires AllFlags(fl) && i + |fl| < |s| && s[i..i + |fl|] == fl && WithFlag(f, s[i + |fl|]).None?
    ensures FlagsFrom(s, i, f) == (FlagsOf(fl, f), i + |fl|)
    decreases |fl|
  {
    if fl != [] {
      assert s[i] == fl[0] && s[i + 1..i + |fl|] == fl[1..];
      FlagsScanned(s, i + 1, fl[1..], WithFlag(f, fl[0]).value);
    }
  }

  lemma FormatChars(fl: string, star: bool, c: char)
    ensures var s, j := Format(fl, star, c), 1 + |fl|;
            && |s| == j + (if star then 4 else 3) && s[0] == '%' && s[1..j] == fl
            && (star ==> s[j] == '*' && s[j + 1] == 'l' && s[j + 2] == 'l' && s[j + 3] == c)
            && (!star ==> s[j] == 'l' && s[j + 1] == 'l' && s[j + 2] == c)
  {
  }

  /** What the scanner makes of such a format. */
  lemma FormatSpec(fl: string, star: bool, c: char, args: seq<Arg>, width: nat)
    requires AllFlags(fl) && width < TWO32 / 2 && (if star then |args| > 0 && args[0] == Word(width) else width == 0)
    ensures var s := Format(fl, star, c);
            SpecFrom(s, 1, args, 0) ==
            Done(Spec(FlagsOf(fl, NoFlags()), width, 0, Long, |s| - 1, if star then 1 else 0))
  {
    var s, j := Format(fl, star, c), 1 + |fl|;
    FormatChars(fl, star, c);
    hide Format;
    FlagsScanned(s, 1, fl, NoFlags());
    hide FlagsFrom, FlagsOf;
    var f := FlagsOf(fl, NoFlags());
    if star {
      StarWidth(s, Spec(f, 0, 0, Plain, j, 0), args, width);
    }
  }

  lemma StarWidth(s: string, sp: Spec, args: seq<Arg>, width: nat)
    requires sp.next < |s| && s[sp.next] == '*' && sp.arg < |args| && args[sp.arg] == Word(width) && width < TWO32 / 2
    ensures WidthFrom(s, sp, args) == Done(sp.(width := width, next := sp.next + 1, arg := sp.arg + 1))
  {
  }

  lemma IntegerConverted(s: string, sp: Spec, args: seq<Arg>, word: nat)
    requires sp.next < |s| && IsInteger(s[sp.next]) && WordAt(args, sp.arg) == Done(word)
    ensures Converted(s, sp, args) == Done((IntegerText(s[sp.next], sp, word), sp.arg + 1))
  {
    hide IntegerText;
  }

  /** Such a format prints its integer argument, and nothing else. */
  lemma FormatPrints(fl: string, star: bool, c: char, args: seq<Arg>, width: nat, word: nat)
    requires AllFlags(fl) && IsInteger(c) && width < TWO32 / 2
    requires args == (if star then [Word(width), Word(word)] else [Word(word)]) && (star || width == 0)
    ensures var s, arg := Format(fl, star, c), if star then 1 else 0;
            |s| > 0 && Rendered(s, 0, args, 0) ==
            Done(IntegerText(c, Spec(FlagsOf(fl, NoFlags()), width, 0, Long, |s| - 1, arg), word))
  {
    hide Format, IntegerText, SpecFrom, FlagsOf, Converted, Rendered;
    var s := Format(fl, star, c);
    FormatChars(fl, star, c);
    FormatSpec(fl, star, c, args, width);
    var sp := Spec(FlagsOf(fl, NoFlags()), width, 0, Long, |s| - 1, if star then 1 else 0);
    var text := IntegerText(c, sp, word);
    IntegerConverted(s, sp, args, word);
    RenderedStep(s, 0, args, 0, sp, (text, sp.arg + 1));
    RenderedEnd(s, |s|, args, sp.arg + 1, text);
  }
}
