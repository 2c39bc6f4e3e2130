/** Placing a module's sections and applying its relocations (kernel/src/devmgr/module.cc). */
module Linker {
  import opened Machine

  const SECTION_ALIGN := 32
  const R_X86_64_64 := 1

  datatype Kind = Data | NoBits | Rel | Rela

  datatype Reloc = Reloc(offset: nat, sym: nat, kind: nat, addend: int)

  /** A section header with what it describes: its bytes in the file and, for `SHT_RELA`, its entries. */
  datatype Section = Section(name: string, alloc: bool, kind: Kind, size: nat, data: seq<Byte>, addr: nat, info: nat,
                             relocs: seq<Reloc>)

  /** `index` 0 is `SHN_UNDEF`. */
  datatype Symbol = Symbol(name: string, isSection: bool, index: nat, value: nat)

  datatype KernelSymbol = KernelSymbol(name: string, value: nat)

  // ---- placement ----

  predicate Placed(s: Section) {
    s.alloc && s.size > 0
  }

  /** The file really holds the bytes of every section that has any. */
  predicate InFile(ss: seq<Section>) {
    forall i :: 0 <= i < |ss| ==> ss[i].kind != NoBits ==> |ss[i].data| == ss[i].size
  }

  /** What the loader writes for a section. */
  function Bytes(s: Section): (b: seq<Byte>)
    requires s.kind != NoBits ==> |s.data| == s.size
    ensures |b| == s.size && forall i :: 0 <= i < s.size ==> b[i] == if s.kind == NoBits then 0 else s.data[i]
  {
    if s.kind == NoBits then seq(s.size, i => 0) else s.data
  }

  /** How far the section cursor is from the module base when section `n` is reached. */
  function Offset(ss: seq<Section>, n: nat): nat
    requires n <= |ss|
  {
    if n == 0 then 0 else Offset(ss, n - 1) + if Placed(ss[n - 1]) then AlignUp(ss[n - 1].size, SECTION_ALIGN) else 0
  }

  lemma {:induction false} OffsetGrows(ss: seq<Section>, m: nat, n: nat)
    requires m <= n <= |ss|
    ensures Offset(ss, m) <= Offset(ss, n)
  {
    if m < n {
      OffsetGrows(ss, m, n - 1);
    }
  }

  lemma {:induction false} OffsetAligned(ss: seq<Section>, n: nat)
    requires n <= |ss|
    ensures Offset(ss, n) % SECTION_ALIGN == 0
  {
    if n > 0 {
      OffsetAligned(ss, n - 1);
      AlignUpIsLeast(ss[n - 1].size, SECTION_ALIGN);
    }
  }

  /** The next section starts at the first multiple of 32 at or after the end of this one; others take no room. */
  lemma OffsetNext(ss: seq<Section>, n: nat)
    requires n < |ss|
    ensures if Placed(ss[n]) then Offset(ss, n) + ss[n].size <= Offset(ss, n + 1) < Offset(ss, n) + ss[n].size + 32
            else Offset(ss, n + 1) == Offset(ss, n)
    ensures Offset(ss, 0) == 0
  {
    AlignUpIsLeast(ss[n].size, SECTION_ALIGN);
  }

  /** Placed sections never overlap: each ends before the cursor moves on. */
  lemma SectionsDisjoint(ss: seq<Section>, i: nat, j: nat)
    requires i < j <= |ss| && Placed(ss[i])
    ensures Offset(ss, i) + ss[i].size <= Offset(ss, j)
  {
    AlignUpIsLeast(ss[i].size, SECTION_ALIGN);
    OffsetGrows(ss, i + 1, j);
  }

  /**
   The mapping loop asks for a page at every step up to and including the rounded size, which reaches every byte
   of the section.
   */
  lemma PagesCover(sectionbase: nat, size: nat, b: nat) returns (j: nat)
    requires sectionbase <= b < sectionbase + size
    ensures j % PAGE == 0 && j <= AlignUp(size, PAGE) && (sectionbase + j) / PAGE == b / PAGE
  {
    AlignUpIsLeast(size, PAGE);
    hide AlignUp;
    var first, last, r := sectionbase / PAGE, b / PAGE, sectionbase % PAGE;
    var count := AlignUp(size, PAGE) / PAGE;
    assert AlignUp(size, PAGE) == count * PAGE && first <= last <= first + count;
    j := (last - first) * PAGE;
    DivModUnique(sectionbase + j, PAGE, last, r);
    MulMod(last - first, PAGE);
  }

  predicate Fits(ss: seq<Section>, n: nat, room: nat) {
    n <= |ss| && InFile(ss) && Offset(ss, n) <= room
  }

  lemma FitsBefore(ss: seq<Section>, m: nat, n: nat, room: nat)
    requires m <= n && Fits(ss, n, room)
    ensures Fits(ss, m, room)
  {
    OffsetGrows(ss, m, n);
  }

  /** The image after the first `n` sections. */
  function Image(before: seq<Byte>, ss: seq<Section>, n: nat): (m: seq<Byte>)
    requires Fits(ss, n, |before|)
    ensures |m| == |before|
  {
    if n == 0 then before
    else
      var rest := (OffsetGrows(ss, n - 1, n); Image(before, ss, n - 1));
      if Placed(ss[n - 1]) then (SectionsDisjoint(ss, n - 1, n); Store(rest, Offset(ss, n - 1), Bytes(ss[n - 1])))
      else rest
  }

  predicate Within(ss: seq<Section>, i: nat, x: int)
    requires i < |ss|
  {
    Placed(ss[i]) && Offset(ss, i) <= x < Offset(ss, i) + ss[i].size
  }

  /** Whichever of the first `n` sections the byte at `x` belongs to, it is that section's byte. */
  predicate SectionsHold(ss: seq<Section>, n: nat, m: seq<Byte>, x: nat)
    requires n <= |ss| && InFile(ss) && x < |m|
  {
    forall i: nat :: i < n && Within(ss, i, x) ==> m[x] == Bytes(ss[i])[x - Offset(ss, i)]
  }

  predicate Nowhere(ss: seq<Section>, n: nat, x: int)
    requires n <= |ss|
  {
    forall i: nat :: i < n ==> !Within(ss, i, x)
  }

  /** Every placed section reads back as its own bytes, and the loader touches nothing else. */
  lemma {:induction false} ImageAt(before: seq<Byte>, ss: seq<Section>, n: nat, x: nat)
    requires Fits(ss, n, |before|) && x < |before|
    ensures SectionsHold(ss, n, Image(before, ss, n), x)
    ensures Nowhere(ss, n, x) ==> Image(before, ss, n)[x] == before[x]
  {
    if n > 0 {
      OffsetGrows(ss, n - 1, n);
      ImageAt(before, ss, n - 1, x);
      if Placed(ss[n - 1]) {
        SectionsDisjoint(ss, n - 1, n);
        forall i: nat | i < n - 1 && Within(ss, i, x) ensures x < Offset(ss, n - 1) {
          SectionsDisjoint(ss, i, n - 1);
        }
      }
      assert !Within(ss, n - 1, x) ==> Image(before, ss, n)[x] == Image(before, ss, n - 1)[x];
    }
  }

  /** The headers once the first `n` of them have been visited. */
  function Headers(ss: seq<Section>, base: nat, n: nat): (r: seq<Section>)
    requires n <= |ss|
    ensures |r| == |ss|
    ensures forall i :: 0 <= i < |ss| ==>
              r[i] == if i < n && Placed(ss[i]) then ss[i].(addr := base + Offset(ss, i)) else ss[i]
  {
    seq(|ss|, i requires 0 <= i < |ss| =>
      if i < n && Placed(ss[i]) then ss[i].(addr := base + Offset(ss, i)) else ss[i])
  }

  method CopyIn(mem: array<Byte>, at: nat, s: Section)
    requires (s.kind != NoBits ==> |s.data| == s.size) && at + s.size <= mem.Length
    modifies mem
    ensures mem[..] == Store(old(mem[..]), at, Bytes(s))
  {
    for i := 0 to s.size
      invariant mem[..] == Store(old(mem[..]), at, Bytes(s)[..i])
    {
      mem[at + i] := if s.kind == NoBits then 0 else s.data[i];
    }
    assert Bytes(s)[..s.size] == Bytes(s);
  }

  lemma HeadersStep(ss: seq<Section>, base: nat, i: nat)
    requires i < |ss|
    ensures Headers(ss, base, i)[i] == ss[i]
    ensures Headers(ss, base, i + 1) ==
            if Placed(ss[i]) then Headers(ss, base, i)[i := ss[i].(addr := base + Offset(ss, i))]
              else Headers(ss, base, i)
  {
  }

  /** One turn of the section loop. */
  method LoadOne(shdrs: array<Section>, i: nat, sectionbase: nat, base: nat, mem: array<Byte>, ghost ss: seq<Section>,
                 ghost before: seq<Byte>)
    returns (next: nat)
    requires i < shdrs.Length == |ss| && mem.Length == |before| && Fits(ss, i, |before|) && Fits(ss, i + 1, |before|)
    requires shdrs[..] == Headers(ss, base, i) && sectionbase == base + Offset(ss, i) && mem[..] == Image(before, ss, i)
    modifies shdrs, mem
    ensures shdrs[..] == Headers(ss, base, i + 1) && next == base + Offset(ss, i + 1)
            && mem[..] == Image(before, ss, i + 1)
  {
    HeadersStep(ss, base, i);
    next := sectionbase;
    var s := shdrs[i];
    assert s == shdrs[..][i] == ss[i];
    hide Headers, AlignUp;
    if s.alloc && s.size > 0 {
      SectionsDisjoint(ss, i, i + 1);
      shdrs[i] := s.(addr := sectionbase);
      CopyIn(mem, sectionbase - base, s);
      next := sectionbase + AlignUp(s.size, SECTION_ALIGN);
    }
  }

  lemma NothingLoaded(ss: seq<Section>, base: nat, before: seq<Byte>)
    requires Fits(ss, 0, |before|)
    ensures Headers(ss, base, 0) == ss && Offset(ss, 0) == 0 && Image(before, ss, 0) == before
  {
  }

  /** The section loop of `modules_load`; `mem` is the memory from `base` on. */
  method LoadSections(shdrs: array<Section>, base: nat, mem: array<Byte>)
    requires Fits(shdrs[..], shdrs.Length, mem.Length)
    modifies shdrs, mem
    ensures shdrs[..] == Headers(old(shdrs[..]), base, shdrs.Length)
    ensures mem[..] == Image(old(mem[..]), old(shdrs[..]), shdrs.Length)
  {
    hide Headers, Fits, Offset, Image;
    ghost var ss, before := shdrs[..], mem[..];
    var sectionbase := base;
    FitsBefore(ss, 0, |ss|, |before|);
    NothingLoaded(ss, base, before);
    for i := 0 to shdrs.Length
      invariant Fits(ss, i, |before|) && i <= |ss| && shdrs[..] == Headers(ss, base, i)
                && sectionbase == base + Offset(ss, i)
      invariant mem[..] == Image(before, ss, i)
    {
      FitsBefore(ss, i + 1, |ss|, |before|);
      sectionbase := LoadOne(shdrs, i, sectionbase, base, mem, ss, before);
    }
  }

  // ---- symbols ----

  /** What relocating needs to know: the placed headers, both symbol tables and the module base. */
  datatype Env = Env(ss: seq<Section>, syms: seq<Symbol>, ksyms: seq<KernelSymbol>, base: nat)

  predicate FirstNamed(ksyms: seq<KernelSymbol>, name: string, k: nat) {
    k < |ksyms| && ksyms[k].name == name && forall j :: 0 <= j < k ==> ksyms[j].name != name
  }

  predicate Unknown(ksyms: seq<KernelSymbol>, name: string) {
    forall j :: 0 <= j < |ksyms| ==> ksyms[j].name != name
  }

  /** The search for an undefined symbol stops at the first kernel symbol of that name. */
  function KernelAddress(ksyms: seq<KernelSymbol>, name: string, from: nat): Outcome<nat>
    requires from <= |ksyms|
    decreases |ksyms| - from
  {
    if from == |ksyms| then Halted
    else if ksyms[from].name == name then Done(ksyms[from].value)
    else KernelAddress(ksyms, name, from + 1)
  }

  lemma {:induction false} KernelAddressIsFirst(ksyms: seq<KernelSymbol>, name: string, from: nat)
    requires from <= |ksyms| && forall j :: 0 <= j < from ==> ksyms[j].name != name
    ensures KernelAddress(ksyms, name, from).Halted? <==> Unknown(ksyms, name)
    ensures forall k: nat :: FirstNamed(ksyms, name, k) ==> KernelAddress(ksyms, name, from) == Done(ksyms[k].value)
    decreases |ksyms| - from
  {
    if from < |ksyms| && ksyms[from].name != name {
      KernelAddressIsFirst(ksyms, name, from + 1);
    } else if from < |ksyms| {
      forall k: nat | FirstNamed(ksyms, name, k) ensures k == from {
      }
    }
  }

  method FindKernel(ksyms: seq<KernelSymbol>, name: string) returns (r: Outcome<nat>)
    ensures r == KernelAddress(ksyms, name, 0)
  {
    for k := 0 to |ksyms|
      invariant KernelAddress(ksyms, name, k) == KernelAddress(ksyms, name, 0)
    {
      if ksyms[k].name == name {
        return Done(ksyms[k].value);
      }
    }
    return Halted;
  }

  /** 64-bit arithmetic. */
  function Wrap(x: int): nat {
    x % TWO64
  }

  lemma WrapSmall(x: nat)
    requires x < TWO64
    ensures Wrap(x) == x
  {
  }

  /** S: the placed address of the symbol's section plus its value, or the kernel's address for an undefined one. */
  function SymbolAddress(env: Env, sym: Symbol): Outcome<nat> {
    if sym.index >= |env.ss| then Halted
    else if sym.index == 0 then KernelAddress(env.ksyms, if sym.isSection then env.ss[0].name else sym.name, 0)
    else Done(Wrap(env.ss[sym.index].addr + sym.value))
  }

  method Resolve(env: Env, sym: Symbol) returns (r: Outcome<nat>)
    ensures r == SymbolAddress(env, sym)
  {
    if sym.index >= |env.ss| {
      return Halted;   // no such header
    }
    if sym.index == 0 {
      r := FindKernel(env.ksyms, if sym.isSection then env.ss[sym.index].name else sym.name);
    } else {
      r := Done(Wrap(env.ss[sym.index].addr + sym.value));
    }
  }

  /** A symbol defined in a placed section resolves to where the loaded image holds the byte the symbol stands for. */
  lemma DefinedSymbol(env: Env, ss: seq<Section>, before: seq<Byte>, sym: Symbol)
    requires Fits(ss, |ss|, |before|) && env.ss == Headers(ss, env.base, |ss|) && env.base + |before| <= TWO64
    requires 0 < sym.index < |ss| && Placed(ss[sym.index]) && sym.value < ss[sym.index].size
    ensures SymbolAddress(env, sym).Done?
    ensures var x := SymbolAddress(env, sym).value - env.base;
            0 <= x < |before| && Image(before, ss, |ss|)[x] == Bytes(ss[sym.index])[sym.value]
  {
    hide Image, Bytes, Offset, Headers, Fits, SymbolAddress, Placed;
    SectionByte(ss, before, sym.index, sym.value);
    HeaderAddress(ss, env.base, sym.index);
    DefinedAddress(env, sym, env.base + Offset(ss, sym.index));
  }

  lemma HeaderAddress(ss: seq<Section>, base: nat, k: nat)
    requires k < |ss| && Placed(ss[k])
    ensures Headers(ss, base, |ss|)[k].addr == base + Offset(ss, k)
  {
    hide Offset, Placed;
  }

  lemma DefinedAddress(env: Env, sym: Symbol, a: nat)
    requires 0 < sym.index < |env.ss| && env.ss[sym.index].addr == a && a + sym.value < TWO64
    ensures SymbolAddress(env, sym) == Done(a + sym.value)
  {
    WrapSmall(a + sym.value);
    hide Wrap, KernelAddress;
  }

  lemma SectionByte(ss: seq<Section>, before: seq<Byte>, k: nat, v: nat)
    requires Fits(ss, |ss|, |before|) && k < |ss| && Placed(ss[k]) && v < ss[k].size
    ensures var x := Offset(ss, k) + v; x < |before| && Image(before, ss, |ss|)[x] == Bytes(ss[k])[v]
  {
    hide Image, Bytes, Offset;
    var x := Offset(ss, k) + v;
    SectionsDisjoint(ss, k, |ss|);
    ImageAt(before, ss, |ss|, x);
    assert Within(ss, k, x);
  }

  // ---- relocations ----

  /** What the relocation loop meets, in order: a `SHT_REL` section, or one entry for the section `target`. */
  datatype Entry = Fatal | Patch(target: nat, reloc: Reloc)

  datatype Write = Write(at: nat, value: nat)

  function Entries(ss: seq<Section>, i: nat, j: nat): seq<Entry>
    requires i <= |ss|
    decreases |ss| - i, if i < |ss| then |ss[i].relocs| - j else 0
  {
    if i == |ss| then []
    else if ss[i].kind == Rel then [Fatal]
    else if ss[i].kind == Rela && j < |ss[i].relocs| then [Patch(ss[i].info, ss[i].relocs[j])] + Entries(ss, i, j + 1)
    else Entries(ss, i + 1, 0)
  }

  /** Where the entry writes, and S + A in 64 bits. */
  function WriteOf(env: Env, e: Entry): Outcome<Write> {
    if e.Fatal? || e.target >= |env.ss| || e.reloc.sym >= |env.syms| || e.reloc.kind != R_X86_64_64 then Halted
    else
      match SymbolAddress(env, env.syms[e.reloc.sym])
      case Halted => Halted
      case Done(a) => Done(Write(Wrap(env.ss[e.target].addr + e.reloc.offset), Wrap(a + e.reloc.addend)))
  }

  /** Little endian. */
  function Quad(v: nat, n: nat): (b: seq<Byte>)
    ensures |b| == n
  {
    if n == 0 then [] else [(v % 256) as Byte] + Quad(v / 256, n - 1)
  }

  predicate InMemory(env: Env, w: Write, room: nat) {
    env.base <= w.at && w.at + 8 <= env.base + room
  }

  function Applied(env: Env, mem: seq<Byte>, e: Entry): (r: Outcome<seq<Byte>>)
    ensures r.Done? ==> |r.value| == |mem|
  {
    match WriteOf(env, e)
    case Halted => Halted
    case Done(w) => if InMemory(env, w, |mem|) then Done(Store(mem, w.at - env.base, Quad(w.value, 8))) else Halted
  }

  function Run(env: Env, mem: seq<Byte>, es: seq<Entry>): (r: Outcome<seq<Byte>>)
    ensures r.Done? ==> |r.value| == |mem|
    decreases |es|
  {
    if es == [] then Done(mem)
    else match Applied(env, mem, es[0])
      case Halted => Halted
      case Done(m) => Run(env, m, es[1..])
  }

  predicate Covers(env: Env, e: Entry, x: int) {
    match WriteOf(env, e) case Halted => false case Done(w) => w.at <= env.base + x < w.at + 8
  }

  /** No two relocated quadwords share a byte. */
  predicate Apart(env: Env, es: seq<Entry>) {
    forall p, q :: 0 <= p < q < |es| ==> ApartPair(env, es[p], es[q])
  }

  predicate ApartPair(env: Env, e: Entry, f: Entry) {
    match (WriteOf(env, e), WriteOf(env, f))
    case (Done(w), Done(v)) => w.at + 8 <= v.at || v.at + 8 <= w.at
    case _ => true
  }

  /** The byte of S + A that entry `e` leaves at `x`. */
  function Relocated(env: Env, e: Entry, x: int): Byte
    requires Covers(env, e, x)
  {
    Quad(WriteOf(env, e).value.value, 8)[env.base + x - WriteOf(env, e).value.at]
  }

  lemma AppliedAt(env: Env, mem: seq<Byte>, e: Entry, x: nat)
    requires Applied(env, mem, e).Done? && x < |mem|
    ensures Applied(env, mem, e).value[x] == if Covers(env, e, x) then Relocated(env, e, x) else mem[x]
  {
    hide Quad, WriteOf;
  }

  predicate Untouched(env: Env, es: seq<Entry>, x: int) {
    forall p :: 0 <= p < |es| ==> !Covers(env, es[p], x)
  }

  predicate QuadsHold(env: Env, es: seq<Entry>, m: seq<Byte>, x: nat)
    requires x < |m|
  {
    forall p :: 0 <= p < |es| && Covers(env, es[p], x) ==> m[x] == Relocated(env, es[p], x)
  }

  /**
   With targets apart, every relocated quadword ends up as its S + A, in whatever order they were written, and
   nothing else changes.
   */
  lemma {:induction false} RunAt(env: Env, mem: seq<Byte>, es: seq<Entry>, x: nat)
    requires Run(env, mem, es).Done? && Apart(env, es) && x < |mem|
    ensures Untouched(env, es, x) ==> Run(env, mem, es).value[x] == mem[x]
    ensures QuadsHold(env, es, Run(env, mem, es).value, x)
    decreases |es|
  {
    hide WriteOf, Relocated, Applied;
    if es != [] {
      var rest := es[1..];
      AppliedAt(env, mem, es[0], x);
      ApartRest(env, es);
      RunAt(env, Applied(env, mem, es[0]).value, rest, x);
      forall p | 0 <= p < |es| && Covers(env, es[p], x) ensures Run(env, mem, es).value[x] == Relocated(env, es[p], x) {
        if p > 0 {
          assert es[p] == rest[p - 1];
        } else {
          CoveredOnce(env, es, x);
        }
      }
      if Untouched(env, es, x) {
        assert Untouched(env, rest, x);
      }
    }
  }

  lemma ApartRest(env: Env, es: seq<Entry>)
    requires Apart(env, es) && es != []
    ensures Apart(env, es[1..])
  {
    hide ApartPair;
  }

  lemma CoveredOnce(env: Env, es: seq<Entry>, x: int)
    requires Apart(env, es) && es != [] && Covers(env, es[0], x)
    ensures Untouched(env, es[1..], x)
  {
    hide WriteOf;
    forall p | 0 <= p < |es| - 1 ensures !Covers(env, es[1..][p], x) {
      assert ApartPair(env, es[0], es[p + 1]);
    }
  }

  function QuadValue(b: seq<Byte>): nat {
    if b == [] then 0 else b[0] as nat + 256 * QuadValue(b[1..])
  }

  lemma {:induction false} QuadRoundTrip(v: nat, n: nat)
    ensures QuadValue(Quad(v, n)) == v % Pow256(n)
  {
    if n > 0 {
      QuadRoundTrip(v / 256, n - 1);
      var low, high, m := v % 256, v / 256, Pow256(n - 1);
      assert Quad(v, n)[1..] == Quad(high, n - 1);
      SplitMod(high, low, m);
    }
  }

  function Pow256(n: nat): (p: nat)
    ensures p > 0
  {
    if n == 0 then 1 else 256 * Pow256(n - 1)
  }

  lemma SplitMod(high: nat, low: nat, m: nat)
    requires low < 256 && m > 0
    ensures (256 * high + low) % (256 * m) == low + 256 * (high % m)
  {
    var h, l := high / m, high % m;
    assert 256 * high + low == h * (256 * m) + (low + 256 * l) by { assert high == h * m + l; }
    DivModUnique(256 * high + low, 256 * m, h, low + 256 * l);
  }

  /** The quadword a relocation leaves reads back as S + A. */
  lemma QuadIsValue(v: nat)
    requires v < TWO64
    ensures QuadValue(Quad(v, 8)) == v
  {
    QuadRoundTrip(v, 8);
    assert Pow256(4) == TWO32;
    assert Pow256(8) == TWO64;
    SmallMod(v, TWO64);
  }

  method StoreQuad(mem: array<Byte>, at: nat, value: nat)
    requires at + 8 <= mem.Length
    modifies mem
    ensures mem[..] == Store(old(mem[..]), at, Quad(value, 8))
  {
    var v := value;
    assert Store(mem[..], at, []) == mem[..];
    for i := 0 to 8
      invariant 0 <= v && Quad(value, 8)[i..] == Quad(v, 8 - i)
                && mem[..] == Store(old(mem[..]), at, Quad(value, 8)[..i])
    {
      assert Quad(value, 8)[i] == Quad(v, 8 - i)[0] && Quad(value, 8)[i + 1..] == Quad(v, 8 - i)[1..];
      mem[at + i] := (v % 256) as Byte;
      v := v / 256;
    }
    assert Quad(value, 8)[..8] == Quad(value, 8);
  }

  /** The body of the relocation loop. */
  method Relocate(env: Env, e: Entry, mem: array<Byte>) returns (ok: bool)
    modifies mem
    ensures ok <==> Applied(env, old(mem[..]), e).Done?
    ensures ok ==> Applied(env, old(mem[..]), e) == Done(mem[..])
  {
    if e.Fatal? || e.target >= |env.ss| || e.reloc.sym >= |env.syms| {
      return false;
    }
    var address := Resolve(env, env.syms[e.reloc.sym]);
    if address.Halted? || e.reloc.kind != R_X86_64_64 {
      return false;
    }
    var at, value := Wrap(env.ss[e.target].addr + e.reloc.offset), Wrap(address.value + e.reloc.addend);
    if at < env.base || at + 8 > env.base + mem.Length {
      return false;   // a write outside the module
    }
    hide Quad;
    StoreQuad(mem, at - env.base, value);
    return true;
  }

  /** The two relocation loops of `modules_link`. */
  method LinkSections(env: Env, mem: array<Byte>) returns (ok: bool)
    modifies mem
    ensures ok <==> Run(env, old(mem[..]), Entries(env.ss, 0, 0)).Done?
    ensures ok ==> Run(env, old(mem[..]), Entries(env.ss, 0, 0)) == Done(mem[..])
  {
    assert forall m :: Applied(env, m, Fatal) == Halted;
    hide Applied;
    for i := 0 to |env.ss|
      invariant Run(env, mem[..], Entries(env.ss, i, 0)) == Run(env, old(mem[..]), Entries(env.ss, 0, 0))
    {
      if env.ss[i].kind == Rel {
        RunStep(env, mem[..], Fatal, []);
        assert [Fatal] + [] == [Fatal];
        return false;
      }
      if env.ss[i].kind == Rela {
        for j := 0 to |env.ss[i].relocs|
          invariant Run(env, mem[..], Entries(env.ss, i, j)) == Run(env, old(mem[..]), Entries(env.ss, 0, 0))
        {
          var e := Patch(env.ss[i].info, env.ss[i].relocs[j]);
          RunStep(env, mem[..], e, Entries(env.ss, i, j + 1));
          var done := Relocate(env, e, mem);
          if !done {
            return false;
          }
        }
      }
    }
    return true;
  }

  lemma RunStep(env: Env, mem: seq<Byte>, e: Entry, rest: seq<Entry>)
    ensures Run(env, mem, [e] + rest) ==
            match Applied(env, mem, e) case Halted => Halted case Done(m) => Run(env, m, rest)
  {
    assert ([e] + rest)[1..] == rest;
  }

  // ---- the whole module ----

  /** The entry point after the first `n` symbols: the last one called `mod_main` counts. */
  function EntryUpto(env: Env, n: nat): Outcome<nat>
    requires n <= |env.syms|
  {
    if n == 0 then Done(0)
    else
      var e := EntryUpto(env, n - 1);
      var sym := env.syms[n - 1];
      if e.Halted? || !IsMain(sym) then e
      else if sym.index >= |env.ss| then Halted
      else Done(Wrap(env.ss[sym.index].addr + sym.value))
  }

  predicate IsMain(sym: Symbol) {
    sym.name == "mod_main"
  }

  lemma {:induction false} LastMainIsEntry(env: Env, k: nat, n: nat)
    requires k < n <= |env.syms| && IsMain(env.syms[k]) && EntryUpto(env, n).Done?
    requires forall j :: k < j < n ==> !IsMain(env.syms[j])
    ensures env.syms[k].index < |env.ss|
    ensures EntryUpto(env, n) == Done(Wrap(env.ss[env.syms[k].index].addr + env.syms[k].value))
  {
    if k < n - 1 {
      LastMainIsEntry(env, k, n - 1);
    }
  }

  method FindEntry(env: Env) returns (entry: Outcome<nat>)
    ensures entry == EntryUpto(env, |env.syms|)
  {
    hide Wrap, IsMain;
    var e := 0;
    for i := 0 to |env.syms|
      invariant EntryUpto(env, i) == Done(e) && e >= 0
    {
      var sym := env.syms[i];
      if IsMain(sym) {
        if sym.index >= |env.ss| {
          EntryHalts(env, i + 1, |env.syms|);
          return Halted;
        }
        e := Wrap(env.ss[sym.index].addr + sym.value);
      }
    }
    return Done(e);
  }

  lemma {:induction false} EntryHalts(env: Env, m: nat, n: nat)
    requires m <= n <= |env.syms| && EntryUpto(env, m).Halted?
    ensures EntryUpto(env, n).Halted?
  {
    if m < n {
      EntryHalts(env, m, n - 1);
    }
  }

  /** `modules_load` from the section loop on, with `modules_link`. */
  method LoadModule(shdrs: array<Section>, syms: seq<Symbol>, ksyms: seq<KernelSymbol>, base: nat, mem: array<Byte>)
    returns (r: Outcome<nat>)
    requires Fits(shdrs[..], shdrs.Length, mem.Length)
    modifies shdrs, mem
    ensures shdrs[..] == Headers(old(shdrs[..]), base, shdrs.Length)
    ensures var env := Env(shdrs[..], syms, ksyms, base);
            var linked := Run(env, Image(old(mem[..]), old(shdrs[..]), shdrs.Length), Entries(env.ss, 0, 0));
            && (r.Done? <==> linked.Done? && EntryUpto(env, |syms|).Done? && EntryUpto(env, |syms|).value != 0)
            && (r.Done? ==> linked == Done(mem[..]) && r == EntryUpto(env, |syms|))
  {
    hide Headers, Run, Entries, EntryUpto, Image, Fits;
    LoadSections(shdrs, base, mem);
    var env := Env(shdrs[..], syms, ksyms, base);
    var entry := FindEntry(env);
    if entry.Halted? || entry.value == 0 {
      return Halted;
    }
    var ok := LinkSections(env, mem);
    return if ok then entry else Halted;
  }

  /** The relocation stays inside the section it is meant for. */
  predicate InSection(env: Env, ss: seq<Section>, e: Entry) {
    e.Patch? ==> e.target < |ss| && Placed(ss[e.target]) && e.reloc.offset + 8 <= ss[e.target].size
                 && env.base + Offset(ss, e.target) + ss[e.target].size <= TWO64
  }

  lemma TargetInSection(env: Env, ss: seq<Section>, e: Entry, x: int)
    requires env.ss == Headers(ss, env.base, |ss|) && InSection(env, ss, e) && Covers(env, e, x)
    ensures e.Patch? && e.target < |ss| && Within(ss, e.target, x)
  {
    hide Wrap, SymbolAddress, Headers;
    WrapSmall(env.ss[e.target].addr + e.reloc.offset);
  }

  predicate AllInSection(env: Env, ss: seq<Section>, es: seq<Entry>) {
    forall p :: 0 <= p < |es| ==> InSection(env, ss, es[p])
  }

  lemma OutsideUntouched(env: Env, ss: seq<Section>, es: seq<Entry>, x: int)
    requires env.ss == Headers(ss, env.base, |ss|) && AllInSection(env, ss, es) && Nowhere(ss, |ss|, x)
    ensures Untouched(env, es, x)
  {
    hide Headers, InSection, Covers, Within;
    forall p | 0 <= p < |es| ensures !Covers(env, es[p], x) {
      if Covers(env, es[p], x) {
        TargetInSection(env, ss, es[p], x);
      }
    }
  }

  /**
   The final image: each relocated quadword holds its S + A, and every other byte is its section's own (zero for
   `SHT_NOBITS`).
   */
  lemma LinkedImage(env: Env, ss: seq<Section>, before: seq<Byte>, es: seq<Entry>, m: seq<Byte>, x: nat)
    requires Fits(ss, |ss|, |before|) && env.ss == Headers(ss, env.base, |ss|) && x < |before|
             && es == Entries(env.ss, 0, 0)
    requires Run(env, Image(before, ss, |ss|), es) == Done(m) && Apart(env, es)
    ensures |m| == |before| && QuadsHold(env, es, m, x)
    ensures Untouched(env, es, x) ==> SectionsHold(ss, |ss|, m, x)
    ensures AllInSection(env, ss, es) && Nowhere(ss, |ss|, x) ==> m[x] == before[x]
  {
    assert InFile(ss);
    hide Entries, Headers, Image, Run, Apart, QuadsHold, SectionsHold, Nowhere, AllInSection, Fits, Untouched, InFile;
    RunAt(env, Image(before, ss, |ss|), es, x);
    ImageAt(before, ss, |ss|, x);
    if AllInSection(env, ss, es) && Nowhere(ss, |ss|, x) {
      OutsideUntouched(env, ss, es, x);
    }
    SectionsFollow(ss, Image(before, ss, |ss|), m, x);
  }

  lemma SectionsFollow(ss: seq<Section>, image: seq<Byte>, m: seq<Byte>, x: nat)
    requires InFile(ss) && x < |image| == |m| && SectionsHold(ss, |ss|, image, x)
    ensures m[x] == image[x] ==> SectionsHold(ss, |ss|, m, x)
  {
  }
}
