/** What a linked module is, told by its file alone: section headers, symbols and relocation tables. */
module LinkedModule {
  import opened Machine
  import opened Linker

  /** Relocation j of section i. */
  predicate RelaAt(ss: seq<Section>, i: nat, j: nat) {
    i < |ss| && ss[i].kind == Rela && j < |ss[i].relocs|
  }

  function Target(ss: seq<Section>, i: nat): nat
    requires i < |ss|
  {
    ss[i].info
  }

  /** Where it is to be applied, from the module base on. */
  function Spot(ss: seq<Section>, i: nat, j: nat): nat
    requires RelaAt(ss, i, j) && Target(ss, i) < |ss|
  {
    Offset(ss, ss[i].info) + ss[i].relocs[j].offset
  }

  /** Every relocation lies inside the placed section it is meant for. */
  ghost predicate Inside(ss: seq<Section>) {
    forall i: nat, j: nat :: RelaAt(ss, i, j) ==>
      && Target(ss, i) < |ss| && Placed(ss[ss[i].info])
      && ss[i].relocs[j].offset + 8 <= ss[ss[i].info].size
  }

  /** And no two of them overlap. */
  ghost predicate SpotsApart(ss: seq<Section>)
    requires Inside(ss)
  {
    forall i: nat, j: nat, a: nat, b: nat :: RelaAt(ss, i, j) && RelaAt(ss, a, b) && (i != a || j != b) ==>
      Spot(ss, i, j) + 8 <= Spot(ss, a, b) || Spot(ss, a, b) + 8 <= Spot(ss, i, j)
  }

  /** The name an undefined symbol is looked up by. */
  function NameOf(ss: seq<Section>, sym: Symbol): string
    requires ss != []
  {
    if sym.isSection then ss[0].name else sym.name
  }

  /** The symbol stands for the address s. */
  ghost predicate Stands(ss: seq<Section>, ksyms: seq<KernelSymbol>, base: nat, sym: Symbol, s: nat) {
    && sym.index < |ss|
    && if sym.index == 0 then exists k: nat :: FirstNamed(ksyms, NameOf(ss, sym), k) && s == ksyms[k].value
       else if ss[sym.index].alloc && ss[sym.index].size > 0 then
         s == (base + Offset(ss, sym.index) + sym.value) % TWO64
       else s == (ss[sym.index].addr + sym.value) % TWO64
  }

  // ---- the order in which the loops meet the relocations ----

  predicate NoRel(ss: seq<Section>) {
    forall i :: 0 <= i < |ss| ==> ss[i].kind != Rel
  }

  predicate Before(i: nat, j: nat, a: nat, b: nat) {
    i < a || (i == a && j <= b)
  }

  /** Every relocation is met. */
  lemma {:induction false} EntryAt(ss: seq<Section>, i: nat, j: nat, a: nat, b: nat) returns (p: nat)
    requires NoRel(ss) && i <= |ss| && RelaAt(ss, a, b) && Before(i, j, a, b)
    ensures p < |Entries(ss, i, j)| && Entries(ss, i, j)[p] == Patch(ss[a].info, ss[a].relocs[b])
    decreases |ss| - i, if i < |ss| then |ss[i].relocs| - j else 0
  {
    if ss[i].kind == Rela && j < |ss[i].relocs| {
      if i == a && j == b {
        p := 0;
      } else {
        var q := EntryAt(ss, i, j + 1, a, b);
        p := q + 1;
      }
    } else {
      p := EntryAt(ss, i + 1, 0, a, b);
    }
  }

  /** Which relocation entry p is. */
  function Origin(ss: seq<Section>, i: nat, j: nat, p: nat): (nat, nat)
    requires i <= |ss| && p < |Entries(ss, i, j)|
    decreases |ss| - i, if i < |ss| then |ss[i].relocs| - j else 0
  {
    if ss[i].kind == Rel then (i, 0)
    else if ss[i].kind == Rela && j < |ss[i].relocs| then (if p == 0 then (i, j) else Origin(ss, i, j + 1, p - 1))
    else Origin(ss, i + 1, 0, p)
  }

  lemma {:induction false} OriginIs(ss: seq<Section>, i: nat, j: nat, p: nat)
    requires NoRel(ss) && i <= |ss| && p < |Entries(ss, i, j)|
    ensures var (a, b) := Origin(ss, i, j, p);
            && RelaAt(ss, a, b) && Before(i, j, a, b)
            && Entries(ss, i, j)[p] == Patch(ss[a].info, ss[a].relocs[b])
    decreases |ss| - i, if i < |ss| then |ss[i].relocs| - j else 0
  {
    if ss[i].kind == Rela && j < |ss[i].relocs| {
      if p > 0 {
        OriginIs(ss, i, j + 1, p - 1);
      }
    } else {
      OriginIs(ss, i + 1, 0, p);
    }
  }

  /** No relocation is met twice. */
  lemma {:induction false} OriginsDiffer(ss: seq<Section>, i: nat, j: nat, p: nat, q: nat)
    requires NoRel(ss) && i <= |ss| && p < q < |Entries(ss, i, j)|
    ensures Origin(ss, i, j, p) != Origin(ss, i, j, q)
    decreases |ss| - i, if i < |ss| then |ss[i].relocs| - j else 0
  {
    if ss[i].kind == Rela && j < |ss[i].relocs| {
      if p > 0 {
        OriginsDiffer(ss, i, j + 1, p - 1, q - 1);
      } else {
        OriginIs(ss, i, j + 1, q - 1);
      }
    } else {
      OriginsDiffer(ss, i + 1, 0, p, q);
    }
  }

  lemma {:induction false} FatalAt(ss: seq<Section>, i: nat, j: nat, a: nat) returns (p: nat)
    requires i <= a < |ss| && ss[a].kind == Rel
    ensures p < |Entries(ss, i, j)| && Entries(ss, i, j)[p] == Fatal
    decreases |ss| - i, if i < |ss| then |ss[i].relocs| - j else 0
  {
    if ss[i].kind == Rel {
      p := 0;
    } else if ss[i].kind == Rela && j < |ss[i].relocs| {
      var q := FatalAt(ss, i, j + 1, a);
      p := q + 1;
    } else {
      p := FatalAt(ss, i + 1, 0, a);
    }
  }

  // ---- when linking succeeds ----

  ghost predicate Applicable(env: Env, e: Entry, room: nat) {
    match WriteOf(env, e) case Halted => false case Done(w) => InMemory(env, w, room)
  }

  lemma AppliedIff(env: Env, mem: seq<Byte>, e: Entry)
    ensures Applied(env, mem, e).Done? <==> Applicable(env, e, |mem|)
  {
    hide WriteOf, Quad, InMemory;
  }

  lemma {:induction false} RunDoneIff(env: Env, mem: seq<Byte>, es: seq<Entry>)
    ensures Run(env, mem, es).Done? <==> forall p :: 0 <= p < |es| ==> Applicable(env, es[p], |mem|)
    decreases |es|
  {
    hide Applied, Applicable;
    if es != [] {
      AppliedIff(env, mem, es[0]);
      if Applied(env, mem, es[0]).Done? {
        var rest := es[1..];
        RunDoneIff(env, Applied(env, mem, es[0]).value, rest);
        assert forall p :: 0 <= p < |rest| ==> rest[p] == es[p + 1];
        assert forall p :: 0 < p < |es| ==> es[p] == rest[p - 1];
      }
    }
  }

  /** One relocation can be applied in a window of `room` bytes. */
  ghost predicate CanApply(ss: seq<Section>, syms: seq<Symbol>, ksyms: seq<KernelSymbol>, base: nat, room: nat,
                           i: nat, j: nat)
    requires RelaAt(ss, i, j)
  {
    var r := ss[i].relocs[j];
    && ss[i].info < |ss| && r.sym < |syms| && r.kind == 1
    && (exists s: nat :: Stands(ss, ksyms, base, syms[r.sym], s))
    && var t := ss[ss[i].info];
       var start := if t.alloc && t.size > 0 then base + Offset(ss, ss[i].info) else t.addr;
       var at := (start + r.offset) % TWO64;
       base <= at && at + 8 <= base + room
  }

  lemma StandsIff(env: Env, ss: seq<Section>, sym: Symbol)
    requires env.ss == Headers(ss, env.base, |ss|)
    ensures SymbolAddress(env, sym).Done? <==> exists s: nat :: Stands(ss, env.ksyms, env.base, sym, s)
    ensures forall s: nat :: Stands(ss, env.ksyms, env.base, sym, s) ==> SymbolAddress(env, sym) == Done(s)
  {
    hide KernelAddress, Offset, FirstNamed;
    if sym.index < |ss| {
      if sym.index == 0 {
        var name := NameOf(ss, sym);
        KernelAddressIsFirst(env.ksyms, name, 0);
        if !Unknown(env.ksyms, name) {
          var k := FirstOf(env.ksyms, name);
          assert Stands(ss, env.ksyms, env.base, sym, env.ksyms[k].value);
        } else {
          NoneNamed(env.ksyms, name);
        }
      } else if Placed(ss[sym.index]) {
        assert Stands(ss, env.ksyms, env.base, sym, (env.base + Offset(ss, sym.index) + sym.value) % TWO64);
      } else {
        assert Stands(ss, env.ksyms, env.base, sym, (ss[sym.index].addr + sym.value) % TWO64);
      }
    }
  }

  lemma NoneNamed(ksyms: seq<KernelSymbol>, name: string)
    requires Unknown(ksyms, name)
    ensures forall k: nat :: !FirstNamed(ksyms, name, k)
  {
  }

  lemma FirstOf(ksyms: seq<KernelSymbol>, name: string) returns (k: nat)
    requires !Unknown(ksyms, name)
    ensures FirstNamed(ksyms, name, k)
  {
    k := 0;
    while ksyms[k].name != name
      invariant k < |ksyms| && forall j :: 0 <= j < k ==> ksyms[j].name != name
      decreases |ksyms| - k
    {
      k := k + 1;
    }
  }

  lemma ApplicableIff(env: Env, ss: seq<Section>, room: nat, i: nat, j: nat)
    requires env.ss == Headers(ss, env.base, |ss|) && RelaAt(ss, i, j)
    ensures Applicable(env, Patch(ss[i].info, ss[i].relocs[j]), room) <==>
            CanApply(ss, env.syms, env.ksyms, env.base, room, i, j)
  {
    hide SymbolAddress, Offset, Stands;
    if ss[i].relocs[j].sym < |env.syms| {
      StandsIff(env, ss, env.syms[ss[i].relocs[j].sym]);
    }
  }

  /** Linking goes through exactly when there is no `SHT_REL` section and every relocation can be applied. */
  lemma LinksIff(env: Env, ss: seq<Section>, mem: seq<Byte>)
    requires env.ss == Headers(ss, env.base, |ss|)
    ensures Run(env, mem, Entries(env.ss, 0, 0)).Done? <==>
            && NoRel(ss)
            && forall i: nat, j: nat :: RelaAt(ss, i, j) ==>
                 CanApply(ss, env.syms, env.ksyms, env.base, |mem|, i, j)
  {
    hide Run, Entries, Applicable, CanApply, Headers;
    var es := Entries(env.ss, 0, 0);
    RunDoneIff(env, mem, es);
    SameTables(ss, env.base);
    if !NoRel(ss) {
      var a :| 0 <= a < |ss| && ss[a].kind == Rel;
      var p := FatalAt(env.ss, 0, 0, a);
      FatalFails(env, |mem|);
    } else {
      forall i: nat, j: nat | RelaAt(ss, i, j) && Run(env, mem, es).Done?
        ensures CanApply(ss, env.syms, env.ksyms, env.base, |mem|, i, j)
      {
        var p := EntryAt(env.ss, 0, 0, i, j);
        ApplicableIff(env, ss, |mem|, i, j);
      }
      if forall i: nat, j: nat :: RelaAt(ss, i, j) ==> CanApply(ss, env.syms, env.ksyms, env.base, |mem|, i, j) {
        forall p | 0 <= p < |es| ensures Applicable(env, es[p], |mem|) {
          OriginIs(env.ss, 0, 0, p);
          var (i, j) := Origin(env.ss, 0, 0, p);
          ApplicableIff(env, ss, |mem|, i, j);
        }
      }
    }
  }

  lemma FatalFails(env: Env, room: nat)
    ensures !Applicable(env, Fatal, room)
  {
  }

  /** Placing the sections leaves the kinds and the relocations of their headers. */
  lemma SameTables(ss: seq<Section>, base: nat)
    ensures var hs := Headers(ss, base, |ss|);
            && |hs| == |ss|
            && (forall i: nat :: i < |ss| ==>
                  hs[i].kind == ss[i].kind && hs[i].relocs == ss[i].relocs && hs[i].info == ss[i].info)
            && (NoRel(hs) <==> NoRel(ss))
            && (forall i: nat, j: nat :: RelaAt(hs, i, j) <==> RelaAt(ss, i, j))
  {
    hide Offset;
  }

  // ---- what the linked image holds ----

  /** What one relocation writes. */
  lemma {:induction false} WriteIs(env: Env, ss: seq<Section>, i: nat, j: nat, s: nat)
    requires env.ss == Headers(ss, env.base, |ss|) && RelaAt(ss, i, j) && Inside(ss)
    requires env.base + Offset(ss, |ss|) <= TWO64
    requires WriteOf(env, Patch(ss[i].info, ss[i].relocs[j])).Done?
    ensures WriteOf(env, Patch(ss[i].info, ss[i].relocs[j])).value.at == env.base + Spot(ss, i, j)
    ensures ss[i].relocs[j].sym < |env.syms|
    ensures Stands(ss, env.ksyms, env.base, env.syms[ss[i].relocs[j].sym], s) ==>
              WriteOf(env, Patch(ss[i].info, ss[i].relocs[j])).value.value == (s + ss[i].relocs[j].addend) % TWO64
  {
    hide Wrap, SymbolAddress, Offset, Stands, Placed;
    var r, t := ss[i].relocs[j], ss[i].info;
    TargetsInside(ss, i, j);
    HeaderAddress(ss, env.base, t);
    WrapSmall(env.base + Offset(ss, t) + r.offset);
    if Stands(ss, env.ksyms, env.base, env.syms[r.sym], s) {
      StandsIff(env, ss, env.syms[r.sym]);
      WrapIs(s + r.addend);
    }
  }

  lemma WrapIs(x: int)
    ensures Wrap(x) == x % TWO64
  {
  }

  lemma SpotsAreApart(env: Env, ss: seq<Section>)
    requires env.ss == Headers(ss, env.base, |ss|) && NoRel(ss) && Inside(ss) && SpotsApart(ss)
    requires env.base + Offset(ss, |ss|) <= TWO64
    ensures Apart(env, Entries(env.ss, 0, 0))
  {
    hide Headers, Entries, WriteOf, Offset, Stands, Spot, Inside;
    SameTables(ss, env.base);
    var es := Entries(env.ss, 0, 0);
    forall p, q | 0 <= p < q < |es| ensures ApartPair(env, es[p], es[q]) {
      OriginIs(env.ss, 0, 0, p);
      OriginIs(env.ss, 0, 0, q);
      OriginsDiffer(env.ss, 0, 0, p, q);
      var (i, j) := Origin(env.ss, 0, 0, p);
      var (a, b) := Origin(env.ss, 0, 0, q);
      if WriteOf(env, es[p]).Done? && WriteOf(env, es[q]).Done? {
        WriteIs(env, ss, i, j, 0);
        WriteIs(env, ss, a, b, 0);
        TargetsInside(ss, i, j);
        TargetsInside(ss, a, b);
      }
    }
  }

  lemma TargetsInside(ss: seq<Section>, i: nat, j: nat)
    requires Inside(ss) && RelaAt(ss, i, j)
    ensures Target(ss, i) < |ss| && Placed(ss[ss[i].info])
    ensures Offset(ss, Target(ss, i)) + ss[i].relocs[j].offset + 8 <= Offset(ss, |ss|)
  {
    hide Offset;
    assert Target(ss, i) < |ss|;
    SectionsDisjoint(ss, ss[i].info, |ss|);
  }

  /**
   In the linked image the quadword at every relocation is S + A in 64 bits, S being what its symbol stands for: the
   placed address of a defined one, or the value of the first kernel symbol of its name.
   */
  lemma RelocatedQuads(env: Env, ss: seq<Section>, before: seq<Byte>, m: seq<Byte>, i: nat, j: nat, s: nat)
    requires Fits(ss, |ss|, |before|) && env.ss == Headers(ss, env.base, |ss|) && env.base + |before| <= TWO64
    requires Run(env, Image(before, ss, |ss|), Entries(env.ss, 0, 0)) == Done(m)
    requires Inside(ss) && SpotsApart(ss) && RelaAt(ss, i, j)
    ensures Target(ss, i) < |ss| && Spot(ss, i, j) + 8 <= |m| && ss[i].relocs[j].sym < |env.syms|
    ensures Stands(ss, env.ksyms, env.base, env.syms[ss[i].relocs[j].sym], s) ==>
              QuadValue(m[Spot(ss, i, j)..Spot(ss, i, j) + 8]) == (s + ss[i].relocs[j].addend) % TWO64
  {
    hide Run, Entries, WriteOf, Offset, Image, Headers, Stands, Quad, QuadValue, Inside, SpotsApart, InFile;
    var image, es := Image(before, ss, |ss|), Entries(env.ss, 0, 0);
    LinksIff(env, ss, image);
    SameTables(ss, env.base);
    SpotsAreApart(env, ss);
    TargetsInside(ss, i, j);
    var p := EntryAt(env.ss, 0, 0, i, j);
    RunDoneIff(env, image, es);
    assert Applicable(env, es[p], |image|);
    WriteIs(env, ss, i, j, s);
    QuadAt(env, image, es, p, m, Spot(ss, i, j));
    if Stands(ss, env.ksyms, env.base, env.syms[ss[i].relocs[j].sym], s) {
      QuadIsValue((s + ss[i].relocs[j].addend) % TWO64);
    }
  }

  lemma QuadAt(env: Env, mem: seq<Byte>, es: seq<Entry>, p: nat, m: seq<Byte>, x: nat)
    requires Run(env, mem, es) == Done(m) && Apart(env, es) && p < |es| && x + 8 <= |mem|
    requires WriteOf(env, es[p]).Done? && WriteOf(env, es[p]).value.at == env.base + x
    ensures m[x..x + 8] == Quad(WriteOf(env, es[p]).value.value, 8)
  {
    hide Run, Apart, WriteOf, Quad, QuadsHold, Untouched;
    var q := Quad(WriteOf(env, es[p]).value.value, 8);
    forall t: nat | t < 8 ensures m[x + t] == q[t] {
      RunAt(env, mem, es, x + t);
      ByteAt(env, es, p, m, x, t);
    }
    assert forall t :: 0 <= t < 8 ==> m[x..x + 8][t] == q[t];
  }

  lemma ByteAt(env: Env, es: seq<Entry>, p: nat, m: seq<Byte>, x: nat, t: nat)
    requires p < |es| && t < 8 && x + t < |m| && QuadsHold(env, es, m, x + t)
    requires WriteOf(env, es[p]).Done? && WriteOf(env, es[p]).value.at == env.base + x
    ensures m[x + t] == Quad(WriteOf(env, es[p]).value.value, 8)[t]
  {
    hide WriteOf, Quad;
    assert Covers(env, es[p], x + t);
  }

  /** And every byte of no relocation is its section's own, or what it was where no section is. */
  lemma OtherBytes(env: Env, ss: seq<Section>, before: seq<Byte>, m: seq<Byte>, x: nat)
    requires Fits(ss, |ss|, |before|) && env.ss == Headers(ss, env.base, |ss|) && env.base + |before| <= TWO64
    requires Run(env, Image(before, ss, |ss|), Entries(env.ss, 0, 0)) == Done(m)
    requires Inside(ss) && SpotsApart(ss) && x < |before|
    requires forall i: nat, j: nat :: RelaAt(ss, i, j) ==> !(Spot(ss, i, j) <= x < Spot(ss, i, j) + 8)
    ensures |m| == |before| && SectionsHold(ss, |ss|, m, x) && (Nowhere(ss, |ss|, x) ==> m[x] == before[x])
  {
    assert InFile(ss);
    hide Run, Entries, WriteOf, Offset, Image, Headers, Stands, Inside, SpotsApart, InFile, SectionsHold, Nowhere, Spot;
    var image, es := Image(before, ss, |ss|), Entries(env.ss, 0, 0);
    LinksIff(env, ss, image);
    SameTables(ss, env.base);
    SpotsAreApart(env, ss);
    RunDoneIff(env, image, es);
    forall p | 0 <= p < |es| ensures !Covers(env, es[p], x) {
      OriginIs(env.ss, 0, 0, p);
      var (i, j) := Origin(env.ss, 0, 0, p);
      TargetsInside(ss, i, j);
      assert Applicable(env, es[p], |image|);
      WriteIs(env, ss, i, j, 0);
    }
    RunAt(env, image, es, x);
    ImageAt(before, ss, |ss|, x);
    SectionsFollow(ss, image, m, x);
  }

  // ---- the entry point ----

  /** Without a symbol called `mod_main` there is no entry point. */
  lemma {:induction false} NoMainNoEntry(env: Env, n: nat)
    requires n <= |env.syms| && forall j :: 0 <= j < n ==> env.syms[j].name != "mod_main"
    ensures EntryUpto(env, n) == Done(0)
  {
    if n > 0 {
      NoMainNoEntry(env, n - 1);
    }
  }

  /** Otherwise it is where the section of the last such symbol has been placed, plus the symbol's value. */
  lemma MainIsEntry(env: Env, ss: seq<Section>, k: nat)
    requires env.ss == Headers(ss, env.base, |ss|) && k < |env.syms| && EntryUpto(env, |env.syms|).Done?
    requires env.syms[k].name == "mod_main" && forall j :: k < j < |env.syms| ==> env.syms[j].name != "mod_main"
    ensures env.syms[k].index < |ss|
    ensures Placed(ss[env.syms[k].index]) ==>
              EntryUpto(env, |env.syms|) ==
              Done((env.base + Offset(ss, env.syms[k].index) + env.syms[k].value) % TWO64)
  {
    hide Offset, EntryUpto, Wrap, Headers;
    LastMainIsEntry(env, k, |env.syms|);
    if Placed(ss[env.syms[k].index]) {
      HeaderAddress(ss, env.base, env.syms[k].index);
      WrapIs(env.base + Offset(ss, env.syms[k].index) + env.syms[k].value);
    }
  }
}
