/** What every component shares: bytes, optional results and the way the kernel stops. */
module Machine {

  newtype Byte = x: int | 0 <= x < 256

  /** One past the largest 32-bit and the largest 64-bit quantity. */
  const TWO32: nat := 0x1_0000_0000
  const TWO64: nat := 0x1_0000_0000_0000_0000

  const PAGE: nat := 4096

  datatype Option<+T> = None | Some(value: T)

  /** `fatal` and a failed `assert` stop the machine: nothing after them is observable. */
  datatype Outcome<+T> = Done(value: T) | Halted

  function Min(a: int, b: int): int {
    if a < b then a else b
  }

  /** Overwrites a range with the given bytes. */
  function Store(mem: seq<Byte>, off: nat, data: seq<Byte>): (r: seq<Byte>)
    requires off + |data| <= |mem|
    ensures |r| == |mem|
    ensures forall i :: 0 <= i < |mem| ==> r[i] == if off <= i < off + |data| then data[i - off] else mem[i]
  {
    mem[..off] + data + mem[off + |data|..]
  }

  /** The `align` macro on mathematical integers. */
  function AlignUp(x: nat, a: nat): (r: nat)
    requires a > 0
  {
    (x + (a - 1)) / a * a
  }

  lemma AlignUpIsLeast(x: nat, a: nat)
    requires a > 0
    ensures x <= AlignUp(x, a) < x + a
    ensures AlignUp(x, a) % a == 0
  {
    var q := (x + (a - 1)) / a;
    assert q * a <= x + (a - 1) < q * a + a;
    MulMod(q, a);
  }

  lemma MulMod(q: nat, a: nat)
    requires a > 0
    ensures (q * a) % a == 0
  {
    DivModUnique(q * a, a, q, 0);
  }

  /** A quotient and remainder found by hand are the quotient and remainder. */
  lemma DivModUnique(x: int, a: int, q: int, r: int)
    requires a > 0 && 0 <= r < a && x == q * a + r
    ensures x / a == q && x % a == r
  {
    Euclid(a, q, r, x / a, x % a);
  }

  lemma Euclid(a: int, q: int, r: int, q': int, r': int)
    requires a > 0 && 0 <= r < a && 0 <= r' < a
    requires q * a + r == q' * a + r'
    ensures q == q' && r == r'
  {
    var k := q - q';
    assert k * a == r' - r;
    assert k >= 1 ==> k * a >= a;
    assert k <= -1 ==> k * a <= -a;
  }

  lemma Regroup(q: int, b: int, r: int, a: int)
    ensures (q * b + r) * a == q * (a * b) + r * a
  {
    assert q * b * a == q * (a * b);
  }

  lemma MulMono(x: int, y: int, a: int)
    requires x <= y && a >= 0
    ensures x * a <= y * a
  {
  }

  lemma NestedDiv(x: nat, a: nat, b: nat)
    requires a > 0 && b > 0
    ensures a * b > 0 && x / (a * b) == x / a / b
  {
    var q, r := x / a, x % a;
    var q', r' := q / b, q % b;
    Regroup(q', b, r', a);
    MulMono(r', b - 1, a);
    MulMono(0, r', a);
    DivModUnique(x, a * b, q', r' * a + r);
  }

  /** Rounding down to a multiple of a does not change a quotient by a multiple of a. */
  lemma CutThenDiv(x: nat, a: nat, b: nat)
    requires a > 0 && b > 0
    ensures a * b > 0 && (x / a * a) / (a * b) == x / (a * b)
  {
    NestedDiv(x, a, b);
    NestedDiv(x / a * a, a, b);
    DivModUnique(x / a * a, a, x / a, 0);
  }

  lemma ModMul(x: nat, a: nat, b: nat)
    requires a > 0 && b > 0
    ensures a * b > 0 && x % (a * b) == x / a % b * a + x % a
  {
    var q, r := x / a, x % a;
    var q', r' := q / b, q % b;
    Regroup(q', b, r', a);
    MulMono(r', b - 1, a);
    MulMono(0, r', a);
    DivModUnique(x, a * b, q', r' * a + r);
  }

  lemma ModThenDiv(x: nat, a: nat, b: nat)
    requires a > 0 && b > 0
    ensures a * b > 0 && x % (a * b) / a == x / a % b
  {
    ModMul(x, a, b);
    DivModUnique(x % (a * b), a, x / a % b, x % a);
  }

  lemma SmallMod(x: nat, m: nat)
    requires x < m
    ensures x % m == x
  {
  }
}
