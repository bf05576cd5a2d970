/** What several modules share: optional values, bytes, pages and sequences without repetition. */
module Common {
  datatype Option<T> = None | Some(value: T)

  type Byte = b: int | 0 <= b < 256

  const PAGE_SIZE: nat := 4096

  /** Where the kernel's address space begins. */
  const PHYS_BASE: nat := 0xc000_0000

  function Min(x: int, y: int): int { if x < y then x else y }

  function Max(x: int, y: int): int { if x < y then y else x }

  function Abs(x: int): nat { if x < 0 then -x else x }

  ghost predicate Distinct<T>(q: seq<T>) {
    forall i, j :: 0 <= i < j < |q| ==> q[i] != q[j]
  }

  lemma ConsDistinct<T>(a: T, q: seq<T>)
    requires Distinct(q) && a !in q
    ensures Distinct([a] + q)
  {
  }

  lemma SnocDistinct<T>(q: seq<T>, a: T)
    requires Distinct(q) && a !in q
    ensures Distinct(q + [a])
  {
  }

  lemma Shifted<T>(q: seq<T>, a: T, r: seq<T>)
    ensures q + ([a] + r) == (q + [a]) + r
  {
  }

  // ---------- Numbers as bytes, low byte first ----------

  function Pow256(k: nat): nat {
    if k == 0 then 1 else 256 * Pow256(k - 1)
  }

  /** A number in k bytes, low byte first. */
  function ToBytes(n: nat, k: nat): (r: seq<Byte>)
    ensures |r| == k
  {
    if k == 0 then [] else [n % 256] + ToBytes(n / 256, k - 1)
  }

  function FromBytes(b: seq<Byte>): (n: nat)
    ensures n < Pow256(|b|)
  {
    if b == [] then 0 else (b[0] as int) + 256 * FromBytes(b[1..])
  }

  /** The four bytes of a 32-bit number as the processor weighs them. */
  lemma FourBytes(b: seq<Byte>)
    requires |b| == 4
    ensures FromBytes(b) == b[0] as int + 0x100 * (b[1] as int) + 0x1_0000 * (b[2] as int) + 0x100_0000 * (b[3] as int)
  {
    var c := b[1..];
    var d := c[1..];
    var e := d[1..];
    assert e[1..] == [];
    assert FromBytes(e) == e[0] as int && FromBytes(d) == d[0] as int + 0x100 * FromBytes(e);
    assert FromBytes(c) == c[0] as int + 0x100 * FromBytes(d);
  }

  lemma {:induction false} BytesRoundTrip(n: nat, k: nat)
    requires n < Pow256(k)
    ensures FromBytes(ToBytes(n, k)) == n
  {
    if k > 0 {
      BytesRoundTrip(n / 256, k - 1);
      assert ToBytes(n, k)[1..] == ToBytes(n / 256, k - 1);
    }
  }
}
