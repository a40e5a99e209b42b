/** Machine integers, little-endian words, and the slicing and alignment laws every codec here rests on. */
module Bytes {

  type byte = x: int | 0 <= x < 0x100
  type uint16 = x: int | 0 <= x < TWO_16
  type uint32 = x: int | 0 <= x < TWO_32
  type uint64 = x: int | 0 <= x < TWO_64

  const TWO_16: int := 0x1_0000
  const TWO_20: int := 0x10_0000
  const TWO_32: int := 0x1_0000_0000
  const TWO_48: int := 0x1_0000_0000_0000
  const TWO_64: int := 0x1_0000_0000_0000_0000

  /** The value every offset-returning buffer operation uses to report failure. */
  const MAX_UINT32: uint32 := 0xFFFF_FFFF

  datatype Option<+T> = None | Some(value: T)

  // ---------------------------------------------------------------- words

  function Pow256(n: nat): (p: nat)
    ensures p > 0
  {
    if n == 0 then 1 else 256 * Pow256(n - 1)
  }

  lemma Pow256Values()
    ensures Pow256(2) == TWO_16 && Pow256(4) == TWO_32 && Pow256(8) == TWO_64
  {
    assert Pow256(2) == 256 * Pow256(1);
    assert Pow256(4) == 256 * 256 * Pow256(2);
    assert Pow256(6) == 256 * 256 * Pow256(4);
    assert Pow256(8) == 256 * 256 * Pow256(6);
  }

  /** The low n bytes of v, least significant first. */
  function ToLe(v: nat, n: nat): (s: seq<byte>)
    ensures |s| == n
  {
    if n == 0 then [] else [v % 256] + ToLe(v / 256, n - 1)
  }

  function FromLe(s: seq<byte>): (v: nat)
    ensures v < Pow256(|s|)
  {
    if s == [] then 0 else s[0] + 256 * FromLe(s[1..])
  }

  lemma {:induction false} FromToLe(v: nat, n: nat)
    requires v < Pow256(n)
    ensures FromLe(ToLe(v, n)) == v
  {
    if n != 0 {
      FromToLe(v / 256, n - 1);
      assert ToLe(v, n)[1..] == ToLe(v / 256, n - 1);
    }
  }

  lemma {:induction false} ToFromLe(s: seq<byte>)
    ensures ToLe(FromLe(s), |s|) == s
  {
    if s != [] {
      var x := FromLe(s[1..]);
      ToFromLe(s[1..]);
      DivModUnique(FromLe(s), 0x100, x, s[0]);
      assert [s[0]] + s[1..] == s;
    }
  }

  // ---------------------------------------------------------------- slices

  function Zeros(n: nat): (s: seq<byte>)
    ensures |s| == n && forall i :: 0 <= i < n ==> s[i] == 0
  {
    seq(n, _ => 0)
  }

  /** s with bs written over the bytes from `at` on. */
  function Splice(s: seq<byte>, at: nat, bs: seq<byte>): (r: seq<byte>)
    requires at + |bs| <= |s|
    ensures |r| == |s|
  {
    s[..at] + bs + s[at + |bs|..]
  }

  function Load(s: seq<byte>, at: nat, n: nat): (v: nat)
    requires at + n <= |s|
    ensures v < Pow256(n)
  {
    FromLe(s[at..at + n])
  }

  function Store(s: seq<byte>, at: nat, n: nat, v: nat): (r: seq<byte>)
    requires at + n <= |s|
    ensures |r| == |s|
  {
    Splice(s, at, ToLe(v, n))
  }

  lemma SpliceIndex(s: seq<byte>, at: nat, bs: seq<byte>)
    requires at + |bs| <= |s|
    ensures forall i :: 0 <= i < |s| ==>
      Splice(s, at, bs)[i] == if at <= i < at + |bs| then bs[i - at] else s[i]
  {
  }

  lemma LoadStoreSame(s: seq<byte>, at: nat, n: nat, v: nat)
    requires at + n <= |s| && v < Pow256(n)
    ensures Load(Store(s, at, n, v), at, n) == v
  {
    assert Store(s, at, n, v)[at..at + n] == ToLe(v, n);
    FromToLe(v, n);
  }

  lemma LoadStoreOther(s: seq<byte>, at: nat, n: nat, v: nat, b: nat, m: nat)
    requires at + n <= |s| && b + m <= |s| && (at + n <= b || b + m <= at)
    ensures Load(Store(s, at, n, v), b, m) == Load(s, b, m)
  {
    var t := Store(s, at, n, v);
    SpliceIndex(s, at, ToLe(v, n));
    var x, y := t[b..b + m], s[b..b + m];
    forall i | 0 <= i < m ensures x[i] == y[i] {
      assert t[b + i] == s[b + i];
    }
    assert x == y;
  }

  lemma LoadAppend(s: seq<byte>, t: seq<byte>, at: nat, n: nat)
    requires at + n <= |s|
    ensures Load(s + t, at, n) == Load(s, at, n)
  {
    assert (s + t)[at..at + n] == s[at..at + n];
  }

  lemma LoadWritten(s: seq<byte>, v: nat, n: nat, t: seq<byte>)
    requires v < Pow256(n)
    ensures Load(s + ToLe(v, n) + t, |s|, n) == v
  {
    assert (s + ToLe(v, n) + t)[|s|..|s| + n] == ToLe(v, n);
    FromToLe(v, n);
  }

  lemma LoadLast(s: seq<byte>, v: nat, n: nat)
    requires v < Pow256(n)
    ensures Load(s + ToLe(v, n), |s|, n) == v
  {
    LoadWritten(s, v, n, []);
    assert s + ToLe(v, n) + [] == s + ToLe(v, n);
  }

  lemma StoreStoreSame(s: seq<byte>, at: nat, n: nat, v: nat, w: nat)
    requires at + n <= |s|
    ensures Store(Store(s, at, n, v), at, n, w) == Store(s, at, n, w)
  {
  }

  lemma StoreStoreOther(s: seq<byte>, at: nat, n: nat, v: nat, b: nat, m: nat, w: nat)
    requires at + n <= |s| && b + m <= |s| && (at + n <= b || b + m <= at)
    ensures Store(Store(s, at, n, v), b, m, w) == Store(Store(s, b, m, w), at, n, v)
  {
    var bs, cs := ToLe(v, n), ToLe(w, m);
    SpliceIndex(s, at, bs);
    SpliceIndex(s, b, cs);
    SpliceIndex(Splice(s, at, bs), b, cs);
    SpliceIndex(Splice(s, b, cs), at, bs);
    assert Splice(Splice(s, at, bs), b, cs) == Splice(Splice(s, b, cs), at, bs);
  }

  lemma StoreInPrefix(s: seq<byte>, k: nat, t: seq<byte>, at: nat, n: nat, v: nat)
    requires at + n <= k <= |s|
    ensures Store(s, at, n, v)[..k] + t == Store(s[..k] + t, at, n, v)
  {
    var bs := ToLe(v, n);
    SpliceIndex(s, at, bs);
    SpliceIndex(s[..k] + t, at, bs);
  }

  lemma StoreInSuffix(s: seq<byte>, t: seq<byte>, at: nat, n: nat, v: nat)
    requires at + n <= |t|
    ensures s + Store(t, at, n, v) == Store(s + t, |s| + at, n, v)
  {
    var bs := ToLe(v, n);
    SpliceIndex(t, at, bs);
    SpliceIndex(s + t, |s| + at, bs);
  }

  lemma LoadInSuffix(s: seq<byte>, t: seq<byte>, at: nat, n: nat)
    requires at + n <= |t|
    ensures Load(s + t, |s| + at, n) == Load(t, at, n)
  {
    assert (s + t)[|s| + at..|s| + at + n] == t[at..at + n];
  }

  lemma StoreLoad(s: seq<byte>, at: nat, n: nat)
    requires at + n <= |s|
    ensures Store(s, at, n, Load(s, at, n)) == s
  {
    ToFromLe(s[at..at + n]);
  }

  // ---------------------------------------------------------------- alignment

  lemma MulAtLeast(a: int, d: int)
    requires a >= 0
    ensures d >= 1 ==> a * d >= a
    ensures d <= -1 ==> a * d <= -a
  {
    assert a * d == a * (d - 1) + a == a * (d + 1) - a;
  }

  lemma DivModUnique(x: int, a: int, q: int, r: int)
    requires 0 <= r < a && x == a * q + r
    ensures x / a == q && x % a == r
  {
    var d := q - x / a;
    assert a * d == a * q - a * (x / a);
    assert a * d == x % a - r;
    MulAtLeast(a, d);
  }

  /** Sums and differences of multiples are multiples. */
  lemma ModSum(x: int, y: int, a: int)
    requires a > 0 && x % a == 0
    ensures (x + y) % a == y % a && (y - x) % a == y % a
  {
    var p, q := x / a, y / a;
    assert x + y == a * (p + q) + y % a by { assert a * (p + q) == a * p + a * q; }
    DivModUnique(x + y, a, p + q, y % a);
    assert y - x == a * (q - p) + y % a by { assert a * (q - p) == a * q - a * p; }
    DivModUnique(y - x, a, q - p, y % a);
  }

  /** Reducing modulo a multiple of a first does not change the residue modulo a. */
  lemma ModMod(x: int, m: int, a: int)
    requires a > 0 && m > 0 && m % a == 0
    ensures (x % m) % a == x % a
  {
    var k, q := m / a, x / m;
    assert x == x % m + a * (k * q) by { assert m * q == a * k * q; }
    DivModUnique(a * (k * q), a, k * q, 0);
    ModSum(a * (k * q), x % m, a);
  }

  function AlignAddend(x: nat, a: nat): (r: nat)
    requires a > 0
    ensures r < a && (x + r) % a == 0
  {
    AlignAddendProperty(x, a);
    if x % a == 0 then 0 else a - x % a
  }

  lemma AlignAddendProperty(x: nat, a: nat)
    requires a > 0
    ensures x % a != 0 ==> (x + (a - x % a)) % a == 0
  {
    var q := x / a;
    if x % a != 0 {
      assert x + (a - x % a) == a * (q + 1) by { assert a * (q + 1) == a * q + a; }
      DivModUnique(x + (a - x % a), a, q + 1, 0);
    }
  }

  function AlignUp(x: nat, a: nat): (r: nat)
    requires a > 0
    ensures x <= r < x + a && r % a == 0
  {
    x + AlignAddend(x, a)
  }

  /** The aligned value is the least multiple that is not below x. */
  lemma AlignUpLeast(x: nat, y: nat, a: nat)
    requires a > 0 && x <= y && y % a == 0
    ensures AlignUp(x, a) <= y
  {
    var p, q := AlignUp(x, a) / a, y / a;
    assert a * p - a * q == a * (p - q);
    MulAtLeast(a, p - q);
  }

  /** Alignment relative to an aligned start is alignment. */
  lemma SameAlignment(p: nat, x: nat, a: nat)
    requires a > 0 && p % a == 0
    ensures AlignAddend(p + x, a) == AlignAddend(x, a)
  {
    ModSum(p, x, a);
  }
}
