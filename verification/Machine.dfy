/** Bytes, machine words and the memory the unwinder reads. */
module Machine {

  datatype Option<+T> = None | Some(value: T)

  type Byte = b: int | 0 <= b < 256

  const TWO32: int := 0x1_0000_0000
  const TWO64: int := 0x1_0000_0000_0000_0000

  /** The AddressType the unwinder templates are instantiated with. */
  datatype Width = W32 | W64 {
    function Size(): nat { if W32? then 4 else 8 }

    function Modulus(): nat
      ensures Modulus() > 1
    { if W32? then TWO32 else TWO64 }

    function Bits(): nat { if W32? then 32 else 64 }
  }

  /** A value stored in a variable of the given width. */
  function Wrap(w: Width, x: int): (r: nat)
    ensures r < w.Modulus()
  {
    match w case W32 => x % TWO32 case W64 => x % TWO64
  }

  /** The two's complement reading of a stored word. */
  function Signed(w: Width, x: int): (r: int)
    ensures -(w.Modulus() / 2) <= r < w.Modulus() / 2
  {
    var y := Wrap(w, x);
    if y >= w.Modulus() / 2 then y - w.Modulus() else y
  }

  lemma Mod64Add(a: int, b: int)
    ensures (a % TWO64 + b) % TWO64 == (a + b) % TWO64
    ensures (a % TWO64 + b % TWO64) % TWO64 == (a + b) % TWO64
  {
  }

  lemma WrapSmall(w: Width, x: int)
    requires 0 <= x < w.Modulus()
    ensures Wrap(w, x) == x
  {
  }

  lemma Mod32Add(a: int, b: int)
    ensures (a % TWO32 + b) % TWO32 == (a + b) % TWO32
  {
  }

  /** Reduction commutes with addition, at either width. */
  lemma WrapAdd(w: Width, a: int, b: int)
    ensures Wrap(w, a + Wrap(w, b)) == Wrap(w, a + b)
  {
    match w
    case W32 => Mod32Add(b, a);
    case W64 => Mod64Add(b, a);
  }

  lemma SameRemainder(r: int, k: int)
    ensures (r + TWO32 * k) % TWO32 == r % TWO32
  {
  }

  /** Cutting to 64 bits first does not change the word. */
  lemma Reduce(w: Width, x: int)
    ensures Wrap(w, x % TWO64) == Wrap(w, x)
  {
    if w.W32? {
      SameRemainder(x % TWO64, TWO32 * (x / TWO64));
    }
  }

  /** Bit k of a number. */
  predicate BitAt(a: nat, k: nat) {
    if k == 0 then a % 2 == 1 else BitAt(a / 2, k - 1)
  }

  function Pow2(n: nat): (r: nat)
    ensures r > 0
  {
    if n == 0 then 1 else 2 * Pow2(n - 1)
  }

  /** Immutable memory: a partial map from address to byte. The very last
      address is never readable, so a successful read cannot wrap a cursor. */
  type Memory = m: map<nat, Byte> | forall a :: a in m ==> a < TWO64 - 1 witness map[]

  predicate Readable(m: Memory, a: nat, n: nat) {
    forall i :: a <= i < a + n ==> i in m
  }

  /** The bytes at [a, a + n). */
  function Fetch(m: Memory, a: nat, n: nat): (bs: seq<Byte>)
    requires Readable(m, a, n)
    ensures |bs| == n && forall i :: 0 <= i < n ==> bs[i] == m[a + i]
  {
    seq(n, i requires 0 <= i < n => m[a + i])
  }

  /** The memory holds exactly these bytes from address a on. */
  predicate Holds(m: Memory, a: nat, bs: seq<Byte>) {
    forall k :: a <= k < a + |bs| ==> k in m && m[k] == bs[k - a]
  }

  function LittleEndian(bs: seq<Byte>): nat {
    if bs == [] then 0 else bs[0] + 256 * LittleEndian(bs[1..])
  }

  /** ReadFully of an n-byte little-endian integer. */
  function ReadLE(m: Memory, a: nat, n: nat): Option<nat> {
    if Readable(m, a, n) then Some(LittleEndian(Fetch(m, a, n))) else None
  }

  /** The n-byte little-endian image of a value. */
  function ToLE(v: nat, n: nat): (bs: seq<Byte>)
    ensures |bs| == n
  {
    if n == 0 then [] else [v % 256] + ToLE(v / 256, n - 1)
  }

  function Pow256(n: nat): (r: nat)
    ensures r > 0
  {
    if n == 0 then 1 else 256 * Pow256(n - 1)
  }

  lemma {:induction false} LittleEndianBound(bs: seq<Byte>)
    ensures LittleEndian(bs) < Pow256(|bs|)
  {
    if bs != [] {
      LittleEndianBound(bs[1..]);
    }
  }

  lemma {:induction false} ToLERoundTrip(v: nat, n: nat)
    requires v < Pow256(n)
    ensures LittleEndian(ToLE(v, n)) == v
  {
    if n > 0 {
      ToLERoundTrip(v / 256, n - 1);
      assert ToLE(v, n)[1..] == ToLE(v / 256, n - 1);
    }
  }

  lemma HoldsFetch(m: Memory, a: nat, bs: seq<Byte>)
    requires Holds(m, a, bs)
    ensures Readable(m, a, |bs|) && Fetch(m, a, |bs|) == bs
  {
  }

  lemma HoldsAppend(m: Memory, a: nat, bs: seq<Byte>, cs: seq<Byte>)
    ensures Holds(m, a, bs + cs) <==> Holds(m, a, bs) && Holds(m, a + |bs|, cs)
  {
    var all := bs + cs;
    if Holds(m, a, all) {
      forall k | a <= k < a + |bs| ensures k in m && m[k] == bs[k - a] {
        assert all[k - a] == bs[k - a];
      }
      forall k | a + |bs| <= k < a + |bs| + |cs| ensures k in m && m[k] == cs[k - (a + |bs|)] {
        assert all[k - a] == cs[k - (a + |bs|)];
      }
    }
  }
}
