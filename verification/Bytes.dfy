/** Bytes, fixed-width unsigned integers and the two byte orders of the wire format. */
module Bytes {
  type Byte = x: int | 0 <= x < 256
  type Uint16 = x: int | 0 <= x < 0x1_0000
  type Uint32 = x: int | 0 <= x < 0x1_0000_0000
  type Uint64 = x: int | 0 <= x < 0x1_0000_0000_0000_0000

  datatype ByteOrder = HostOrder | NetworkOrder

  datatype ErrorCode =
    | Ok
    | NoMem
    | InvalidArgument
    | NotFound
    | InternalError
    | AlreadyExists
    | EndOfStream
    | DataCorrupt

  function Min(a: nat, b: nat): nat {
    if a < b then a else b
  }

  lemma Distribute(n: nat, a: int, d: nat)
    ensures n * (a + 1 + d) == n * a + n + n * d
  {
  }

  lemma ProductOfNats(n: nat, d: nat)
    ensures n * d >= 0
  {
  }

  lemma MulStep(n: nat, a: int, b: int)
    requires a < b
    ensures n * b >= n * a + n
  {
    Distribute(n, a, b - a - 1);
    ProductOfNats(n, b - a - 1);
  }

  lemma DivUnique(n: nat, q: int, r: nat, q': int, r': nat)
    requires r < n && r' < n && n * q + r == n * q' + r'
    ensures q == q' && r == r'
  {
    if q < q' {
      MulStep(n, q, q');
    } else if q' < q {
      MulStep(n, q', q);
    }
  }

  lemma ModUnique(x: nat, n: nat, q: int, r: nat)
    requires n > 0 && x == n * q + r && r < n
    ensures x % n == r
  {
    DivUnique(n, q, r, x / n, x % n);
  }

  function Pow256(n: nat): nat {
    if n == 0 then 1 else 256 * Pow256(n - 1)
  }

  /** The low `n` bytes of `v` as a little-endian host lays them out in memory. */
  function LeBytes(v: nat, n: nat): (b: seq<Byte>)
    ensures |b| == n
  {
    if n == 0 then [] else [v % 256] + LeBytes(v / 256, n - 1)
  }

  /** The integer a little-endian host sees in memory bytes `b`. */
  function FromLe(b: seq<Byte>): nat {
    if b == [] then 0 else b[0] + 256 * FromLe(b[1..])
  }

  /** The `n`-byte big-endian representation: most significant byte first. */
  function BeBytes(v: nat, n: nat): (b: seq<Byte>)
    ensures |b| == n
  {
    if n == 0 then [] else BeBytes(v / 256, n - 1) + [v % 256]
  }

  function Reverse<T>(b: seq<T>): (r: seq<T>)
    ensures |r| == |b|
  {
    if b == [] then [] else Reverse(b[1..]) + [b[0]]
  }

  /** `htons`/`htonl`/`htonll` and their inverses on a little-endian host: reverse the memory bytes. */
  function Swap(v: nat, n: nat): nat {
    FromLe(Reverse(LeBytes(v, n)))
  }

  /** Serialise an `n`-byte integer: swap it for a network-order stream, then store its memory bytes. */
  function EncodeInt(v: nat, n: nat, order: ByteOrder): (b: seq<Byte>)
    ensures |b| == n
  {
    LeBytes(if order.NetworkOrder? then Swap(v, n) else v, n)
  }

  /** Deserialise: load memory bytes, then swap for a network-order stream. */
  function DecodeInt(b: seq<Byte>, order: ByteOrder): nat {
    if order.NetworkOrder? then Swap(FromLe(b), |b|) else FromLe(b)
  }

  lemma {:induction false} LeRoundTrip(v: nat, n: nat)
    requires v < Pow256(n)
    ensures FromLe(LeBytes(v, n)) == v
  {
    if n > 0 {
      LeRoundTrip(v / 256, n - 1);
      assert LeBytes(v, n)[1..] == LeBytes(v / 256, n - 1);
    }
  }

  lemma DigitSplit(low: Byte, high: nat)
    ensures (low + 256 * high) % 256 == low && (low + 256 * high) / 256 == high
  {
  }

  lemma {:induction false} LeInverse(b: seq<Byte>)
    ensures FromLe(b) < Pow256(|b|)
    ensures LeBytes(FromLe(b), |b|) == b
  {
    if b != [] {
      LeInverse(b[1..]);
      DigitSplit(b[0], FromLe(b[1..]));
      assert [b[0]] + b[1..] == b;
    }
  }

  lemma {:induction false} ReverseAppend<T>(a: seq<T>, x: T)
    ensures Reverse(a + [x]) == [x] + Reverse(a)
  {
    if a == [] {
    } else {
      ReverseAppend(a[1..], x);
      assert (a + [x])[1..] == a[1..] + [x];
    }
  }

  lemma {:induction false} ReverseTwice<T>(b: seq<T>)
    ensures Reverse(Reverse(b)) == b
  {
    if b != [] {
      ReverseTwice(b[1..]);
      ReverseAppend(Reverse(b[1..]), b[0]);
      assert [b[0]] + b[1..] == b;
    }
  }

  lemma {:induction false} ReverseLeIsBe(v: nat, n: nat)
    ensures Reverse(LeBytes(v, n)) == BeBytes(v, n)
  {
    if n > 0 {
      ReverseLeIsBe(v / 256, n - 1);
      assert LeBytes(v, n)[1..] == LeBytes(v / 256, n - 1);
    }
  }

  /** A network-order stream carries the big-endian bytes of RFC 791, Appendix B. */
  lemma NetworkOrderIsBigEndian(v: nat, n: nat)
    ensures EncodeInt(v, n, NetworkOrder) == BeBytes(v, n)
  {
    LeInverse(Reverse(LeBytes(v, n)));
    ReverseLeIsBe(v, n);
  }

  lemma IntRoundTrip(v: nat, n: nat, order: ByteOrder)
    requires v < Pow256(n)
    ensures DecodeInt(EncodeInt(v, n, order), order) == v
  {
    LeRoundTrip(v, n);
    if order.NetworkOrder? {
      var r := Reverse(LeBytes(v, n));
      LeInverse(r);
      ReverseTwice(LeBytes(v, n));
    }
  }

  lemma IntInverse(b: seq<Byte>, order: ByteOrder)
    ensures DecodeInt(b, order) < Pow256(|b|)
    ensures EncodeInt(DecodeInt(b, order), |b|, order) == b
  {
    LeInverse(b);
    if order.NetworkOrder? {
      LeInverse(Reverse(b));
      ReverseTwice(b);
    }
  }

  lemma WidthBounds()
    ensures Pow256(2) == 0x1_0000
    ensures Pow256(4) == 0x1_0000_0000
    ensures Pow256(8) == 0x1_0000_0000_0000_0000
  {
    assert Pow256(1) == 256;
    assert Pow256(3) == 0x100_0000;
    assert Pow256(5) == 0x100_0000_0000;
    assert Pow256(6) == 0x1_0000_0000_0000;
    assert Pow256(7) == 0x100_0000_0000_0000;
  }
}
