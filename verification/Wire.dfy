/** Fixed-width integers in network byte order (Appendix B of RFC 791), the memory
    images of a little-endian host, and the home-made 64-bit byte swap. */
module Wire {
  import opened Bits

  type byte = x: int | 0 <= x < 256
  type u16 = x: int | 0 <= x < 0x1_0000
  type u32 = x: int | 0 <= x < 0x1_0000_0000
  type u64 = x: int | 0 <= x < 0x1_0000_0000_0000_0000
  type i64 = x: int | -0x8000_0000_0000_0000 <= x < 0x8000_0000_0000_0000
  type bytes = seq<byte>

  const TWO32 := 0x1_0000_0000
  const TWO64 := 0x1_0000_0000_0000_0000

  function Pow256(n: nat): (p: nat)
    ensures p >= 1
  {
    if n == 0 then 1 else 256 * Pow256(n - 1)
  }

  lemma Pow256Values()
    ensures Pow256(1) == 0x100 && Pow256(2) == 0x1_0000 && Pow256(4) == TWO32 && Pow256(8) == TWO64
  {
    assert Pow256(3) == 256 * Pow256(2);
    assert Pow256(4) == 256 * Pow256(3);
    assert Pow256(5) == 256 * Pow256(4);
    assert Pow256(6) == 256 * Pow256(5);
    assert Pow256(7) == 256 * Pow256(6);
  }

  lemma ConcatAssociates<T>(a: seq<T>, b: seq<T>, c: seq<T>)
    ensures (a + b) + c == a + (b + c)
  {
  }

  lemma PeelByte(b: byte, a: bytes, c: bytes)
    ensures (([b] + a) + c)[0] == b && (([b] + a) + c)[1..] == a + c
  {
  }

  /** The low `n` bytes of `v`, most significant first. */
  function BigEndian(v: nat, n: nat): (bs: bytes)
    ensures |bs| == n
  {
    if n == 0 then [] else BigEndian(v / 256, n - 1) + [v % 256]
  }

  function FromBigEndian(bs: bytes): nat {
    if bs == [] then 0 else FromBigEndian(bs[..|bs| - 1]) * 256 + bs[|bs| - 1]
  }

  /** Byte `i` of `n`, counted from the front, has weight 256^(n-1-i). */
  lemma {:induction false} BigEndianDigits(v: nat, n: nat, i: nat)
    requires i < n
    ensures BigEndian(v, n)[i] == v / Pow256(n - 1 - i) % 256
  {
    if i < n - 1 {
      BigEndianDigits(v / 256, n - 1, i);
      DivDivides(v, Pow256(n - 2 - i));
    }
  }

  lemma DivDivides(v: nat, p: nat)
    requires p >= 1
    ensures v / 256 / p == v / (256 * p)
  {
    var q := v / 256 / p;
    var r := v / 256 % p;
    assert v / 256 == q * p + r;
    assert v == (256 * p) * q + (256 * r + v % 256) by {
      assert 256 * (q * p) == (256 * p) * q;
    }
    DivModUnique(v, 256 * p, q, 256 * r + v % 256);
  }

  lemma {:induction false} BigEndianRoundTrip(v: nat, n: nat)
    requires v < Pow256(n)
    ensures FromBigEndian(BigEndian(v, n)) == v
  {
    if n > 0 {
      BigEndianRoundTrip(v / 256, n - 1);
      assert BigEndian(v, n)[..n - 1] == BigEndian(v / 256, n - 1);
    }
  }

  lemma {:induction false} FromBigEndianRoundTrip(bs: bytes)
    ensures FromBigEndian(bs) < Pow256(|bs|)
    ensures BigEndian(FromBigEndian(bs), |bs|) == bs
  {
    if bs != [] {
      FromBigEndianRoundTrip(bs[..|bs| - 1]);
      var q, last := FromBigEndian(bs[..|bs| - 1]), bs[|bs| - 1];
      assert (q * 256 + last) / 256 == q && (q * 256 + last) % 256 == last;
      assert bs == bs[..|bs| - 1] + [bs[|bs| - 1]];
    }
  }

  /** Memory image of an `n`-byte integer on a little-endian host. */
  function HostStore(v: nat, n: nat): (bs: bytes)
    ensures |bs| == n
  {
    if n == 0 then [] else [v % 256] + HostStore(v / 256, n - 1)
  }

  /** The integer a little-endian host sees in a memory image. */
  function HostLoad(bs: bytes): nat {
    if bs == [] then 0 else bs[0] + 256 * HostLoad(bs[1..])
  }

  lemma {:induction false} HostLoadRoundTrip(bs: bytes)
    ensures HostLoad(bs) < Pow256(|bs|)
    ensures HostStore(HostLoad(bs), |bs|) == bs
  {
    if bs != [] {
      HostLoadRoundTrip(bs[1..]);
      assert bs == [bs[0]] + bs[1..];
    }
  }

  lemma {:induction false} HostStoreRoundTrip(v: nat, n: nat)
    requires v < Pow256(n)
    ensures HostLoad(HostStore(v, n)) == v
  {
    if n > 0 {
      HostStoreRoundTrip(v / 256, n - 1);
      assert HostStore(v, n)[1..] == HostStore(v / 256, n - 1);
    }
  }

  /** `htons`/`htonl`: the host integer whose memory image is `v` in network order. */
  function Hton(v: nat, n: nat): (r: nat)
    ensures r < Pow256(n)
    ensures HostStore(r, n) == BigEndian(v, n)
  {
    HostLoadRoundTrip(BigEndian(v, n));
    HostLoad(BigEndian(v, n))
  }

  /** The 64-bit swap built from two 32-bit swaps. */
  function Htonll(v: u64): (r: u64) {
    var hi := Hton(v % TWO32, 4);
    var lo := Hton(v / TWO32, 4);
    Pow256Values();
    SwapHalves(hi, lo);
    Or(hi * TWO32, lo)
  }

  lemma SwapHalves(hi: nat, lo: nat)
    requires hi < TWO32 && lo < TWO32
    ensures Or(hi * TWO32, lo) == hi * TWO32 + lo
  {
    Pow2Values();
    OrDisjoint(hi, 32, lo);
  }

  lemma Pow2Values()
    ensures Pow2(6) == 64 && Pow2(7) == 128 && Pow2(8) == 256 && Pow2(32) == TWO32
  {
    Pow2Add(8, 8);
    Pow2Add(16, 16);
  }

  lemma {:induction false} Pow2Add(a: nat, b: nat)
    ensures Pow2(a + b) == Pow2(a) * Pow2(b)
  {
    if a > 0 {
      Pow2Add(a - 1, b);
      assert Pow2(a) * Pow2(b) == 2 * (Pow2(a - 1) * Pow2(b));
    }
  }

  lemma ShiftByte(hi: nat, lo: nat, n: nat)
    requires n > 0
    ensures var v := hi * Pow256(n) + lo;
            v / 256 == hi * Pow256(n - 1) + lo / 256 && v % 256 == lo % 256
  {
    var x := hi * Pow256(n - 1);
    assert hi * Pow256(n) == 256 * x;
  }

  lemma {:induction false} HostStoreSplit(hi: nat, lo: nat, n: nat, m: nat)
    requires lo < Pow256(n)
    ensures HostStore(hi * Pow256(n) + lo, n + m) == HostStore(lo, n) + HostStore(hi, m)
  {
    if n == 0 {
      assert HostStore(lo, 0) + HostStore(hi, m) == HostStore(hi, m);
    } else {
      HostStoreSplit(hi, lo / 256, n - 1, m);
      ShiftByte(hi, lo, n);
    }
  }

  lemma {:induction false} BigEndianSplit(hi: nat, lo: nat, n: nat, m: nat)
    requires lo < Pow256(n)
    ensures BigEndian(hi * Pow256(n) + lo, m + n) == BigEndian(hi, m) + BigEndian(lo, n)
  {
    if n == 0 {
      assert BigEndian(hi, m) + BigEndian(lo, 0) == BigEndian(hi, m);
    } else {
      BigEndianSplit(hi, lo / 256, n - 1, m);
      ShiftByte(hi, lo, n);
      var v := hi * Pow256(n) + lo;
      assert BigEndian(v, m + n) == BigEndian(v / 256, m + n - 1) + [v % 256];
    }
  }

  /** The home-made swap puts a 64-bit value into network order. */
  lemma HtonllIsNetworkOrder(v: u64)
    ensures HostStore(Htonll(v), 8) == BigEndian(v, 8)
  {
    Pow256Values();
    var hi, lo := Hton(v % TWO32, 4), Hton(v / TWO32, 4);
    SwapHalves(hi, lo);
    HostStoreSplit(hi, lo, 4, 4);
    BigEndianSplit(v / TWO32, v % TWO32, 4, 4);
  }

  /** The swap is its own inverse, so `ntohll` may be the same function. */
  lemma HtonllInvolution(v: u64)
    ensures Htonll(Htonll(v)) == v
  {
    Pow256Values();
    hide HostLoad, HostStore, BigEndian, FromBigEndian, Pow256, Htonll;
    var w := Htonll(v);
    HtonllIsNetworkOrder(v);
    HtonllIsNetworkOrder(w);
    HostStoreRoundTrip(w, 8);
    NetworkOrderReverses(w, 8);
    NetworkOrderReverses(v, 8);
    var a := HostStore(Htonll(w), 8);
    assert a == HostStore(v, 8) by {
      forall i | 0 <= i < 8 ensures a[i] == HostStore(v, 8)[i] {
        assert a[i] == HostStore(w, 8)[7 - i];
        assert BigEndian(v, 8)[7 - i] == HostStore(v, 8)[i];
      }
    }
    HostStoreRoundTrip(Htonll(w), 8);
    HostStoreRoundTrip(v, 8);
  }

  lemma {:induction false} NetworkOrderReverses(v: nat, n: nat)
    ensures forall i :: 0 <= i < n ==> BigEndian(v, n)[i] == HostStore(v, n)[n - 1 - i]
  {
    if n > 0 { NetworkOrderReverses(v / 256, n - 1); }
  }

  /** `ntohs`/`ntohl`/`ntohll` after a raw load read network order. */
  lemma LoadThenSwap(bs: bytes)
    ensures Hton(HostLoad(bs), |bs|) == FromBigEndian(bs)
  {
    hide HostLoad, HostStore, BigEndian, FromBigEndian, Pow256;
    var n, v, f := |bs|, HostLoad(bs), FromBigEndian(bs);
    HostLoadRoundTrip(bs);
    FromBigEndianRoundTrip(bs);
    NetworkOrderReverses(v, n);
    NetworkOrderReverses(f, n);
    var left, right := BigEndian(v, n), HostStore(f, n);
    assert left == right by {
      forall i | 0 <= i < n ensures left[i] == right[i] {
        assert left[i] == bs[n - 1 - i];
        assert BigEndian(f, n)[n - 1 - i] == right[n - 1 - (n - 1 - i)];
      }
    }
    HostStoreRoundTrip(f, n);
  }

  lemma LoadThenSwap64(bs: bytes)
    requires |bs| == 8
    ensures HostLoad(bs) < TWO64 && Htonll(HostLoad(bs)) == FromBigEndian(bs)
  {
    Pow256Values();
    HostLoadRoundTrip(bs);
    var v := HostLoad(bs);
    LoadThenSwap(bs);
    HtonllIsNetworkOrder(v);
    HostStoreRoundTrip(Htonll(v), 8);
    HostStoreRoundTrip(Hton(v, 8), 8);
  }

  /** Signed times travel as unsigned 64-bit values (two's complement). */
  function ToUnsigned(i: i64): (u: u64)
    ensures u == i % TWO64
  {
    if i < 0 then i + TWO64 else i
  }

  function ToSigned(u: u64): (i: i64)
    ensures ToUnsigned(i) == u
  {
    if u >= 0x8000_0000_0000_0000 then u - TWO64 else u
  }

  lemma SignRoundTrip(i: i64)
    ensures ToSigned(ToUnsigned(i)) == i
  {
  }
}
