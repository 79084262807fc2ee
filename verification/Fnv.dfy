// The checksum of a snapshot: 64-bit FNV-1a (snapshot.c).
module Fnv {
  import opened KvData

  const M: int := 0x1_0000_0000_0000_0000
  const BASIS: int := 14695981039346656037
  const PRIME: int := 1099511628211
  // The inverse of the prime modulo 2^64.
  const INVERSE: int := 14886173955864302971

  type uint64 = x: int | 0 <= x < M

  // The exclusive or of the low n bits.
  function Xor(a: nat, b: nat, n: nat): (r: nat)
    decreases n
  {
    if n == 0 then 0 else 2 * Xor(a / 2, b / 2, n - 1) + (a + b) % 2
  }

  lemma {:induction false} XorFits(a: nat, b: nat, n: nat, bound: nat)
    requires bound == Two(n)
    ensures Xor(a, b, n) < bound
    decreases n
  {
    if n > 0 { XorFits(a / 2, b / 2, n - 1, Two(n - 1)); }
  }

  function Two(n: nat): (t: nat)
    ensures t > 0
  {
    if n == 0 then 1 else 2 * Two(n - 1)
  }

  lemma {:induction false} XorInjective(a: nat, b: nat, c: nat, n: nat)
    requires b < Two(n) && c < Two(n) && Xor(a, b, n) == Xor(a, c, n)
    ensures b == c
    decreases n
  {
    if n > 0 {
      var x, y := Xor(a / 2, b / 2, n - 1), Xor(a / 2, c / 2, n - 1);
      SplitBit(x, y, (a + b) % 2, (a + c) % 2);
      SameParity(a, b, c);
      XorInjective(a / 2, b / 2, c / 2, n - 1);
      assert b == 2 * (b / 2) + b % 2 && c == 2 * (c / 2) + c % 2;
    }
  }

  lemma {:induction false} SplitBit(x: nat, y: nat, p: nat, q: nat)
    requires 2 * x + p == 2 * y + q && p < 2 && q < 2
    ensures x == y && p == q
  {}

  lemma {:induction false} SameParity(a: nat, b: nat, c: nat)
    requires (a + b) % 2 == (a + c) % 2
    ensures b % 2 == c % 2
  {}

  lemma {:induction false} XorCommutes(a: nat, b: nat, n: nat)
    ensures Xor(a, b, n) == Xor(b, a, n)
    decreases n
  {
    if n > 0 { XorCommutes(a / 2, b / 2, n - 1); }
  }

  lemma {:induction false} XorOfBytes(a: byte, b: byte)
    ensures Xor(a, b, 8) < 256
  {
    assert Two(8) == 256;
    XorFits(a, b, 8, 256);
  }

  lemma {:induction false} HighPart(s: uint64)
    ensures 0 <= s / 256 * 256 <= M - 256
  {
    assert s / 256 <= M / 256 - 1;
  }

  // A 64-bit state with a byte: the upper 56 bits stay.
  function XorByte(s: uint64, b: byte): (r: uint64) {
    XorOfBytes(s % 256, b);
    HighPart(s);
    s / 256 * 256 + Xor(s % 256, b, 8)
  }

  function Multiply(x: uint64): uint64 {
    (x * PRIME) % M
  }

  function Round(s: uint64, b: byte): uint64 {
    Multiply(XorByte(s, b))
  }

  // The loop of kvs_crc64, from any state.
  function Run(s: uint64, data: Bytes): uint64
    decreases |data|
  {
    if data == [] then s else Run(Round(s, data[0]), data[1..])
  }

  function Checksum(data: Bytes): uint64 {
    Run(BASIS, data)
  }

  method Crc64(data: Bytes) returns (crc: uint64)
    ensures crc == Checksum(data)
  {
    crc := 0;
    if crc == 0 { crc := BASIS; }
    var i := 0;
    while i < |data|
      invariant 0 <= i <= |data| && Run(crc, data[i..]) == Checksum(data)
    {
      assert data[i..][1..] == data[i + 1..];
      crc := XorByte(crc, data[i]);
      crc := Multiply(crc);
      i := i + 1;
    }
  }

  // --------------------------------------------------------------- injective

  lemma {:induction false} ModShift(x: int, k: int)
    ensures (x + k * M) % M == x % M
    decreases if k < 0 then -k else k
  {
    if k > 0 {
      ModShift(x, k - 1);
      assert x + k * M == (x + (k - 1) * M) + M;
    } else if k < 0 {
      ModShift(x, k + 1);
      assert x + k * M == (x + (k + 1) * M) - M;
    }
  }

  // Multiplying by the inverse undoes multiplying by the prime.
  lemma {:induction false} MultiplyUndone(x: uint64)
    ensures (Multiply(x) * INVERSE) % M == x
  {
    var k, t := (x * PRIME) / M, (PRIME * INVERSE - 1) / M;
    assert PRIME * INVERSE == 1 + t * M;
    assert Multiply(x) == x * PRIME - k * M;
    assert Multiply(x) * INVERSE == x * (PRIME * INVERSE) - k * M * INVERSE;
    assert Multiply(x) * INVERSE == x + (x * t - k * INVERSE) * M;
    ModShift(x, x * t - k * INVERSE);
  }

  lemma {:induction false} RoundInjective(s: uint64, t: uint64, b: byte, c: byte)
    requires Round(s, b) == Round(t, c)
    ensures b == c ==> s == t
    ensures s == t ==> b == c
  {
    MultiplyUndone(XorByte(s, b));
    MultiplyUndone(XorByte(t, c));
    assert XorByte(s, b) == XorByte(t, c);
    ByteInjective(s, t, b, c);
  }

  lemma {:induction false} ByteInjective(s: uint64, t: uint64, b: byte, c: byte)
    requires XorByte(s, b) == XorByte(t, c)
    ensures b == c ==> s == t
    ensures s == t ==> b == c
  {
    var u, v := s % 256, t % 256;
    XorOfBytes(u, b);
    XorOfBytes(v, c);
    assert Two(8) == 256;
    assert s / 256 == t / 256 && Xor(u, b, 8) == Xor(v, c, 8);
    if b == c {
      XorCommutes(u, b, 8);
      XorCommutes(v, b, 8);
      XorInjective(b, u, v, 8);
    }
    if s == t { XorInjective(u, b, c, 8); }
  }

  lemma {:induction false} RunInjective(s: uint64, t: uint64, data: Bytes)
    requires s != t
    ensures Run(s, data) != Run(t, data)
    decreases |data|
  {
    hide Round;
    if data != [] {
      if Round(s, data[0]) == Round(t, data[0]) { RoundInjective(s, t, data[0], data[0]); }
      RunInjective(Round(s, data[0]), Round(t, data[0]), data[1..]);
    }
  }

  lemma {:induction false} RunAppend(s: uint64, a: Bytes, b: Bytes)
    ensures Run(s, a + b) == Run(Run(s, a), b)
    decreases |a|
  {
    hide Round;
    if a == [] {
      assert a + b == b;
    } else {
      assert (a + b)[1..] == a[1..] + b;
      RunAppend(Round(s, a[0]), a[1..], b);
    }
  }

  // Any single byte that is replaced by another is detected.
  lemma {:induction false} DetectsOneByte(data: Bytes, i: nat, b: byte)
    requires i < |data| && b != data[i]
    ensures Checksum(data[i := b]) != Checksum(data)
  {
    var p, s := data[..i], data[i + 1..];
    var mid := Run(BASIS, p);
    assert data == p + ([data[i]] + s) && data[i := b] == p + ([b] + s);
    RunAppend(BASIS, p, [data[i]] + s);
    RunAppend(BASIS, p, [b] + s);
    OneRound(mid, data[i], s);
    OneRound(mid, b, s);
    if Round(mid, data[i]) == Round(mid, b) { RoundInjective(mid, mid, data[i], b); }
    RunInjective(Round(mid, data[i]), Round(mid, b), s);
  }

  lemma {:induction false} OneRound(s: uint64, b: byte, rest: Bytes)
    ensures Run(s, [b] + rest) == Run(Round(s, b), rest)
  {
    assert ([b] + rest)[1..] == rest;
  }

  // ----------------------------------------------------------- what it computes

  // Each bit is that of one operand where the other has none.
  lemma {:induction false} XorBits(a: nat, b: nat, n: nat, i: nat)
    requires i < n
    ensures (Xor(a, b, n) / Two(i)) % 2 == (a / Two(i) + b / Two(i)) % 2
    decreases n
  {
    hide Xor;
    XorHalf(a, b, n);
    if i > 0 {
      XorBits(a / 2, b / 2, n - 1, i - 1);
      hide Two;
      HalfFirst(Xor(a, b, n), i);
      HalfFirst(a, i);
      HalfFirst(b, i);
    }
  }

  lemma {:induction false} XorHalf(a: nat, b: nat, n: nat)
    requires n > 0
    ensures Xor(a, b, n) / 2 == Xor(a / 2, b / 2, n - 1) && Xor(a, b, n) % 2 == (a + b) % 2
  {}

  lemma {:induction false} HalfFirst(x: nat, i: nat)
    requires i > 0
    ensures x / Two(i) == x / 2 / Two(i - 1)
  {
    Quotients(x, 2, Two(i - 1));
  }

  lemma {:induction false} Quotients(x: nat, d: nat, t: nat)
    requires d > 0 && t > 0
    ensures d * t > 0 && x / (d * t) == x / d / t
  {
    Times(d, t);
    var y, m := x / d, d * t;
    Parts(y, t);
    Products(x, d, t, y / t, y % t);
    Quotient(x, y / t, m, d * (y % t) + x % d);
  }

  lemma {:induction false} Parts(y: nat, t: nat)
    requires t > 0
    ensures y == (y / t) * t + y % t && 0 <= y % t < t && y / t >= 0
  {}

  lemma {:induction false} Products(x: nat, d: nat, t: nat, q: nat, r: nat)
    requires d > 0 && t > 0 && r < t && x / d == q * t + r
    ensures x == q * (d * t) + (d * r + x % d) && 0 <= d * r + x % d < d * t
  {
    assert x == d * (x / d) + x % d;
    assert d * (q * t + r) == q * (d * t) + d * r;
    assert d * (r + 1) <= d * t by { Times(t - r - 1, d); assert d * t == d * (r + 1) + d * (t - r - 1); }
  }

  lemma {:induction false} Quotient(x: nat, q: nat, t: nat, r: nat)
    requires t > 0 && x == q * t + r && r < t
    ensures x / t == q
  {
    var d := x / t - q;
    assert x == (x / t) * t + x % t;
    assert d * t == r - x % t;
    Times(d, t);
  }

  lemma {:induction false} Times(d: int, t: nat)
    ensures (d > 0 ==> d * t >= t) && (d < 0 ==> d * t <= 0 - t)
  {}

  // The checksum of no data, and of one byte more: the state with the byte in its
  // low bits, times the prime.
  lemma {:induction false} OneByteMore(data: Bytes, b: byte)
    ensures Checksum([]) == 14695981039346656037
    ensures var s := Checksum(data);
      Checksum(data + [b]) == ((s / 256 * 256 + Xor(s % 256, b, 8)) * 1099511628211) % 0x1_0000_0000_0000_0000
  {
    hide Xor, Round;
    RunAppend(BASIS, data, [b]);
    OneRound(Checksum(data), b, []);
    assert [b] + [] == [b];
    RoundIs(Checksum(data), b);
  }

  lemma {:induction false} RoundIs(s: uint64, b: byte)
    ensures Round(s, b) == ((s / 256 * 256 + Xor(s % 256, b, 8)) * 1099511628211) % 0x1_0000_0000_0000_0000
  {
    hide Xor;
  }

  // The published value for the letter a.
  lemma {:induction false} OfLetterA()
    ensures Checksum([97]) == 0xaf63dc4c8601ec8c
  {
    hide Checksum, Xor;
    OneByteMore([], 97);
    XorOfA();
    assert BASIS % 256 == 37;
    assert ((BASIS / 256 * 256 + 68) * 1099511628211) % 0x1_0000_0000_0000_0000 == 0xaf63dc4c8601ec8c;
    assert [] + [97] == [97];
  }

  lemma {:induction false} XorOfA()
    ensures Xor(37, 97, 8) == 68
  {
    assert Xor(1, 3, 3) == 2;
    assert Xor(18, 48, 7) == 34 by { assert Xor(4, 12, 5) == 8 by { assert Xor(2, 6, 4) == 4; } assert Xor(9, 24, 6) == 17; }
  }
}
