/** What the checksum of SaturnFS (kernel/fs/sfs.c) and of executables (kernel/user/executable.c) is for:
    no change of a single byte goes unnoticed, however long the data. One round maps the value v to
    (v << 5) ^ (v >> 2) ^ byte in 32 bits, so the difference of two checksums is mapped by the linear
    part alone; that part is not injective, but it never maps a difference made by one byte to 0. */
module ChecksumDetects {
  import opened Bits
  import opened FileBytes
  import opened SaturnFs
  import opened Executable

  // ---- bits ----

  predicate Bit(x: nat, i: nat) {
    if i == 0 then x % 2 == 1 else Bit(x / 2, i - 1)
  }

  lemma XorHalves(a: nat, b: nat)
    ensures Xor(a, b) / 2 == Xor(a / 2, b / 2) && (Xor(a, b) % 2 == 1 <==> a % 2 != b % 2)
  {
    if a == 0 && b == 0 { assert Xor(0, 0) == 0; }
  }

  lemma {:induction false} BitXor(a: nat, b: nat, i: nat)
    ensures Bit(Xor(a, b), i) <==> Bit(a, i) != Bit(b, i)
    decreases i
  {
    XorHalves(a, b);
    if i > 0 { BitXor(a / 2, b / 2, i - 1); }
  }

  lemma {:induction false} BitAbove(x: nat, k: nat, i: nat)
    requires x < Pow2(k) && k <= i
    ensures !Bit(x, i)
    decreases i
  {
    if i > 0 { BitAbove(x / 2, if k == 0 then 0 else k - 1, i - 1); }
  }

  lemma {:induction false} BitOfRemainder(x: nat, k: nat, i: nat)
    requires i < k
    ensures Bit(x % Pow2(k), i) <==> Bit(x, i)
    decreases i
  {
    HalveRemainder(x, Pow2(k - 1), Pow2(k));
    var r := x % Pow2(k);
    assert r / 2 == (x / 2) % Pow2(k - 1) && r % 2 == x % 2;
    if i > 0 { BitOfRemainder(x / 2, k - 1, i - 1); }
  }

  lemma {:induction false} BitTwice(x: nat, i: nat)
    ensures Bit(2 * x, i) <==> i > 0 && Bit(x, i - 1)
  {
    assert 2 * x / 2 == x && 2 * x % 2 == 0;
  }

  lemma {:induction false} BitTimes32(x: nat, i: nat)
    ensures Bit(x * 32, i) <==> i >= 5 && Bit(x, i - 5)
  {
    BitTwice(16 * x, i);
    if i >= 1 { BitTwice(8 * x, i - 1); }
    if i >= 2 { BitTwice(4 * x, i - 2); }
    if i >= 3 { BitTwice(2 * x, i - 3); }
    if i >= 4 { BitTwice(x, i - 4); }
  }

  lemma {:induction false} BitQuarter(x: nat, i: nat)
    ensures Bit(x / 4, i) <==> Bit(x, i + 2)
  {
    assert x / 4 == x / 2 / 2;
    assert Bit(x, i + 2) == Bit(x / 2, i + 1) == Bit(x / 2 / 2, i);
  }

  lemma {:induction false} SameBits(a: nat, b: nat, k: nat)
    requires a < Pow2(k) && b < Pow2(k) && forall i: nat :: i < k ==> Bit(a, i) == Bit(b, i)
    ensures a == b
    decreases k
  {
    if k > 0 {
      assert Bit(a, 0) == Bit(b, 0);
      forall i: nat | i < k - 1 ensures Bit(a / 2, i) == Bit(b / 2, i) {
        assert Bit(a, i + 1) == Bit(b, i + 1);
      }
      SameBits(a / 2, b / 2, k - 1);
    }
  }

  /** The highest bit of a number. */
  lemma {:induction false} TopBit(x: nat, k: nat) returns (h: nat)
    requires 0 < x < Pow2(k)
    ensures h < k && Bit(x, h) && forall i: nat :: i > h ==> !Bit(x, i)
    decreases k
  {
    if x == 1 {
      h := 0;
      forall i: nat | i > 0 ensures !Bit(x, i) {
        assert Pow2(1) == 2;
        BitAbove(1, 1, i);
      }
    } else {
      var g := TopBit(x / 2, k - 1);
      h := g + 1;
      forall i: nat | i > h ensures !Bit(x, i) {
        assert !Bit(x / 2, i - 1);
      }
    }
  }

  // ---- the linear part of a round ----

  function Spread32(v: nat): nat {
    Xor(v * 32 % U32, v / 4)
  }

  lemma {:induction false} SpreadBound(v: nat)
    requires v < U32
    ensures Spread32(v) < U32
  {
    Pow2Values();
    XorBound(v * 32 % U32, v / 4, 32);
  }

  lemma {:induction false} BitSpread(v: nat, i: nat)
    requires v < U32 && i < 32
    ensures Bit(Spread32(v), i) <==> (i >= 5 && Bit(v, i - 5)) != (i < 30 && Bit(v, i + 2))
  {
    Pow2Values();
    BitXor(v * 32 % U32, v / 4, i);
    BitOfRemainder(v * 32, 32, i);
    BitTimes32(v, i);
    BitQuarter(v, i);
    if i >= 30 { BitAbove(v, 32, i + 2); }
  }

  lemma {:induction false} Spreads(v: nat)
    requires v < U32
    ensures Spread32(v) < U32
    ensures forall i: nat :: i < 32 ==>
      (Bit(Spread32(v), i) <==> (i >= 5 && Bit(v, i - 5)) != (i < 30 && Bit(v, i + 2)))
  {
    SpreadBound(v);
    forall i: nat | i < 32
      ensures Bit(Spread32(v), i) <==> (i >= 5 && Bit(v, i - 5)) != (i < 30 && Bit(v, i + 2))
    {
      BitSpread(v, i);
    }
  }

  /** The same on bits alone: u is what one round makes of v. */
  ghost predicate SpreadOf(v: nat -> bool, u: nat -> bool) {
    forall i: nat :: i < 32 ==> (u(i) <==> (i >= 5 && v(i - 5)) != (i < 30 && v(i + 2)))
  }

  /** What is 0 after a third round was 0 after the second. If it is 0 after the third, then the bits
      after the second repeat with period 7 and are 0 but at 0 and 1 modulo 7; following these two
      classes back through both rounds shows that they are 0 as well. */
  lemma {:induction false} ThirdRound(v: nat -> bool, u: nat -> bool, w: nat -> bool, x: nat -> bool, i: nat)
    requires SpreadOf(v, u) && SpreadOf(u, w) && SpreadOf(w, x) && (forall j: nat :: j < 32 ==> !x(j)) && i < 32
    ensures !w(i)
    decreases i
  {
    if i >= 7 {
      ThirdRound(v, u, w, x, i - 7);
      assert !x(i - 2);
    } else if i >= 2 {
      assert !x(i - 2);
    } else {
      Class(v, u, w, x, i);
    }
  }

  /** Bit i of the class of 0 or of 1. */
  lemma {:induction false} Class(v: nat -> bool, u: nat -> bool, w: nat -> bool, x: nat -> bool, i: nat)
    requires SpreadOf(v, u) && SpreadOf(u, w) && SpreadOf(w, x) && (forall j: nat :: j < 32 ==> !x(j)) && i < 2
    ensures !w(i)
  {
    assert !x(i + 5) && !x(i + 12) && !x(i + 19) && !x(i + 26);
    assert w(i) == w(i + 7) == w(i + 14) == w(i + 21) == w(i + 28);
    assert u(i + 2) == w(i) && !u(i + 9) && u(i + 16) == w(i) && !u(i + 23) && u(i + 30) == w(i);
    assert v(i + 4) == w(i) && v(i + 11) == w(i) && !v(i + 18) && !v(i + 25);
    assert u(i + 30) == v(i + 25);
  }

  /** A difference that no number of rounds makes disappear. */
  predicate Visible(d: nat) {
    d < U32 && Spread32(d) < U32 && Spread32(Spread32(d)) != 0
  }

  lemma {:induction false} AllBits(v: nat)
    requires v < U32
    ensures Spread32(v) < U32 && SpreadOf((i: nat) => Bit(v, i), (i: nat) => Bit(Spread32(v), i))
  {
    Spreads(v);
  }

  lemma {:induction false} ZeroBit(z: nat, i: nat)
    requires z == 0
    ensures !Bit(z, i)
  {
    BitAbove(z, 0, i);
  }

  lemma {:induction false} SameAsZero(v: nat, z: nat)
    requires v < U32 && z == 0 && forall i: nat :: i < 32 ==> !Bit(v, i)
    ensures v == z
  {
    Pow2Values();
    forall i: nat | i < 32 ensures Bit(v, i) == Bit(z, i) {
      ZeroBit(z, i);
    }
    SameBits(v, z, 32);
  }

  /** A visible difference stays visible. */
  lemma {:induction false} VisibleStays(d: nat)
    requires Visible(d)
    ensures Visible(Spread32(d))
  {
    var u := Spread32(d);
    var w := Spread32(u);
    AllBits(d);
    AllBits(u);
    AllBits(w);
    if Spread32(w) == 0 { SecondIsZero(d, u, w, Spread32(w)); }
  }

  lemma {:induction false} SecondIsZero(d: nat, u: nat, w: nat, x: nat)
    requires d < U32 && u < U32 && w < U32 && x == 0
    requires SpreadOf((i: nat) => Bit(d, i), (i: nat) => Bit(u, i))
    requires SpreadOf((i: nat) => Bit(u, i), (i: nat) => Bit(w, i))
    requires SpreadOf((i: nat) => Bit(w, i), (i: nat) => Bit(x, i))
    ensures w == 0
  {
    var bd, bu, bw, bx := (i: nat) => Bit(d, i), (i: nat) => Bit(u, i), (i: nat) => Bit(w, i), (i: nat) => Bit(x, i);
    forall i: nat | i < 32 ensures !bx(i) {
      ZeroBit(x, i);
    }
    forall i: nat | i < 32 ensures !Bit(w, i) {
      ThirdRound(bd, bu, bw, bx, i);
      assert bw(i) == Bit(w, i);
    }
    SameAsZero(w, 0);
  }

  /** A difference within one byte is visible: its highest bit is alone at the places it moves to. */
  lemma {:induction false} ByteVisible(d: nat)
    requires 0 < d < 256
    ensures Visible(d)
  {
    Pow2Values();
    Pow2Sum(6, 2);
    var h := TopBit(d, 8);
    var u := Spread32(d);
    Spreads(d);
    Spreads(u);
    BitSpread(d, h + 5);
    BitSpread(d, h + 12);
    BitSpread(u, h + 10);
    if Spread32(u) == 0 { ZeroBit(Spread32(u), h + 10); }
  }

  // ---- two runs of the checksum ----

  lemma {:induction false} XorBits(a: nat, b: nat)
    requires a < U32 && b < U32
    ensures Xor(a, b) < U32 && (Xor(a, b) == 0 <==> a == b)
  {
    Pow2Values();
    XorBound(a, b, 32);
    if Xor(a, b) == 0 {
      forall i: nat | i < 32 ensures Bit(a, i) == Bit(b, i) {
        BitXor(a, b, i);
        ZeroBit(Xor(a, b), i);
      }
      SameBits(a, b, 32);
    } else if a == b {
      forall i: nat | i < 32 ensures !Bit(Xor(a, b), i) {
        BitXor(a, b, i);
      }
      SameAsZero(Xor(a, b), 0);
    }
  }

  lemma {:induction false} StepIs(v: nat, b: Byte)
    ensures ChecksumStep(v, b) == Xor(Spread32(v), b)
  {
  }

  /** The same byte after two values: the difference goes through the linear part. */
  lemma {:induction false} SameByte(v: nat, v': nat, b: Byte)
    requires v < U32 && v' < U32
    ensures ChecksumStep(v, b) < U32 && ChecksumStep(v', b) < U32 && Xor(v, v') < U32
    ensures Xor(ChecksumStep(v, b), ChecksumStep(v', b)) == Spread32(Xor(v, v'))
  {
    var c, c', d := ChecksumStep(v, b), ChecksumStep(v', b), Xor(v, v');
    Pow2Values();
    ChecksumBound(v, b);
    ChecksumBound(v', b);
    XorBits(v, v');
    XorBits(c, c');
    SpreadBound(d);
    forall i: nat | i < 32 ensures Bit(Xor(c, c'), i) == Bit(Spread32(d), i) {
      SameByteBit(v, v', b, i);
    }
    SameBits(Xor(c, c'), Spread32(d), 32);
  }

  lemma {:induction false} SameByteBit(v: nat, v': nat, b: Byte, i: nat)
    requires v < U32 && v' < U32 && Xor(v, v') < U32 && i < 32
    ensures Bit(Xor(ChecksumStep(v, b), ChecksumStep(v', b)), i) == Bit(Spread32(Xor(v, v')), i)
  {
    BitXor(ChecksumStep(v, b), ChecksumStep(v', b), i);
    BitXor(Spread32(v), b, i);
    BitXor(Spread32(v'), b, i);
    BitSpread(v, i);
    BitSpread(v', i);
    BitSpread(Xor(v, v'), i);
    if i >= 5 { BitXor(v, v', i - 5); }
    BitXor(v, v', i + 2);
  }

  /** Different bytes after one value: the difference is that of the bytes. */
  lemma {:induction false} OtherByte(v: nat, b: Byte, b': Byte)
    requires v < U32 && b != b'
    ensures ChecksumStep(v, b) < U32 && ChecksumStep(v, b') < U32
    ensures Visible(Xor(ChecksumStep(v, b), ChecksumStep(v, b')))
  {
    var c, c', d := ChecksumStep(v, b), ChecksumStep(v, b'), Xor(b, b');
    Pow2Values();
    Pow2Sum(6, 2);
    ChecksumBound(v, b);
    ChecksumBound(v, b');
    XorBits(b, b');
    XorBound(b, b', 8);
    XorBits(c, c');
    forall i: nat | i < 32 ensures Bit(Xor(c, c'), i) == Bit(d, i) {
      BitXor(c, c', i);
      BitXor(Spread32(v), b, i);
      BitXor(Spread32(v), b', i);
      BitXor(b, b', i);
    }
    SameBits(Xor(c, c'), d, 32);
    ByteVisible(d);
  }

  lemma {:induction false} OneByteVisible(data: Bytes, k: nat, b: Byte)
    requires k < |data| && b != data[k]
    ensures Visible(Xor(Checksum(data), Checksum(data[k := b])))
    decreases |data|
  {
    var n := |data| - 1;
    var before, before' := data[..n], data[k := b][..n];
    if k == n {
      assert before' == before;
      OtherByte(Checksum(before), data[n], b);
    } else {
      assert before' == before[k := b] && data[k := b][n] == data[n];
      OneByteVisible(before, k, b);
      SameByte(Checksum(before), Checksum(before'), data[n]);
      VisibleStays(Xor(Checksum(before), Checksum(before')));
    }
  }

  /** Main result: changing one byte of data of any length changes its checksum. */
  lemma {:induction false} OneByteDetected(data: Bytes, k: nat, b: Byte)
    requires k < |data|
    ensures Checksum(data[k := b]) == Checksum(data) <==> b == data[k]
  {
    if b != data[k] {
      OneByteVisible(data, k, b);
      XorBits(Checksum(data), Checksum(data[k := b]));
      SpreadZero();
    } else {
      assert data[k := b] == data;
    }
  }

  lemma SpreadZero()
    ensures Spread32(0) == 0
  {
    assert Xor(0, 0) == 0;
  }

  // ---- what it is for ----

  /** No file that differs from the layout of a valid image in one byte behind the header is accepted. */
  lemma {:induction false} DamagedImageRejected(m: Image, k: nat, b: Byte)
    requires ValidImage(m) && HEADER_SIZE <= k < |Layout(m)| && b != Layout(m)[k]
    ensures Parse(Layout(m)[k := b]).Rejected?
  {
    var f, payload := Layout(m), m.code + m.data;
    LayoutFields(m);
    assert f[k := b][HEADER_SIZE..] == payload[k - HEADER_SIZE := b];
    OneByteDetected(payload, k - HEADER_SIZE, b);
    SameWord(f, k, b);
    ChecksumMustMatch(f[k := b]);
  }

  lemma SameWord(f: Bytes, k: nat, b: Byte)
    requires HEADER_SIZE <= k < |f|
    ensures WordAt(f[k := b], 20) == WordAt(f, 20)
  {
  }

  lemma ChecksumMustMatch(f: Bytes)
    requires |f| >= HEADER_SIZE && Checksum(f[HEADER_SIZE..]) != WordAt(f, 20)
    ensures Parse(f).Rejected?
  {
  }
}
