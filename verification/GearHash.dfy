/** The gear hash behind content-defined chunking, modulo 2^32. */
module GearHash {
  import opened Arithmetic
  import opened MachineTypes
  import opened Sequences

  const AVG_CHUNK: nat := 0x4_0000

  /** Only 96 of the table's 256 entries are given; the others are zero. */
  const GEAR_TABLE: seq<uint32> := [
    0x85e1_875e, 0xd5c7_a3d2, 0x8e6e_9a41, 0xb9f8_c673, 0x3e5a_1d4c, 0x71b2_e8f9, 0x4a8d_3f67, 0xc2e5_a19b,
    0x5f3d_7c82, 0x94a6_b1e3, 0x6d2f_4895, 0xe1c7_b3a8, 0x2b89_f4d6, 0xa73e_61c5, 0x58d4_f2b9, 0xc1e7_a384,
    0x96b5_2d4f, 0x43a8_e761, 0x8d2f_5c93, 0xb4e1_a7d6, 0x6f9c_3482, 0xe2a5_d1b7, 0x38b4_f6e9, 0x7d1c_a543,
    0x95e2_b8f4, 0x4a67_c3d1, 0xd8f3_e5a2, 0x61b9_4c87, 0xb2d4_a695, 0x3e87_f1c4, 0xa54c_2d86, 0x79e1_b3f5,
    0xc6a8_4d92, 0x53d7_f1e8, 0x8b42_a6c3, 0x2ef5_d917, 0xa1c8_7b34, 0xd469_e2f5, 0x87b3_a1c6, 0x5e2d_94f8,
    0xb1c4_7a36, 0x3d8e_f2a5, 0x69a5_c4d7, 0xe2f8_1b43, 0x47c3_a6d9, 0x95b2_e8f1, 0x68d4_a3c7, 0xb3e1_f5a2,
    0x2a96_c4d8, 0xd1f5_b3a7, 0x84e2_c693, 0x57a9_b3d4, 0xc8d1_e5f6, 0x3b64_a2c9, 0x92f7_e4b1, 0x6da5_c384,
    0xe4b8_f1d2, 0x73a2_c5e6, 0x58d4_f1a9, 0xb6e3_c2d7, 0x2f95_a4c8, 0xa1d7_e3b6, 0xd8c4_f5a2, 0x47b6_e1c3,
    0x93a2_d5f4, 0x65c8_b1e7, 0xe2f4_a3d9, 0x3b87_c6a5, 0x71d9_e2f4, 0xa4c6_b5e8, 0x5e2a_3d7f, 0xc8b1_d4e6,
    0x96f3_a2c5, 0x4d87_e1b6, 0xb5c2_f3a8, 0x27e9_d4c1, 0x6a3f_5b82, 0xd1c4_e7a5, 0x89b6_f2d3, 0x54e1_a3c7,
    0x38f5_d9b6, 0xc2a7_e4d8, 0x7b34_c1a5, 0xe6d9_f2b3, 0x91a5_c8e4, 0x46b7_d2f3, 0xd3e8_a5c1, 0x6a29_f4b7,
    0x85c4_d6e3, 0x37b1_a9f5, 0xb8e2_c4d6, 0x5f93_a1c7, 0xc4d7_e6b2, 0x2a85_f3d1, 0x96e4_b7a3, 0x71c8_d5f6
  ]

  function Gear(b: byte): uint32 {
    if b < |GEAR_TABLE| then GEAR_TABLE[b] else 0
  }

  function Hash(s: seq<byte>): uint32 {
    if s == [] then 0 else (2 * Hash(s[..|s| - 1]) + Gear(s[|s| - 1])) % TWO_32
  }

  lemma HashNext(s: seq<byte>, i: nat)
    requires i < |s|
    ensures Hash(s[..i + 1]) == (2 * Hash(s[..i]) + Gear(s[i])) % TWO_32
  {
    TakeNext(s, i);
  }

  lemma EmptyHash(s: seq<byte>)
    ensures Hash(s[..0]) == 0
  {
  }

  /** The hash of at most the first 32 bytes. */
  method FastcdcBoundary(data: seq<byte>) returns (h: uint32)
    ensures h == Hash(if |data| < 32 then data else data[..32])
  {
    hide Hash;
    h := 0;
    var i := 0;
    EmptyHash(data);
    while i < |data| && i < 32
      invariant 0 <= i <= |data| && i <= 32
      invariant h == Hash(data[..i])
    {
      HashNext(data, i);
      h := (2 * h + Gear(data[i])) % TWO_32;
      i := i + 1;
    }
    TakeAll(data);
  }

  // ---- Which bytes matter ------------------------------------------------

  function Pow2(n: nat): (r: nat)
    ensures r > 0
  {
    if n == 0 then 1 else 2 * Pow2(n - 1)
  }

  lemma Pow2Constants()
    ensures Pow2(18) == AVG_CHUNK && Pow2(32) == TWO_32
  {
    assert Pow2(6) == 64;
    assert Pow2(12) == 4096;
    assert Pow2(18) == 262144;
    assert Pow2(24) == 0x100_0000;
    assert Pow2(30) == 0x4000_0000;
  }

  lemma {:induction false} PowSum(a: nat, b: nat)
    ensures Pow2(a + b) == Pow2(b) * Pow2(a)
  {
    if b > 0 {
      PowSum(a, b - 1);
      assert Pow2(a + b) == 2 * Pow2(a + (b - 1));
    }
  }

  lemma ModOfMod(x: nat, c: nat, m: nat)
    requires c > 0 && m > 0 && c * m > 0
    ensures (x % (c * m)) % m == x % m
  {
    var q, r := x / (c * m), x % (c * m);
    assert x == c * m * q + r;
    assert m * (c * q + r / m) == c * m * q + m * (r / m);
    DivModUnique(x, m, c * q + r / m, r % m);
  }

  lemma DoubleMod(x: nat, g: nat, m: nat)
    requires m > 0
    ensures (2 * x + g) % (2 * m) == (2 * (x % m) + g) % (2 * m)
  {
    var y := 2 * (x % m) + g;
    assert x == m * (x / m) + x % m;
    assert 2 * x + g == 2 * m * (x / m) + y;
    assert 2 * m * (x / m + y / (2 * m)) == 2 * m * (x / m) + 2 * m * (y / (2 * m));
    DivModUnique(2 * x + g, 2 * m, x / m + y / (2 * m), y % (2 * m));
  }

  /** One hash step turns agreement modulo 2^(n-1) into agreement modulo 2^n. */
  lemma StepAgrees(x: nat, y: nat, g: nat, n: nat)
    requires 0 < n <= 32 && x % Pow2(n - 1) == y % Pow2(n - 1)
    ensures ((2 * x + g) % TWO_32) % Pow2(n) == ((2 * y + g) % TWO_32) % Pow2(n)
  {
    PowSum(n, 32 - n);
    Pow2Constants();
    ModOfMod(2 * x + g, Pow2(32 - n), Pow2(n));
    ModOfMod(2 * y + g, Pow2(32 - n), Pow2(n));
    DoubleMod(x, g, Pow2(n - 1));
    DoubleMod(y, g, Pow2(n - 1));
  }

  /** Modulo 2^n, the hash of a history is the hash of its last n bytes. */
  lemma {:induction false} LastBytesDecide(history: seq<byte>, tail: seq<byte>)
    requires |tail| <= 32
    ensures Hash(history + tail) % Pow2(|tail|) == Hash(tail) % Pow2(|tail|)
  {
    var n := |tail|;
    if n > 0 {
      LastBytesDecide(history, tail[..n - 1]);
      assert (history + tail)[..|history| + n - 1] == history + tail[..n - 1];
      StepAgrees(Hash(history + tail[..n - 1]), Hash(tail[..n - 1]), Gear(tail[n - 1]), n);
    }
  }

  /** The 32-byte hash equals the hash of any longer history that ends in those bytes. */
  lemma WindowIsHistory(history: seq<byte>, window: seq<byte>)
    requires |window| == 32
    ensures Hash(history + window) == Hash(window)
  {
    hide Hash, Pow2;
    LastBytesDecide(history, window);
    Pow2Constants();
  }

  // ---- The cut test ------------------------------------------------------

  /** A chunk may end before byte i of the buffer: the masked hash of the 32 bytes in front
      of it is zero. */
  predicate Cut(w: seq<byte>, i: nat)
    requires 32 <= i <= |w|
  {
    Hash(w[i - 32..i]) % AVG_CHUNK == 0
  }

  /** The mask keeps 18 bits, so only the last 18 bytes count. */
  lemma CutLast18(w: seq<byte>, i: nat)
    requires 32 <= i <= |w|
    ensures Cut(w, i) <==> Hash(w[i - 18..i]) % AVG_CHUNK == 0
  {
    assert w[i - 32..i] == w[i - 32..i - 18] + w[i - 18..i];
    LastBytesDecide(w[i - 32..i - 18], w[i - 18..i]);
    Pow2Constants();
  }

  /** Restarting the hash at every position loses nothing: the test agrees with the hash
      of everything before the position. */
  lemma CutIsRolling(w: seq<byte>, i: nat)
    requires 32 <= i <= |w|
    ensures Cut(w, i) <==> Hash(w[..i]) % AVG_CHUNK == 0
  {
    assert w[..i] == w[..i - 32] + w[i - 32..i];
    WindowIsHistory(w[..i - 32], w[i - 32..i]);
  }

  lemma {:induction false} HighBytesHashToZero(s: seq<byte>)
    requires forall k :: 0 <= k < |s| ==> s[k] >= 96
    ensures Hash(s) == 0
  {
    if s != [] { HighBytesHashToZero(s[..|s| - 1]); }
  }

  /** Eighteen bytes beyond the filled part of the table always make a cut. */
  lemma HighBytesCut(w: seq<byte>, i: nat)
    requires 32 <= i <= |w| && forall k :: i - 18 <= k < i ==> w[k] >= 96
    ensures Cut(w, i)
  {
    CutLast18(w, i);
    HighBytesHashToZero(w[i - 18..i]);
  }

  /** No cut lies behind a byte whose table entry is odd. */
  lemma OddGearNeverCuts(w: seq<byte>, i: nat)
    requires 32 <= i <= |w| && Gear(w[i - 1]) % 2 == 1
    ensures !Cut(w, i)
  {
    var s := w[i - 32..i];
    OddStep(Hash(s[..31]), Gear(s[31]));
    hide Gear;
  }

  lemma OddStep(h: uint32, gear: uint32)
    requires gear % 2 == 1
    ensures ((2 * h + gear) % TWO_32) % AVG_CHUNK != 0
  {
  }

  lemma ReadOn(s: seq<byte>, k: nat, h: uint32, gear: uint32)
    requires k < |s| && Hash(s[..k]) == h && Gear(s[k]) == gear
    ensures Hash(s[..k + 1]) == (2 * h + gear) % TWO_32
  {
    HashNext(s, k);
    hide Hash, Gear;
  }

  /** The text UWYVVYVYTUSXZXYXXZ, in ASCII. */
  const CUT_TEXT: seq<byte> := [85, 87, 89, 86, 86, 89, 86, 89, 84, 85, 83, 88, 90, 88, 89, 88, 88, 90]

  lemma TextGears()
    ensures Gear(83) == 0xe6d9_f2b3 && Gear(84) == 0x91a5_c8e4 && Gear(85) == 0x46b7_d2f3 && Gear(86) == 0xd3e8_a5c1
    ensures Gear(87) == 0x6a29_f4b7 && Gear(88) == 0x85c4_d6e3 && Gear(89) == 0x37b1_a9f5 && Gear(90) == 0xb8e2_c4d6
  {
  }

  lemma CutTextBegins()
    ensures Hash(CUT_TEXT[..9]) == 0x830f_e36a
  {
    hide Hash, Gear;
    var s := CUT_TEXT;
    TextGears();
    EmptyHash(s);
    ReadOn(s, 0, 0, 0x46b7_d2f3);
    ReadOn(s, 1, 0x46b7_d2f3, 0x6a29_f4b7);
    ReadOn(s, 2, 0xf799_9a9d, 0x37b1_a9f5);
    ReadOn(s, 3, 0x26e4_df2f, 0xd3e8_a5c1);
    ReadOn(s, 4, 0x21b2_641f, 0xd3e8_a5c1);
    ReadOn(s, 5, 0x174d_6dff, 0x37b1_a9f5);
    ReadOn(s, 6, 0x664c_85f3, 0xd3e8_a5c1);
    ReadOn(s, 7, 0xa081_b1a7, 0x37b1_a9f5);
    ReadOn(s, 8, 0x78b5_0d43, 0x91a5_c8e4);
  }

  lemma CutTextHash()
    ensures Hash(CUT_TEXT) == 0xc77c_0000
  {
    hide Hash, Gear;
    var s := CUT_TEXT;
    TextGears();
    CutTextBegins();
    ReadOn(s, 9, 0x830f_e36a, 0x46b7_d2f3);
    ReadOn(s, 10, 0x4cd7_99c7, 0xe6d9_f2b3);
    ReadOn(s, 11, 0x8089_2641, 0x85c4_d6e3);
    ReadOn(s, 12, 0x86d7_2365, 0xb8e2_c4d6);
    ReadOn(s, 13, 0xc691_0ba0, 0x85c4_d6e3);
    ReadOn(s, 14, 0x12e6_ee23, 0x37b1_a9f5);
    ReadOn(s, 15, 0x5d7f_863b, 0x85c4_d6e3);
    ReadOn(s, 16, 0x40c3_e359, 0x85c4_d6e3);
    ReadOn(s, 17, 0x074c_9d95, 0xb8e2_c4d6);
    TakeAll(s);
  }

  /** A cut by the table as it is: behind that text a chunk may always end. */
  lemma TextCuts(w: seq<byte>, i: nat)
    requires 32 <= i <= |w| && w[i - 18..i] == CUT_TEXT
    ensures Cut(w, i)
  {
    CutLast18(w, i);
    CutTextHash();
    hide Hash;
  }

  /** Equal neighbourhoods give equal answers, wherever they lie. */
  lemma CutIsLocal(v: seq<byte>, i: nat, w: seq<byte>, j: nat)
    requires 32 <= i <= |v| && 32 <= j <= |w| && v[i - 18..i] == w[j - 18..j]
    ensures Cut(v, i) <==> Cut(w, j)
  {
    CutLast18(v, i);
    CutLast18(w, j);
  }
}
