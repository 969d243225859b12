/** HashTable_hashGeneric of src/HashTable.c: a 32-bit hash of a byte string, coded three times over - with
    32-bit reads, 16-bit reads and byte reads, picked by the key's alignment - and the reversibility that its
    comments claim for the mixing steps. */
module Lookup3 {
  import opened CTypes

  /** The three running words of the hash. */
  datatype State = State(a: uint32, b: uint32, c: uint32)

  const MAGIC: uint32 := 0xdead_beef

  // ---------------------------------------------------------------------------
  // 32-bit unsigned arithmetic
  // ---------------------------------------------------------------------------

  function Add(x: uint32, y: uint32): uint32 {
    (x + y) % WORD
  }

  function Sub(x: uint32, y: uint32): uint32 {
    (x - y) % WORD
  }

  /** x ^ y, bit by bit. */
  function XorBits(x: nat, y: nat): nat
    decreases x + y
  {
    if x == 0 && y == 0 then 0 else (if x % 2 == y % 2 then 0 else 1) + 2 * XorBits(x / 2, y / 2)
  }

  lemma {:induction false} XorFits(x: nat, y: nat, n: nat)
    requires x < Pow2(n) && y < Pow2(n)
    ensures XorBits(x, y) < Pow2(n)
  {
    if 0 < n && (x != 0 || y != 0) {
      XorFits(x / 2, y / 2, n - 1);
    }
  }

  lemma LowBit(x: nat) returns (h: nat, p: nat)
    ensures x == 2 * h + p && p < 2 && (0 < x ==> h < x)
  {
    h, p := x / 2, x % 2;
  }

  /** The lowest bit of x ^ y, and the rest. */
  lemma XorStep(x: nat, p: nat, y: nat, q: nat)
    requires p < 2 && q < 2
    ensures XorBits(2 * x + p, 2 * y + q) == (if p == q then 0 else 1) + 2 * XorBits(x, y)
  {
  }

  lemma {:induction false} XorUndoes(x: nat, y: nat)
    ensures XorBits(XorBits(x, y), y) == x
    decreases x + y
  {
    if x != 0 || y != 0 {
      hide XorBits;
      var x2, p := LowBit(x);
      var y2, q := LowBit(y);
      XorUndoes(x2, y2);
      XorStep(x2, p, y2, q);
      XorStep(XorBits(x2, y2), if p == q then 0 else 1, y2, q);
    }
  }

  lemma WordIsPow2()
    ensures Pow2(32) == WORD
  {
    assert Pow2(8) == 256;
    assert Pow2(16) == 65536;
    assert Pow2(24) == 16777216;
  }

  function Xor(x: uint32, y: uint32): uint32 {
    WordIsPow2();
    XorFits(x, y, 32);
    XorBits(x, y)
  }

  /** x rotated left by k bits: the bits shifted out on the left come back on the right. */
  function Rot(x: uint32, k: nat): uint32
    requires k <= 32
  {
    (x * Pow2(k) % WORD + x / Pow2(32 - k)) % WORD
  }

  lemma {:induction false} PowersAdd(i: nat, j: nat)
    ensures Pow2(i + j) == Pow2(i) * Pow2(j)
  {
    if 0 < i {
      PowersAdd(i - 1, j);
      assert 2 * Pow2(i - 1) * Pow2(j) == 2 * (Pow2(i - 1) * Pow2(j));
    }
  }

  lemma MulAtLeast(n: nat, d: nat)
    requires 1 <= n
    ensures n * d >= d
  {
    assert n * d == d + (n - 1) * d;
  }

  lemma Distribute(a: int, b: int, d: int)
    ensures (a - b) * d == a * d - b * d && (a + b) * d == a * d + b * d
  {
  }

  /** There is only one quotient and one remainder. */
  lemma OneDivision(a: nat, r: nat, b: nat, t: nat, d: nat)
    requires a * d + r == b * d + t && r < d && t < d
    ensures a == b && r == t
  {
    Distribute(a, b, d);
    Distribute(b, a, d);
    if a > b {
      MulAtLeast(a - b, d);
    } else if b > a {
      MulAtLeast(b - a, d);
    }
  }

  lemma Division(x: nat, d: nat, b: nat, t: nat)
    requires x == b * d + t && t < d
    ensures x / d == b && x % d == t
  {
    var a, r := x / d, x % d;
    assert a * d + r == x;
    OneDivision(a, r, b, t, d);
  }

  /** Two words a * q + b and b * p + a with p * q == 2^32: the first, shifted left and right, gives the second. */
  lemma Swapped(x: nat, a: nat, b: nat, p: nat, q: nat)
    requires p * q == WORD && a < p && b < q && x == a * q + b
    ensures (x * p) % WORD == b * p && x / q == a && b * p + a < WORD
  {
    assert x * p == a * WORD + b * p by {
      Distribute(a * q, b, p);
      assert a * q * p == a * (q * p);
    }
    assert b * p + a < WORD by {
      MulAtLeast(q - b, p);
      Distribute(q, b, p);
    }
    Division(x * p, WORD, a, b * p);
    Division(x, q, a, b);
  }

  /** Rotating by k and then by 32 - k changes nothing. */
  lemma RotBack(x: uint32, k: nat)
    requires k <= 32
    ensures Rot(Rot(x, k), 32 - k) == x
  {
    PowersAdd(k, 32 - k);
    WordIsPow2();
    RotBackBy(x, k, Pow2(k), Pow2(32 - k));
  }

  lemma RotBackBy(x: uint32, k: nat, p: nat, q: nat)
    requires k <= 32 && p == Pow2(k) && q == Pow2(32 - k) && p * q == WORD && 0 < q
    ensures Rot(Rot(x, k), 32 - k) == x
  {
    hide Rot, Pow2;
    var a, b := x / q, x % q;
    UpperPart(x, p, q);
    Swapped(x, a, b, p, q);
    RotIs(x, k, p, q, b * p, a);
    var y := b * p + a;
    Swapped(y, b, a, q, p);
    RotIs(y, 32 - k, q, p, a * q, b);
  }

  lemma RotIs(x: uint32, k: nat, p: nat, q: nat, shifted: nat, carried: nat)
    requires k <= 32 && p == Pow2(k) && q == Pow2(32 - k)
    requires x * p % WORD == shifted && x / q == carried && shifted + carried < WORD
    ensures Rot(x, k) == shifted + carried
  {
    hide Pow2;
  }

  lemma MulNotNegative(n: nat, d: nat)
    ensures n * d >= 0
  {
  }

  lemma UpperPart(x: nat, p: nat, q: nat)
    requires x < p * q && 0 < q
    ensures x / q < p && x == x / q * q + x % q && x % q < q
  {
    var a := x / q;
    if a >= p {
      Distribute(a, p, q);
      MulNotNegative(a - p, q);
    }
  }

  // ---------------------------------------------------------------------------
  // Memory reads on a little-endian machine
  // ---------------------------------------------------------------------------

  /** A byte read, widened. */
  function Byte(m: seq<byte>, i: nat): (r: int)
    requires i < |m|
    ensures 0 <= r < 256
  {
    m[i]
  }

  /** A 16-bit read, widened. */
  function Half(m: seq<byte>, i: nat): uint32
    requires i + 2 <= |m|
  {
    Byte(m, i) + 0x100 * Byte(m, i + 1)
  }

  /** A 32-bit read. */
  function Word(m: seq<byte>, i: nat): uint32
    requires i + 4 <= |m|
  {
    Byte(m, i) + 0x100 * Byte(m, i + 1) + 0x1_0000 * Byte(m, i + 2) + 0x100_0000 * Byte(m, i + 3)
  }

  // ---------------------------------------------------------------------------
  // HASHTABLE_MIX and HASHTABLE_FINAL
  // ---------------------------------------------------------------------------

  /** What a line of HASHTABLE_MIX does to its first word: x -= z; x ^= rot(z, k). */
  function Stir(x: uint32, z: uint32, k: nat): uint32
    requires k <= 32
  {
    Xor(Sub(x, z), Rot(z, k))
  }

  /** One line of HASHTABLE_MIX, with the words handed on in the roles they play in the next line.
      Three lines bring the roles round again. */
  function MixLine(s: State, k: nat): State
    requires k <= 32
  {
    State(s.b, Add(s.c, s.b), Stir(s.a, s.c, k))
  }

  function Mix(s: State): State {
    MixLine(MixLine(MixLine(MixLine(MixLine(MixLine(s, 4), 6), 8), 16), 19), 4)
  }

  /** One line of HASHTABLE_FINAL: x ^= y; x -= rot(y, k). */
  function Blend(x: uint32, y: uint32, k: nat): uint32
    requires k <= 32
  {
    Sub(Xor(x, y), Rot(y, k))
  }

  function Final(s: State): State {
    var c1 := Blend(s.c, s.b, 14);
    var a1 := Blend(s.a, c1, 11);
    var b1 := Blend(s.b, a1, 25);
    var c2 := Blend(c1, b1, 16);
    var a2 := Blend(a1, c2, 4);
    var b2 := Blend(b1, a2, 14);
    State(a2, b2, Blend(c2, b2, 24))
  }

  /** HASHTABLE_MIX on three variables, as written. */
  method MixWords(a0: uint32, b0: uint32, c0: uint32) returns (a: uint32, b: uint32, c: uint32)
    ensures State(a, b, c) == Mix(State(a0, b0, c0))
  {
    hide Sub, Xor, Rot, Add;
    a, b, c := a0, b0, c0;
    a := Sub(a, c); a := Xor(a, Rot(c, 4)); c := Add(c, b);
    b := Sub(b, a); b := Xor(b, Rot(a, 6)); a := Add(a, c);
    c := Sub(c, b); c := Xor(c, Rot(b, 8)); b := Add(b, a);
    a := Sub(a, c); a := Xor(a, Rot(c, 16)); c := Add(c, b);
    b := Sub(b, a); b := Xor(b, Rot(a, 19)); a := Add(a, c);
    c := Sub(c, b); c := Xor(c, Rot(b, 4)); b := Add(b, a);
  }

  /** HASHTABLE_FINAL on three variables, as written; the caller keeps c. */
  method FinalWords(a0: uint32, b0: uint32, c0: uint32) returns (c: uint32)
    ensures c == Final(State(a0, b0, c0)).c
  {
    hide Sub, Xor, Rot;
    var a, b := a0, b0;
    c := c0;
    c := Xor(c, b); c := Sub(c, Rot(b, 14));
    a := Xor(a, c); a := Sub(a, Rot(c, 11));
    b := Xor(b, a); b := Sub(b, Rot(a, 25));
    c := Xor(c, b); c := Sub(c, Rot(b, 16));
    a := Xor(a, c); a := Sub(a, Rot(c, 4));
    b := Xor(b, a); b := Sub(b, Rot(a, 14));
    c := Xor(c, b); c := Sub(c, Rot(b, 24));
  }

  // ---------------------------------------------------------------------------
  // What is computed: whole blocks of 12 bytes, then one zero-padded block
  // ---------------------------------------------------------------------------

  /** The value all three words start from. */
  function Start(length: uint32, initVal: uint32): uint32 {
    Add(Add(MAGIC, length), initVal)
  }

  /** Adds the 12 bytes at i. */
  function Absorb(s: State, m: seq<byte>, i: nat): State
    requires i + 12 <= |m|
  {
    State(Add(s.a, Word(m, i)), Add(s.b, Word(m, i + 4)), Add(s.c, Word(m, i + 8)))
  }

  function Pad(t: seq<byte>): (p: seq<byte>)
    requires |t| <= 12
    ensures |p| == 12 && forall i | 0 <= i < 12 :: p[i] == if i < |t| then t[i] else 0
  {
    t + seq(12 - |t|, _ => 0)
  }

  /** The three words when the whole key has been taken in. An empty key is not mixed at all. */
  function Digest(s: State, key: seq<byte>): State
    decreases |key|
  {
    if |key| > 12 then Digest(Mix(Absorb(s, key, 0)), key[12..])
    else if |key| == 0 then s
    else Final(Absorb(s, Pad(key), 0))
  }

  function Seed(length: uint32, initVal: uint32): State {
    State(Start(length, initVal), Start(length, initVal), Start(length, initVal))
  }

  function Hash(key: seq<byte>, initVal: uint32): uint32
    requires |key| < WORD
  {
    Digest(Seed(|key|, initVal), key).c
  }

  // ---------------------------------------------------------------------------
  // Words, half-words and bytes
  // ---------------------------------------------------------------------------

  lemma AddAssociates(x: uint32, y: uint32, z: uint32)
    ensures y + z < WORD ==> Add(Add(x, y), z) == Add(x, y + z)
  {
  }

  /** A word added from its lowest byte up, and from its highest byte down. */
  lemma AddByBytes(x: uint32, b0: int, b1: int, b2: int, b3: int)
    requires 0 <= b0 < 256 && 0 <= b1 < 256 && 0 <= b2 < 256 && 0 <= b3 < 256
    ensures var w := b0 + 0x100 * b1 + 0x1_0000 * b2 + 0x100_0000 * b3;
            && Add(Add(Add(Add(x, b0), 0x100 * b1), 0x1_0000 * b2), 0x100_0000 * b3) == Add(x, w)
            && Add(Add(Add(Add(x, 0x100_0000 * b3), 0x1_0000 * b2), 0x100 * b1), b0) == Add(x, w)
  {
    hide Add;
    AddAssociates(x, b0, 0x100 * b1);
    AddAssociates(x, b0 + 0x100 * b1, 0x1_0000 * b2);
    AddAssociates(x, b0 + 0x100 * b1 + 0x1_0000 * b2, 0x100_0000 * b3);
    AddAssociates(x, 0x100_0000 * b3, 0x1_0000 * b2);
    AddAssociates(x, 0x100_0000 * b3 + 0x1_0000 * b2, 0x100 * b1);
    AddAssociates(x, 0x100_0000 * b3 + 0x1_0000 * b2 + 0x100 * b1, b0);
  }

  /** The masks of the 32-bit loop keep the low bytes of a read. */
  lemma Masks(m: seq<byte>, i: nat)
    requires i + 4 <= |m|
    ensures Word(m, i) % 0x100 == Byte(m, i)
    ensures Word(m, i) % 0x1_0000 == Half(m, i)
    ensures Word(m, i) % 0x100_0000 == Half(m, i) + 0x1_0000 * Byte(m, i + 2)
    ensures Word(m, i) == Half(m, i) + 0x1_0000 * Half(m, i + 2)
  {
  }

  /** The word at j of a padded tail of n bytes. */
  lemma TailWord(m: seq<byte>, k: nat, n: nat, j: nat)
    requires n <= 12 && k + n <= |m| && j in {0, 4, 8}
    ensures Word(Pad(m[k..k + n]), j) ==
            (if j < n then Byte(m, k + j) else 0)
            + 0x100 * (if j + 1 < n then Byte(m, k + j + 1) else 0)
            + 0x1_0000 * (if j + 2 < n then Byte(m, k + j + 2) else 0)
            + 0x100_0000 * (if j + 3 < n then Byte(m, k + j + 3) else 0)
  {
    var p := Pad(m[k..k + n]);
    assert forall i | 0 <= i < n :: p[i] == m[k + i];
  }

  /** One round of the loops: the block at k is taken in. */
  lemma Round(s: State, m: seq<byte>, k: nat, end: nat)
    requires k + 12 < end <= |m|
    ensures Digest(s, m[k..end]) == Digest(Mix(Absorb(s, m, k)), m[k + 12..end])
  {
    hide Add, Mix, Final;
    assert m[k..end][12..] == m[k + 12..end];
  }

  // ---------------------------------------------------------------------------
  // The three loops and their switches
  // ---------------------------------------------------------------------------

  method TailByWords(m: seq<byte>, k: nat, n: nat, a0: uint32, b0: uint32, c0: uint32) returns (h: uint32)
    requires n <= 12 && k + (n + 3) / 4 * 4 <= |m|
    ensures h == Digest(State(a0, b0, c0), m[k..k + n]).c
  {
    hide Final, Pad, Add;
    var a, b, c := a0, b0, c0;
    if n == 0 {
      return c;
    }
    TailWordMasked(m, k, n, 0, a);
    TailWordMasked(m, k, n, 4, b);
    TailWordMasked(m, k, n, 8, c);
    match n {
      case 12 => c := Add(c, Word(m, k + 8)); b := Add(b, Word(m, k + 4)); a := Add(a, Word(m, k));
      case 11 => c := Add(c, Word(m, k + 8) % 0x100_0000); b := Add(b, Word(m, k + 4)); a := Add(a, Word(m, k));
      case 10 => c := Add(c, Word(m, k + 8) % 0x1_0000); b := Add(b, Word(m, k + 4)); a := Add(a, Word(m, k));
      case 9 => c := Add(c, Word(m, k + 8) % 0x100); b := Add(b, Word(m, k + 4)); a := Add(a, Word(m, k));
      case 8 => b := Add(b, Word(m, k + 4)); a := Add(a, Word(m, k));
      case 7 => b := Add(b, Word(m, k + 4) % 0x100_0000); a := Add(a, Word(m, k));
      case 6 => b := Add(b, Word(m, k + 4) % 0x1_0000); a := Add(a, Word(m, k));
      case 5 => b := Add(b, Word(m, k + 4) % 0x100); a := Add(a, Word(m, k));
      case 4 => a := Add(a, Word(m, k));
      case 3 => a := Add(a, Word(m, k) % 0x100_0000);
      case 2 => a := Add(a, Word(m, k) % 0x1_0000);
      case 1 => a := Add(a, Word(m, k) % 0x100);
    }
    h := FinalWords(a, b, c);
  }

  lemma TailWordMasked(m: seq<byte>, k: nat, n: nat, j: nat, x: uint32)
    requires n <= 12 && k + n <= |m| && j in {0, 4, 8}
    requires n <= j || k + j + 4 <= |m|
    ensures var w := Word(Pad(m[k..k + n]), j);
            if n <= j then Add(x, w) == x
            else if n == j + 1 then w == Word(m, k + j) % 0x100
            else if n == j + 2 then w == Word(m, k + j) % 0x1_0000
            else if n == j + 3 then w == Word(m, k + j) % 0x100_0000
            else w == Word(m, k + j)
  {
    TailWord(m, k, n, j);
    if j < n {
      Masks(m, k + j);
    }
  }

  /** The loop for 4-byte aligned keys. Its last read may take in bytes behind the key, but stays within the
      key's last aligned word. */
  method HashByWords(m: seq<byte>, length: uint32, initVal: uint32) returns (h: uint32)
    requires (length + 3) / 4 * 4 <= |m|
    ensures h == Hash(m[..length], initVal)
  {
    hide Mix, Final, Word, Add, Start;
    var a, b, c := Start(length, initVal), Start(length, initVal), Start(length, initVal);
    var k: nat, n: nat := 0, length;
    assert m[0..length] == m[..length];
    while n > 12
      invariant k + n == length && k % 4 == 0
      invariant Digest(State(a, b, c), m[k..length]).c == Hash(m[..length], initVal)
    {
      Round(State(a, b, c), m, k, length);
      a := Add(a, Word(m, k));
      b := Add(b, Word(m, k + 4));
      c := Add(c, Word(m, k + 8));
      a, b, c := MixWords(a, b, c);
      n := n - 12;
      k := k + 12;
    }
    h := TailByWords(m, k, n, a, b, c);
  }

  /** Two 16-bit reads put together: k[i] + ((unsigned int) k[i + 1] << 16). */
  function TwoHalves(m: seq<byte>, i: nat): uint32
    requires i + 4 <= |m|
  {
    Half(m, i) + 0x1_0000 * Half(m, i + 2)
  }

  /** The word at j of a padded tail, as sums of the half-words and bytes that are left. */
  lemma TailHalves(m: seq<byte>, k: nat, n: nat, j: nat, x: uint32)
    requires n <= 12 && k + n <= |m| && j in {0, 4, 8}
    ensures var w := Word(Pad(m[k..k + n]), j);
            && (n <= j ==> Add(x, w) == x)
            && (n == j + 1 ==> w == Byte(m, k + j))
            && (n == j + 2 ==> w == Half(m, k + j))
            && (n == j + 3 ==> Add(x, w) == Add(Add(x, 0x1_0000 * Byte(m, k + j + 2)), Half(m, k + j)))
            && (n >= j + 4 ==> w == TwoHalves(m, k + j))
  {
    TailWord(m, k, n, j);
    if n == j + 3 {
      AddAssociates(x, 0x1_0000 * Byte(m, k + j + 2), Half(m, k + j));
    }
  }

  method TailByHalves(m: seq<byte>, k: nat, n: nat, a0: uint32, b0: uint32, c0: uint32) returns (h: uint32)
    requires n <= 12 && k + n <= |m|
    ensures h == Digest(State(a0, b0, c0), m[k..k + n]).c
  {
    hide Final, Word, Pad, Add, Half, TwoHalves;
    var a, b, c := a0, b0, c0;
    if n == 0 {
      return c;
    }
    TailHalves(m, k, n, 0, a);
    TailHalves(m, k, n, 4, b);
    TailHalves(m, k, n, 8, c);
    match n {
      case 12 =>
        c := Add(c, TwoHalves(m, k + 8));
        b := Add(b, TwoHalves(m, k + 4));
        a := Add(a, TwoHalves(m, k));
      case 11 =>
        c := Add(c, 0x1_0000 * Byte(m, k + 10));
        c := Add(c, Half(m, k + 8));
        b := Add(b, TwoHalves(m, k + 4));
        a := Add(a, TwoHalves(m, k));
      case 10 =>
        c := Add(c, Half(m, k + 8));
        b := Add(b, TwoHalves(m, k + 4));
        a := Add(a, TwoHalves(m, k));
      case 9 =>
        c := Add(c, Byte(m, k + 8));
        b := Add(b, TwoHalves(m, k + 4));
        a := Add(a, TwoHalves(m, k));
      case 8 =>
        b := Add(b, TwoHalves(m, k + 4));
        a := Add(a, TwoHalves(m, k));
      case 7 =>
        b := Add(b, 0x1_0000 * Byte(m, k + 6));
        b := Add(b, Half(m, k + 4));
        a := Add(a, TwoHalves(m, k));
      case 6 =>
        b := Add(b, Half(m, k + 4));
        a := Add(a, TwoHalves(m, k));
      case 5 =>
        b := Add(b, Byte(m, k + 4));
        a := Add(a, TwoHalves(m, k));
      case 4 =>
        a := Add(a, TwoHalves(m, k));
      case 3 =>
        a := Add(a, 0x1_0000 * Byte(m, k + 2));
        a := Add(a, Half(m, k));
      case 2 =>
        a := Add(a, Half(m, k));
      case 1 =>
        a := Add(a, Byte(m, k));
    }
    h := FinalWords(a, b, c);
  }

  /** The loop for 2-byte aligned keys. */
  method HashByHalves(m: seq<byte>, length: uint32, initVal: uint32) returns (h: uint32)
    requires length <= |m|
    ensures h == Hash(m[..length], initVal)
  {
    hide Mix, Final, Add, Start;
    var a, b, c := Start(length, initVal), Start(length, initVal), Start(length, initVal);
    var k: nat, n: nat := 0, length;
    assert m[0..length] == m[..length];
    while n > 12
      invariant k + n == length
      invariant Digest(State(a, b, c), m[k..length]).c == Hash(m[..length], initVal)
    {
      Round(State(a, b, c), m, k, length);
      Masks(m, k);
      Masks(m, k + 4);
      Masks(m, k + 8);
      a := Add(a, TwoHalves(m, k));
      b := Add(b, TwoHalves(m, k + 4));
      c := Add(c, TwoHalves(m, k + 8));
      a, b, c := MixWords(a, b, c);
      n := n - 12;
      k := k + 12;
    }
    h := TailByHalves(m, k, n, a, b, c);
  }

  /** The word at j of a padded tail, added byte by byte from the top, as the falling-through switch does. */
  lemma TailBytes(m: seq<byte>, k: nat, n: nat, j: nat, x: uint32)
    requires n <= 12 && k + n <= |m| && j in {0, 4, 8}
    ensures var x3 := if j + 4 <= n then Add(x, 0x100_0000 * Byte(m, k + j + 3)) else x;
            var x2 := if j + 3 <= n then Add(x3, 0x1_0000 * Byte(m, k + j + 2)) else x3;
            var x1 := if j + 2 <= n then Add(x2, 0x100 * Byte(m, k + j + 1)) else x2;
            (if j + 1 <= n then Add(x1, Byte(m, k + j)) else x1) == Add(x, Word(Pad(m[k..k + n]), j))
  {
    hide Add;
    AddZero(x);
    var p := Pad(m[k..k + n]);
    assert forall i | 0 <= i < n :: p[i] == m[k + i];
    AddByBytes(x, p[j], p[j + 1], p[j + 2], p[j + 3]);
  }

  lemma AddZero(x: uint32)
    ensures Add(x, 0) == x
  {
  }

  method TailByBytes(m: seq<byte>, k: nat, n: nat, a0: uint32, b0: uint32, c0: uint32) returns (h: uint32)
    requires n <= 12 && k + n <= |m|
    ensures h == Digest(State(a0, b0, c0), m[k..k + n]).c
  {
    hide Final, Word, Pad, Add;
    var a, b, c := a0, b0, c0;
    if n == 0 {
      return c;
    }
    TailBytes(m, k, n, 0, a);
    TailBytes(m, k, n, 4, b);
    TailBytes(m, k, n, 8, c);
    if n >= 12 { c := Add(c, 0x100_0000 * Byte(m, k + 11)); }
    if n >= 11 { c := Add(c, 0x1_0000 * Byte(m, k + 10)); }
    if n >= 10 { c := Add(c, 0x100 * Byte(m, k + 9)); }
    if n >= 9 { c := Add(c, Byte(m, k + 8)); }
    if n >= 8 { b := Add(b, 0x100_0000 * Byte(m, k + 7)); }
    if n >= 7 { b := Add(b, 0x1_0000 * Byte(m, k + 6)); }
    if n >= 6 { b := Add(b, 0x100 * Byte(m, k + 5)); }
    if n >= 5 { b := Add(b, Byte(m, k + 4)); }
    if n >= 4 { a := Add(a, 0x100_0000 * Byte(m, k + 3)); }
    if n >= 3 { a := Add(a, 0x1_0000 * Byte(m, k + 2)); }
    if n >= 2 { a := Add(a, 0x100 * Byte(m, k + 1)); }
    a := Add(a, Byte(m, k));
    h := FinalWords(a, b, c);
  }

  /** The loop for all other keys, and for other machines. */
  method HashByBytes(m: seq<byte>, length: uint32, initVal: uint32) returns (h: uint32)
    requires length <= |m|
    ensures h == Hash(m[..length], initVal)
  {
    hide Mix, Final, Add, Start;
    var a, b, c := Start(length, initVal), Start(length, initVal), Start(length, initVal);
    var k: nat, n: nat := 0, length;
    assert m[0..length] == m[..length];
    while n > 12
      invariant k + n == length
      invariant Digest(State(a, b, c), m[k..length]).c == Hash(m[..length], initVal)
    {
      Round(State(a, b, c), m, k, length);
      AddByBytes(a, Byte(m, k), Byte(m, k + 1), Byte(m, k + 2), Byte(m, k + 3));
      AddByBytes(b, Byte(m, k + 4), Byte(m, k + 5), Byte(m, k + 6), Byte(m, k + 7));
      AddByBytes(c, Byte(m, k + 8), Byte(m, k + 9), Byte(m, k + 10), Byte(m, k + 11));
      a := Add(a, Byte(m, k));
      a := Add(a, 0x100 * Byte(m, k + 1));
      a := Add(a, 0x1_0000 * Byte(m, k + 2));
      a := Add(a, 0x100_0000 * Byte(m, k + 3));
      b := Add(b, Byte(m, k + 4));
      b := Add(b, 0x100 * Byte(m, k + 5));
      b := Add(b, 0x1_0000 * Byte(m, k + 6));
      b := Add(b, 0x100_0000 * Byte(m, k + 7));
      c := Add(c, Byte(m, k + 8));
      c := Add(c, 0x100 * Byte(m, k + 9));
      c := Add(c, 0x1_0000 * Byte(m, k + 10));
      c := Add(c, 0x100_0000 * Byte(m, k + 11));
      a, b, c := MixWords(a, b, c);
      n := n - 12;
      k := k + 12;
    }
    h := TailByBytes(m, k, n, a, b, c);
  }

  /** The dispatch on the key's address and the machine: whatever the branch, the same hash. */
  method HashGeneric(m: seq<byte>, length: uint32, initVal: uint32, littleEndian: bool, address: nat)
    returns (h: uint32)
    requires length <= |m|
    requires littleEndian && address % 4 == 0 ==> (length + 3) / 4 * 4 <= |m|
    ensures h == Hash(m[..length], initVal)
  {
    if littleEndian && address % 4 == 0 {
      h := HashByWords(m, length, initVal);
    } else if littleEndian && address % 2 == 0 {
      h := HashByHalves(m, length, initVal);
    } else {
      h := HashByBytes(m, length, initVal);
    }
  }

  // ---------------------------------------------------------------------------
  // Reversibility
  // ---------------------------------------------------------------------------

  lemma SubUndoesAdd(x: uint32, y: uint32)
    ensures Sub(Add(x, y), y) == x && Add(Sub(x, y), y) == x
  {
  }

  lemma XorCancels(x: uint32, y: uint32)
    ensures Xor(Xor(x, y), y) == x
  {
    XorUndoes(x, y);
  }

  function UnmixLine(s: State, k: nat): State
    requires k <= 32
  {
    var z := Sub(s.b, s.a);
    State(Add(Xor(s.c, Rot(z, k)), z), s.a, z)
  }

  /** The mixing macro run backwards. */
  function Unmix(s: State): State {
    UnmixLine(UnmixLine(UnmixLine(UnmixLine(UnmixLine(UnmixLine(s, 4), 19), 16), 8), 6), 4)
  }

  lemma MixLineReversible(s: State, k: nat)
    requires k <= 32
    ensures UnmixLine(MixLine(s, k), k) == s && MixLine(UnmixLine(s, k), k) == s
  {
    hide Add, Sub, Xor, Rot;
    SubUndoesAdd(s.c, s.b);
    XorCancels(Sub(s.a, s.c), Rot(s.c, k));
    SubUndoesAdd(s.a, s.c);
    var z := Sub(s.b, s.a);
    SubUndoesAdd(s.b, s.a);
    SubUndoesAdd(Xor(s.c, Rot(z, k)), z);
    XorCancels(s.c, Rot(z, k));
  }

  /** HASHTABLE_MIX loses nothing: it is a bijection on triples of words, with Unmix as its inverse. */
  lemma MixReversible(s: State)
    ensures Unmix(Mix(s)) == s && Mix(Unmix(s)) == s
  {
    hide MixLine, UnmixLine;
    var s1 := MixLine(s, 4); var s2 := MixLine(s1, 6); var s3 := MixLine(s2, 8);
    var s4 := MixLine(s3, 16); var s5 := MixLine(s4, 19);
    MixLineReversible(s, 4); MixLineReversible(s1, 6); MixLineReversible(s2, 8);
    MixLineReversible(s3, 16); MixLineReversible(s4, 19); MixLineReversible(s5, 4);
    var t1 := UnmixLine(s, 4); var t2 := UnmixLine(t1, 19); var t3 := UnmixLine(t2, 16);
    var t4 := UnmixLine(t3, 8); var t5 := UnmixLine(t4, 6);
    MixLineReversible(t1, 19); MixLineReversible(t2, 16); MixLineReversible(t3, 8);
    MixLineReversible(t4, 6); MixLineReversible(t5, 4);
  }

  function Unblend(v: uint32, y: uint32, k: nat): uint32
    requires k <= 32
  {
    Xor(Add(v, Rot(y, k)), y)
  }

  lemma BlendReversible(x: uint32, y: uint32, k: nat)
    requires k <= 32
    ensures Unblend(Blend(x, y, k), y, k) == x && Blend(Unblend(x, y, k), y, k) == x
  {
    hide Add, Sub, Xor, Rot;
    SubUndoesAdd(Xor(x, y), Rot(y, k));
    XorCancels(x, y);
    SubUndoesAdd(x, Rot(y, k));
    XorCancels(Add(x, Rot(y, k)), y);
  }

  /** The finishing macro run backwards. */
  function Unfinal(s: State): State {
    var c2 := Unblend(s.c, s.b, 24);
    var b1 := Unblend(s.b, s.a, 14);
    var a1 := Unblend(s.a, c2, 4);
    var c1 := Unblend(c2, b1, 16);
    var b := Unblend(b1, a1, 25);
    var a := Unblend(a1, c1, 11);
    State(a, b, Unblend(c1, b, 14))
  }

  /** HASHTABLE_FINAL is a bijection on triples of words, with Unfinal as its inverse. */
  lemma FinalReversible(s: State)
    ensures Unfinal(Final(s)) == s && Final(Unfinal(s)) == s
  {
    hide Blend, Unblend;
    var c1 := Blend(s.c, s.b, 14); var a1 := Blend(s.a, c1, 11); var b1 := Blend(s.b, a1, 25);
    var c2 := Blend(c1, b1, 16); var a2 := Blend(a1, c2, 4); var b2 := Blend(b1, a2, 14);
    BlendReversible(s.c, s.b, 14); BlendReversible(s.a, c1, 11); BlendReversible(s.b, a1, 25);
    BlendReversible(c1, b1, 16); BlendReversible(a1, c2, 4); BlendReversible(b1, a2, 14);
    BlendReversible(c2, b2, 24);
    var d2 := Unblend(s.c, s.b, 24); var e1 := Unblend(s.b, s.a, 14); var f1 := Unblend(s.a, d2, 4);
    var d1 := Unblend(d2, e1, 16); var e := Unblend(e1, f1, 25); var f := Unblend(f1, d1, 11);
    BlendReversible(s.c, s.b, 24); BlendReversible(s.b, s.a, 14); BlendReversible(s.a, d2, 4);
    BlendReversible(d2, e1, 16); BlendReversible(e1, f1, 25); BlendReversible(f1, d1, 11);
    BlendReversible(d1, e, 14);
  }

  /** A block tells itself apart: the same block keeps states apart, another block takes one state elsewhere. */
  lemma AbsorbInjective(s: State, t: State, m: seq<byte>, n: seq<byte>)
    requires 12 <= |m| && 12 <= |n|
    requires if s == t then m[..12] != n[..12] else m[..12] == n[..12]
    ensures Absorb(s, m, 0) != Absorb(t, n, 0)
  {
    hide Add, Word;
    if s == t {
      var i :| 0 <= i < 12 && m[..12][i] != n[..12][i];
      assert m[i] != n[i];
      WordInjective(m, n, 0);
      WordInjective(m, n, 4);
      WordInjective(m, n, 8);
      AddInjective(s.a, s.a, Word(m, 0), Word(n, 0));
      AddInjective(s.b, s.b, Word(m, 4), Word(n, 4));
      AddInjective(s.c, s.c, Word(m, 8), Word(n, 8));
    } else {
      assert forall i | 0 <= i < 12 :: m[i] == m[..12][i] && n[i] == n[..12][i];
      WordInjective(m, n, 0);
      WordInjective(m, n, 4);
      WordInjective(m, n, 8);
      AddInjective(s.a, t.a, Word(m, 0), Word(m, 0));
      AddInjective(s.b, t.b, Word(m, 4), Word(m, 4));
      AddInjective(s.c, t.c, Word(m, 8), Word(m, 8));
    }
  }

  lemma AddInjective(x: uint32, y: uint32, v: uint32, w: uint32)
    requires x == y || v == w
    ensures Add(x, v) == Add(y, w) ==> x == y && v == w
  {
  }

  lemma WordInjective(m: seq<byte>, n: seq<byte>, i: nat)
    requires i + 4 <= |m| && i + 4 <= |n|
    ensures Word(m, i) == Word(n, i) <==>
            m[i] == n[i] && m[i + 1] == n[i + 1] && m[i + 2] == n[i + 2] && m[i + 3] == n[i + 3]
  {
    if Word(m, i) == Word(n, i) {
      hide Word;
      Masks(m, i);
      Masks(n, i);
      assert Byte(m, i) == Byte(n, i);
      assert Half(m, i) == Half(n, i);
      assert Half(m, i + 2) == Half(n, i + 2);
      HalfInjective(m, n, i);
      HalfInjective(m, n, i + 2);
    }
  }

  lemma HalfInjective(m: seq<byte>, n: seq<byte>, i: nat)
    requires i + 2 <= |m| && i + 2 <= |n| && Half(m, i) == Half(n, i)
    ensures m[i] == n[i] && m[i + 1] == n[i + 1]
  {
    assert Half(m, i) % 0x100 == m[i] && Half(n, i) % 0x100 == n[i];
  }

  /** No key makes two different starting states meet. */
  lemma {:induction false} DigestInjective(s: State, t: State, key: seq<byte>)
    requires s != t
    ensures Digest(s, key) != Digest(t, key)
    decreases |key|
  {
    hide Mix, Final, Absorb;
    if |key| > 12 {
      AbsorbInjective(s, t, key, key);
      MixReversible(Absorb(s, key, 0));
      MixReversible(Absorb(t, key, 0));
      DigestInjective(Mix(Absorb(s, key, 0)), Mix(Absorb(t, key, 0)), key[12..]);
    } else if |key| > 0 {
      AbsorbInjective(s, t, Pad(key), Pad(key));
      FinalReversible(Absorb(s, Pad(key), 0));
      FinalReversible(Absorb(t, Pad(key), 0));
    }
  }

  /** A block of 12 bytes at the key's end gets the final mixing, any other one the ordinary mixing. */
  lemma BlockByBlock(s: State, block: seq<byte>, rest: seq<byte>)
    requires |block| == 12
    ensures Digest(s, block + rest) == if rest == [] then Final(Absorb(s, block, 0)) else Digest(Mix(Absorb(s, block, 0)), rest)
  {
    hide Mix, Final, Add;
    var key := block + rest;
    assert key[12..] == rest && forall i | 0 <= i < 12 :: key[i] == block[i];
    assert Absorb(s, key, 0) == Absorb(s, block, 0);
    hide Absorb;
    assert rest == [] ==> Pad(key) == block;
  }

  /** An incomplete block counts as filled up with zeros; only the length in the starting values tells. */
  lemma ZerosBehind(s: State, tail: seq<byte>)
    requires 0 < |tail| < 12
    ensures Digest(s, tail) == Digest(s, tail + [0])
  {
    assert Pad(tail) == Pad(tail + [0]);
  }

  /** The initial value counts: two of them never give a key the same triple. */
  lemma SeedShows(key: seq<byte>, i: uint32, j: uint32)
    requires |key| < WORD && i != j
    ensures Digest(Seed(|key|, i), key) != Digest(Seed(|key|, j), key)
  {
    hide Digest;
    DigestInjective(Seed(|key|, i), Seed(|key|, j), key);
  }

  /** The hash of the empty key is the starting value itself. */
  lemma EmptyKey(initVal: uint32)
    ensures Hash([], initVal) == (0xdead_beef + initVal) % 0x1_0000_0000
  {
  }

  /** Keys of one length that differ only inside the 12-byte block number `block` end in different triples of
      words, whatever the initial value and however many blocks lie before and behind. */
  lemma {:induction false} OneBlockShows(s: State, k: seq<byte>, l: seq<byte>, block: nat)
    requires |k| == |l| && k != l && 12 * block < |k|
    requires k[..12 * block] == l[..12 * block]
    requires 12 * block + 12 <= |k| ==> k[12 * block + 12..] == l[12 * block + 12..]
    ensures Digest(s, k) != Digest(s, l)
    decreases |k|
  {
    hide *;
    if |k| <= 12 {
      LastShows(s, k, l);
    } else if block == 0 {
      FirstDiffers(k, l);
      FirstShows(s, k, l);
    } else {
      SameBlock(s, k, l, block);
      BlockBehind(k, l, block);
      DigestOn(s, k);
      DigestOn(s, l);
      OneBlockShows(Mix(Absorb(s, k, 0)), k[12..], l[12..], block - 1);
    }
  }

  lemma DigestOn(s: State, k: seq<byte>)
    requires |k| > 12
    ensures Digest(s, k) == Digest(Mix(Absorb(s, k, 0)), k[12..])
  {
    hide Mix, Absorb;
  }

  lemma FirstDiffers(k: seq<byte>, l: seq<byte>)
    requires |k| == |l| > 12 && k != l && k[12..] == l[12..]
    ensures k[..12] != l[..12]
  {
    assert k == k[..12] + k[12..] && l == l[..12] + l[12..];
  }

  lemma LastShows(s: State, k: seq<byte>, l: seq<byte>)
    requires |k| == |l| <= 12 && k != l
    ensures Digest(s, k) != Digest(s, l)
  {
    hide Mix, Final, Absorb;
    PadInjective(k, l);
    AbsorbInjective(s, s, Pad(k), Pad(l));
    FinalReversible(Absorb(s, Pad(k), 0));
    FinalReversible(Absorb(s, Pad(l), 0));
  }

  lemma FirstShows(s: State, k: seq<byte>, l: seq<byte>)
    requires |k| == |l| > 12 && k[..12] != l[..12] && k[12..] == l[12..]
    ensures Digest(s, k) != Digest(s, l)
  {
    hide Mix, Final, Absorb;
    AbsorbInjective(s, s, k, l);
    MixReversible(Absorb(s, k, 0));
    MixReversible(Absorb(s, l, 0));
    DigestInjective(Mix(Absorb(s, k, 0)), Mix(Absorb(s, l, 0)), k[12..]);
  }

  lemma BlockBehind(k: seq<byte>, l: seq<byte>, block: nat)
    requires |k| == |l| && k != l && 0 < block && 12 * block < |k| && k[..12 * block] == l[..12 * block]
    requires 12 * block + 12 <= |k| ==> k[12 * block + 12..] == l[12 * block + 12..]
    ensures var k', l' := k[12..], l[12..];
            && k' != l' && k'[..12 * (block - 1)] == l'[..12 * (block - 1)]
            && (12 * (block - 1) + 12 <= |k'| ==> k'[12 * (block - 1) + 12..] == l'[12 * (block - 1) + 12..])
  {
    var k', l' := k[12..], l[12..];
    assert k == k[..12] + k' && l == l[..12] + l';
    assert k[..12] == k[..12 * block][..12] && l[..12] == l[..12 * block][..12];
    assert k'[..12 * (block - 1)] == k[..12 * block][12..] && l'[..12 * (block - 1)] == l[..12 * block][12..];
    assert 12 * block + 12 <= |k| ==>
      k'[12 * (block - 1) + 12..] == k[12 * block + 12..] && l'[12 * (block - 1) + 12..] == l[12 * block + 12..];
  }

  lemma SameBlock(s: State, k: seq<byte>, l: seq<byte>, block: nat)
    requires |k| == |l| && 0 < block && 12 * block <= |k| && k[..12 * block] == l[..12 * block]
    ensures Absorb(s, k, 0) == Absorb(s, l, 0)
  {
    assert forall i | 0 <= i < 12 :: k[i] == k[..12 * block][i] && l[i] == l[..12 * block][i];
  }

  lemma PadInjective(k: seq<byte>, l: seq<byte>)
    requires |k| == |l| <= 12 && k != l
    ensures Pad(k)[..12] != Pad(l)[..12]
  {
    var i :| 0 <= i < |k| && k[i] != l[i];
    assert Pad(k)[..12][i] == k[i] && Pad(l)[..12][i] == l[i];
  }
}
