/** Keys as digests and as text (src/utils/utils.cpp:14-33; `std::bitset` conversions). */
module Codec {
  import opened Keys

  const SHA_DIGEST_LENGTH: nat := 20
  const NUL: byte := 0

  /** Bit `j` of a byte: `byte >> j & 0x1`. */
  function ByteBit(b: byte, j: nat): bool {
    NatBit(b as int, j)
  }

  predicate NatBit(n: nat, j: nat) {
    Shift(n, j) % 2 == 1
  }

  /** `n >> j`. */
  function Shift(n: nat, j: nat): nat {
    if j == 0 then n else Shift(n / 2, j - 1)
  }

  /** `key_from_data` after hashing: bit `8 * i + j` of the key is bit `j` of byte `i`. */
  method KeyFromDigest(hash: seq<byte>) returns (key: Key)
    requires |hash| == SHA_DIGEST_LENGTH
    ensures forall n :: 0 <= n < KEYBITS ==> Bit(key, n) == ByteBit(hash[n / 8], n % 8)
  {
    var bits: seq<bool> := seq(KEYBITS, _ => false);
    for i := 0 to SHA_DIGEST_LENGTH
      invariant |bits| == KEYBITS
      invariant forall n :: 0 <= n < 8 * i ==> bits[KEYBITS - 1 - n] == ByteBit(hash[n / 8], n % 8)
    {
      for j := 0 to 8
        invariant |bits| == KEYBITS
        invariant forall n :: 0 <= n < 8 * i + j ==> bits[KEYBITS - 1 - n] == ByteBit(hash[n / 8], n % 8)
      {
        assert (8 * i + j) / 8 == i && (8 * i + j) % 8 == j;
        bits := bits[KEYBITS - 1 - (8 * i + j) := ByteBit(hash[i], j)];
      }
    }
    key := bits;
  }

  /** A number below `2^w` is determined by its `w` low bits. */
  lemma {:induction false} NumberFromBits(m: nat, n: nat, w: nat)
    requires m < Pow2(w) && n < Pow2(w)
    requires forall j :: 0 <= j < w ==> NatBit(m, j) == NatBit(n, j)
    ensures m == n
  {
    if w > 0 {
      assert NatBit(m, 0) == NatBit(n, 0);
      forall j | 0 <= j < w - 1 ensures NatBit(m / 2, j) == NatBit(n / 2, j) {
        assert NatBit(m, j + 1) == NatBit(n, j + 1);
      }
      NumberFromBits(m / 2, n / 2, w - 1);
    }
  }

  /** What bit `j` adds at this weight. */
  function Part(n: nat, j: nat, weight: nat): nat {
    if NatBit(n, j) then weight else 0
  }

  function Weigh(n: nat, w: nat): nat {
    if w == 0 then 0 else Weigh(n, w - 1) + Part(n, w - 1, Pow2(w - 1))
  }

  lemma {:induction false} WeighShifted(n: nat, w: nat)
    ensures Weigh(n, w + 1) == n % 2 + 2 * Weigh(n / 2, w)
  {
    if w > 0 {
      WeighShifted(n, w - 1);
    } else {
      assert Weigh(n, 1) == Weigh(n, 0) + Part(n, 0, Pow2(0));
    }
  }

  lemma {:induction false} NumberIsItsBits(n: nat, w: nat)
    requires n < Pow2(w)
    ensures n == Weigh(n, w)
  {
    if w > 0 {
      NumberIsItsBits(n / 2, w - 1);
      WeighShifted(n, w - 1);
    }
  }

  lemma WeighEight(n: nat)
    ensures Weigh(n, 8) ==
      Part(n, 0, 1) + Part(n, 1, 2) + Part(n, 2, 4) + Part(n, 3, 8) +
      Part(n, 4, 16) + Part(n, 5, 32) + Part(n, 6, 64) + Part(n, 7, 128)
  {
    SmallPowers();
    hide Part, Pow2;
    WeighStep(n, 0);
    WeighStep(n, 1);
    WeighStep(n, 2);
    WeighStep(n, 3);
    WeighStep(n, 4);
    WeighStep(n, 5);
    WeighStep(n, 6);
    WeighStep(n, 7);
  }

  lemma WeighStep(n: nat, w: nat)
    ensures Weigh(n, w + 1) == Weigh(n, w) + Part(n, w, Pow2(w))
    ensures Weigh(n, 0) == 0
  {
    hide Part, Pow2;
  }

  lemma SmallPowers()
    ensures Pow2(0) == 1 && Pow2(1) == 2 && Pow2(2) == 4 && Pow2(3) == 8
    ensures Pow2(4) == 16 && Pow2(5) == 32 && Pow2(6) == 64 && Pow2(7) == 128 && Pow2(8) == 256
  {
    assert Pow2(4) == 16;
    assert Pow2(8) == 256;
  }

  /** Bit `j` of a byte has the weight of `2^j`. */
  lemma ByteIsItsBits(b: byte)
    ensures b as int ==
      Part(b as int, 0, 1) + Part(b as int, 1, 2) + Part(b as int, 2, 4) + Part(b as int, 3, 8) +
      Part(b as int, 4, 16) + Part(b as int, 5, 32) + Part(b as int, 6, 64) + Part(b as int, 7, 128)
    ensures forall j: nat :: ByteBit(b, j) <==> Part(b as int, j, 1) == 1
  {
    SmallPowers();
    NumberIsItsBits(b as int, 8);
    WeighEight(b as int);
  }

  lemma ByteFromBits(a: byte, b: byte)
    requires forall j :: 0 <= j < 8 ==> ByteBit(a, j) == ByteBit(b, j)
    ensures a == b
  {
    assert Pow2(8) == 256 by {
      assert Pow2(4) == 16;
    }
    var m, n := a as int, b as int;
    forall j | 0 <= j < 8 ensures NatBit(m, j) == NatBit(n, j) {
      assert ByteBit(a, j) == ByteBit(b, j);
    }
    NumberFromBits(a as int, b as int, 8);
  }

  /** Packing loses nothing: different digests are different keys. */
  lemma DigestsStayDistinct(a: seq<byte>, b: seq<byte>, key: Key)
    requires |a| == |b| == SHA_DIGEST_LENGTH
    requires forall n :: 0 <= n < KEYBITS ==> Bit(key, n) == ByteBit(a[n / 8], n % 8)
    requires forall n :: 0 <= n < KEYBITS ==> Bit(key, n) == ByteBit(b[n / 8], n % 8)
    ensures a == b
  {
    forall i | 0 <= i < SHA_DIGEST_LENGTH ensures a[i] == b[i] {
      forall j | 0 <= j < 8 ensures ByteBit(a[i], j) == ByteBit(b[i], j) {
        var n := 8 * i + j;
        assert n / 8 == i && n % 8 == j;
        assert Bit(key, n) == ByteBit(a[n / 8], n % 8) && Bit(key, n) == ByteBit(b[n / 8], n % 8);
      }
      ByteFromBits(a[i], b[i]);
    }
  }

  // ---------- Text ----------

  function Digit(bit: bool): byte {
    if bit then 49 else 48
  }

  /** `key.to_string()`. */
  function KeyString(k: Key): (s: Bytes)
    ensures |s| == KEYBITS
    ensures forall i :: 0 <= i < KEYBITS ==> s[i] == Digit(k[i])
  {
    seq(KEYBITS, i requires 0 <= i < KEYBITS => Digit(k[i]))
  }

  /** `Key(s)`: throws on a character other than 0 and 1. */
  function KeyFromString(s: Bytes): Option<Key>
    requires |s| == KEYBITS
  {
    if forall i :: 0 <= i < KEYBITS ==> s[i] == 48 || s[i] == 49
    then Some(seq(KEYBITS, i requires 0 <= i < KEYBITS => s[i] == 49))
    else None
  }

  /** The text of a key, most significant bit first, reads back and has no NUL. */
  lemma KeyStringRoundTrip(k: Key)
    ensures KeyFromString(KeyString(k)) == Some(k)
    ensures forall i :: 0 <= i < KEYBITS ==> KeyString(k)[i] == if k[i] then 49 else 48
    ensures NUL !in KeyString(k)
  {
    var s := KeyString(k);
    assert forall i :: 0 <= i < KEYBITS ==> s[i] == 48 || s[i] == 49;
    assert KeyFromString(s).value == k;
  }
}
