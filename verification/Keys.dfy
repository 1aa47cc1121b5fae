/**
 Keys, peers and the XOR metric of src/utils.

 A `std::bitset<KEYBITS>` is a sequence of bits written in the order of its
 `to_string()`: the most significant bit first.  Bit `i` of the bitset is
 therefore element `KEYBITS - 1 - i` of the sequence (see `Bit`).
 */
module Keys {

  const KEYBITS: nat := 160

  type Bits = seq<bool>

  type Key = k: Bits | |k| == KEYBITS witness seq(KEYBITS, _ => false)

  newtype byte = x: int | 0 <= x < 256

  type Bytes = seq<byte>

  datatype Peer = Peer(key: Key, endpoint: Bytes)

  datatype Option<+T> = None | Some(value: T)

  /** `k[i]` of the bitset. */
  function Bit(k: Key, i: nat): bool
    requires i < KEYBITS
  {
    k[KEYBITS - 1 - i]
  }

  function KeysOf(s: seq<Peer>): set<Key> {
    set x | x in s :: x.key
  }

  ghost predicate DistinctKeys(s: seq<Peer>) {
    forall i, j :: 0 <= i < j < |s| ==> s[i].key != s[j].key
  }

  // ---------- Counting ----------

  lemma {:induction false} KeysAtMost(s: seq<Peer>)
    ensures |KeysOf(s)| <= |s|
  {
    if s != [] {
      KeysAtMost(s[1..]);
      assert KeysOf(s) == {s[0].key} + KeysOf(s[1..]);
    }
  }

  lemma SubsetSize<T>(a: set<T>, b: set<T>)
    requires a <= b
    ensures |a| <= |b|
    ensures |a| == |b| ==> a == b
  {
    assert b == a + (b - a);
    assert |b| == |a| + |b - a|;
  }

  // ---------- Numbers ----------

  function Pow2(n: nat): (r: nat)
    ensures r >= 1
  {
    if n == 0 then 1 else 2 * Pow2(n - 1)
  }

  lemma {:induction false} Pow2Grows(m: nat, n: nat)
    requires m <= n
    ensures Pow2(m) <= Pow2(n)
    decreases n
  {
    if m < n {
      Pow2Grows(m, n - 1);
    }
  }

  /** The number a bit string writes. */
  function Num(a: Bits): nat {
    if a == [] then 0 else (if a[0] then Pow2(|a| - 1) else 0) + Num(a[1..])
  }

  lemma {:induction false} NumBound(a: Bits)
    ensures Num(a) < Pow2(|a|)
  {
    if a != [] {
      NumBound(a[1..]);
    }
  }

  function Xor(a: Bits, b: Bits): (r: Bits)
    requires |a| == |b|
    ensures |r| == |a|
    ensures forall i :: 0 <= i < |a| ==> r[i] == (a[i] != b[i])
  {
    seq(|a|, i requires 0 <= i < |a| => a[i] != b[i])
  }

  /** The distance `Dist(a, b)` as a number. */
  function Dist(a: Bits, b: Bits): nat
    requires |a| == |b|
  {
    Num(Xor(a, b))
  }

  // ---------- Common prefixes ----------

  /** How many leading bits `a` and `b` share. */
  function Agree(a: Bits, b: Bits): (n: nat)
    requires |a| == |b|
    ensures n <= |a| && a[..n] == b[..n]
    ensures n < |a| ==> a[n] != b[n]
    ensures n == |a| <==> a == b
  {
    if a == [] || a[0] != b[0] then 0
    else
      var n := Agree(a[1..], b[1..]);
      assert forall i :: 0 <= i < 1 + n ==> a[i] == b[i] by {
        forall i | 0 <= i < 1 + n ensures a[i] == b[i] {
          if i > 0 {
            assert a[i] == a[1..][..n][i - 1] && b[i] == b[1..][..n][i - 1];
          }
        }
      }
      assert a[1..] == b[1..] ==> a == b by {
        assert a == [a[0]] + a[1..] && b == [b[0]] + b[1..];
      }
      1 + n
  }

  /** Sharing `n` leading bits is agreeing on `n` or more. */
  lemma AgreeAtLeast(a: Bits, b: Bits, n: nat)
    requires |a| == |b| && n <= |a|
    ensures Agree(a, b) >= n <==> a[..n] == b[..n]
  {
    var m := Agree(a, b);
    if m >= n {
      assert a[..n] == a[..m][..n] && b[..n] == b[..m][..n];
    } else {
      assert a[..n][m] == a[m] && b[..n][m] == b[m];
    }
  }

  // ---------- The metric ----------

  /** Among keys equal to `d` bits deep, the one whose next bit matches is closer. */
  lemma {:induction false} MatchingBitIsCloser(k: Bits, a: Bits, b: Bits, d: nat)
    requires |k| == |a| == |b| && d < |k|
    requires a[..d] == b[..d] && a[d] == k[d] && b[d] != k[d]
    ensures Dist(k, a) < Dist(k, b)
    decreases d
  {
    var x, y := Xor(k, a), Xor(k, b);
    if d == 0 {
      NumBound(x[1..]);
    } else {
      assert a[0] == a[..d][0] && b[0] == b[..d][0];
      assert a[1..][..d - 1] == a[..d][1..] && b[1..][..d - 1] == b[..d][1..];
      MatchingBitIsCloser(k[1..], a[1..], b[1..], d - 1);
      assert Xor(k[1..], a[1..]) == x[1..] && Xor(k[1..], b[1..]) == y[1..];
    }
  }

  /** The metric compares two keys at the first bit where they differ. */
  lemma DistOrder(k: Bits, a: Bits, b: Bits)
    requires |k| == |a| == |b| && a != b
    ensures Dist(k, a) < Dist(k, b) <==> a[Agree(a, b)] == k[Agree(a, b)]
    ensures Dist(k, a) != Dist(k, b)
  {
    var d := Agree(a, b);
    if a[d] == k[d] {
      MatchingBitIsCloser(k, a, b, d);
    } else {
      MatchingBitIsCloser(k, b, a, d);
    }
  }

  /** Distinct keys have distinct distances, so sorting by distance has one result. */
  lemma DistInjective(k: Bits, a: Bits, b: Bits)
    requires |k| == |a| == |b|
    ensures Dist(k, a) == Dist(k, b) <==> a == b
  {
    if a != b {
      DistOrder(k, a, b);
    }
  }

  /** A key between `g` and `y` in distance shares every bit that `g` and `y` share. */
  lemma Sandwich(k: Bits, g: Bits, c: Bits, y: Bits)
    requires |k| == |g| == |c| == |y|
    requires Dist(k, g) <= Dist(k, c) <= Dist(k, y)
    ensures Agree(c, g) >= Agree(y, g)
  {
    var d, m := Agree(c, g), Agree(y, g);
    if d < m {
      PrefixOfPrefix(y, g, d, m);
      DistOrder(k, c, g);
      MatchingBitIsCloser(k, y, c, d);
    }
  }

  lemma PrefixOfPrefix(a: Bits, b: Bits, d: nat, m: nat)
    requires d < m <= |a| && m <= |b| && a[..m] == b[..m]
    ensures a[..d] == b[..d] && a[d] == b[d]
  {
    assert a[..d] == a[..m][..d] && b[..d] == b[..m][..d];
    assert a[d] == a[..m][d] && b[d] == b[..m][d];
  }

  /** The triangle inequality for the numeric metric. */
  lemma {:induction false} Triangle(a: Bits, b: Bits, c: Bits)
    requires |a| == |b| == |c|
    ensures Dist(a, c) <= Dist(a, b) + Dist(b, c)
  {
    if a != [] {
      Triangle(a[1..], b[1..], c[1..]);
      assert Xor(a, c)[1..] == Xor(a[1..], c[1..]);
      assert Xor(a, b)[1..] == Xor(a[1..], b[1..]);
      assert Xor(b, c)[1..] == Xor(b[1..], c[1..]);
    }
  }

  /** Numeric order is decided at the first bit where two numbers differ. */
  lemma NumOrder(a: Bits, b: Bits, d: nat)
    requires |a| == |b| && d < |a| && a[..d] == b[..d] && !a[d] && b[d]
    ensures Num(a) < Num(b)
  {
    var zero := seq(|a|, _ => false);
    MatchingBitIsCloser(zero, a, b, d);
    assert Xor(zero, a) == a && Xor(zero, b) == b;
  }

  /** `Dist::operator<`: the loop from the top bit down computes the numeric order. */
  method Less(a: Bits, b: Bits) returns (r: bool)
    requires |a| == |b|
    ensures r <==> Num(a) < Num(b)
  {
    for d := 0 to |a|
      invariant a[..d] == b[..d]
    {
      if a[d] && !b[d] {
        NumOrder(b, a, d);
        return false;
      } else if !a[d] && b[d] {
        NumOrder(a, b, d);
        return true;
      }
      assert a[..d + 1] == a[..d] + [a[d]] && b[..d + 1] == b[..d] + [b[d]];
    }
    assert a == a[..|a|] && b == b[..|b|];
    return false;
  }

  /** `Dist::operator>=`: exactly the negation of `<`. */
  method AtLeast(a: Bits, b: Bits) returns (r: bool)
    requires |a| == |b|
    ensures r <==> Num(a) >= Num(b)
  {
    for d := 0 to |a|
      invariant a[..d] == b[..d]
    {
      if a[d] && !b[d] {
        NumOrder(b, a, d);
        return true;
      } else if !a[d] && b[d] {
        NumOrder(a, b, d);
        return false;
      }
      assert a[..d + 1] == a[..d] + [a[d]] && b[..d + 1] == b[..d] + [b[d]];
    }
    assert a == a[..|a|] && b == b[..|b|];
    return true;
  }

  // ---------- Pigeonhole ----------

  /** At most `2^(KEYBITS - |p|)` keys start with `p`. */
  lemma {:induction false} KeysUnderPrefix(s: set<Key>, p: Bits)
    requires |p| <= KEYBITS
    requires forall k :: k in s ==> p <= k
    ensures |s| <= Pow2(KEYBITS - |p|)
    decreases KEYBITS - |p|
  {
    if |p| == KEYBITS {
      forall k | k in s ensures k == p {
        assert p <= k;
      }
      if s != {} {
        var k :| k in s;
        assert s == {k};
      }
    } else {
      var zeros := set k | k in s && !k[|p|];
      var ones := set k | k in s && k[|p|];
      KeysUnderPrefix(zeros, p + [false]);
      KeysUnderPrefix(ones, p + [true]);
      assert s == zeros + ones;
      assert |s| <= |zeros| + |ones|;
    }
  }
}
