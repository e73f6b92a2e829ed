/** The Kademlia XOR metric of dht/key.go: the distance between two public
    keys is their byte-wise XOR, and of two keys the one closer to a target
    is the one whose distance is smaller at the first byte where the two
    distances differ, the first argument winning a tie. */
module DhtKey {
  import opened Bytes

  function Pow2(k: nat): (p: nat)
    ensures p >= 1
  {
    if k == 0 then 1 else 2 * Pow2(k - 1)
  }

  /** Bit-wise exclusive or of the low `k` bits of `a` and `b`. */
  function XorBits(a: nat, b: nat, k: nat): (r: nat)
    ensures r < Pow2(k)
  {
    if k == 0 then 0
    else (if a % 2 == b % 2 then 0 else 1) + 2 * XorBits(a / 2, b / 2, k - 1)
  }

  /** The Go `^` operator on two bytes. */
  function Xor(a: byte, b: byte): byte
  {
    assert Pow2(8) == 0x100;
    XorBits(a, b, 8)
  }

  lemma {:induction false} XorBitsFacts(a: nat, b: nat, c: nat, k: nat)
    requires a < Pow2(k) && b < Pow2(k) && c < Pow2(k)
    ensures XorBits(a, b, k) == XorBits(b, a, k)
    ensures XorBits(a, b, k) == 0 <==> a == b
    ensures XorBits(a, b, k) == XorBits(a, c, k) ==> b == c
  {
    if k > 0 {
      XorBitsFacts(a / 2, b / 2, c / 2, k - 1);
      if XorBits(a, b, k) == 0 {
        assert a % 2 == b % 2 && a / 2 == b / 2;
      }
      if XorBits(a, b, k) == XorBits(a, c, k) {
        assert b % 2 == c % 2 && b / 2 == c / 2;
      }
    }
  }

  lemma XorFacts(a: byte, b: byte, c: byte)
    ensures Xor(a, b) == Xor(b, a)
    ensures Xor(a, a) == 0
    ensures Xor(a, b) == 0 <==> a == b
    ensures Xor(a, b) == Xor(a, c) ==> b == c
  {
    assert Pow2(8) == 0x100;
    XorBitsFacts(a, b, c, 8);
    XorBitsFacts(a, a, c, 8);
  }

  /** The distance between two keys: their byte-wise XOR. */
  function Distance(a: Key, b: Key): (d: Key)
    ensures forall i :: 0 <= i < PublicKeySize ==> d[i] == Xor(a[i], b[i])
  {
    seq(PublicKeySize, i requires 0 <= i < PublicKeySize => Xor(a[i], b[i]))
  }

  /** `x` is smaller than `y` at the first byte where they differ. */
  predicate LexLess(x: seq<byte>, y: seq<byte>)
    requires |x| == |y|
  {
    |x| > 0 && (x[0] < y[0] || (x[0] == y[0] && LexLess(x[1..], y[1..])))
  }

  /** What PublicKey.Closest returns: `pk2` only when its distance is
      strictly smaller, so `pk1` wins ties. */
  function ClosestSpec(target: Key, pk1: Key, pk2: Key): Key
  {
    if LexLess(Distance(target, pk2), Distance(target, pk1)) then pk2 else pk1
  }

  // ---------------------------------------------------------------------
  // The two methods, as the Go code computes them

  /** PublicKey.DistanceTo: fills a fresh 32-byte array index by index. */
  method DistanceTo(pk1: Key, pk2: Key) returns (d: Key)
    ensures d == Distance(pk1, pk2)
  {
    var dist := new byte[PublicKeySize];
    for i := 0 to PublicKeySize
      invariant forall j :: 0 <= j < i ==> dist[j] == Xor(pk1[j], pk2[j])
    {
      dist[i] := Xor(pk1[i], pk2[i]);
    }
    d := dist[..];
  }

  /** PublicKey.Closest: compares the two distances from the first byte and
      returns at the first difference; returns `pk1` when none differs. */
  method Closest(pk: Key, pk1: Key, pk2: Key) returns (r: Key)
    ensures r == ClosestSpec(pk, pk1, pk2)
    ensures r == pk1 || r == pk2
  {
    var dist1 := DistanceTo(pk, pk1);
    var dist2 := DistanceTo(pk, pk2);
    for i := 0 to PublicKeySize
      invariant forall j :: 0 <= j < i ==> dist1[j] == dist2[j]
    {
      if dist1[i] != dist2[i] {
        assert dist2[..i] == dist1[..i];
        LexLessAt(dist2, dist1, i);
        return if dist1[i] < dist2[i] then pk1 else pk2;
      }
    }
    assert dist1 == dist2;
    LexLessIrreflexive(dist2);
    return pk1;
  }

  // ---------------------------------------------------------------------
  // Properties of the order

  /** Deciding LexLess at index `i`, once everything before `i` is equal. */
  lemma {:induction false} LexLessAt(x: seq<byte>, y: seq<byte>, i: nat)
    requires |x| == |y| && i < |x| && x[..i] == y[..i]
    ensures x[i] < y[i] ==> LexLess(x, y)
    ensures x[i] > y[i] ==> !LexLess(x, y)
    ensures x[i] == y[i] ==> (LexLess(x, y) <==> LexLess(x[i + 1..], y[i + 1..]))
  {
    if i > 0 {
      assert x[0] == x[..i][0] == y[..i][0] == y[0];
      assert x[1..][..i - 1] == x[1..i] == y[1..i] == y[1..][..i - 1];
      LexLessAt(x[1..], y[1..], i - 1);
      assert x[1..][i - 1..] == x[i..];
      assert y[1..][i - 1..] == y[i..];
      assert x[1..][i - 1 + 1..] == x[i + 1..];
      assert y[1..][i - 1 + 1..] == y[i + 1..];
    }
  }

  lemma {:induction false} LexLessIrreflexive(x: seq<byte>)
    ensures !LexLess(x, x)
  {
    if |x| > 0 {
      LexLessIrreflexive(x[1..]);
    }
  }

  /** LexLess is a strict total order on byte strings of one length. */
  lemma {:induction false} LexLessTrichotomy(x: seq<byte>, y: seq<byte>)
    requires |x| == |y|
    ensures x == y || LexLess(x, y) || LexLess(y, x)
    ensures !(LexLess(x, y) && LexLess(y, x))
  {
    if |x| > 0 {
      LexLessTrichotomy(x[1..], y[1..]);
      if x[0] == y[0] && x[1..] == y[1..] {
        assert x == [x[0]] + x[1..] && y == [y[0]] + y[1..];
      }
    }
  }

  lemma Regroup(a: int, q: int, b: int, c: int)
    ensures (a * q + b) * 256 + c == a * (q * 256) + (b * 256 + c)
  {
  }

  /** BEValue seen from the front: the first byte is the most significant. */
  lemma {:induction false} BEValueFront(s: seq<byte>)
    requires |s| > 0
    ensures BEValue(s) == s[0] * Pow256(|s| - 1) + BEValue(s[1..])
  {
    if |s| > 1 {
      var p := s[..|s| - 1];
      BEValueFront(p);
      assert p[1..] == s[1..][..|s| - 2];
      assert s[1..][|s| - 2] == s[|s| - 1];
      assert BEValue(s[1..]) == BEValue(p[1..]) * 256 + s[|s| - 1];
      assert BEValue(p) == s[0] * Pow256(|s| - 2) + BEValue(p[1..]);
      Regroup(s[0], Pow256(|s| - 2), BEValue(p[1..]), s[|s| - 1]);
    } else {
      assert s[..0] == [];
      assert s[1..] == [];
    }
  }

  /** A difference in the leading digit outweighs everything after it. */
  lemma LeadingDigit(a: int, b: int, p: int, ra: int, rb: int)
    requires 0 <= a < b && 0 <= ra < p && 0 <= rb
    ensures a * p + ra < b * p + rb
  {
    assert (b - a - 1) * p >= 0;
    assert b * p - a * p == (b - a - 1) * p + p;
  }

  /** Comparing from the first byte is comparing the strings as big-endian
      numbers. */
  lemma {:induction false} LexLessIsNumericLess(x: seq<byte>, y: seq<byte>)
    requires |x| == |y|
    ensures LexLess(x, y) <==> BEValue(x) < BEValue(y)
  {
    if |x| > 0 {
      var p := Pow256(|x| - 1);
      BEValueFront(x);
      BEValueFront(y);
      LexLessIsNumericLess(x[1..], y[1..]);
      var rx, ry := BEValue(x[1..]), BEValue(y[1..]);
      if x[0] < y[0] {
        LeadingDigit(x[0], y[0], p, rx, ry);
      } else if x[0] > y[0] {
        LeadingDigit(y[0], x[0], p, ry, rx);
      }
    }
  }

  // ---------------------------------------------------------------------
  // Properties of the metric

  lemma DistanceSymmetric(a: Key, b: Key)
    ensures Distance(a, b) == Distance(b, a)
  {
    forall i | 0 <= i < PublicKeySize ensures Distance(a, b)[i] == Distance(b, a)[i] {
      XorFacts(a[i], b[i], b[i]);
    }
  }

  /** A key is at distance zero from itself and from no other key. */
  lemma DistanceZeroIffEqual(a: Key, b: Key)
    ensures AllZero(Distance(a, a))
    ensures AllZero(Distance(a, b)) <==> a == b
  {
    forall i | 0 <= i < PublicKeySize ensures Distance(a, a)[i] == 0 {
      XorFacts(a[i], a[i], a[i]);
    }
    if AllZero(Distance(a, b)) {
      forall i | 0 <= i < PublicKeySize ensures a[i] == b[i] {
        XorFacts(a[i], b[i], b[i]);
      }
    }
  }

  /** Distinct keys are at distinct distances from any target. */
  lemma DistanceInjective(t: Key, a: Key, b: Key)
    ensures Distance(t, a) == Distance(t, b) ==> a == b
  {
    if Distance(t, a) == Distance(t, b) {
      forall i | 0 <= i < PublicKeySize ensures a[i] == b[i] {
        assert Distance(t, a)[i] == Distance(t, b)[i];
        XorFacts(t[i], a[i], b[i]);
      }
    }
  }

  /** Closest picks the key whose distance is the smaller big-endian number,
      and `pk1` when the distances are equal. */
  lemma ClosestIsNumericallyClosest(t: Key, pk1: Key, pk2: Key)
    ensures ClosestSpec(t, pk1, pk2)
         == if BEValue(Distance(t, pk2)) < BEValue(Distance(t, pk1)) then pk2 else pk1
    ensures Distance(t, pk1) == Distance(t, pk2) ==> ClosestSpec(t, pk1, pk2) == pk1
    ensures ClosestSpec(t, pk1, pk1) == pk1
  {
    LexLessIsNumericLess(Distance(t, pk2), Distance(t, pk1));
    LexLessIrreflexive(Distance(t, pk1));
  }

  /** For two different keys the winner does not depend on the order in
      which they are passed. */
  lemma ClosestSwap(t: Key, pk1: Key, pk2: Key)
    requires pk1 != pk2
    ensures ClosestSpec(t, pk1, pk2) == ClosestSpec(t, pk2, pk1)
  {
    DistanceInjective(t, pk1, pk2);
    LexLessTrichotomy(Distance(t, pk1), Distance(t, pk2));
  }

  /** The winner is at least as close to the target as the loser. */
  lemma ClosestIsNoFarther(t: Key, pk1: Key, pk2: Key)
    ensures var w := ClosestSpec(t, pk1, pk2);
      BEValue(Distance(t, w)) <= BEValue(Distance(t, pk1))
      && BEValue(Distance(t, w)) <= BEValue(Distance(t, pk2))
  {
    LexLessIsNumericLess(Distance(t, pk2), Distance(t, pk1));
  }
}
