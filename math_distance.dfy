/** math/distance.go, the earlier copy of the XOR metric: DistanceBetween
    and Closest compute what PublicKey.DistanceTo and PublicKey.Closest
    compute, with the same loops. */
module MathDistance {
  import opened Bytes
  import opened DhtKey

  /** DistanceBetween: byte-wise XOR of the two keys into a fresh array. */
  method DistanceBetween(publicKey1: Key, publicKey2: Key) returns (d: Key)
    ensures forall i :: 0 <= i < PublicKeySize ==> d[i] == Xor(publicKey1[i], publicKey2[i])
    ensures d == Distance(publicKey1, publicKey2)
  {
    var dist := new byte[PublicKeySize];
    var i := 0;
    while i < PublicKeySize
      invariant 0 <= i <= PublicKeySize
      invariant forall j :: 0 <= j < i ==> dist[j] == Xor(publicKey1[j], publicKey2[j])
    {
      dist[i] := Xor(publicKey1[i], publicKey2[i]);
      i := i + 1;
    }
    d := dist[..];
  }

  /** Closest: the key whose distance to `target` is the smaller big-endian
      number, `publicKey1` on a tie; the same answer PublicKey.Closest
      gives for every input. */
  method Closest(target: Key, publicKey1: Key, publicKey2: Key) returns (r: Key)
    ensures r == if BEValue(Distance(target, publicKey2)) < BEValue(Distance(target, publicKey1))
                 then publicKey2 else publicKey1
    ensures r == ClosestSpec(target, publicKey1, publicKey2)
  {
    var dist1 := DistanceBetween(target, publicKey1);
    var dist2 := DistanceBetween(target, publicKey2);
    var i := 0;
    while i < PublicKeySize
      invariant 0 <= i <= PublicKeySize
      invariant forall j :: 0 <= j < i ==> dist1[j] == dist2[j]
    {
      if dist1[i] < dist2[i] {
        assert dist2[..i] == dist1[..i];
        LexLessAt(dist2, dist1, i);
        ClosestIsNumericallyClosest(target, publicKey1, publicKey2);
        return publicKey1;
      }
      if dist1[i] > dist2[i] {
        assert dist2[..i] == dist1[..i];
        LexLessAt(dist2, dist1, i);
        ClosestIsNumericallyClosest(target, publicKey1, publicKey2);
        return publicKey2;
      }
      i := i + 1;
    }
    assert dist1 == dist2;
    ClosestIsNumericallyClosest(target, publicKey1, publicKey2);
    return publicKey1;
  }
}
