/** The Android library and the embeddable C library derive the same public key
    from every private key. */
module KeyAgreement {
  import opened MachineInts
  import opened X25519
  import opened LittleEndian
  import opened LittleEndianBits
  import opened JavaCurve25519
  import opened WireguardKey

  method DeriveBoth(key: seq<uint8>) returns (java: seq<int8>, c: seq<uint8>)
    requires |key| == 32
    ensures |java| == |c| == 32 && forall i :: 0 <= i < 32 ==> java[i] as int % 256 == c[i] as int
    ensures Octets(c) == PublicKey(Octets(key))
  {
    hide PublicKey;
    var privateC := new uint8[32](i requires 0 <= i < 32 => key[i]);
    var privateJava := new int8[32](i requires 0 <= i < 32 => ToByte(key[i] as int32));
    assert privateC[..] == key;
    assert SignedOctets(privateJava[..]) == Octets(key);
    var publicC, publicJava := new uint8[32], new int8[32];
    Curve25519.Eval(publicJava, 0, privateJava);
    GeneratePublicKey(publicC, privateC);
    java, c := publicJava[0..32], publicC[..];
    assert SignedOctets(java) == Octets(c);
    assert forall i :: 0 <= i < 32 ==> SignedOctets(java)[i] == Octets(c)[i];
  }
}
