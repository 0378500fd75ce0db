// The scalar routines as the key and signature code calls them: on 32-byte values instead of buffers.

module ScalarValues {
  import opened ByteStrings
  import opened Scalars
  import opened ScalarOps
  import opened ScalarChecks

  function ZeroScalar(): (s: Bytes32)
    ensures Le(s) == 0
  {
    var s: Bytes32 := seq(32, _ => 0);
    ZeroBytes(s, 0);
    s
  }

  method Buffer(s: Bytes32) returns (a: array<byte>)
    ensures fresh(a) && a.Length == 32 && a[..] == s
  {
    a := new byte[32](i requires 0 <= i < 32 => s[i]);
  }

  method AddScalars(x: Bytes32, y: Bytes32) returns (s: Bytes32)
    ensures Le(s) == (Le(x) + Le(y)) % L
  {
    var a := Buffer(x);
    var b := Buffer(y);
    ScAdd(a, a, b);
    s := a[..];
  }

  method SubScalars(x: Bytes32, y: Bytes32) returns (s: Bytes32)
    ensures Le(s) == (Le(x) - Le(y)) % L
  {
    var a := Buffer(x);
    var b := Buffer(y);
    ScSub(a, a, b);
    s := a[..];
  }

  /** z - x y */
  method MulSubScalars(x: Bytes32, y: Bytes32, z: Bytes32) returns (s: Bytes32)
    ensures Le(s) == (Le(z) - Le(x) * Le(y)) % L
  {
    var a := Buffer(x);
    var b := Buffer(y);
    var c := Buffer(z);
    ScMulSub(c, a, b, c);
    s := c[..];
  }

  method Reduced32(x: Bytes32) returns (s: Bytes32)
    ensures Le(s) == Le(x) % L
  {
    var a := Buffer(x);
    ScReduce32(a);
    s := a[..];
  }

  method CheckScalar(x: Bytes32) returns (r: int)
    ensures r == 0 <==> Le(x) < L
  {
    r := ScCheck(x);
    ScCheckCanonical(x);
  }

  /** A canonical scalar leaves its top bit clear, as the recoders ask. */
  lemma CanonicalTop(x: Bytes32)
    requires Le(x) < L
    ensures x[31] <= 127
  {
    TopByte(x, 0);
    Pow256Value();
    assert Pow256(32) == 256 * Pow256(31);
  }
}
