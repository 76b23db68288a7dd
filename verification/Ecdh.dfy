/**
  Key pairs and the shared secret of elliptic-curve Diffie-Hellman (sections 3.2.1 and 3.3.1 of SEC 1), in octets, and
  signatures under such key pairs.
 */
module Ecdh {
  import opened Options
  import opened Words
  import opened Vli
  import opened VliReduce
  import opened VliMod
  import opened Congruence
  import opened Curves
  import opened Field
  import opened Ladder
  import opened Shamir
  import opened Keys
  import opened Ecdsa

  /** A public key: an octet with the parity of the ordinate, and the abscissa. */
  ghost predicate Names(octets: seq<u8>, Q: Point) {
    |octets| == 33 && Q.Affine? && octets[0] % 2 == Q.y % 2 && BigEndian(octets[1..33]) == Q.x
  }

  /** EccPoint_isZero */
  method PointIsZero(x: Ptr, y: Ptr) returns (zero: bool)
    requires x.Ok() && y.Ok()
    ensures zero <==> x.V() == 0 && y.V() == 0
  {
    var a := IsZero(x);
    var b := IsZero(y);
    zero := a && b;
  }

  // ---------- Key pairs ----------

  /**
    One attempt of ecc_make_key with a given random number, not 0. The private key is that number modulo the order, the
    public key names the point that EccPoint_mult makes of it; the attempt fails exactly when that is (0, 0).
   */
  method EccMakeKey(publicKey: array<u8>, privateKey: array<u8>, random: Ptr, gx: Ptr, gy: Ptr, p: Ptr, n: Ptr,
                    ghost c: Curve, ghost G: Point)
    returns (done: bool)
    requires publicKey.Length == 33 && privateKey.Length == 32 && publicKey != privateKey
    requires IsField(c, p) && n.Ok() && IsOrder(n.V()) && random.Ok() && random.V() != 0
    requires random.buf !in {gx.buf, gy.buf, p.buf, n.buf}
    requires Elem(gx, c) && Elem(gy, c) && Setting(c, G) && G == Affine(gx.V(), gy.V()) && HasOrder(c, G, n.V())
    modifies publicKey, privateKey, random.buf
    ensures var d := old(random.V()) % old(n.V());
      && (done <==> LadderValue(c, d, G) != Affine(0, 0))
      && (done ==> BigEndian(privateKey[..]) == d && Names(publicKey[..], LadderValue(c, d, G)))
    ensures done ==> publicKey[0] == 2 || publicKey[0] == 3
  {
    OrderShape(n.V());
    ReduceNonce(random, n);
    OrderWorkable(c, random.V(), G, n.V());
    var x := NewVli();
    var y := NewVli();
    EccPointMult(x, y, gx, gy, random, None, p, c, G);
    var zero := PointIsZero(x, y);
    if !zero {
      WriteKeys(publicKey, privateKey, random, x, y);
    }
    done := !zero;
  }

  /** The octets of a key pair. */
  method WriteKeys(publicKey: array<u8>, privateKey: array<u8>, d: Ptr, x: Ptr, y: Ptr)
    requires publicKey.Length == 33 && privateKey.Length == 32 && publicKey != privateKey && d.Ok() && x.Ok() && y.Ok()
    modifies publicKey, privateKey
    ensures BigEndian(privateKey[..]) == old(d.V()) && Names(publicKey[..], Affine(old(x.V()), old(y.V())))
    ensures publicKey[0] == 2 || publicKey[0] == 3
  {
    var parity := LowBit(y);
    Native2Bytes(privateKey, 0, d);
    assert privateKey[..] == privateKey[0..32];
    label Private:
    Native2Bytes(publicKey, 1, x);
    publicKey[0] := 2 + parity;
    assert publicKey[..][1..33] == publicKey[1..33];
    assert privateKey[..] == old@Private(privateKey[..]);
  }

  // ---------- The shared secret ----------

  /** The ordinate is the only one with its parity, so decompression recovers the point. */
  lemma DecompressUnique(c: Curve, Q: Point, y: nat)
    requires c.PrimeField() && IsP256(c.modulus) && c.OnCurve(Q) && Q.Affine?
    requires y <= c.modulus && y % 2 == Q.y % 2 && c.OnCurveXY(Q.x, y)
    ensures y == Q.y
  {
    P256Shape(c.modulus);
    RootsMirror(c, Q.x, Q.y, y);
    var k := MirrorQuotient(c.modulus, Q.y, y);
    ParityDecides(c.modulus, Q.y, y, k);
  }

  /** Two ordinates with one abscissa are equal or opposite. */
  lemma RootsMirror(c: Curve, x: int, v: int, y: int)
    requires c.PrimeField() && c.OnCurveXY(x, v) && c.OnCurveXY(x, y)
    ensures c.modulus > 0 && (Cong(y, v, c.modulus) || Cong(y, -v, c.modulus))
  {
    c.SameSquare(v, y);
  }

  lemma MirrorQuotient(m: int, v: int, y: int) returns (k: int)
    requires m > 0 && (Cong(y, v, m) || Cong(y, -v, m))
    ensures y == v + m * k || y == -v + m * k
  {
    if Cong(y, v, m) {
      k := CongElim(y, v, m);
    } else {
      k := CongElim(y, -v, m);
    }
  }

  lemma ParityDecides(m: int, v: int, y: int, k: int)
    requires m % 2 == 1 && 0 <= v < m && 0 <= y <= m && y % 2 == v % 2
    requires y == v + m * k || y == -v + m * k
    ensures y == v
  {
    if k <= -1 {
      MulMono(m, 1, -k);
    } else if k >= 2 {
      MulMono(m, 2, k);
    }
  }

  /**
    ecdh_shared_secret for the key that names a point Q of odd order: the secret is the abscissa of the point that
    EccPoint_mult makes of the 256-bit private key and Q, refused exactly when that is (0, 0). Random bits that are 0
    modulo the prime give (0, 0) too.
   */
  method EcdhSharedSecret(publicKey: array<u8>, privateKey: array<u8>, secret: array<u8>, random: Ptr, b: Ptr, p: Ptr,
                          ghost c: Curve, ghost Q: Point, ghost n: nat)
    returns (ok: bool)
    requires publicKey.Length == 33 && privateKey.Length == 32 && secret.Length == 32
    requires IsField(c, p) && random.Ok() && Elem(b, c) && b.V() == c.coefB
    requires Setting(c, Q) && HasOrder(c, Q, n) && IsOrder(n) && Names(publicKey[..], Q)
    modifies secret
    ensures var R := if old(Usable(Some(random), c)) then LadderValue(c, old(BigEndian(privateKey[..])), Q)
                     else Affine(0, 0);
      R.Affine? && BigEndian(secret[..]) == R.x && (ok <==> R != Affine(0, 0))
  {
    var rx, ry := SharedPoint(publicKey, privateKey, random, b, p, c, Q, n);
    Native2Bytes(secret, 0, rx);
    assert secret[..] == secret[0..32];
    var zero := PointIsZero(rx, ry);
    ok := !zero;
  }

  /** The point whose abscissa is the secret. */
  method SharedPoint(publicKey: array<u8>, privateKey: array<u8>, random: Ptr, b: Ptr, p: Ptr, ghost c: Curve,
                     ghost Q: Point, ghost n: nat)
    returns (rx: Ptr, ry: Ptr)
    requires publicKey.Length == 33 && privateKey.Length == 32
    requires IsField(c, p) && random.Ok() && Elem(b, c) && b.V() == c.coefB
    requires Setting(c, Q) && HasOrder(c, Q, n) && IsOrder(n) && Names(publicKey[..], Q)
    ensures fresh(rx.buf) && fresh(ry.buf) && rx.Ok() && ry.Ok()
    ensures Affine(rx.V(), ry.V())
      == if Usable(Some(random), c) then LadderValue(c, BigEndian(privateKey[..]), Q) else Affine(0, 0)
  {
    var x := NewVli();
    var y := NewVli();
    PublicPoint(publicKey, x, y, b, p, c, Q);
    var d := PrivateScalar(privateKey);
    AnyScalar(c, d.V(), Q, n);
    rx := NewVli();
    ry := NewVli();
    EccPointMult(rx, ry, x, y, d, Some(random), p, c, Q);
  }

  method PrivateScalar(privateKey: array<u8>) returns (d: Ptr)
    requires privateKey.Length == 32
    ensures fresh(d.buf) && d.Ok() && d.V() == BigEndian(privateKey[..])
  {
    d := NewVli();
    assert privateKey[..] == privateKey[0..32];
    Bytes2Native(d, privateKey, 0);
  }

  /** The multiplication works with every 256-bit scalar. */
  lemma AnyScalar(c: Curve, k: nat, Q: Point, n: nat)
    requires Setting(c, Q) && HasOrder(c, Q, n) && IsOrder(n) && k < TWO256
    ensures Workable(c, Effective(k), Q)
  {
    OrderShape(n);
    ScalarsBelowTwiceOrder(n);
    OrderWorkable(c, k, Q, n);
  }

  /** The point a public key names. */
  method PublicPoint(publicKey: array<u8>, x: Ptr, y: Ptr, b: Ptr, p: Ptr, ghost c: Curve, ghost Q: Point)
    requires publicKey.Length == 33 && IsField(c, p) && x.Ok() && y.Ok() && Elem(b, c) && b.V() == c.coefB
    requires x.buf != y.buf && y.buf !in {b.buf, p.buf} && x.buf !in {b.buf, p.buf}
    requires c.PrimeField() && c.OnCurve(Q) && Names(publicKey[..], Q)
    modifies x.buf, y.buf
    ensures Elem(x, c) && Elem(y, c) && Q == Affine(x.V(), y.V())
  {
    assert publicKey[..][1..33] == publicKey[1..33];
    EccPointDecompress(x, y, publicKey, b, p, c);
    assert c.OnCurveXY(x.V(), Q.y);
    DecompressUnique(c, Q, y.V());
  }

  // ---------- Agreement ----------

  /** Every multiple of a point of prime order below the order has that order too. */
  lemma OrderOfMultiple(c: Curve, e: nat, n: nat, G: Point)
    requires Setting(c, G) && HasOrder(c, G, n) && PrimeOrder(n) && 0 < e < n
    ensures HasOrder(c, c.Times(e, G), n)
  {
    var Q := c.Times(e, G);
    forall j: nat | 0 < j <= n
      ensures c.Times(j, Q) == Infinity <==> j == n
    {
      MultipleOfMultiple(c, j, e, n, G);
    }
  }

  lemma MultipleOfMultiple(c: Curve, j: nat, e: nat, n: nat, G: Point)
    requires Setting(c, G) && HasOrder(c, G, n) && PrimeOrder(n) && 0 < e < n && 0 < j <= n
    ensures c.Times(j, c.Times(e, G)) == Infinity <==> j == n
  {
    TimesTimes(c, j, e, G);
    TimesZeroExactly(c, j * e, n, G);
    if j == n {
      CongIntro(n * e, 0, e, n);
    } else if Cong(j * e, 0, n) {
      var z := CoprimeInverse(e, n);
      assert 0 * e == 0;
      CancelUnit(j, 0, e, z, n);
      CongSmall(j, 0, n);
      DivModUnique(0, n, 0, 0);
    }
  }

  /** The multiple a key pair's owner forms with another one's public key. */
  lemma SecretOf(c: Curve, n: nat, a: nat, e: nat, G: Point)
    requires Setting(c, G) && IsP256(c.modulus) && IsCoefficient(c.coefB) && HasOrder(c, G, n) && n % 2 == 1 && n > 3
    requires PrimeOrder(n) && a < n && Effective(a) < n - 1 && 0 < e < n
    ensures var B := c.Times(e, G);
      && Setting(c, B) && HasOrder(c, B, n) && Effective(a) * e >= 0
      && LadderValue(c, a, B) == if B.x == 0 then Affine(0, 0) else c.Times(Effective(a) * e, G)
  {
    var B := c.Times(e, G);
    c.TimesOnCurve(e, G);
    OrderOfMultiple(c, e, n, G);
    OddOrderExact(c, a, B, n);
    TimesTimes(c, Effective(a), e, G);
  }

  /** The keys an attempt of key generation does not refuse. */
  lemma PublicKeyOf(c: Curve, n: nat, a: nat, G: Point)
    requires Setting(c, G) && IsP256(c.modulus) && IsCoefficient(c.coefB) && HasOrder(c, G, n) && n % 2 == 1 && n > 3
    requires a < n && LadderValue(c, a, G) != Affine(0, 0)
    ensures 2 <= Effective(a) < n - 1 && LadderValue(c, a, G) == c.Times(Effective(a), G)
  {
    OddOrderExact(c, a, G, n);
  }

  /**
    Two parties with any keys that key generation makes, private 0 and 1 included, each form a point with the other
    one's public key. It is the same point of the curve if neither public key has the abscissa 0; a key with that
    abscissa is refused by the other party, so the two agree exactly if both keys have it or neither does.
   */
  lemma SecretsAgree(c: Curve, n: nat, a: nat, b: nat, G: Point)
    requires Setting(c, G) && IsP256(c.modulus) && IsCoefficient(c.coefB) && HasOrder(c, G, n) && n % 2 == 1 && n > 3
    requires PrimeOrder(n) && a < n && b < n
    requires LadderValue(c, a, G) != Affine(0, 0) && LadderValue(c, b, G) != Affine(0, 0)
    ensures var A, B := LadderValue(c, a, G), LadderValue(c, b, G);
      && Setting(c, A) && HasOrder(c, A, n) && Setting(c, B) && HasOrder(c, B, n)
      && (LadderValue(c, a, B) == LadderValue(c, b, A) <==> (A.x == 0 <==> B.x == 0))
      && (LadderValue(c, a, B) == Affine(0, 0) <==> B.x == 0)
      && (LadderValue(c, b, A) == Affine(0, 0) <==> A.x == 0)
  {
    PublicKeyOf(c, n, a, G);
    PublicKeyOf(c, n, b, G);
    SecretOf(c, n, a, Effective(b), G);
    SecretOf(c, n, b, Effective(a), G);
    SwapFactors(Effective(a), Effective(b));
    c.TimesOnCurve(Effective(a) * Effective(b), G);
    OriginOffCurve(c);
  }

  // ---------- Signatures under a key pair ----------

  /**
    A key pair that key generation makes of a private key from 2 on, signing with a nonce from 2 on and verifying: no
    bit of the scalars meets the missing entry of the table, so the signature is accepted exactly when e + r d is not 0
    modulo the order and the loop for its scalars meets no exceptional round.
   */
  lemma KeyPairSigns(c: Curve, n: nat, e: nat, r: nat, s: nat, k: nat, d: nat, G: Point, u1: nat, u2: nat)
    requires Setting(c, G) && IsP256(c.modulus) && IsCoefficient(c.coefB) && HasOrder(c, G, n) && n % 2 == 1
    requires 3 < n <= TWO256 && PrimeOrder(n) && 2 <= d < n && LadderValue(c, d, G) != Affine(0, 0)
    requires 2 <= k < n && AbscissaIs(LadderValue(c, k, G), r, n) && r != 0 && s < n && SigningHolds(k, s, e, r, d, n)
    requires s != 0 ==> Scalars(u1, u2, e, r, s, n)
    ensures var Q := LadderValue(c, d, G);
      && Q == c.Times(d, G) && TwoPoints(c, G, Q)
      && (Verifies(c, n, e, r, s, G, Q) <==> !Cong(e + r * d, 0, n) && ScalarsSafe(u1, u2, d, n))
  {
    PublicKeyOf(c, n, d, G);
    c.TimesOnCurve(d, G);
    OddOrderExact(c, d, G, n);
    KeyFarFromBase(d, n);
    SignedIsAccepted(c, n, e, r, s, k, d, G, c.Times(d, G), u1, u2);
  }

  /** Neither 1 nor -1 modulo the order. */
  lemma KeyFarFromBase(d: nat, n: nat)
    requires 2 <= d < n - 1
    ensures forall b1, b2 :: !EntryMissing(b1, b2, d, n)
  {
    DivModUnique(d, n, 0, d);
    DivModUnique(d + 1, n, 0, d + 1);
    DivModUnique(1, n, 0, 1);
    DivModUnique(0, n, 0, 0);
  }
}
