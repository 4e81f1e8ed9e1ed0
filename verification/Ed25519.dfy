/** Keys, signing and verification (crates/webgate-core/src/ed25519.rs:803-897). */
module Ed25519 {
  import opened Wrappers
  import opened Words
  import opened Arith
  import opened LittleEndian
  import opened FieldElements
  import opened FieldEncoding
  import opened EdwardsAlgebra
  import opened EdwardsGroup
  import opened EdwardsPoints
  import opened ScalarMultiplication
  import opened PointDecoding
  import opened PointResidues
  import opened FieldLarge
  import opened FieldZero
  import opened PointEncoding
  import opened Scalars
  import opened Sha512Hasher

  /** Section 5.1.5 of RFC 8032: clear the low three bits and the top bit, set the second highest. */
  function Clamp(h: seq<byte>): (a: seq<byte>)
    requires |h| == 64
    ensures |a| == 32
  {
    h[..32][0 := h[0] - h[0] % 8][31 := BitOr(h[31] % 0x80, 0x40) % 0x100]
  }

  /** What the messages to be hashed may add to a message. */
  const MAX_MESSAGE: nat := MAX_BYTES - 64

  function Nonce(seed: seq<byte>, message: seq<byte>): (r: seq<byte>)
    requires |seed| == 32 && |message| < MAX_MESSAGE
    ensures |r| == 32
  {
    ReducedBytes(ValueOf(256, Digest(Digest(seed)[32..] + message)))
  }

  function Challenge(r: seq<byte>, publicKey: seq<byte>, message: seq<byte>): (k: seq<byte>)
    requires |r| == |publicKey| == 32 && |message| < MAX_MESSAGE
    ensures |k| == 32
  {
    ReducedBytes(ValueOf(256, Digest(r + publicKey + message)))
  }

  /** The encoding of [n]b. */
  function BaseMultiple(b: EdwardsPoint, scalar: seq<byte>): (s: seq<byte>)
    requires b.Bounded() && |scalar| == 32
    ensures |s| == 32
  {
    Compress(ScalarMul(b, scalar))
  }

  /** The secret scalar of a seed. */
  function Secret(seed: seq<byte>): (a: seq<byte>)
    requires |seed| == 32
    ensures |a| == 32
  {
    hide Digest;
    Clamp(Digest(seed))
  }

  /** The public key of a seed, over the base point b. */
  function PublicKey(b: EdwardsPoint, seed: seq<byte>): (k: seq<byte>)
    requires b.Bounded() && |seed| == 32
    ensures |k| == 32
  {
    BaseMultiple(b, Secret(seed))
  }

  /** k a + r modulo L. */
  function Response(k: seq<byte>, a: seq<byte>, r: seq<byte>): (s: seq<byte>)
    ensures |s| == 32
  {
    ReducedBytes(ValueOf(256, k) * ValueOf(256, a) + ValueOf(256, r))
  }

  /** Section 5.1.6 of RFC 8032. */
  function Signature(b: EdwardsPoint, seed: seq<byte>, publicKey: seq<byte>, message: seq<byte>): (s: seq<byte>)
    requires b.Bounded() && |seed| == |publicKey| == 32 && |message| < MAX_MESSAGE
    ensures |s| == 64
  {
    var r := Nonce(seed, message);
    var rBytes := BaseMultiple(b, r);
    rBytes + Response(Challenge(rBytes, publicKey, message), Secret(seed), r)
  }

  /** R + [k]A. */
  function SumOf(r: EdwardsPoint, a: EdwardsPoint, k: seq<byte>): (q: EdwardsPoint)
    requires r.Bounded() && a.Bounded() && |k| == 32
    ensures q.Bounded()
  {
    AddRefines(r, ScalarMul(a, k));
    r.Add(ScalarMul(a, k))
  }

  /**
   Section 5.1.7 of RFC 8032, without the cofactor: s is below L, the two points
   decode, and [s]b and R + [k]A have one encoding.
   */
  function AcceptsAt(b: EdwardsPoint, publicKey: seq<byte>, rBytes: seq<byte>, s: seq<byte>, k: seq<byte>): bool
    requires b.Bounded() && |publicKey| == |rBytes| == |s| == |k| == 32
  {
    hide *;
    DecompressBounded(publicKey);
    DecompressBounded(rBytes);
    var a, r := Decompress(publicKey), Decompress(rBytes);
    && ValueOf(256, s) < L && a.Some? && r.Some?
    && Compress(ScalarMul(b, s)) == Compress(SumOf(r.value, a.value, k))
  }

  function Accepts(b: EdwardsPoint, publicKey: seq<byte>, message: seq<byte>, signature: seq<byte>): bool
    requires b.Bounded() && |publicKey| == 32 && |signature| == 64 && |message| < MAX_MESSAGE
  {
    hide *;
    var rBytes, s := signature[..32], signature[32..];
    AcceptsAt(b, publicKey, rBytes, s, Challenge(rBytes, publicKey, message))
  }

  // ---------------------------------------------------------------- the secret scalar

  /** Clearing bit 7 of a byte and setting bit 6 leaves bits 0 to 5. */
  lemma ClampedTop(x: byte)
    ensures BitOr(x % 0x80, 0x40) == 0x40 + x % 0x40
  {
    hide BitOr;
    assert Pow(2, 6) == 2 * Pow(2, 5) == 4 * Pow(2, 4) == 8 * Pow(2, 3) == 16 * Pow(2, 2) == 64;
    hide Pow;
    BitOrSet(x % 0x80, 0x40, 6);
  }

  /** Around its first and last byte a value of 32 bytes splits like this. */
  lemma OuterBytes(s: seq<byte>)
    requires |s| == 32
    ensures ValueOf(256, s) % 8 == s[0] % 8
    ensures s[31] * TWO248 <= ValueOf(256, s) < (s[31] + 1) * TWO248
  {
    hide Pow;
    BytePowers();
    assert ValueOf(256, s) == s[0] + 256 * ValueOf(256, s[1..]);
    assert s == s[..31] + [s[31]];
    ValueAppend(256, s[..31], [s[31]]);
    assert ValueOf(256, [s[31]]) == s[31] + 256 * ValueOf(256, []);
    ValueBound(256, s[..31]);
  }

  const TWO248: int := 0x100_0000_0000_0000_0000_0000_0000_0000_0000_0000_0000_0000_0000_0000_0000_0000
  const TWO251: int := 8 * TWO248
  const TWO254: int := 64 * TWO248

  lemma ClampedNumber(v: int, first: int, last: int)
    requires v % 8 == first % 8 && last * TWO248 <= v < (last + 1) * TWO248
    ensures v - first % 8 + (0x40 + last % 0x40 - last) * TWO248 == TWO254 + 8 * (v / 8 % TWO251)
  {
    var q := last / 64;
    assert v == 8 * (v / 8) + v % 8;
    DivModUnique(v / 8, q, v / 8 - q * TWO251, TWO251);
  }

  lemma ClampedRange(x: int)
    ensures (TWO254 + 8 * (x % TWO251)) % 8 == 0 && TWO254 <= TWO254 + 8 * (x % TWO251) < 2 * TWO254
  {
    DivModUnique(TWO254 + 8 * (x % TWO251), TWO251 + x % TWO251, 0, 8);
  }

  lemma ClampBytes(h: seq<byte>)
    requires |h| == 64
    ensures Clamp(h) == h[..32][0 := h[0] - h[0] % 8][31 := 0x40 + h[31] % 0x40]
  {
    hide BitOr;
    ClampedTop(h[31]);
  }

  lemma PowByte(k: nat)
    ensures Pow(2, 8 * k) == Pow(256, k)
  {
    assert Pow(2, 8) == 256;
    PowMul(2, 8, k);
  }

  lemma PowTop(n: nat, k: nat)
    requires n == 8 * k
    ensures Pow(2, n + 3) == 8 * Pow(256, k) && Pow(2, n + 4) == 16 * Pow(256, k)
    ensures Pow(2, n + 6) == 64 * Pow(256, k) && Pow(2, n + 7) == 128 * Pow(256, k)
  {
    PowByte(k);
    PowAdd(2, n, 3);
    PowAdd(2, n, 4);
    PowAdd(2, n, 6);
    PowAdd(2, n, 7);
  }

  /** The numbers of section 5.1 of RFC 8032: the bounds of the secret scalar, the prime and the order. */
  lemma Moduli()
    ensures TWO251 == Pow(2, 251) && TWO254 == Pow(2, 254) && TWO255 == Pow(2, 255)
    ensures P == Pow(2, 255) - 19 && L == Pow(2, 252) + 27742317777372353535851937790883648493
  {
    BytePowers();
    PowTop(248, 31);
    hide Pow;
  }

  /** Clamping keeps bits 3 to 253, sets bit 254, and clears the others: a multiple of 8 from 2^254 below 2^255. */
  lemma ClampValue(h: seq<byte>)
    requires |h| == 64
    ensures ScalarValue(Clamp(h)) == Pow(2, 254) + 8 * (ScalarValue(h[..32]) / 8 % Pow(2, 251))
    ensures ScalarValue(Clamp(h)) == TWO254 + 8 * (ScalarValue(h[..32]) / 8 % TWO251)
    ensures ScalarValue(Clamp(h)) % 8 == 0 && TWO254 <= ScalarValue(Clamp(h)) < 2 * TWO254
  {
    hide ValueOf, Clamp, Pow;
    var s := h[..32];
    ClampBytes(h);
    ValueUpdate(256, s, 0, s[0] - s[0] % 8);
    ValueUpdate(256, s[0 := s[0] - s[0] % 8], 31, 0x40 + s[31] % 0x40);
    ClampWeights();
    OuterBytes(s);
    ClampedNumber(ValueOf(256, s), s[0], s[31]);
    ClampedRange(ScalarValue(h[..32]) / 8);
    Moduli();
  }

  lemma ClampWeights()
    ensures Pow(256, 0) == 1 && Pow(256, 31) == TWO248
  {
    BytePowers();
  }

  /** The number of a seed: 2^254 and bits 3 to 253 of the first half of its hash. */
  function SecretNumber(seed: seq<byte>): nat
    requires |seed| == 32
  {
    hide Digest, ScalarValue;
    ClampedRange(ScalarValue(Digest(seed)[..32]) / 8);
    TWO254 + 8 * (ScalarValue(Digest(seed)[..32]) / 8 % TWO251)
  }

  /** The secret scalar of a seed is that number: a multiple of 8 from 2^254 below 2^255. */
  lemma SecretValue(seed: seq<byte>)
    requires |seed| == 32
    ensures ScalarValue(Secret(seed)) == SecretNumber(seed)
    ensures ScalarValue(Secret(seed)) % 8 == 0 && TWO254 <= ScalarValue(Secret(seed)) < 2 * TWO254
  {
    hide Digest, Clamp, ScalarValue;
    ClampValue(Digest(seed));
  }

  /** The hash of the other half and the message, modulo L. */
  function NonceNumber(seed: seq<byte>, message: seq<byte>): nat
    requires |seed| == 32 && |message| < MAX_MESSAGE
  {
    hide Digest, ScalarValue;
    ScalarValue(Digest(Digest(seed)[32..] + message)) % L
  }

  /** The hash of commitment, public key and message, modulo L. */
  function ChallengeNumber(rBytes: seq<byte>, publicKey: seq<byte>, message: seq<byte>): nat
    requires |rBytes| == |publicKey| == 32 && |message| < MAX_MESSAGE
  {
    hide Digest, ScalarValue;
    ScalarValue(Digest(rBytes + publicKey + message)) % L
  }

  lemma NonceValue(seed: seq<byte>, message: seq<byte>)
    requires |seed| == 32 && |message| < MAX_MESSAGE
    ensures ScalarValue(Nonce(seed, message)) == NonceNumber(seed, message)
  {
    hide Digest, ValueOf, ReducedBytes;
  }

  lemma ChallengeValue(rBytes: seq<byte>, publicKey: seq<byte>, message: seq<byte>)
    requires |rBytes| == |publicKey| == 32 && |message| < MAX_MESSAGE
    ensures ScalarValue(Challenge(rBytes, publicKey, message)) == ChallengeNumber(rBytes, publicKey, message)
  {
    hide Digest, ValueOf, ReducedBytes;
  }

  // ---------------------------------------------------------------- the imperative API

  /** Hash a message fed in up to three pieces. */
  method HashThree(a: seq<byte>, b: seq<byte>, c: seq<byte>) returns (out: seq<byte>)
    requires |a| + |b| + |c| < MAX_BYTES
    ensures out == Digest(a + b + c)
  {
    hide Digest, Absorb, WholeLength;
    var hasher := new Sha512();
    hasher.Update(a);
    hasher.Update(b);
    hasher.Update(c);
    assert hasher.message == a + b + c;
    out := hasher.Finalize();
  }

  /** Ed25519Keypair::sign. */
  method Sign(seed: seq<byte>, publicKey: seq<byte>, message: seq<byte>) returns (signature: seq<byte>)
    requires |seed| == |publicKey| == 32 && |message| < MAX_MESSAGE
    ensures signature == Signature(Base(), seed, publicKey, message)
  {
    hide Digest, ValueOf, ScalarMul, Base, Compress, Clamp, ReducedBytes;
    var h := HashWhole(seed);
    var a := Clamp(h);
    var rHash := HashThree(h[32..64], message, []);
    assert h[32..64] + message + [] == h[32..] + message;
    var rScalar := ScalarReduce64(rHash);
    var pointR := ComputeScalarMul(Base(), rScalar);
    var rBytes := Compress(pointR);
    var kHash := HashThree(rBytes, publicKey, message);
    var kScalar := ScalarReduce64(kHash);
    var sScalar := ScalarMulAdd(kScalar, a, rScalar);
    signature := rBytes + sScalar;
  }

  /** ed25519_verify. */
  method Verify(publicKey: seq<byte>, message: seq<byte>, signature: seq<byte>) returns (ok: bool)
    requires |publicKey| == 32 && |signature| == 64 && |message| < MAX_MESSAGE
    ensures ok == Accepts(Base(), publicKey, message, signature)
  {
    hide Digest, ValueOf, ScalarMul, Base, Compress, ReducedBytes, Decompress;
    var rBytes, sBytes := signature[..32], signature[32..];
    var sLimbs := ReadWords4(sBytes);
    var tooLarge := ScalarGte(sLimbs, ORDER_L);
    OrderValue();
    if tooLarge {
      return false;
    }
    DecompressBounded(publicKey);
    DecompressBounded(rBytes);
    var pointA := Decompress(publicKey);
    if pointA.None? {
      return false;
    }
    var pointR := Decompress(rBytes);
    if pointR.None? {
      return false;
    }
    var kHash := HashThree(rBytes, publicKey, message);
    var kScalar := ScalarReduce64(kHash);
    var sb := ComputeScalarMul(Base(), sBytes);
    var ka := ComputeScalarMul(pointA.value, kScalar);
    AddRefines(pointR.value, ka);
    var rPlusKa := pointR.value.Add(ka);
    return Compress(sb) == Compress(rPlusKa);
  }

  // ---------------------------------------------------------------- why verification accepts what signing makes

  /** Addition and multiples on the affine curve, and the value of a scalar. */
  ghost function Plus(a: Affine, b: Affine): Affine {
    AffineSum(a, b, CurveD(), P)
  }

  ghost function Fold(n: nat, a: Affine): Affine {
    Multiple(n, a, CurveD(), P)
  }

  function ScalarValue(s: seq<byte>): nat {
    ValueBound(256, s);
    ValueOf(256, s)
  }

  /**
   What is assumed of the curve and of a base point b: the group law is associative,
   and the order of b divides L.
   */
  ghost predicate CurveGroup(b: EdwardsPoint) {
    && PrimeAndNonSquare() && Associative(CurveD(), P) && Valid(b)
    && (forall l: nat {:trigger Fold(l, PointOf(b))} | l == L :: Fold(l, PointOf(b)) == ORIGIN)
  }

  /** The affine point of the code's [scalar]b. */
  ghost function Image(b: EdwardsPoint, scalar: seq<byte>): Affine
    requires CurveGroup(b) && |scalar| == 32
  {
    hide *;
    GroupFacts(b);
    ScalarMulMultiple(b, scalar);
    PointOf(ScalarMul(b, scalar))
  }

  lemma GroupFacts(b: EdwardsPoint)
    requires CurveGroup(b)
    ensures PrimeAndNonSquare() && Associative(CurveD(), P) && Valid(b) && b.Bounded()
  {
    hide PrimeAndNonSquare, Associative, Proper, EdwardsPoint.Bounded;
  }

  lemma ImageMultiple(b: EdwardsPoint, scalar: seq<byte>)
    requires CurveGroup(b) && |scalar| == 32
    ensures PrimeAndNonSquare() && Valid(b) && Image(b, scalar) == Fold(ScalarValue(scalar), PointOf(b))
  {
    hide ValueOf, ScalarMul, Multiple, Valid, Associative, PrimeAndNonSquare, PointOf, CurveGroup;
    GroupFacts(b);
    ScalarMulMultiple(b, scalar);
  }

  /** With s = k a + r modulo L: s is below L, and [s]b = [r]b + [k]([a]b). */
  lemma ResponseEquation(b: EdwardsPoint, k: seq<byte>, a: seq<byte>, r: seq<byte>)
    requires CurveGroup(b) && |k| == |a| == |r| == 32
    ensures ScalarValue(Response(k, a, r)) < L
    ensures Image(b, Response(k, a, r)) == Plus(Image(b, r), Fold(ScalarValue(k), Image(b, a)))
  {
    hide Image, Response, Fold, Plus, CurveGroup, ScalarValue, PrimeAndNonSquare, PointOf, Valid;
    var n := ResponseValue(k, a, r);
    ImageMultiple(b, Response(k, a, r));
    ImageMultiple(b, r);
    ImageMultiple(b, a);
    OrderNeutral(b);
    ResponseFold(b, ScalarValue(k), ScalarValue(a), ScalarValue(r), L);
  }

  lemma OrderNeutral(b: EdwardsPoint)
    requires CurveGroup(b)
    ensures Fold(L, PointOf(b)) == ORIGIN
  {
    hide Fold, PointOf, PrimeAndNonSquare, Valid, Associative;
    var l: nat := L;
    assert Fold(l, PointOf(b)) == ORIGIN;
  }

  lemma ResponseFold(b: EdwardsPoint, k: nat, a: nat, r: nat, l: nat)
    requires CurveGroup(b) && l > 0 && Fold(l, PointOf(b)) == ORIGIN
    ensures PrimeAndNonSquare() && Valid(b)
    ensures Fold((r + k * a) % l, PointOf(b)) == Plus(Fold(r, PointOf(b)), Fold(k, Fold(a, PointOf(b))))
  {
    hide ToAffine, AffineSum, Multiple, Associative, PrimeAndNonSquare, CurveField, CurveD, FieldElement.Value,
      OnAffine;
    GroupFacts(b);
    FieldFacts();
    ValidOnAffine(b);
    ResponseMultiple(k, a, r, r + k * a, l, PointOf(b), CurveD(), SQRT_M1.Value(), P);
  }

  lemma ResponseValue(k: seq<byte>, a: seq<byte>, r: seq<byte>) returns (n: nat)
    requires |k| == |a| == |r| == 32
    ensures n == ScalarValue(r) + ScalarValue(k) * ScalarValue(a)
    ensures ScalarValue(Response(k, a, r)) == n % L < L
  {
    hide ValueOf, Pow;
    ValueBound(256, k);
    ValueBound(256, a);
    ValueBound(256, r);
    MulNonneg(ValueOf(256, k), ValueOf(256, a));
    n := ValueOf(256, k) * ValueOf(256, a) + ValueOf(256, r);
  }

  // ---------------------------------------------------------------- acceptance

  /** A decoded copy of a point: valid, and the same affine point. */
  ghost predicate CopyOf(p: EdwardsPoint, a: Affine)
    requires PrimeAndNonSquare()
  {
    Valid(p) && PointOf(p) == a
  }

  /** R + [k]A of decoded copies is the affine sum. */
  lemma SumImage(r: EdwardsPoint, a: EdwardsPoint, k: seq<byte>, ra: Affine, aa: Affine)
    requires PrimeAndNonSquare() && Associative(CurveD(), P) && |k| == 32 && CopyOf(r, ra) && CopyOf(a, aa)
    ensures Valid(SumOf(r, a, k)) && PointOf(SumOf(r, a, k)) == Plus(ra, Fold(ScalarValue(k), aa))
  {
    hide ValueOf, ScalarMul, Multiple, Proper, Associative, PrimeAndNonSquare, PointOf, AffineSum, EdwardsPoint.Add,
      EdwardsPoint.Bounded;
    ScalarMulMultiple(a, k);
    AddValid(r, ScalarMul(a, k));
  }

  /** [s]b and R + [k]A are encoded alike exactly when both sides of the equation show the same. */
  lemma ComparedAlike(b: EdwardsPoint, s: seq<byte>, r: EdwardsPoint, a: EdwardsPoint, k: seq<byte>, ra: Affine,
                      aa: Affine)
    requires PrimeAndNonSquare() && Associative(CurveD(), P) && Valid(b) && |s| == |k| == 32
    requires CopyOf(r, ra) && CopyOf(a, aa)
    ensures b.Bounded() && r.Bounded() && a.Bounded()
    ensures Compress(ScalarMul(b, s)) == Compress(SumOf(r, a, k))
       <==> ShownAlike(Fold(ScalarValue(s), PointOf(b)), Plus(ra, Fold(ScalarValue(k), aa)))
  {
    hide ValueOf, ScalarMul, Multiple, Associative, PrimeAndNonSquare, PointOf, AffineSum, EdwardsPoint.Add,
      EdwardsPoint.Bounded, Valid, Compress, LargePoint, ShownAlike, Positive;
    ValidPositive(b);
    ValidPositive(r);
    ValidPositive(a);
    SumImage(r, a, k, ra, aa);
    ScalarMulMultiple(b, s);
    ScalarMulMultiple(a, k);
    ValidPositive(ScalarMul(a, k));
    ScalarMulLarge(b, s);
    AddLarge(r, ScalarMul(a, k));
    SameEncoding(ScalarMul(b, s), SumOf(r, a, k));
  }

  /** Key and commitment decode to these points, and both sides of the equation show the same. */
  ghost predicate Satisfies(b: EdwardsPoint, publicKey: seq<byte>, rBytes: seq<byte>, s: seq<byte>, k: seq<byte>,
                            ra: Affine, aa: Affine)
    requires PrimeAndNonSquare() && Valid(b) && |publicKey| == |rBytes| == 32
  {
    && DecodesTo(rBytes, ra) && DecodesTo(publicKey, aa)
    && ShownAlike(Fold(ScalarValue(s), PointOf(b)), Plus(ra, Fold(ScalarValue(k), aa)))
  }

  /**
   What verification accepts, for any bytes whatever: s below L, two strings that decode to points R and A of
   the curve, and [s]b and R + [k]A that show the same.
   */
  lemma AcceptsExactly(b: EdwardsPoint, publicKey: seq<byte>, rBytes: seq<byte>, s: seq<byte>, k: seq<byte>)
    requires PrimeAndNonSquare() && Associative(CurveD(), P) && Valid(b) && b.Bounded()
    requires |publicKey| == |rBytes| == |s| == |k| == 32
    ensures AcceptsAt(b, publicKey, rBytes, s, k)
       <==> ScalarValue(s) < L && exists ra, aa :: Satisfies(b, publicKey, rBytes, s, k, ra, aa)
  {
    hide ValueOf, ScalarMul, Associative, PrimeAndNonSquare, PointOf, EdwardsPoint.Bounded, Valid, Compress,
      ShownAlike, SumOf, Decompress, Plus, Fold, CurveD, DecodedX, RootResidue, ResidueY, OnAffine;
    ScalarValueIs(s);
    DecompressBounded(publicKey);
    DecompressBounded(rBytes);
    if Decompress(publicKey).Some? && Decompress(rBytes).Some? {
      DecodedOnCurve(publicKey);
      DecodedOnCurve(rBytes);
      var a, r := Decompress(publicKey).value, Decompress(rBytes).value;
      ComparedAlike(b, s, r, a, k, PointOf(r), PointOf(a));
      if AcceptsAt(b, publicKey, rBytes, s, k) {
        assert Satisfies(b, publicKey, rBytes, s, k, PointOf(r), PointOf(a));
      }
    }
  }

  lemma ScalarValueIs(s: seq<byte>)
    ensures ScalarValue(s) == ValueOf(256, s)
  {
  }

  /** One signature of a seed, with its key, secret, nonce, commitment and challenge. */
  ghost predicate SignedWith(b: EdwardsPoint, seed: seq<byte>, message: seq<byte>, publicKey: seq<byte>,
                             signature: seq<byte>, a: seq<byte>, r: seq<byte>, rBytes: seq<byte>, k: seq<byte>)
    requires b.Bounded() && |seed| == |publicKey| == |r| == |rBytes| == |k| == |a| == 32 && |message| < MAX_MESSAGE
  {
    hide *;
    && publicKey == PublicKey(b, seed) && a == Secret(seed)
    && r == Nonce(seed, message) && rBytes == BaseMultiple(b, r) && k == Challenge(rBytes, publicKey, message)
    && signature == Signature(b, seed, publicKey, message)
  }

  lemma SignatureParts(b: EdwardsPoint, seed: seq<byte>, message: seq<byte>, publicKey: seq<byte>, signature: seq<byte>,
                       a: seq<byte>, r: seq<byte>, rBytes: seq<byte>, k: seq<byte>)
    requires b.Bounded() && |seed| == |publicKey| == |r| == |rBytes| == |k| == |a| == 32 && |message| < MAX_MESSAGE
    requires SignedWith(b, seed, message, publicKey, signature, a, r, rBytes, k)
    ensures signature == rBytes + Response(k, a, r) && |signature| == 64 && k == Challenge(rBytes, publicKey, message)
  {
    hide Secret, Nonce, BaseMultiple, Response, Challenge, EdwardsPoint.Bounded, PublicKey;
  }

  /** A signature of the right length that verification accepts. */
  predicate Accepted(b: EdwardsPoint, publicKey: seq<byte>, message: seq<byte>, signature: seq<byte>)
    requires b.Bounded() && |publicKey| == 32 && |message| < MAX_MESSAGE
  {
    hide *;
    |signature| == 64 && Accepts(b, publicKey, message, signature)
  }

  lemma AcceptsParts(b: EdwardsPoint, publicKey: seq<byte>, message: seq<byte>, rBytes: seq<byte>, k: seq<byte>,
                     s: seq<byte>, signature: seq<byte>)
    requires b.Bounded() && |publicKey| == |rBytes| == |k| == |s| == 32 && |message| < MAX_MESSAGE
    requires k == Challenge(rBytes, publicKey, message) && signature == rBytes + s
    ensures Accepts(b, publicKey, message, signature) == AcceptsAt(b, publicKey, rBytes, s, k)
  {
    hide Challenge, AcceptsAt, EdwardsPoint.Bounded;
    assert signature[..32] == rBytes && signature[32..] == s;
  }

  // ---------------------------------------------------------------- what signing makes

  lemma ImageIs(b: EdwardsPoint, n: seq<byte>)
    requires CurveGroup(b) && b.Bounded() && |n| == 32
    ensures PrimeAndNonSquare() && Valid(ScalarMul(b, n)) && Image(b, n) == PointOf(ScalarMul(b, n))
    ensures OnAffine(Image(b, n), CurveD(), P)
  {
    hide CurveGroup, PrimeAndNonSquare, ScalarMul, Associative, EdwardsPoint.Bounded, ToAffine, Proper, OnAffine,
      CurveField;
    GroupFacts(b);
    ScalarMulMultiple(b, n);
    FieldFacts();
    ValidOnAffine(ScalarMul(b, n));
  }

  /** The encoding of a multiple decodes to it exactly when that point survives. */
  lemma DecodedMultiple(b: EdwardsPoint, n: seq<byte>)
    requires CurveGroup(b) && b.Bounded() && |n| == 32
    ensures 0 <= Image(b, n).x < P && 0 <= Image(b, n).y < P
    ensures BaseMultiple(b, n) == EncodeWritten(Image(b, n))
    ensures DecodesTo(BaseMultiple(b, n), Image(b, n)) <==> Survives(Image(b, n))
  {
    hide CurveGroup, PrimeAndNonSquare, Valid, PointOf, Compress, ScalarMul, EncodeWritten, EdwardsPoint.Bounded,
      CurveD, SolvedCurve, Survives, DecodesTo, LargePoint, Positive, Associative;
    GroupFacts(b);
    ValidPositive(b);
    ScalarMulLarge(b, n);
    ImageIs(b, n);
    CompressWritten(ScalarMul(b, n));
    DecodeWritten(Image(b, n));
  }

  /** The bytes that stand for a point. */
  ghost predicate Encodes(s: seq<byte>, q: Affine) {
    0 <= q.x && 0 <= q.y && s == EncodeWritten(q)
  }

  /** A multiple of the base point is encoded as the multiple by the scalar's value. */
  lemma EncodedMultiple(b: EdwardsPoint, n: seq<byte>)
    requires CurveGroup(b) && b.Bounded() && |n| == 32
    ensures PrimeAndNonSquare() && Valid(b)
    ensures Encodes(BaseMultiple(b, n), Fold(ScalarValue(n), PointOf(b)))
  {
    hide CurveGroup, Image, BaseMultiple, EncodeWritten, Fold, PointOf, ScalarValue, EdwardsPoint.Bounded, Survives,
      DecodesTo, PrimeAndNonSquare, Valid;
    DecodedMultiple(b, n);
    ImageMultiple(b, n);
  }

  /**
   Sections 5.1.5 and 5.1.6 of RFC 8032 in numbers, for the base point B: with a, r and k the numbers of seed,
   nonce and challenge, the public key encodes [a]B, and the signature is the encoding of [r]B and r + k a modulo L.
   */
  lemma SignatureNumbers(b: EdwardsPoint, seed: seq<byte>, publicKey: seq<byte>, message: seq<byte>)
    requires CurveGroup(b) && b.Bounded() && |seed| == |publicKey| == 32 && |message| < MAX_MESSAGE
    ensures PrimeAndNonSquare() && Valid(b)
    ensures Encodes(PublicKey(b, seed), Fold(SecretNumber(seed), PointOf(b)))
    ensures var s, r := Signature(b, seed, publicKey, message), NonceNumber(seed, message);
      && Encodes(s[..32], Fold(r, PointOf(b)))
      && ScalarValue(s[32..]) == (r + ChallengeNumber(s[..32], publicKey, message) * SecretNumber(seed)) % L
  {
    hide CurveGroup, Secret, Nonce, Challenge, BaseMultiple, Response, Encodes, Fold, PointOf, ScalarValue,
      EdwardsPoint.Bounded, PrimeAndNonSquare, Valid, SecretNumber, NonceNumber, ChallengeNumber;
    var secret, nonce := Secret(seed), Nonce(seed, message);
    var rBytes := BaseMultiple(b, nonce);
    var challenge := Challenge(rBytes, publicKey, message);
    SecretValue(seed);
    NonceValue(seed, message);
    ChallengeValue(rBytes, publicKey, message);
    EncodedMultiple(b, secret);
    EncodedMultiple(b, nonce);
    var n := ResponseValue(challenge, secret, nonce);
    var s := Signature(b, seed, publicKey, message);
    assert s[..32] == rBytes && s[32..] == Response(challenge, secret, nonce);
  }

  /** Section 5.1.7 of RFC 8032 in numbers: what is accepted, for any bytes. */
  lemma AcceptsNumbers(b: EdwardsPoint, publicKey: seq<byte>, message: seq<byte>, signature: seq<byte>)
    requires PrimeAndNonSquare() && Associative(CurveD(), P) && Valid(b) && b.Bounded()
    requires |publicKey| == 32 && |signature| == 64 && |message| < MAX_MESSAGE
    ensures var s, k := ScalarValue(signature[32..]), ChallengeNumber(signature[..32], publicKey, message);
      Accepts(b, publicKey, message, signature) <==> s < L && exists ra, aa ::
        && DecodesTo(signature[..32], ra) && DecodesTo(publicKey, aa)
        && ShownAlike(Fold(s, PointOf(b)), Plus(ra, Fold(k, aa)))
  {
    hide AcceptsAt, Challenge, ChallengeNumber, Fold, Plus, PointOf, ScalarValue, EdwardsPoint.Bounded,
      PrimeAndNonSquare, Valid, DecodesTo, ShownAlike, Associative;
    var rBytes, s := signature[..32], signature[32..];
    var k := Challenge(rBytes, publicKey, message);
    ChallengeValue(rBytes, publicKey, message);
    assert signature == rBytes + s;
    AcceptsParts(b, publicKey, message, rBytes, k, s, signature);
    AcceptsExactly(b, publicKey, rBytes, s, k);
    if ra, aa :| Satisfies(b, publicKey, rBytes, s, k, ra, aa) {
      assert DecodesTo(rBytes, ra) && DecodesTo(publicKey, aa);
    }
    if ra, aa :| DecodesTo(rBytes, ra) && DecodesTo(publicKey, aa)
                 && ShownAlike(Fold(ScalarValue(s), PointOf(b)), Plus(ra, Fold(ScalarValue(k), aa))) {
      assert Satisfies(b, publicKey, rBytes, s, k, ra, aa);
    }
  }

  lemma SignedPoints(b: EdwardsPoint, seed: seq<byte>, message: seq<byte>, publicKey: seq<byte>, signature: seq<byte>,
                     a: seq<byte>, r: seq<byte>, rBytes: seq<byte>, k: seq<byte>)
    requires b.Bounded() && |seed| == |publicKey| == |r| == |rBytes| == |k| == |a| == 32 && |message| < MAX_MESSAGE
    requires SignedWith(b, seed, message, publicKey, signature, a, r, rBytes, k)
    ensures publicKey == BaseMultiple(b, a) && rBytes == BaseMultiple(b, r)
  {
    hide Secret, Nonce, BaseMultiple, Response, Challenge, EdwardsPoint.Bounded, Signature;
  }

  /** A signature is accepted exactly when what its key and commitment decode to satisfies the equation. */
  lemma SignatureExactly(b: EdwardsPoint, seed: seq<byte>, message: seq<byte>, publicKey: seq<byte>,
                         signature: seq<byte>, a: seq<byte>, r: seq<byte>, rBytes: seq<byte>, k: seq<byte>)
    requires b.Bounded() && |seed| == |publicKey| == |r| == |rBytes| == |k| == |a| == 32 && |message| < MAX_MESSAGE
    requires SignedWith(b, seed, message, publicKey, signature, a, r, rBytes, k) && CurveGroup(b)
    ensures PrimeAndNonSquare() && Valid(b)
    ensures Accepted(b, publicKey, message, signature)
       <==> exists ra, aa :: Satisfies(b, publicKey, rBytes, Response(k, a, r), k, ra, aa)
  {
    hide SignedWith, CurveGroup, BaseMultiple, EdwardsPoint.Bounded, AcceptsAt, Accepts, Response, Challenge,
      Satisfies, PrimeAndNonSquare, Valid, Associative, CurveD, ScalarValue, Image, Fold, Plus;
    GroupFacts(b);
    SignatureParts(b, seed, message, publicKey, signature, a, r, rBytes, k);
    AcceptsParts(b, publicKey, message, rBytes, k, Response(k, a, r), signature);
    ResponseEquation(b, k, a, r);
    AcceptsExactly(b, publicKey, rBytes, Response(k, a, r), k);
  }

  /** Points that survive satisfy the equation. */
  lemma SurvivorsSatisfy(b: EdwardsPoint, publicKey: seq<byte>, rBytes: seq<byte>, k: seq<byte>, a: seq<byte>,
                         r: seq<byte>)
    requires CurveGroup(b) && b.Bounded() && |publicKey| == |rBytes| == |k| == |a| == |r| == 32
    requires publicKey == BaseMultiple(b, a) && rBytes == BaseMultiple(b, r)
    requires Survives(Image(b, a)) && Survives(Image(b, r))
    ensures PrimeAndNonSquare() && Valid(b)
    ensures Satisfies(b, publicKey, rBytes, Response(k, a, r), k, Image(b, r), Image(b, a))
  {
    hide CurveGroup, Survives, BaseMultiple, EdwardsPoint.Bounded, DecodesTo, Image, Fold, Plus, PointOf, ScalarValue,
      Response, PrimeAndNonSquare, Valid;
    DecodedMultiple(b, a);
    DecodedMultiple(b, r);
    ResponseEquation(b, k, a, r);
    ImageMultiple(b, Response(k, a, r));
  }

  /** What a seed signs, its public key verifies, when [a]b and [r]b survive being encoded. */
  lemma SignatureVerifies(b: EdwardsPoint, seed: seq<byte>, message: seq<byte>, publicKey: seq<byte>,
                          signature: seq<byte>, a: seq<byte>, r: seq<byte>, rBytes: seq<byte>, k: seq<byte>)
    requires b.Bounded() && |seed| == |publicKey| == |r| == |rBytes| == |k| == |a| == 32 && |message| < MAX_MESSAGE
    requires SignedWith(b, seed, message, publicKey, signature, a, r, rBytes, k)
    requires CurveGroup(b) && Survives(Image(b, a)) && Survives(Image(b, r))
    ensures Accepted(b, publicKey, message, signature)
  {
    hide SignedWith, CurveGroup, Survives, Accepted, BaseMultiple, EdwardsPoint.Bounded, Image, Satisfies, Response,
      PrimeAndNonSquare, Valid;
    SignedPoints(b, seed, message, publicKey, signature, a, r, rBytes, k);
    SurvivorsSatisfy(b, publicKey, rBytes, k, a, r);
    SignatureExactly(b, seed, message, publicKey, signature, a, r, rBytes, k);
  }
}
