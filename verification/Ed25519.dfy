/** `C25519::sign`, `C25519::verify` and `C25519::_calcPubED`, over any abelian group of curve
    points with a base of order L and any hash function. */
module Ed25519 {
  import opened Words
  import opened Options
  import opened ModArith
  import opened Limbs
  import opened Field
  import opened Fermat
  import opened Group
  import opened Edwards
  import opened Ge25519
  import opened Sc25519
  import opened ScalarOps
  import opened SquareRoot
  import opened PointCodec
  import opened DoubleScalarMult
  import opened BaseScalarMult
  import ScalarMult

  type Digest = s: seq<byte> | |s| == 64 witness seq(64, _ => 0)

  type Hash = seq<byte> -> Digest

  /** The group, its base point and what the code has tabulated about them. */
  datatype Setting<!G(!new)> = Setting(c: Curve<G>, base: G)
  {
    ghost predicate Valid()
    {
      c.Law() && c.Full() && c.group.Mul(L, base) == c.group.zero
    }

    ghost function Multiple(n: int): G
    {
      c.group.Mul(n, base)
    }

    ghost function Encoded(g: G): int
    {
      Encoding(c.x(g), c.y(g))
    }

    /** The number that packing the limbs `p` of the point writes. */
    ghost function Packed(g: G, p: Ge): int
    {
      Written(c.x(g), c.y(g), Fe25519.Below(AffineX(p)), Fe25519.Below(AffineY(p)))
    }

    /** Both coordinates stay out of the window in which packing depends on the limbs. */
    ghost predicate Packable(g: G)
    {
      Safe(c.x(g)) && Safe(c.y(g))
    }

    /** What decoding makes of the encoding of `a`: its negative, or `a` itself when the root it
        finds ends from 2^255 on. */
    ghost function KeyPoint(pub: seq<byte>, a: G): G
      requires |pub| == 32
    {
      if Fe25519.Below(KeyRoot(pub)) then c.group.neg(a) else a
    }

    /** What decoding makes of any key: the point with the decoded coordinates if it is not the
        encoding of `a`. */
    ghost function KeyElement(pub: seq<byte>, a: G): G
      requires |pub| == 32
    {
      if Val(pub) == Encoded(a) then KeyPoint(pub, a) else c.at(Val(Decoded(pub).x), Val(Unpack(pub)))
    }
  }

  datatype Tables = Tables(multiples: seq<Aff>, base: Ge)

  ghost predicate Tabulated<G(!new)>(e: Setting<G>, t: Tables)
  {
    BaseTable(e.c, t.multiples, e.base) && Represents(e.c, t.base, e.base)
  }

  // ------------------------------------------------------------------------
  // What is hashed into what

  /** The secret scalar behind a private key. */
  function Secret(hash: Hash, priv: seq<byte>): int
  {
    Val(ScalarMult.ClampBytes(hash(priv)[..32]))
  }

  function Nonce(hash: Hash, priv: seq<byte>, msg: seq<byte>): int
  {
    Val(hash(hash(priv)[32..] + hash(msg)[..32])) % L
  }

  function Challenge(hash: Hash, r: seq<byte>, pub: seq<byte>, d: seq<byte>): int
  {
    Val(hash(r + pub + d)) % L
  }

  /** The secret scalar is the clamped number that the first half of the hashed key spells. */
  lemma SecretIs(hash: Hash, priv: seq<byte>)
    ensures Val(hash(priv)[..32]) >= 0 && Secret(hash, priv) == ScalarMult.Clamped(Val(hash(priv)[..32]))
  {
    hide Val, ScalarMult.Clamped, ScalarMult.ClampBytes;
    ScalarMult.ClampValue(hash(priv)[..32]);
  }

  /** The nonce hashes 64 bytes: the second half of the hashed key, then the digest. */
  lemma NonceInput(hash: Hash, priv: seq<byte>, msg: seq<byte>) returns (x: seq<byte>)
    ensures |x| == 64 && x[..32] == hash(priv)[32..] && x[32..] == hash(msg)[..32]
    ensures Nonce(hash, priv, msg) == Val(hash(x)) % L
  {
    hide Val;
    x := hash(priv)[32..] + hash(msg)[..32];
  }

  /** The challenge hashes 96 bytes: R, the public key, then the digest. */
  lemma ChallengeInput(hash: Hash, r: seq<byte>, pub: seq<byte>, d: seq<byte>) returns (y: seq<byte>)
    requires |r| == |pub| == |d| == 32
    ensures |y| == 96 && y[..32] == r && y[32..64] == pub && y[64..] == d
    ensures Challenge(hash, r, pub, d) == Val(hash(y)) % L
  {
    hide Val;
    y := r + pub + d;
  }

  /** Different digests are hashed into their nonces through different strings. */
  lemma NonceInputsDiffer(hash: Hash, priv: seq<byte>, msg: seq<byte>, msg': seq<byte>)
    returns (x: seq<byte>, x': seq<byte>)
    requires hash(msg)[..32] != hash(msg')[..32]
    ensures Nonce(hash, priv, msg) == Val(hash(x)) % L && Nonce(hash, priv, msg') == Val(hash(x')) % L && x != x'
  {
    hide Val, Nonce;
    x := NonceInput(hash, priv, msg);
    x' := NonceInput(hash, priv, msg');
  }

  /** Two responses h a + k and h' a + k to different challenges with one nonce fix the secret modulo
      the order: no other secret and nonce give both. */
  lemma OneNonceOneSecret(h: int, h': int, a: int, k: int, b: int, m: int)
    requires Domain(L) && !Cong(h, h', L)
    requires Cong(h * a + k, h * b + m, L) && Cong(h' * a + k, h' * b + m, L)
    ensures Cong(a, b, L)
  {
    hide Domain, Cong;
    CongSub(h * a + k, h * b + m, h' * a + k, h' * b + m, L);
    CongSub(h * a + k - (h' * a + k), h * b + m - (h' * b + m), h * b + m - (h' * b + m), h * b + m - (h' * b + m), L)
      by {
      CongSelf(h * b + m - (h' * b + m));
    }
    DifferenceProduct(h, h', a, k, b, m);
    CancelIn(h - h', a - b, L);
    if Cong(h - h', 0, L) {
      CongShift(h, h');
      assert false;
    }
    CongShift(a, b);
  }

  lemma CongSelf(x: int)
    ensures Cong(x, x, L)
  {
  }

  lemma CongShift(x: int, y: int)
    requires Cong(x - y, 0, L)
    ensures Cong(x, y, L)
  {
    CongAdd(x - y, 0, y, y, L);
  }

  lemma DifferenceProduct(h: int, h': int, a: int, k: int, b: int, m: int)
    ensures h * a + k - (h' * a + k) - (h * b + m - (h' * b + m)) == (h - h') * (a - b)
  {
  }

  /** The response in a signature is h b + m modulo the order. */
  predicate Answers(hash: Hash, pub: seq<byte>, sig: seq<byte>, b: int, m: int)
    requires |sig| == 96
  {
    Val(sig[32..64]) == (Challenge(hash, sig[..32], pub, sig[64..]) * b + m) % L
  }

  /** Two signatures of one key whose nonces agree and whose challenges do not: every secret and nonce
      that explain both responses are the signer's, modulo the order. */
  lemma NonceReuse<G(!new)>(e: Setting<G>, hash: Hash, priv: seq<byte>, pub: seq<byte>, msg: seq<byte>,
                            msg': seq<byte>, sig: seq<byte>, sig': seq<byte>, p: Ge, p': Ge, b: int, m: int)
    requires Domain(L) && Signed(e, hash, priv, pub, msg, sig, p) && Signed(e, hash, priv, pub, msg', sig', p')
    requires Nonce(hash, priv, msg) == Nonce(hash, priv, msg')
    requires Challenge(hash, sig[..32], pub, sig[64..]) != Challenge(hash, sig'[..32], pub, sig'[64..])
    requires Answers(hash, pub, sig, b, m) && Answers(hash, pub, sig', b, m)
    ensures Cong(Secret(hash, priv), b, L)
  {
    hide Val, Domain, Represents, e.Packed, e.Multiple, Secret, Nonce;
    var h, h' := Challenge(hash, sig[..32], pub, sig[64..]), Challenge(hash, sig'[..32], pub, sig'[64..]);
    DifferentResidues(h, h');
    OneNonceOneSecret(h, h', Secret(hash, priv), Nonce(hash, priv, msg), b, m);
  }

  lemma DifferentResidues(h: int, h': int)
    requires 0 <= h < L && 0 <= h' < L && h != h'
    ensures !Cong(h, h', L)
  {
  }

  /** The limbs the code computes for the public key, for R, and for R on the verifying side. */
  function KeyLimbs(t: Tables, hash: Hash, priv: seq<byte>): Ge
    requires |t.multiples| == 425
  {
    BaseLimbs(t.multiples, Secret(hash, priv) % L)
  }

  function NonceLimbs(t: Tables, hash: Hash, priv: seq<byte>, msg: seq<byte>): Ge
    requires |t.multiples| == 425
  {
    BaseLimbs(t.multiples, Nonce(hash, priv, msg))
  }

  ghost function VerifierLimbs(t: Tables, hash: Hash, pub: seq<byte>, sig: seq<byte>): Ge
    requires |pub| == 32 && |sig| == 96
  {
    var h := Challenge(hash, sig[..32], pub, sig[64..]);
    ComboLimbs(Table16(Decoded(pub), t.base), h, Val(sig[32..64]) % L)
  }

  /** The signature equation: R is the packed [k]B, and s is h a + k modulo the order, h hashing
      R, the public key and the message digest. */
  ghost predicate Signed<G(!new)>(e: Setting<G>, hash: Hash, priv: seq<byte>, pub: seq<byte>, msg: seq<byte>,
                                  sig: seq<byte>, p: Ge)
  {
    var k := Nonce(hash, priv, msg);
    && |sig| == 96
    && sig[64..] == hash(msg)[..32]
    && Represents(e.c, p, e.Multiple(k)) && Val(sig[..32]) == e.Packed(e.Multiple(k), p)
    && Val(sig[32..64]) == (Challenge(hash, sig[..32], pub, sig[64..]) * Secret(hash, priv) + k) % L
  }

  /** The point [h]N + [s]B that a verifier computes from the negated key N. */
  ghost function Recomputed<G(!new)>(e: Setting<G>, hash: Hash, n: G, pub: seq<byte>, sig: seq<byte>): G
    requires |sig| == 96
  {
    Combo(e.c.group, Challenge(hash, sig[..32], pub, sig[64..]), Val(sig[32..64]) % L, n, e.base)
  }

  /** The verification equation of section 5.1.7 of RFC 8032, without the cofactor. */
  ghost predicate Accepts<G(!new)>(e: Setting<G>, hash: Hash, a: G, pub: seq<byte>, msg: seq<byte>, sig: seq<byte>)
    requires |sig| == 96
  {
    && sig[64..] == hash(msg)[..32]
    && Val(sig[..32]) == e.Encoded(Recomputed(e, hash, e.c.group.neg(a), pub, sig))
  }

  // ------------------------------------------------------------------------
  // The equation

  lemma NegatedMultiple<G(!new)>(g: Group<G>, h: nat, a: int, base: G)
    requires g.Abelian()
    ensures g.Mul(h, g.neg(g.Mul(a, base))) == g.Mul(-(h * a), base)
  {
    hide g.Abelian, g.Times;
    MulNeg(g, a, base);
    assert g.Mul(h, g.Mul(-a, base)) == g.Times(h, g.Mul(-a, base));
    TimesMul(g, h, -a, base);
    assert h * (-a) == -(h * a);
  }

  /** [h](-[a]B) + [(h a + k) mod L]B is [k]B. */
  lemma EquationHolds<G(!new)>(g: Group<G>, h: nat, a: nat, k: nat, base: G)
    requires g.Abelian() && g.Mul(L, base) == g.zero
    ensures Combo(g, h, (h * a + k) % L, g.neg(g.Mul(a, base)), base) == g.Mul(k, base)
  {
    hide g.Abelian, g.Mul;
    assert 0 <= h * a;
    NegatedMultiple(g, h, a, base);
    MulModOrder(g, h * a + k, L, base);
    MulAdd(g, -(h * a), h * a + k, base);
  }

  lemma HashesAreNatural(s: seq<byte>)
    ensures 0 <= Val(s)
  {
    ValDigits(s);
  }

  /** The verifier of a signature recomputes [k]B, and the signature satisfies the verification
      equation exactly when the signer's limbs of [k]B pack. */
  lemma SignedIsAccepted<G(!new)>(e: Setting<G>, hash: Hash, priv: seq<byte>, pub: seq<byte>, msg: seq<byte>,
                                  sig: seq<byte>, p: Ge)
    requires e.Valid() && Signed(e, hash, priv, pub, msg, sig, p)
    ensures var a := e.Multiple(Secret(hash, priv));
            && Recomputed(e, hash, e.c.group.neg(a), pub, sig) == e.Multiple(Nonce(hash, priv, msg))
            && (Accepts(e, hash, a, pub, msg, sig) <==> Packs(p))
  {
    hide Val, e.c.Law, Prime, e.c.group.Mul, Combo, Encoding, Written, ScalarMult.ClampBytes, Represents,
         Fe25519.Below, AffineX, AffineY;
    LawAbelian(e.c);
    var h := Challenge(hash, sig[..32], pub, sig[64..]);
    var a, k := Secret(hash, priv), Nonce(hash, priv, msg);
    HashesAreNatural(ScalarMult.ClampBytes(hash(priv)[..32]));
    EquationHolds(e.c.group, h, a, k, e.base);
    ModMod(h * a + k);
    var g := e.Multiple(k);
    WrittenIffEncoding(e.c.x(g), e.c.y(g), Fe25519.Below(AffineX(p)), Fe25519.Below(AffineY(p)));
  }

  lemma ModMod(v: int)
    ensures v % L % L == v % L
  {
    CongMod(v, L);
  }

  // ------------------------------------------------------------------------
  // The code

  /** `get_hram`: hashes R, the public key and the digest. The buffer it fills may be the
      signature itself. */
  method GetHram(hash: Hash, sm: array<byte>, pk: seq<byte>, playground: array<byte>) returns (hram: Digest)
    requires sm.Length == playground.Length == 96 && |pk| == 32
    modifies playground
    ensures playground[..] == old(sm[..32]) + pk + old(sm[64..96])
    ensures hram == hash(old(sm[..32]) + pk + old(sm[64..96]))
  {
    ghost var was := sm[..];
    for i := 0 to 32
      invariant forall j | 0 <= j < i :: playground[j] == was[j]
      invariant sm[..] == was
    {
      playground[i] := sm[i];
      assert sm[..] == was;
    }
    for i := 32 to 64
      invariant forall j | 0 <= j < 32 :: playground[j] == was[j]
      invariant forall j | 32 <= j < i :: playground[j] == pk[j - 32]
      invariant sm[64..] == was[64..]
    {
      playground[i] := pk[i - 32];
    }
    for i := 64 to 96
      invariant forall j | 0 <= j < 32 :: playground[j] == was[j]
      invariant forall j | 32 <= j < 64 :: playground[j] == pk[j - 32]
      invariant forall j | 64 <= j < i :: playground[j] == was[j]
      invariant sm[64..] == was[64..]
    {
      assert sm[i] == sm[64..][i - 64] == was[64..][i - 64];
      playground[i] := sm[i];
      assert sm[64..] == was[64..];
    }
    assert playground[..] == was[..32] + pk + was[64..96];
    hram := hash(playground[..]);
  }

  method CopyInto(a: array<byte>, at: nat, s: seq<byte>)
    requires at + |s| <= a.Length
    modifies a
    ensures a[at..at + |s|] == s
    ensures a[..at] == old(a[..at]) && a[at + |s|..] == old(a[at + |s|..])
  {
    for i := 0 to |s|
      invariant forall j | 0 <= j < i :: a[at + j] == s[j]
      invariant a[..at] == old(a[..at]) && a[at + |s|..] == old(a[at + |s|..])
    {
      a[at + i] := s[i];
    }
  }

  /** The expanded secret key: the hash of the private key, its first half clamped. */
  method Expand(hash: Hash, priv: seq<byte>) returns (extsk: seq<byte>)
    ensures |extsk| == 64 && extsk[..32] == ScalarMult.ClampBytes(hash(priv)[..32]) && extsk[32..] == hash(priv)[32..]
  {
    var d: seq<byte> := hash(priv);
    extsk := d[0 := d[0] - d[0] % 8];
    extsk := extsk[31 := extsk[31] % 128];
    extsk := extsk[31 := if extsk[31] < 64 then extsk[31] + 64 else extsk[31]];
    assert extsk[31] == d[31] % 64 + 64;
    assert extsk[..32] == ScalarMult.ClampBytes(d[..32]);
  }

  /** The public key is the packed [a]B: its encoding exactly when the limbs of [a]B pack. */
  method CalcPubEd<G(!new)>(hash: Hash, priv: seq<byte>, t: Tables, ghost e: Setting<G>) returns (pub: seq<byte>)
    requires e.Valid() && Tabulated(e, t)
    ensures |pub| == 32 && |t.multiples| == 425
    ensures var a, p := e.Multiple(Secret(hash, priv)), KeyLimbs(t, hash, priv);
            && Represents(e.c, p, a) && Val(pub) == e.Packed(a, p)
            && (Val(pub) == e.Encoded(a) <==> Packs(p)) && (e.Packable(a) ==> Packs(p))
  {
    hide Val, e.c.Law, Prime, e.c.group.Mul, e.c.group.Abelian, Safe, Encoding, Written, ScalarMult.ClampBytes,
         Represents, BaseTable, Packs, AffineX, AffineY, Fe25519.Below, BaseLimbs;
    var extsk := Expand(hash, priv);
    var scsk := new u32[32];
    ScFrom32Bytes(scsk, extsk[..32]);
    ghost var a := Secret(hash, priv);
    HashesAreNatural(extsk[..32]);
    LawAbelian(e.c);
    MulModOrder(e.c.group, a, L, e.base);
    pub := PackMultiple(scsk, t, e, a);
  }

  /** Multiplies the base point and packs it into a fresh buffer. */
  method PackMultiple<G(!new)>(sck: array<u32>, t: Tables, ghost e: Setting<G>, ghost k: int) returns (r: seq<byte>)
    requires e.Valid() && Tabulated(e, t) && sck.Length == 32 && Scalar(sck[..])
    requires e.Multiple(Val(sck[..])) == e.Multiple(k)
    ensures |r| == 32 && |t.multiples| == 425
    ensures var g, p := e.Multiple(k), BaseLimbs(t.multiples, Val(sck[..]));
            && Represents(e.c, p, g) && Val(r) == e.Packed(g, p)
            && (Val(r) == e.Encoded(g) <==> Packs(p)) && (e.Packable(g) ==> Packs(p))
  {
    hide Val, e.c.Law, Prime, e.c.group.Mul, e.c.group.Abelian, Safe, Encoding, Written, Represents, BaseTable, Packs,
         AffineX, AffineY, Fe25519.Below, BaseLimbs;
    var ger := ScalarmultBase(sck, t.multiples, e.c, e.base);
    LawAbelian(e.c);
    var packed := PackPoint(ger, e.c, e.Multiple(k));
    r := packed[..];
    if e.Packable(e.Multiple(k)) {
      SafePacks(e.c, ger, e.Multiple(k));
    }
  }

  /** s = h a + k modulo the order, from the hashed bytes. */
  method Respond(hram: Digest, extsk: seq<byte>, sck: array<u32>) returns (s: seq<byte>)
    requires |extsk| == 32 && sck.Length == 32 && Scalar(sck[..])
    ensures |s| == 32 && Val(s) == ((Val(hram) % L) * Val(extsk) + Val(sck[..])) % L
  {
    hide Val;
    var scs, scsk := new u32[32], new u32[32];
    ScFrom64Bytes(scs, hram);
    ScFrom32Bytes(scsk, extsk);
    ghost var h, a, k := Val(hram) % L, Val(extsk), Val(sck[..]);
    ScMul(scs, scs, scsk);
    ScAdd(scs, scs, sck);
    s := ScTo32Bytes(scs);
    RespondArith(h, a, k);
  }

  lemma RespondArith(h: int, a: int, k: int)
    ensures ((h * (a % L)) % L + k) % L == (h * a + k) % L
  {
    CongMod(a, L);
    CongMul(h, h, a % L, a, L);
    CongMod(h * (a % L), L);
    CongAdd((h * (a % L)) % L, h * a, k, k, L);
  }

  /** Before the nonce is hashed, the tail of the signature holds the second half of the expanded key
      and the digest. */
  method LayOut(hash: Hash, priv: seq<byte>, msg: seq<byte>, sig: array<byte>) returns (extsk: seq<byte>)
    requires sig.Length == 96
    modifies sig
    ensures |extsk| == 64 && extsk[..32] == ScalarMult.ClampBytes(hash(priv)[..32])
    ensures sig[32..] == hash(priv)[32..] + hash(msg)[..32]
  {
    hide ScalarMult.ClampBytes;
    var digest: seq<byte> := hash(msg);
    extsk := Expand(hash, priv);
    CopyInto(sig, 32, extsk[32..]);
    CopyInto(sig, 64, digest[..32]);
    assert sig[32..64] == sig[..64][32..];
  }

  lemma TailOf(s: seq<byte>, a: seq<byte>, b: seq<byte>)
    requires |s| == 96 && |a| == 32 && s[32..] == a + b
    ensures s[64..] == b
  {
    assert s[64..] == s[32..][32..];
  }

  /** R is the packed [k]B with k hashing the 64 bytes `x`, and s is h a + k modulo the order with h
      hashing the 96 bytes `y`. */
  method Sign<G(!new)>(hash: Hash, priv: seq<byte>, pub: seq<byte>, msg: seq<byte>, sig: array<byte>, t: Tables,
                       ghost e: Setting<G>) returns (ghost x: seq<byte>, ghost y: seq<byte>)
    requires |pub| == 32 && sig.Length == 96 && e.Valid() && Tabulated(e, t)
    modifies sig
    ensures Hashed(hash, priv, pub, msg, sig[..], x, y) && Equation(e, t, hash, priv, sig[..], x, y)
    ensures |t.multiples| == 425 && Signed(e, hash, priv, pub, msg, sig[..], NonceLimbs(t, hash, priv, msg))
    ensures e.Packable(e.Multiple(Nonce(hash, priv, msg))) ==> Packs(NonceLimbs(t, hash, priv, msg))
  {
    hide Val, e.Valid, Tabulated, ScalarMult.ClampBytes, e.Packable, e.Multiple, e.Encoded, e.Packed, Packs,
         Represents, BaseLimbs, Hashed, Equation;
    var extsk := LayOut(hash, priv, msg, sig);
    ghost var laid := sig[..];
    assert sig[32..96] == laid[32..];
    var hmg := hash(sig[32..96]);
    var sck := new u32[32];
    ScFrom64Bytes(sck, hmg);
    var r := PackMultiple(sck, t, e, Nonce(hash, priv, msg));
    assert sig[..] == laid;
    CopyInto(sig, 0, r);
    assert sig[..] == r + laid[32..];
    TailOf(laid, hash(priv)[32..], hash(msg)[..32]);
    assert sig[64..96] == sig[..][64..] == laid[64..];
    var hram := GetHram(hash, sig, pub, sig);
    var s := Respond(hram, extsk[..32], sck);
    CopyInto(sig, 32, s);
    assert sig[..][..32] == r && sig[..][64..] == hash(msg)[..32] && sig[..][32..64] == s;
    x, y := SignedMeans(e, t, hash, priv, pub, msg, sig[..]);
  }

  /** What goes into the two hashes of a signature, byte by byte, and what it ends with. */
  ghost predicate Hashed(hash: Hash, priv: seq<byte>, pub: seq<byte>, msg: seq<byte>, sig: seq<byte>,
                         x: seq<byte>, y: seq<byte>)
  {
    && |sig| == 96 && sig[64..] == hash(msg)[..32]
    && |x| == 64 && x[..32] == hash(priv)[32..] && x[32..] == hash(msg)[..32]
    && |y| == 96 && y[..32] == sig[..32] && y[32..64] == pub && y[64..] == hash(msg)[..32]
  }

  /** R is the packed [k]B and s is h a + k modulo the order, with k and h the hashes of `x` and `y`
      as numbers and a the clamped first half of the hashed key. */
  ghost predicate Equation<G(!new)>(e: Setting<G>, t: Tables, hash: Hash, priv: seq<byte>, sig: seq<byte>,
                                    x: seq<byte>, y: seq<byte>)
  {
    && |sig| == 96 && |t.multiples| == 425 && Val(hash(priv)[..32]) >= 0
    && var a, k, h := ScalarMult.Clamped(Val(hash(priv)[..32])), Val(hash(x)) % L, Val(hash(y)) % L;
       && Val(sig[..32]) == e.Packed(e.Multiple(k), BaseLimbs(t.multiples, k))
       && Val(sig[32..64]) == (h * a + k) % L
  }

  /** The signature equation in terms of the bytes hashed. */
  lemma SignedMeans<G(!new)>(e: Setting<G>, t: Tables, hash: Hash, priv: seq<byte>, pub: seq<byte>, msg: seq<byte>,
                             sig: seq<byte>) returns (x: seq<byte>, y: seq<byte>)
    requires |pub| == 32 && |t.multiples| == 425
    requires Signed(e, hash, priv, pub, msg, sig, NonceLimbs(t, hash, priv, msg))
    ensures Hashed(hash, priv, pub, msg, sig, x, y) && Equation(e, t, hash, priv, sig, x, y)
  {
    hide Val, Secret, Nonce, Challenge, ScalarMult.Clamped, BaseLimbs, e.Packed, e.Multiple, Represents;
    SecretIs(hash, priv);
    x := NonceInput(hash, priv, msg);
    y := ChallengeInput(hash, sig[..32], pub, sig[64..]);
  }

  lemma DecodedRepresents<G(!new)>(c: Curve<G>, e: Ge, a: G, x: int)
    requires c.Law() && Stands(e.x, x) && Stands(e.y, c.y(a)) && e.z == FeOne()
    requires e.t == Fe25519.FeProduct(e.x, e.y)
    ensures x == -c.x(a) ==> Represents(c, e, c.group.neg(a))
    ensures x == c.x(a) ==> Represents(c, e, a)
  {
    assert Eq(c.x(c.group.neg(a)), -c.x(a)) && Eq(c.y(c.group.neg(a)), c.y(a));
    hide c.Law, Stands, FeOne, Fe25519.FeProduct, Represents;
    if x == -c.x(a) {
      StandsEq(e.x, -c.x(a), c.x(c.group.neg(a)));
      StandsEq(e.y, c.y(a), c.y(c.group.neg(a)));
      StartRepresents(c, Aff(e.x, e.y), c.group.neg(a));
    }
    if x == c.x(a) {
      StartRepresents(c, Aff(e.x, e.y), a);
    }
  }

  /** A decoded point represents the group element with its coordinates. */
  lemma SolutionRepresents<G(!new)>(c: Curve<G>, e: Ge)
    requires c.Full() && Fe25519.Loose(e.x) && Fe25519.Loose(e.y) && OnCurve(Val(e.x), Val(e.y)) && e.z == FeOne()
    requires e.t == Fe25519.FeProduct(e.x, e.y)
    ensures Represents(c, e, c.at(Val(e.x), Val(e.y)))
  {
    var g := c.at(Val(e.x), Val(e.y));
    assert Eq(c.x(g), Val(e.x)) && Eq(c.y(g), Val(e.y));
    StandsSelf(e.x);
    StandsSelf(e.y);
    hide c.Full, Stands, FeOne, Fe25519.FeProduct, Represents, Val, OnCurve;
    StandsEq(e.x, Val(e.x), c.x(g));
    StandsEq(e.y, Val(e.y), c.y(g));
    StartRepresents(c, Aff(e.x, e.y), g);
  }

  /** The negated public key, and the group element it is; for the encoding of `a` decoding succeeds
      exactly when the root is found, and then yields `KeyPoint`. */
  method DecodeKey<G(!new)>(pub: seq<byte>, ghost e: Setting<G>, ghost a: G) returns (r: Option<Ge>, ghost n: G)
    requires |pub| == 32 && e.Valid()
    ensures r == if KeyFound(pub) then Some(Decoded(pub)) else None
    ensures r.Some? ==> Represents(e.c, r.value, n)
    ensures r.Some? ==> n == e.KeyElement(pub, a)
  {
    hide Val, e.c.Law, e.c.Full, Prime, e.c.group.Mul, e.c.group.Abelian, Encoding, Represents, OnCurve, SafePoint,
         KeyFound, KeyRoot, Chosen, Unpack, Fe25519.Below, Fe25519.Loose, Fe25519.FeProduct, FeOne, Denominator, Check,
         Stands;
    LawAbelian(e.c);
    PointOnCurve(e.c, a);
    r := UnpackNeg(pub);
    n := a;
    if Val(pub) == e.Encoded(a) {
      EncodingDecodes(pub, e.c.x(a), e.c.y(a));
    }
    if r.Some? {
      var get1 := r.value;
      UnpackLoose(pub);
      SolutionRepresents(e.c, get1);
      n := e.c.at(Val(get1.x), Val(get1.y));
      if Val(pub) == e.Encoded(a) {
        DecodedRepresents(e.c, get1, a, if Fe25519.Below(KeyRoot(pub)) then -e.c.x(a) else e.c.x(a));
        n := e.KeyPoint(pub, a);
      }
    }
  }

  lemma UnpackLoose(pub: seq<byte>)
    requires |pub| == 32
    ensures Fe25519.Loose(Unpack(pub))
  {
    hide Val, Unpack;
    UnpackValue(pub);
  }

  /** Recomputes R from the challenge, and compares it as it is packed. */
  method CheckEquation<G(!new)>(hram: Digest, sig: seq<byte>, get1: Ge, t: Tables,
                                ghost e: Setting<G>, ghost n: G) returns (ok: bool)
    requires |sig| == 96 && e.Valid() && Tabulated(e, t) && Represents(e.c, get1, n)
    ensures var q := Combo(e.c.group, Val(hram) % L, Val(sig[32..64]) % L, n, e.base);
            var p := ComboLimbs(Table16(get1, t.base), Val(hram) % L, Val(sig[32..64]) % L);
            && Represents(e.c, p, q) && (ok <==> Val(sig[..32]) == e.Packed(q, p))
            && (e.Packable(q) ==> Packs(p))
  {
    hide Val, e.c.Law, e.c.Full, Prime, e.c.group.Mul, Safe, Encoding, Written, Represents, BaseTable, Combo, Low254,
         e.c.group.Abelian, Packs, AffineX, AffineY, Fe25519.Below, ComboLimbs, Table16;
    LawAbelian(e.c);
    var schram, scs := new u32[32], new u32[32];
    ScFrom64Bytes(schram, hram);
    ScFrom32Bytes(scs, sig[32..64]);
    ScalarIsLow(schram[..]);
    ScalarIsLow(scs[..]);
    var get2 := DoubleScalarmult(get1, schram, t.base, scs, e.c, n, e.base);
    ghost var q := Combo(e.c.group, Val(hram) % L, Val(sig[32..64]) % L, n, e.base);
    var t2 := PackPoint(get2, e.c, q);
    ok := sig[..32] == t2[..];
    if Val(sig[..32]) == Val(t2[..]) {
      DigitsUnique(sig[..32], t2[..]);
    }
    if e.Packable(q) {
      SafePacks(e.c, get2, q);
    }
  }

  /** The verifier recomputes `p` from the negated key N and accepts exactly what that packs to. */
  ghost predicate Outcome<G(!new)>(e: Setting<G>, hash: Hash, n: G, pub: seq<byte>, msg: seq<byte>, sig: seq<byte>,
                                   p: Ge, ok: bool)
    requires |pub| == 32 && |sig| == 96
  {
    var q := Recomputed(e, hash, n, pub, sig);
    if sig[64..] == hash(msg)[..32] && KeyFound(pub)
    then Represents(e.c, p, q) && (ok <==> Val(sig[..32]) == e.Packed(q, p)) && (e.Packable(q) ==> Packs(p))
    else !ok
  }

  /** The outcome for the key as it decodes and the limbs as they are computed from it. */
  ghost predicate Judged<G(!new)>(e: Setting<G>, t: Tables, hash: Hash, a: G, pub: seq<byte>, msg: seq<byte>,
                                  sig: seq<byte>, ok: bool)
    requires |pub| == 32 && |sig| == 96
  {
    Outcome(e, hash, e.KeyElement(pub, a), pub, msg, sig, VerifierLimbs(t, hash, pub, sig), ok)
  }

  /** Verification under any 32 bytes, with no condition on keys, points or limbs; keys that encode a
      point out of the window are found and decode to its negative. */
  method Verify<G(!new)>(hash: Hash, pub: seq<byte>, msg: seq<byte>, sig: array<byte>, t: Tables,
                         ghost e: Setting<G>, ghost a: G) returns (ok: bool)
    requires |pub| == 32 && sig.Length == 96 && e.Valid() && Tabulated(e, t)
    ensures ok ==> sig[64..] == hash(msg)[..32] && KeyFound(pub)
    ensures Judged(e, t, hash, a, pub, msg, sig[..], ok)
    ensures Val(pub) == e.Encoded(a) && SafePoint(e.c.x(a), e.c.y(a)) ==> KeyFound(pub) && Fe25519.Below(KeyRoot(pub))
  {
    hide Val, e.Valid, e.Packable, e.Packed, Encoding, Represents, Tabulated, Combo, SafePoint, KeyFound, KeyRoot,
         Fe25519.Below, Packs, ComboLimbs, Table16, Decoded;
    if Val(pub) == e.Encoded(a) && SafePoint(e.c.x(a), e.c.y(a)) {
      SafeKey(e, pub, a);
    }
    var digest: seq<byte> := hash(msg);
    assert sig[..][64..] == sig[64..];
    if sig[64..] != digest[..32] {
      return false;
    }
    var get1, n := DecodeKey(pub, e, a);
    if get1 == None {
      return false;
    }
    var m := new byte[96];
    var hram := GetHram(hash, sig, pub, m);
    assert sig[..][..32] == sig[..32] && sig[..][64..] == sig[64..96];
    ok := CheckEquation(hram, sig[..], get1.value, t, e, n);
  }

  lemma SafeKey<G(!new)>(e: Setting<G>, pub: seq<byte>, a: G)
    requires |pub| == 32 && e.Valid() && Val(pub) == e.Encoded(a) && SafePoint(e.c.x(a), e.c.y(a))
    ensures KeyFound(pub) && Fe25519.Below(KeyRoot(pub))
  {
    hide Val, e.c.Law, e.c.Full, Prime, Encoding, SafePoint, KeyFound, KeyRoot, Fe25519.Below, OnCurve, Stands, Chosen,
         e.c.group.Abelian;
    LawAbelian(e.c);
    PointOnCurve(e.c, a);
    EncodingDecodes(pub, e.c.x(a), e.c.y(a));
  }

  /** When the key decodes to -a, what satisfies the verification equation is accepted exactly
      when the recomputed limbs pack, and when they pack nothing else is accepted. */
  lemma OutcomeDecides<G(!new)>(e: Setting<G>, hash: Hash, a: G, pub: seq<byte>, msg: seq<byte>, sig: seq<byte>, p: Ge,
                                ok: bool)
    requires |pub| == 32 && |sig| == 96 && KeyFound(pub) && Outcome(e, hash, e.c.group.neg(a), pub, msg, sig, p, ok)
    ensures Accepts(e, hash, a, pub, msg, sig) ==> (ok <==> Packs(p))
    ensures Packs(p) ==> (ok <==> Accepts(e, hash, a, pub, msg, sig))
    ensures e.Packable(Recomputed(e, hash, e.c.group.neg(a), pub, sig)) ==> (ok <==> Accepts(e, hash, a, pub, msg, sig))
  {
    hide Val, e.Packable, Encoding, Written, Represents, Recomputed, KeyFound, KeyRoot, Fe25519.Below, AffineX,
         AffineY;
    var q := Recomputed(e, hash, e.c.group.neg(a), pub, sig);
    WrittenIffEncoding(e.c.x(q), e.c.y(q), Fe25519.Below(AffineX(p)), Fe25519.Below(AffineY(p)));
  }

  lemma PointOnCurve<G(!new)>(c: Curve<G>, a: G)
    requires c.Law()
    ensures OnCurve(c.x(a), c.y(a))
  {
    assert c.PointAt(a);
  }

  /** Both coordinates of two limb points end on the same side of 2^255. */
  predicate PackAlike(p: Ge, q: Ge)
  {
    && (Fe25519.Below(AffineX(p)) <==> Fe25519.Below(AffineX(q)))
    && (Fe25519.Below(AffineY(p)) <==> Fe25519.Below(AffineY(q)))
  }

  lemma PackedAlike<G(!new)>(e: Setting<G>, g: G, p: Ge, q: Ge)
    ensures e.Packed(g, p) == e.Packed(g, q) <==> PackAlike(p, q)
  {
    hide Written, AffineX, AffineY, Fe25519.Below;
    WrittenInjective(e.c.x(g), e.c.y(g), Fe25519.Below(AffineX(p)), Fe25519.Below(AffineY(p)),
                     Fe25519.Below(AffineX(q)), Fe25519.Below(AffineY(q)));
  }

  /** A fresh key pair signs a message, and the outcome of verifying is known in every case: for a key
      that packs and decodes it is acceptance exactly when the signer's and the verifier's limbs of R
      pack alike. In particular the signature verifies for every private key and message whose points
      stay out of the window. */
  method SignThenVerify<G(!new)>(hash: Hash, priv: seq<byte>, msg: seq<byte>, t: Tables, ghost e: Setting<G>)
    returns (ok: bool, pub: seq<byte>, sig: array<byte>)
    requires e.Valid() && Tabulated(e, t)
    ensures |pub| == 32 && sig.Length == 96 && |t.multiples| == 425
    ensures sig[64..] == hash(msg)[..32]
    ensures Judged(e, t, hash, e.Multiple(Secret(hash, priv)), pub, msg, sig[..], ok)
    ensures Packs(KeyLimbs(t, hash, priv)) && KeyFound(pub) && Fe25519.Below(KeyRoot(pub))
            ==> (ok <==> PackAlike(NonceLimbs(t, hash, priv, msg), VerifierLimbs(t, hash, pub, sig[..])))
    ensures var a, g := e.Multiple(Secret(hash, priv)), e.Multiple(Nonce(hash, priv, msg));
            e.Packable(a) && SafePoint(e.c.x(a), e.c.y(a)) && e.Packable(g) ==> ok
  {
    hide Hashed, Equation;
    hide Val, e.Valid, Tabulated, Recomputed, Accepts, e.Packable, e.Multiple, e.Encoded, e.Packed, SafePoint, Packs,
         KeyFound, KeyRoot, Fe25519.Below, Represents, PackAlike, KeyLimbs, NonceLimbs, VerifierLimbs;
    pub := CalcPubEd(hash, priv, t, e);
    sig := new byte[96];
    ghost var x, y := Sign(hash, priv, pub, msg, sig, t, e);
    ghost var a, g := e.Multiple(Secret(hash, priv)), e.Multiple(Nonce(hash, priv, msg));
    ghost var r, p := NonceLimbs(t, hash, priv, msg), VerifierLimbs(t, hash, pub, sig[..]);
    SignedIsAccepted(e, hash, priv, pub, msg, sig[..], r);
    ok := Verify(hash, pub, msg, sig, t, e, a);
    if Packs(KeyLimbs(t, hash, priv)) && KeyFound(pub) && Fe25519.Below(KeyRoot(pub)) {
      PackedAlike(e, g, r, p);
      if e.Packable(g) {
        BothPack(r, p);
      }
    }
  }

  lemma BothPack(p: Ge, q: Ge)
    requires Packs(p) && Packs(q)
    ensures PackAlike(p, q)
  {
  }
}
