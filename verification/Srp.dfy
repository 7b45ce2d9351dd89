/**
 * SRP-6a as src/modules/auth/srp.service.ts computes it, for any odd modulus that fits
 * in 512 hex digits and g = 2. SHA-256 is a parameter: any function to 32 bytes.
 */
module Srp {
  import opened Options
  import opened ModularArithmetic
  import opened Hex

  type Digest = d: seq<Byte> | |d| == 32 witness seq(32, i => 0)
  type Hash = seq<Byte> -> Digest

  /** The modulus N and the generator g. */
  datatype Group = Group(N: nat, g: nat)

  const MAX_A_HEX_LENGTH: nat := 1024

  predicate SrpGroup(gr: Group) {
    gr.N > 1 && gr.N % 2 == 1 && |ToHex(gr.N)| <= 512 && gr.g == 2
  }

  function PowMod(b: int, e: nat, m: int): (r: nat)
    requires m > 0
  {
    Pow(b, e) % m
  }

  /** Square and multiply. */
  method ModPow(base0: int, exponent0: nat, modulus: int) returns (result: nat)
    requires modulus > 1
    ensures result == PowMod(base0, exponent0, modulus)
  {
    var base, exponent := JsRem(JsRem(base0, modulus) + modulus, modulus), exponent0;
    result := 1;
    Normalised(base0, modulus);
    CongPow(base, base0, exponent, modulus);
    while exponent > 0
      invariant 0 <= result < modulus && base >= 0
      invariant Cong(result * Pow(base, exponent), Pow(base0, exponent0), modulus)
      decreases exponent
    {
      SquareStep(result, base, exponent, modulus);
      if exponent % 2 == 1 {
        result := (result * base) % modulus;
      }
      exponent := exponent / 2;
      base := (base * base) % modulus;
    }
    DivisionIsUnique(result, 0, result, modulus);
  }

  lemma Normalised(a: int, m: int)
    requires m > 0
    ensures JsRem(JsRem(a, m) + m, m) == a % m
    ensures Cong(a % m, a, m)
  {
    ModIsCong(a, m);
    if a >= 0 {
      DivisionIsUnique(a % m + m, 1, a % m, m);
    } else {
      var r := (-a) % m;
      assert -a == ((-a) / m) * m + r;
      if r == 0 {
        DivisionIsUnique(a, -((-a) / m), 0, m);
        DivisionIsUnique(m, 1, 0, m);
      } else {
        assert a == (-((-a) / m) - 1) * m + (m - r);
        DivisionIsUnique(a, -((-a) / m) - 1, m - r, m);
        DivisionIsUnique(m - r, 0, m - r, m);
      }
    }
  }

  /** One round of the loop keeps result * base^exponent, up to multiples of m. */
  lemma SquareStep(result: nat, base: nat, e: nat, m: int)
    requires m > 1 && e > 0
    ensures var result' := if e % 2 == 1 then (result * base) % m else result;
            Cong(result' * Pow((base * base) % m, e / 2), result * Pow(base, e), m)
  {
    var h := e / 2;
    var result' := if e % 2 == 1 then (result * base) % m else result;
    var exact := if e % 2 == 1 then result * base else result;
    ModIsCong(result * base, m);
    ModIsCong(base * base, m);
    CongPow((base * base) % m, base * base, h, m);
    CongMul(result', exact, Pow((base * base) % m, h), Pow(base * base, h), m);
    PowSquare(base, h);
    if e % 2 == 1 {
      assert Pow(base, e) == base * Pow(base, 2 * h);
      assert (result * base) * Pow(base, 2 * h) == result * (base * Pow(base, 2 * h));
    }
  }

  // ----- the formulas

  /** k = H(N, g). */
  function Multiplier(sha: Hash, gr: Group): nat {
    BufferToBigInt(sha(BigIntToBuffer(gr.N) + BigIntToBuffer(gr.g)))
  }

  /** x = SHA256(srpSalt + password), hashed as text. */
  function PrivateKey(sha: Hash, utf8: string -> seq<Byte>, srpSalt: string, password: string): nat {
    BufferToBigInt(sha(utf8(srpSalt + password)))
  }

  function ComputeVerifier(gr: Group, x: nat): nat
    requires gr.N > 1
  {
    PowMod(gr.g, x, gr.N)
  }

  /** B = (k * v + g^b) mod N, for the secret b the server drew. */
  function ServerEphemeral(sha: Hash, gr: Group, v: nat, b: nat): nat
    requires gr.N > 1
  {
    (Multiplier(sha, gr) * v + PowMod(gr.g, b, gr.N)) % gr.N
  }

  /** u = H(A, B). */
  function Scrambler(sha: Hash, A: nat, B: nat): nat {
    BufferToBigInt(sha(BigIntToBuffer(A) + BigIntToBuffer(B)))
  }

  function ServerSecret(gr: Group, A: nat, v: nat, u: nat, b: nat): nat
    requires gr.N > 1
  {
    PowMod(A * PowMod(v, u, gr.N), b, gr.N)
  }

  function ClientSecret(gr: Group, B: nat, k: nat, x: nat, a: nat, u: nat): nat
    requires gr.N > 1
  {
    Normalised(B - k * PowMod(gr.g, x, gr.N), gr.N);
    PowMod(JsRem(JsRem(B - k * PowMod(gr.g, x, gr.N), gr.N) + gr.N, gr.N), a + u * x, gr.N)
  }

  /** The low k bits of p ^ q, bit by bit. */
  function XorBits(p: nat, q: nat, k: nat): (r: nat)
    ensures r < Pow(2, k)
  {
    if k == 0 then 0 else 2 * XorBits(p / 2, q / 2, k - 1) + if p % 2 == q % 2 then 0 else 1
  }

  function XorByte(p: Byte, q: Byte): Byte {
    assert Pow(2, 8) == 256 by { ByteHasEightBits(); }
    XorBits(p, q, 8)
  }

  lemma ByteHasEightBits()
    ensures Pow(2, 8) == 256
  {
    assert Pow(2, 4) == 16;
    PowAdd(2, 4, 4);
  }

  function Bit(n: nat, i: nat): bool {
    if i == 0 then n % 2 == 1 else Bit(n / 2, i - 1)
  }

  lemma XorBitsSplit(p: nat, q: nat, k: nat)
    requires k > 0
    ensures XorBits(p, q, k) / 2 == XorBits(p / 2, q / 2, k - 1)
    ensures XorBits(p, q, k) % 2 == 1 <==> (p % 2 == 1) != (q % 2 == 1)
  {
    DoubleAndBit(XorBits(p / 2, q / 2, k - 1), if p % 2 == q % 2 then 0 else 1);
  }

  lemma DoubleAndBit(half: nat, bit: nat)
    requires bit <= 1
    ensures (2 * half + bit) / 2 == half && (2 * half + bit) % 2 == bit
  {
  }

  lemma {:induction false} XorBit(p: nat, q: nat, k: nat, i: nat)
    requires i < k
    ensures Bit(XorBits(p, q, k), i) <==> Bit(p, i) != Bit(q, i)
  {
    hide XorBits;
    XorBitsSplit(p, q, k);
    if i == 0 {
    } else {
      XorBit(p / 2, q / 2, k - 1, i - 1);
    }
  }

  /** A bit of the result is set exactly when it is set in one of the two bytes. */
  lemma XorByteBits(p: Byte, q: Byte, i: nat)
    requires i < 8
    ensures Bit(XorByte(p, q), i) <==> Bit(p, i) != Bit(q, i)
  {
    XorBit(p, q, 8, i);
  }

  function XorBytes(p: Digest, q: Digest): Digest {
    seq(32, i requires 0 <= i < 32 => XorByte(p[i], q[i]))
  }

  /** M1 = H(H(N) xor H(g), H(salt), A, B, K). */
  function ProofM1(sha: Hash, gr: Group, srpSalt: string, A: nat, B: nat, K: Digest): Digest {
    sha(XorBytes(sha(BigIntToBuffer(gr.N)), sha(BigIntToBuffer(gr.g)))
        + sha(HexToBytes(srpSalt)) + BigIntToBuffer(A) + BigIntToBuffer(B) + K)
  }

  /** M2 = H(A, M1, K). */
  function ProofM2(sha: Hash, A: nat, m1: seq<Byte>, K: Digest): Digest {
    sha(BigIntToBuffer(A) + m1 + K)
  }

  function ParseClientEphemeral(gr: Group, hex: string): Option<nat>
    requires gr.N > 1
  {
    if |hex| == 0 || |hex| > MAX_A_HEX_LENGTH || !IsHex(hex) then None
    else if Value(hex) % gr.N == 0 then None
    else Some(Value(hex))
  }

  method GenerateServerEphemeral(sha: Hash, gr: Group, v: nat, b: nat) returns (B: nat)
    requires gr.N > 1
    ensures B == ServerEphemeral(sha, gr, v, b)
  {
    var k := BufferToBigInt(sha(BigIntToBuffer(gr.N) + BigIntToBuffer(gr.g)));
    var gb := ModPow(gr.g, b, gr.N);
    B := (k * v + gb) % gr.N;
  }

  // ----- the server's check

  datatype ProofResult = ProofResult(valid: bool, m2: string, K: seq<Byte>)

  const REJECTED := ProofResult(false, [], [])

  /** The session key the server derives, K = H(S). */
  function ServerKey(sha: Hash, gr: Group, A: nat, B: nat, v: nat, b: nat): Digest
    requires gr.N > 1
  {
    sha(BigIntToBuffer(ServerSecret(gr, A, v, Scrambler(sha, A, B), b)))
  }

  /** M1 is the right proof, written as 64 hex digits of either case. */
  predicate ProofAccepted(sha: Hash, gr: Group, A: nat, m1: string, b: nat, B: nat, v: nat, srpSalt: string)
    requires gr.N > 1
  {
    && A % gr.N != 0
    && |m1| == 64 && IsHex(m1)
    && HexToBytes(m1) == ProofM1(sha, gr, srpSalt, A, B, ServerKey(sha, gr, A, B, v, b))
  }

  method XorLoop(p: Digest, q: Digest) returns (r: Digest)
    ensures r == XorBytes(p, q)
  {
    var mixed := new Byte[32](i => 0);
    for i := 0 to 32
      invariant forall j :: 0 <= j < i ==> mixed[j] == XorByte(p[j], q[j])
    {
      mixed[i] := XorByte(p[i], q[i]);
    }
    assert mixed[..] == XorBytes(p, q);
    return mixed[..];
  }

  method VerifyClientProof(sha: Hash, gr: Group, A: nat, m1: string, b: nat, B: nat, v: nat, srpSalt: string)
    returns (r: ProofResult)
    requires gr.N > 1
    ensures r.valid <==> ProofAccepted(sha, gr, A, m1, b, B, v, srpSalt)
    ensures r.valid ==> r.K == ServerKey(sha, gr, A, B, v, b)
    ensures r.valid ==> r.m2 == BytesToHex(ProofM2(sha, A, HexToBytes(m1), ServerKey(sha, gr, A, B, v, b)))
    ensures !r.valid ==> r == REJECTED
  {
    hide BigIntToBuffer, BufferToBigInt, HexToBytes, BytesToHex, XorBytes;
    if A % gr.N == 0 {
      return REJECTED;
    }
    var u := BufferToBigInt(sha(BigIntToBuffer(A) + BigIntToBuffer(B)));
    var vu := ModPow(v, u, gr.N);
    var S := ModPow(A * vu, b, gr.N);
    var K: seq<Byte> := sha(BigIntToBuffer(S));

    var hN: Digest := sha(BigIntToBuffer(gr.N));
    var hg: Digest := sha(BigIntToBuffer(gr.g));
    var hSalt: seq<Byte> := sha(HexToBytes(srpSalt));
    var mixed: seq<Byte> := XorLoop(hN, hg);
    var expected := sha(mixed + hSalt + BigIntToBuffer(A) + BigIntToBuffer(B) + K);
    var provided := if |m1| == 64 && IsHex(m1) then HexToBytes(m1) else [];
    if provided != expected {
      return REJECTED;
    }
    var m2 := BytesToHex(sha(BigIntToBuffer(A) + HexToBytes(m1) + K));
    return ProofResult(true, m2, K);
  }

  // ----- the two secrets agree

  /** base^e for the two sides: both reduce to a power of g. */
  lemma ServerSecretIsPower(gr: Group, x: nat, a: nat, b: nat, u: nat)
    requires gr.N > 1
    ensures a + x * u >= 0 && (a + x * u) * b >= 0
    ensures ServerSecret(gr, PowMod(gr.g, a, gr.N), PowMod(gr.g, x, gr.N), u, b) == PowMod(gr.g, (a + x * u) * b, gr.N)
  {
    var A, v := PowMod(gr.g, a, gr.N), PowMod(gr.g, x, gr.N);
    var vu := PowMod(v, u, gr.N);
    ModIsCong(Pow(gr.g, a), gr.N);
    ModIsCong(Pow(gr.g, x), gr.N);
    CongPow(v, Pow(gr.g, x), u, gr.N);
    ModIsCong(Pow(v, u), gr.N);
    PowPow(gr.g, x, u);
    CongMul(A, Pow(gr.g, a), vu, Pow(gr.g, x * u), gr.N);
    PowAdd(gr.g, a, x * u);
    CongPow(A * vu, Pow(gr.g, a + x * u), b, gr.N);
    PowPow(gr.g, a + x * u, b);
  }

  lemma ClientSecretIsPower(gr: Group, k: nat, x: nat, a: nat, b: nat, u: nat)
    requires gr.N > 1
    ensures u * x >= 0 && b * (a + u * x) >= 0
    ensures var B := (k * PowMod(gr.g, x, gr.N) + PowMod(gr.g, b, gr.N)) % gr.N;
            ClientSecret(gr, B, k, x, a, u) == PowMod(gr.g, b * (a + u * x), gr.N)
  {
    var kv := k * PowMod(gr.g, x, gr.N);
    var B := (kv + PowMod(gr.g, b, gr.N)) % gr.N;
    var base := JsRem(JsRem(B - kv, gr.N) + gr.N, gr.N);
    Normalised(B - kv, gr.N);
    ModIsCong(kv + PowMod(gr.g, b, gr.N), gr.N);
    CongAdd(B, kv + PowMod(gr.g, b, gr.N), kv, kv, gr.N);
    ModIsCong(Pow(gr.g, b), gr.N);
    assert Cong(base, Pow(gr.g, b), gr.N);
    CongPow(base, Pow(gr.g, b), a + u * x, gr.N);
    PowPow(gr.g, b, a + u * x);
  }

  /** The client's double remainder only brings the base into range. */
  lemma ClientSecretMeaning(gr: Group, B: nat, k: nat, x: nat, a: nat, u: nat)
    requires gr.N > 1
    ensures u * x >= 0
    ensures ClientSecret(gr, B, k, x, a, u) == PowMod(B - k * PowMod(gr.g, x, gr.N), a + u * x, gr.N)
  {
    var base := B - k * PowMod(gr.g, x, gr.N);
    Normalised(base, gr.N);
    CongPow(base % gr.N, base, a + u * x, gr.N);
  }

  /** For all secrets, the client's (B - k g^x)^(a + u x) is the server's (A v^u)^b. */
  lemma SecretsAgree(gr: Group, k: nat, x: nat, a: nat, b: nat, u: nat, A: nat, B: nat, v: nat)
    requires gr.N > 1
    requires v == PowMod(gr.g, x, gr.N) && A == PowMod(gr.g, a, gr.N)
    requires B == (k * v + PowMod(gr.g, b, gr.N)) % gr.N
    ensures ClientSecret(gr, B, k, x, a, u) == ServerSecret(gr, A, v, u, b)
    ensures PowMod(B - k * PowMod(gr.g, x, gr.N), a + u * x, gr.N) == PowMod(A * PowMod(v, u, gr.N), b, gr.N)
  {
    ClientSecretMeaning(gr, B, k, x, a, u);
    ServerSecretIsPower(gr, x, a, b, u);
    ClientSecretIsPower(gr, k, x, a, b, u);
    assert (a + x * u) * b == b * (a + u * x) by {
      assert x * u == u * x;
    }
  }

  // ----- the honest client

  datatype ClientProof = ClientProof(aHex: string, m1: string, expectedM2: string)

  lemma ProductIsNat(u: nat, x: nat)
    ensures u * x >= 0
  {
  }

  /** The client half: API.md and the client of the service's own tests. */
  function HonestClient(sha: Hash, utf8: string -> seq<Byte>, gr: Group, srpSalt: string, password: string,
                        a: nat, B: nat): ClientProof
    requires gr.N > 1
  {
    var A := PowMod(gr.g, a, gr.N);
    var x := BufferToBigInt(sha(utf8(srpSalt + password)));
    var k := BufferToBigInt(sha(BigIntToBuffer(gr.N) + BigIntToBuffer(gr.g)));
    var u := BufferToBigInt(sha(BigIntToBuffer(A) + BigIntToBuffer(B)));
    ProductIsNat(u, x);
    var S := PowMod(B - k * PowMod(gr.g, x, gr.N), a + u * x, gr.N);
    var K: seq<Byte> := sha(BigIntToBuffer(S));
    var hN: Digest := sha(BigIntToBuffer(gr.N));
    var hg: Digest := sha(BigIntToBuffer(gr.g));
    var mixed: seq<Byte> := seq(32, i requires 0 <= i < 32 => XorByte(hN[i], hg[i]));
    var hSalt: seq<Byte> := sha(HexToBytes(srpSalt));
    var m1: seq<Byte> := sha(mixed + hSalt + BigIntToBuffer(A) + BigIntToBuffer(B) + K);
    ClientProof(ToHex(A), BytesToHex(m1), BytesToHex(sha(BigIntToBuffer(A) + m1 + K)))
  }

  /** An A in any spelling is accepted exactly when it is no multiple of N and its text is short enough. */
  lemma EphemeralAcceptedIff(gr: Group, A: nat, width: nat)
    requires gr.N > 1
    ensures var text := PadStart(ToHex(A), width);
            ParseClientEphemeral(gr, text) == if A % gr.N != 0 && |text| <= 1024 then Some(A) else None
  {
    hide ToHex, Value;
    PrintParse(A, width);
  }

  /** The honest A passes parseClientEphemeral: short enough, hex, and never 0 mod N. */
  lemma HonestEphemeralAccepted(gr: Group, a: nat)
    requires SrpGroup(gr)
    ensures ParseClientEphemeral(gr, ToHex(PowMod(gr.g, a, gr.N))) == Some(PowMod(gr.g, a, gr.N))
  {
    var A := PowMod(gr.g, a, gr.N);
    ToHexValue(A);
    ToHexLengthMonotone(A, gr.N);
    PowTwoNonZero(a, gr.N);
    ModIsCong(Pow(gr.g, a), gr.N);
  }

  /**
   * The server also accepts ephemerals that are too long for 256 bytes. Among them, 16^k is encoded
   * in more than 256 bytes if k is odd, and loses its last digit if k is even.
   */
  lemma LongEphemeralAccepted(gr: Group, k: nat)
    requires SrpGroup(gr) && 512 <= k < 1024
    ensures var A := Pow(2, 4 * k);
            && A >= 1 && |ToHex(A)| == k + 1
            && ParseClientEphemeral(gr, ToHex(A)) == Some(A)
            && BufferToBigInt(BigIntToBuffer(A)) == (if k % 2 == 0 then A / 16 else A)
            && |BigIntToBuffer(A)| == (k + 1) / 2
  {
    hide Pow, ToHex, Value, BigIntToBuffer, BufferToBigInt;
    var A := Pow(2, 4 * k);
    PowerDigits(k);
    ToHexValue(A);
    PowTwoNonZero(4 * k, gr.N);
    BufferRoundTripIff(A);
  }

  /** With 513 digits: A = 2^2048 is accepted and encoded as if it were 2^2044. */
  lemma ShortestTruncated(gr: Group)
    requires SrpGroup(gr)
    ensures var A := Pow(2, 2048);
            && A >= 1 && ParseClientEphemeral(gr, ToHex(A)) == Some(A)
            && BufferToBigInt(BigIntToBuffer(A)) == A / 16 == Pow(2, 2044)
  {
    hide Pow, ToHex, Value, BigIntToBuffer, BufferToBigInt, ParseClientEphemeral;
    LongEphemeralAccepted(gr, 512);
    PowAdd(2, 4, 2044);
    assert Pow(2, 4) == 16 by { SixteenIsPower(); }
    DivisionIsUnique(Pow(2, 2048), Pow(2, 2044), 0, 16);
  }

  lemma SixteenIsPower()
    ensures Pow(2, 4) == 16
  {
  }

  /** What the client derives from B is what the server derives from A. */
  lemma HonestSecret(sha: Hash, gr: Group, x: nat, a: nat, b: nat, A: nat, B: nat, v: nat)
    requires gr.N > 1 && v == ComputeVerifier(gr, x) && A == PowMod(gr.g, a, gr.N)
    requires B == ServerEphemeral(sha, gr, v, b)
    ensures var u := Scrambler(sha, A, B);
            ClientSecret(gr, B, Multiplier(sha, gr), x, a, u) == ServerSecret(gr, A, v, u, b)
  {
    var k := Multiplier(sha, gr);
    assert B == (k * v + PowMod(gr.g, b, gr.N)) % gr.N;
    SecretsAgree(gr, k, x, a, b, Scrambler(sha, A, B), A, B, v);
  }

  /** The honest proof is accepted, and the server's answer is the one the client expects. */
  lemma HonestProofAccepted(sha: Hash, utf8: string -> seq<Byte>, gr: Group, srpSalt: string, password: string,
                            a: nat, b: nat, A: nat, B: nat, v: nat)
    requires SrpGroup(gr) && A == PowMod(gr.g, a, gr.N)
    requires v == ComputeVerifier(gr, PrivateKey(sha, utf8, srpSalt, password))
    requires B == ServerEphemeral(sha, gr, v, b)
    ensures var client := HonestClient(sha, utf8, gr, srpSalt, password, a, B);
            && ParseClientEphemeral(gr, client.aHex) == Some(A)
            && ProofAccepted(sha, gr, A, client.m1, b, B, v, srpSalt)
            && client.expectedM2
               == BytesToHex(ProofM2(sha, A, HexToBytes(client.m1), ServerKey(sha, gr, A, B, v, b)))
  {
    hide PowMod, Pow, ToHex, Value, BigIntToBuffer, BufferToBigInt, HexToBytes, BytesToHex, ClientSecret, ServerSecret;
    var x := PrivateKey(sha, utf8, srpSalt, password);
    HonestEphemeralAccepted(gr, a);
    HonestSecret(sha, gr, x, a, b, A, B, v);
    var S := ClientSecret(gr, B, Multiplier(sha, gr), x, a, Scrambler(sha, A, B));
    ClientSecretMeaning(gr, B, Multiplier(sha, gr), x, a, Scrambler(sha, A, B));
    SameSecretAccepted(sha, gr, A, b, B, v, srpSalt, S);
  }

  lemma SameSecretAccepted(sha: Hash, gr: Group, A: nat, b: nat, B: nat, v: nat, srpSalt: string, S: nat)
    requires gr.N > 1 && A % gr.N != 0
    requires S == ServerSecret(gr, A, v, Scrambler(sha, A, B), b)
    ensures var K := sha(BigIntToBuffer(S));
            var m1 := ProofM1(sha, gr, srpSalt, A, B, K);
            && K == ServerKey(sha, gr, A, B, v, b)
            && ProofAccepted(sha, gr, A, BytesToHex(m1), b, B, v, srpSalt)
            && HexToBytes(BytesToHex(m1)) == m1
  {
    BytesHexRoundTrip(ProofM1(sha, gr, srpSalt, A, B, sha(BigIntToBuffer(S))));
  }

  /**
   * For an honest A, exactly one proof is accepted: the one the client with this password computes,
   * in either case of its digits.
   */
  lemma ProofAcceptedIff(sha: Hash, utf8: string -> seq<Byte>, gr: Group, srpSalt: string, password: string,
                         a: nat, b: nat, A: nat, B: nat, v: nat, m1: string)
    requires SrpGroup(gr) && A == PowMod(gr.g, a, gr.N)
    requires v == ComputeVerifier(gr, PrivateKey(sha, utf8, srpSalt, password))
    requires B == ServerEphemeral(sha, gr, v, b)
    ensures ProofAccepted(sha, gr, A, m1, b, B, v, srpSalt)
            <==> SameDigits(m1, HonestClient(sha, utf8, gr, srpSalt, password, a, B).m1)
  {
    HonestProofAccepted(sha, utf8, gr, srpSalt, password, a, b, A, B, v);
    var honest := HonestClient(sha, utf8, gr, srpSalt, password, a, B).m1;
    hide HonestClient, ProofM1, ServerKey, HexToBytes, SameDigits;
    if ProofAccepted(sha, gr, A, m1, b, B, v, srpSalt) {
      EqualBytesSameDigits(m1, honest);
    }
    if SameDigits(m1, honest) {
      SameDigitsDecode(m1, honest);
      SameDigitsShape(m1, honest);
    }
  }

  lemma EqualBytesSameDigits(s: string, t: string)
    requires IsHex(s) && IsHex(t) && |s| % 2 == 0 && |t| % 2 == 0 && HexToBytes(s) == HexToBytes(t)
    ensures SameDigits(s, t)
  {
    HexToBytesDigits(s);
    HexToBytesDigits(t);
  }

  lemma SameDigitsShape(s: string, t: string)
    requires SameDigits(s, t)
    ensures |s| == |t| && IsHex(s)
  {
  }
}
