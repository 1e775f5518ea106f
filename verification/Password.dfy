/** Stored password strings (tracker/state/password.cpp). PBKDF2 itself is a parameter. */
module Password {
  import opened Text

  const ITERATIONS: nat := 20000
  const DIGEST_SIZE: nat := 32

  /** PBKDF2-HMAC-SHA256(password, salt, iterations): 32 bytes, or empty on failure. */
  type Kdf = (Bytes, Bytes, nat) -> Bytes

  function Hash(kdf: Kdf, password: Bytes, salt: Bytes): Bytes {
    if |salt| != 16 then []
    else
      var digest := kdf(password, salt, ITERATIONS);
      if digest == [] then []
      else B("pbkdf2-sha256") + Sep('$') + Dec(ITERATIONS) + Sep('$') + ToHex(salt) + Sep('$') + ToHex(digest)
  }

  predicate Verify(kdf: Kdf, password: Bytes, stored: Bytes) {
    var fields := Split(stored, '$');
    |fields| == 4 && fields[0] == B("pbkdf2-sha256") &&
    match (ParseU64(fields[1]), FromHex(fields[2]), FromHex(fields[3]))
    case (Some(iterations), Some(salt), Some(expected)) =>
      && 0 < iterations <= 1000000 && |salt| == 16 && |expected| == DIGEST_SIZE
      && kdf(password, salt, iterations) == expected
    case _ => false
  }

  /** A stored password accepts exactly the passwords with the same derived digest. */
  lemma VerifyHash(kdf: Kdf, password: Bytes, attempt: Bytes, salt: Bytes)
    requires |salt| == 16 && |kdf(password, salt, ITERATIONS)| == DIGEST_SIZE
    ensures Verify(kdf, attempt, Hash(kdf, password, salt)) <==>
            kdf(attempt, salt, ITERATIONS) == kdf(password, salt, ITERATIONS)
  {
    hide Split, ToHex, FromHex, Dec, ParseU64;
    var digest := kdf(password, salt, ITERATIONS);
    ToHexDigits(salt);
    ToHexDigits(digest);
    DecDigits(ITERATIONS);
    assert !IsHexDigit('$') && !IsDigit('$');
    SplitFour(B("pbkdf2-sha256"), Dec(ITERATIONS), ToHex(salt), ToHex(digest), '$');
    ParseDec(ITERATIONS);
    HexRoundTrip(salt);
    HexRoundTrip(digest);
  }

  /** Hashing fails exactly on a salt of the wrong size and when the derivation fails; it uses 20000 iterations. */
  lemma HashExact(kdf: Kdf, password: Bytes, salt: Bytes)
    ensures Hash(kdf, password, salt) == [] <==> |salt| != 16 || kdf(password, salt, 20000) == []
  {
    assert |B("pbkdf2-sha256")| == 13;
  }

  /** A stored text of the right form accepts exactly the attempts that give its digest with its own iteration count, up
      to a million. */
  lemma VerifyStored(kdf: Kdf, attempt: Bytes, iterations: U64, salt: Bytes, digest: Bytes)
    ensures var stored := B("pbkdf2-sha256") + Sep('$') + Dec(iterations) + Sep('$') + ToHex(salt) + Sep('$') +
                          ToHex(digest);
            Verify(kdf, attempt, stored) <==>
            0 < iterations <= 1000000 && |salt| == 16 && |digest| == 32 && kdf(attempt, salt, iterations) == digest
  {
    hide Split, ToHex, FromHex, Dec, ParseU64;
    ToHexDigits(salt);
    ToHexDigits(digest);
    DecDigits(iterations);
    assert !IsHexDigit('$') && !IsDigit('$');
    SplitFour(B("pbkdf2-sha256"), Dec(iterations), ToHex(salt), ToHex(digest), '$');
    ParseDec(iterations);
    HexRoundTrip(salt);
    HexRoundTrip(digest);
  }
}
