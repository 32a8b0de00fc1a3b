/** The reversible "encryption" the service applies to a secret: the
    secret's ASCII bytes written as Base64, and the way back. There is no
    key: anyone holding the stored text can recover the secret. */
module SecretCodec {
  import opened Results
  import opened Ascii
  import Base64

  /** The stored form of a secret. */
  function Encrypt(plain: string): (stored: string)
    ensures Base64.WellFormed(stored) && IsAscii(stored)
    ensures |stored| == 4 * ((|plain| + 2) / 3)
  {
    Base64.EncodeWellFormed(GetBytes(plain));
    Base64.Encode(GetBytes(plain))
  }

  /** The secret behind a stored text; a text that is not Base64 is a
      format error, not a secret. */
  function Decrypt(stored: string): (r: Result<string>)
    ensures r.Success? <==> Base64.WellFormed(stored)
    ensures r.Success? ==> IsAscii(r.value)
  {
    Base64.DecodeSucceedsIffWellFormed(stored);
    match Base64.Decode(stored)
    case Success(bytes) => Success(GetString(bytes))
    case Failure(e) => Failure(e)
  }

  /** Decrypting the stored form gives back the secret, with every
      non-ASCII character turned into '?'. */
  lemma DecryptEncrypt(plain: string)
    ensures Decrypt(Encrypt(plain)) == Success(Sanitize(plain))
  {
    Base64.DecodeEncode(GetBytes(plain));
    GetStringOfGetBytes(plain);
  }

  /** For an ASCII secret the round trip is exact. */
  lemma RoundTrip(plain: string)
    requires IsAscii(plain)
    ensures Decrypt(Encrypt(plain)) == Success(plain)
  {
    DecryptEncrypt(plain);
    assert Sanitize(plain) == plain;
  }

  /** Two ASCII secrets with the same stored form are the same secret. */
  lemma EncryptInjective(a: string, b: string)
    requires IsAscii(a) && IsAscii(b)
    requires Encrypt(a) == Encrypt(b)
    ensures a == b
  {
    RoundTrip(a);
    RoundTrip(b);
  }

  /** The stored form is itself ASCII text, so encrypting it again and
      decrypting once gives the stored form back. */
  lemma DecryptDoubleEncrypt(plain: string)
    ensures Decrypt(Encrypt(Encrypt(plain))) == Success(Encrypt(plain))
  {
    RoundTrip(Encrypt(plain));
  }

  /** The ASCII bytes of "myPassword". */
  lemma MyPasswordBytes()
    ensures GetBytes("myPassword") == [109, 121, 80, 97, 115, 115, 119, 111, 114, 100]
  {
  }

  /** The stored form of "myPassword": its ten ASCII bytes make three full
      groups and one padded group. */
  lemma EncryptMyPassword()
    ensures Encrypt("myPassword") == "bXlQYXNzd29yZA=="
  {
    var bytes: seq<byte> := [109, 121, 80, 97, 115, 115, 119, 111, 114, 100];
    MyPasswordBytes();
    assert Base64.Encode([100]) == "ZA==";
    assert bytes[9..] == [100];
    assert Base64.EncodeTriple(119, 111, 114) == "d29y";
    assert Base64.Encode(bytes[6..]) == "d29yZA==" by {
      assert bytes[6..][3..] == bytes[9..];
    }
    assert Base64.EncodeTriple(97, 115, 115) == "YXNz";
    assert Base64.Encode(bytes[3..]) == "YXNzd29yZA==" by {
      assert bytes[3..][3..] == bytes[6..];
    }
    assert Base64.EncodeTriple(109, 121, 80) == "bXlQ";
  }
}
