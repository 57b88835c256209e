/** The replay-protection nonce kept in the file data/nonce, and the request signer.

    The file holds the decimal text of the last nonce issued. GetAndIncrementNonce reads
    it (creating it with "1" when it is missing), adds one with 64-bit wrap-around,
    writes the new value back and returns it, so the first nonce ever issued is 2.
    The signer hex-encodes HMAC-SHA512 of the message under the secret. */
module Auth {
  import opened Wrappers
  import opened Decimal
  import Hex

  /** The 64 bytes of an HMAC-SHA512 result. */
  type Digest = d: seq<Hex.Byte> | |d| == 64 witness seq(64, _ => 0)

  /** HMAC (RFC 2104) over SHA-512 (FIPS 180-4), applied to (secret, message). Its
      internals are not modelled: a client is given one such function. */
  type Mac = (string, string) -> Digest

  /** The text CreateNonceFileIfNotExists writes into a new nonce file. */
  const INITIAL_NONCE_TEXT := "1"

  /** signHmacSha512: the lowercase hex encoding of the MAC of exactly `message`. */
  function SignHmacSha512(mac: Mac, secret: string, message: string): (digest: string)
    ensures |digest| == 128
    ensures forall j :: 0 <= j < |digest| ==> Hex.IsLowerHex(digest[j])
    ensures Hex.Decode(digest) == Some(mac(secret, message))
  {
    Hex.DecodeEncode(mac(secret, message));
    Hex.Encode(mac(secret, message))
  }

  /** Two signatures under one secret are equal exactly when the MACs they encode are. */
  lemma SignatureDeterminesMac(mac: Mac, secret: string, m1: string, m2: string)
    ensures SignHmacSha512(mac, secret, m1) == SignHmacSha512(mac, secret, m2)
        <==> mac(secret, m1) == mac(secret, m2)
  {
    if SignHmacSha512(mac, secret, m1) == SignHmacSha512(mac, secret, m2) {
      Hex.EncodeInjective(mac(secret, m1), mac(secret, m2));
    }
  }

  /** The nonce file after CreateNonceFileIfNotExists. */
  function Initialised(file: Option<string>): Option<string> {
    if file.None? then Some(INITIAL_NONCE_TEXT) else file
  }

  /** `*nonceOld + 1` on a Go uint64. */
  function Increment(n: Uint64): (m: Uint64)
    ensures n < MAX_UINT64 ==> m == n + 1
    ensures n == MAX_UINT64 ==> m == 0
  {
    (n + 1) % 0x1_0000_0000_0000_0000
  }

  /** The nonce one call returns (or the parse error it panics with) and the file after it. */
  datatype Step = Step(nonce: Result<Uint64, NumError>, file: Option<string>)

  /** One GetAndIncrementNonce, as a function of the nonce file before it. */
  function NextNonce(file: Option<string>): (s: Step)
    ensures var stored := ParseUint(Initialised(file).value);
      && (s.nonce.Ok? <==> stored.Ok?)
      && (s.nonce.Ok? ==> s.nonce.value == Increment(stored.value))
      && (s.nonce.Err? ==> s.nonce.error == stored.error && s.file == Initialised(file))
    ensures s.nonce.Ok? ==> s.file.Some? && IsCanonical(s.file.value) && ParseUint(s.file.value) == s.nonce
  {
    match ParseUint(Initialised(file).value)
    case Err(e) => Step(Err(e), Initialised(file))
    case Ok(n) =>
      var m := Increment(n);
      ParseFormat(m);
      Step(Ok(m), Some(FormatUint(m)))
  }

  /** The nonces (or errors) of k calls in a row, and the file after them. */
  datatype Trace = Trace(nonces: seq<Result<Uint64, NumError>>, file: Option<string>)

  function Run(file: Option<string>, k: nat): (t: Trace)
    ensures |t.nonces| == k
    decreases k
  {
    if k == 0 then Trace([], file)
    else
      var s := NextNonce(file);
      var t := Run(s.file, k - 1);
      Trace([s.nonce] + t.nonces, t.file)
  }

  /** A missing file is created with "1", so the first nonce issued is 2 and the file
      then holds "2". */
  lemma FirstNonceIsTwo()
    ensures NextNonce(None) == Step(Ok(2), Some("2"))
  {
    assert Value(INITIAL_NONCE_TEXT) == 1 by {
      assert INITIAL_NONCE_TEXT[..0] == [];
    }
    assert FormatUint(2) == "2";
  }

  /** Stored text that is not a 64-bit decimal makes the call fail, and the file is left
      as it was. */
  lemma CorruptFileUnchanged(text: string)
    requires !IsDecimal(text) || Value(text) > MAX_UINT64
    ensures NextNonce(Some(text)).nonce.Err?
    ensures NextNonce(Some(text)).file == Some(text)
  {
  }

  /** The increment wraps: a stored 18446744073709551615 yields nonce 0 and the file "0". */
  lemma WrapAround(file: Option<string>)
    requires ParseUint(Initialised(file).value) == Ok(MAX_UINT64)
    ensures NextNonce(file) == Step(Ok(0), Some("0"))
  {
    assert FormatUint(0) == "0";
  }

  /** Two calls in a row return n + 1 and then n + 2 when the file holds n and no
      wrap-around occurs. */
  lemma {:induction false} TwoCallsConsecutive(file: Option<string>, n: Uint64)
    requires ParseUint(Initialised(file).value) == Ok(n) && n + 2 <= MAX_UINT64
    ensures NextNonce(file).nonce == Ok(n + 1)
    ensures NextNonce(NextNonce(file).file).nonce == Ok(n + 2)
  {
    RunConsecutive(file, n, 2);
  }

  /** From a file holding n, k calls return n + 1, ..., n + k and leave the file holding
      the text of n + k, provided n + k does not exceed the uint64 range. */
  lemma {:induction false} RunConsecutive(file: Option<string>, n: Uint64, k: nat)
    requires ParseUint(Initialised(file).value) == Ok(n) && n + k <= MAX_UINT64
    ensures forall i :: 0 <= i < k ==> Run(file, k).nonces[i] == Ok(n + 1 + i)
    ensures k > 0 ==> Run(file, k).file == Some(FormatUint(n + k))
    decreases k
  {
    if k > 0 {
      var s := NextNonce(file);
      assert s.nonce == Ok(n + 1);
      assert s.file == Some(FormatUint(n + 1));
      ParseFormat(n + 1);
      RunConsecutive(s.file, n + 1, k - 1);
      var t := Run(s.file, k - 1);
      assert Run(file, k) == Trace([s.nonce] + t.nonces, t.file);
      forall i | 0 <= i < k
        ensures Run(file, k).nonces[i] == Ok(n + 1 + i)
      {
        if i > 0 {
          assert Run(file, k).nonces[i] == t.nonces[i - 1];
        }
      }
    }
  }

  /** Nonces issued from a readable file strictly increase while no wrap-around occurs. */
  lemma StrictlyIncreasing(file: Option<string>, n: Uint64, k: nat)
    requires ParseUint(Initialised(file).value) == Ok(n) && n + k <= MAX_UINT64
    ensures forall i, j :: 0 <= i < j < k ==>
      Run(file, k).nonces[i].Ok? && Run(file, k).nonces[j].Ok? &&
      Run(file, k).nonces[i].value < Run(file, k).nonces[j].value
  {
    RunConsecutive(file, n, k);
  }

  /** After any run whose last call succeeded, the file holds the canonical text of the
      nonce that call returned. */
  lemma {:induction false} LastIssuedIsStored(file: Option<string>, k: nat)
    requires k > 0 && Run(file, k).nonces[k - 1].Ok?
    ensures Run(file, k).file.Some?
    ensures IsCanonical(Run(file, k).file.value)
    ensures ParseUint(Run(file, k).file.value) == Run(file, k).nonces[k - 1]
    decreases k
  {
    var s := NextNonce(file);
    if k > 1 {
      assert Run(file, k).nonces[k - 1] == Run(s.file, k - 1).nonces[k - 2];
      LastIssuedIsStored(s.file, k - 1);
    }
  }

  /** A process that restarts after k calls reads only the file, and its first call
      returns one more than the last nonce issued before the restart. */
  lemma RestartContinues(file: Option<string>, k: nat, last: Uint64)
    requires k > 0 && Run(file, k).nonces[k - 1] == Ok(last) && last < MAX_UINT64
    ensures NextNonce(Run(file, k).file).nonce == Ok(last + 1)
  {
    LastIssuedIsStored(file, k);
  }

  /** The nonce file data/nonce. `file` is its contents, None while it does not exist. */
  class NonceFile {
    var file: Option<string>

    constructor (file: Option<string>)
      ensures this.file == file
    {
      this.file := file;
    }

    /** WriteNonce: replaces the whole contents. */
    method WriteNonce(data: string)
      modifies this
      ensures file == Some(data)
    {
      file := Some(data);
    }

    /** CreateNonceFileIfNotExists: an existing file is left untouched; a missing one is
        created empty and then given the text "1". */
    method CreateNonceFileIfNotExists()
      modifies this
      ensures old(file).Some? ==> file == old(file)
      ensures old(file).None? ==> file == Some(INITIAL_NONCE_TEXT)
    {
      if file.None? {
        file := Some("");
        WriteNonce(INITIAL_NONCE_TEXT);
      }
    }

    /** readNonce: ensures the file exists, then parses it as a base-10 uint64. */
    method ReadNonce() returns (nonce: Result<Uint64, NumError>)
      modifies this
      ensures file == Initialised(old(file))
      ensures nonce == ParseUint(file.value)
      ensures nonce.Ok? <==> IsDecimal(file.value) && Value(file.value) <= MAX_UINT64
      ensures nonce.Ok? ==> nonce.value == Value(file.value)
    {
      CreateNonceFileIfNotExists();
      nonce := ParseUint(file.value);
    }

    /** incrementNonce: adds one with wrap-around and stores the decimal text of the result. */
    method IncrementNonce(nonceOld: Uint64) returns (nonce: Uint64)
      modifies this
      ensures nonce == Increment(nonceOld)
      ensures file == Some(FormatUint(nonce))
    {
      nonce := Increment(nonceOld);
      WriteNonce(FormatUint(nonce));
    }

    /** GetAndIncrementNonce: read, increment, write back, return the incremented value.
        A parse failure is returned before anything is written. */
    method GetAndIncrementNonce() returns (nonce: Result<Uint64, NumError>)
      modifies this
      ensures Step(nonce, file) == NextNonce(old(file))
    {
      var read :- ReadNonce();
      var next := IncrementNonce(read);
      nonce := Ok(next);
    }
  }
}
