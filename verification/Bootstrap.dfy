/** One-time credential bootstrap: the manager over its two marker files, under file faults,
    restarts, re-provisioning and concurrent callers. */
module Bootstrap {
  import opened Wrappers
  import opened GoStrings

  const MAX_ATTEMPTS := 3

  // ---- The token hash file ----

  function HexValue(c: char): (r: Option<nat>)
    ensures r.Some? ==> r.value < 16
  {
    if '0' <= c <= '9' then Some((c - '0') as nat)
    else if 'a' <= c <= 'f' then Some((c - 'a') as nat + 10)
    else if 'A' <= c <= 'F' then Some((c - 'A') as nat + 10)
    else None
  }

  /** hex.EncodeToString. */
  function HexEncode(data: seq<byte>): string {
    if data == [] then ""
    else [HexDigit(data[0] as nat / 16), HexDigit(data[0] as nat % 16)] + HexEncode(data[1..])
  }

  /** hex.DecodeString: None on an odd length or a foreign character. */
  function HexDecode(s: string): Option<seq<byte>> {
    if s == "" then Some([])
    else if |s| == 1 then None
    else
      var hi, lo, rest := HexValue(s[0]), HexValue(s[1]), HexDecode(s[2..]);
      if hi.None? || lo.None? || rest.None? then None
      else Some([(16 * hi.value + lo.value) as byte] + rest.value)
  }

  lemma {:induction false} HexRoundTrip(data: seq<byte>)
    ensures HexDecode(HexEncode(data)) == Some(data)
    ensures forall c :: c in HexEncode(data) ==> HexValue(c).Some?
  {
    if data != [] {
      HexRoundTrip(data[1..]);
      assert HexEncode(data)[2..] == HexEncode(data[1..]);
      assert data == [data[0]] + data[1..];
    }
  }

  lemma {:induction false} HexDigits(data: seq<byte>)
    ensures |HexEncode(data)| == 2 * |data|
    ensures forall c :: c in HexEncode(data) ==> '0' <= c <= '9' || 'a' <= c <= 'f'
  {
    if data != [] { HexDigits(data[1..]); }
  }

  const HASH_PREFIX := "sha256:"

  function HashFileText(digest: seq<byte>): string {
    HASH_PREFIX + HexEncode(digest) + "\n"
  }

  function StoredDigest(content: string): Option<seq<byte>> {
    HexDecode(TrimPrefix(TrimSpace(content), HASH_PREFIX))
  }

  /** What WriteTokenHash stores is what Bootstrap compares with. */
  lemma StoredHashReadsBack(digest: seq<byte>)
    ensures StoredDigest(HashFileText(digest)) == Some(digest)
  {
    var body := HASH_PREFIX + HexEncode(digest);
    HexRoundTrip(digest);
    assert forall i :: 0 <= i < |HexEncode(digest)| ==> HexValue(HexEncode(digest)[i]).Some?;
    assert !IsSpace(body[0]) && !IsSpace(body[|body| - 1]);
    assert (body + "\n")[..|body|] == body;
    assert TrimRight(body, IsSpace) == body;
    assert HashFileText(digest) == body + "\n";
    assert TrimSpace(body + "\n") == body;
    assert body[|HASH_PREFIX|..] == HexEncode(digest);
  }

  /** The file is "sha256:", two lower-case hex digits a byte, and a newline. */
  lemma HashFileShape(digest: seq<byte>)
    ensures |HashFileText(digest)| == 8 + 2 * |digest|
    ensures HashFileText(digest)[..7] == "sha256:" && HashFileText(digest)[7 + 2 * |digest|] == '\n'
    ensures forall i :: 7 <= i < 7 + 2 * |digest| ==>
      '0' <= HashFileText(digest)[i] <= '9' || 'a' <= HashFileText(digest)[i] <= 'f'
  {
    HexDigits(digest);
    var hex := HexEncode(digest);
    forall i | 7 <= i < 7 + |hex|
      ensures HashFileText(digest)[i] in hex
    {
      assert HashFileText(digest)[i] == hex[i - 7];
    }
  }

  // ---- The manager ----

  /** The marker files in the TLS directory, and the counter of the running process. */
  datatype State = State(tokenHash: Option<string>, consumed: bool, attempts: nat)

  datatype Signing = SignError | BadPem | Signed

  /** How the file system and the signer answer during one call. */
  datatype Env = Env(
    hashStatFails: bool,
    markerStatFails: bool,
    hashReadFails: bool,
    caReadFails: bool,
    signing: Signing,
    markerWriteFails: bool,
    hashRemoveFails: bool)

  datatype Outcome =
    | NotAvailable | LockedOut | HashUnreadable | HashUndecodable | AuthenticationFailed
    | CsrRequired | CaUnreadable | SigningFailed | InvalidCertificate
    | Issued

  /** The token hash can be seen and the consumed marker cannot. Any failing stat of the marker
      counts as its absence. */
  predicate Enabled(s: State, env: Env) {
    s.tokenHash.Some? && !env.hashStatFails && (!s.consumed || env.markerStatFails)
  }

  function Consumed(s: State, env: Env): State {
    State(if env.hashRemoveFails then s.tokenHash else None, s.consumed || !env.markerWriteFails, s.attempts)
  }

  /** The call's token is the one whose hash is installed. */
  predicate RightToken(sha: string -> seq<byte>, s: State, token: string) {
    s.tokenHash.Some? && StoredDigest(s.tokenHash.value) == Some(sha(token))
  }

  /** One call of Bootstrap, in the order of its checks. */
  function Attempt(sha: string -> seq<byte>, s: State, token: string, csr: string, env: Env): (State, Outcome) {
    if !Enabled(s, env) then (s, NotAvailable)
    else if s.attempts >= MAX_ATTEMPTS then (Consumed(s, env), LockedOut)
    else if env.hashReadFails then (s, HashUnreadable)
    else if StoredDigest(s.tokenHash.value).None? then (s, HashUndecodable)
    else if !RightToken(sha, s, token) then
      var t := s.(attempts := s.attempts + 1);
      (if t.attempts >= MAX_ATTEMPTS then Consumed(t, env) else t, AuthenticationFailed)
    else if csr == "" then (s, CsrRequired)
    else if env.caReadFails then (s, CaUnreadable)
    else match env.signing
      case SignError => (s, SigningFailed)
      case BadPem => (Consumed(s, env), InvalidCertificate)
      case Signed => (Consumed(s, env), Issued)
  }

  /** The state in which both files were to be replaced: the hash removed, the marker written. */
  function Spent(s: State, env: Env, attempts: nat): State {
    State(if env.hashRemoveFails then s.tokenHash else None,
          if env.markerWriteFails then s.consumed else true,
          attempts)
  }

  /** What each outcome does to the files and the counter. Most outcomes change nothing; a wrong
      token is counted, and only the third one spends the files, as do a locked-out call, a signer's
      bad certificate and an issued one. */
  lemma OutcomeEffects(sha: string -> seq<byte>, s: State, token: string, csr: string, env: Env)
    ensures
      var (after, outcome) := Attempt(sha, s, token, csr, env);
      match outcome
      case NotAvailable | HashUnreadable | HashUndecodable | CsrRequired | CaUnreadable | SigningFailed => after == s
      case AuthenticationFailed =>
        after == if s.attempts < 2 then s.(attempts := s.attempts + 1) else Spent(s, env, s.attempts + 1)
      case LockedOut | InvalidCertificate | Issued => after == Spent(s, env, s.attempts)
  {}

  /** Which outcome it is, while a hash is installed that some token was written from. */
  lemma OutcomeExactlyWhen(sha: string -> seq<byte>, s: State, installed: string, token: string, csr: string,
                           env: Env)
    requires s.tokenHash.Some? ==> s.tokenHash == Some(HashFileText(sha(installed)))
    ensures
      var outcome := Attempt(sha, s, token, csr, env).1;
      var open := s.tokenHash.Some? && !env.hashStatFails && (!s.consumed || env.markerStatFails);
      var counted := open && s.attempts < 3 && !env.hashReadFails;
      var right := counted && sha(token) == sha(installed);
      && (outcome == NotAvailable <==> !open)
      && (outcome == LockedOut <==> open && s.attempts >= 3)
      && (outcome == HashUnreadable <==> open && s.attempts < 3 && env.hashReadFails)
      && outcome != HashUndecodable
      && (outcome == AuthenticationFailed <==> counted && sha(token) != sha(installed))
      && (outcome == CsrRequired <==> right && csr == "")
      && (outcome == CaUnreadable <==> right && csr != "" && env.caReadFails)
      && (outcome == SigningFailed <==> right && csr != "" && !env.caReadFails && env.signing == SignError)
      && (outcome == InvalidCertificate <==> right && csr != "" && !env.caReadFails && env.signing == BadPem)
      && (outcome == Issued <==> right && csr != "" && !env.caReadFails && env.signing == Signed)
  {
    StoredHashReadsBack(sha(installed));
  }

  class TlsDir {
    var tokenHash: Option<string>
    var consumed: bool

    constructor ()
      ensures tokenHash == None && !consumed
    {
      tokenHash, consumed := None, false;
    }

    /** WriteTokenHash: the consumed marker stays as it is. */
    method WriteTokenHash(sha: string -> seq<byte>, token: string, writeFails: bool)
      modifies this`tokenHash
      ensures tokenHash == if writeFails then old(tokenHash) else Some(HashFileText(sha(token)))
    {
      var hash := HASH_PREFIX + HexEncode(sha(token));
      if !writeFails { tokenHash := Some(hash + "\n"); }
    }
  }

  class Manager {
    const sha: string -> seq<byte>
    const dir: TlsDir
    var attempts: nat

    constructor (sha: string -> seq<byte>, dir: TlsDir)
      ensures this.sha == sha && this.dir == dir && attempts == 0
    {
      this.sha, this.dir, this.attempts := sha, dir, 0;
    }

    ghost function Current(): State
      reads this, dir
    {
      State(dir.tokenHash, dir.consumed, attempts)
    }

    method IsEnabled(env: Env) returns (yes: bool)
      ensures yes <==> Enabled(Current(), env)
    {
      if dir.tokenHash.None? || env.hashStatFails { return false; }
      return !dir.consumed || env.markerStatFails;
    }

    method Consume(env: Env)
      modifies dir
      ensures Current() == Consumed(old(Current()), env)
    {
      if !env.markerWriteFails { dir.consumed := true; }
      if !env.hashRemoveFails { dir.tokenHash := None; }
    }

    method Bootstrap(token: string, csr: string, env: Env) returns (r: Outcome)
      modifies this, dir
      ensures (Current(), r) == Attempt(sha, old(Current()), token, csr, env)
    {
      var enabled := IsEnabled(env);
      if !enabled { return NotAvailable; }
      if attempts >= MAX_ATTEMPTS {
        Consume(env);
        return LockedOut;
      }
      if env.hashReadFails { return HashUnreadable; }
      var hashStr := TrimSpace(dir.tokenHash.value);
      hashStr := TrimPrefix(hashStr, HASH_PREFIX);
      var expected := HexDecode(hashStr);
      if expected.None? { return HashUndecodable; }

      var actual := sha(token);
      if actual != expected.value {
        attempts := attempts + 1;
        if attempts >= MAX_ATTEMPTS { Consume(env); }
        return AuthenticationFailed;
      }
      if csr == "" { return CsrRequired; }
      if env.caReadFails { return CaUnreadable; }
      match env.signing
      case SignError => return SigningFailed;
      case BadPem =>
        Consume(env);
        return InvalidCertificate;
      case Signed =>
        Consume(env);
        return Issued;
    }
  }
}
