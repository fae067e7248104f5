/** The JWKS cache of the OIDC provider, one call at a time. */
module Jwks {
  import opened Wrappers

  const TTL := 3600
  const COOLDOWN := 60

  datatype PublicKey =
    | RsaKey(modulus: nat, exponent: nat)
    | EcKey(curve: string, x: nat, y: nat)

  /** An entry of the fetched document, and what toPublicKey makes of it. */
  datatype Jwk = Jwk(kid: string, use: string, key: Option<PublicKey>)

  type KeyMap = map<string, PublicKey>

  /** The cached map and the times of the last successful fetch, in seconds from the zero time. */
  datatype Cache = Cache(keys: KeyMap, lastFetch: int, lastRefresh: int)

  const NEW_CACHE := Cache(map[], 0, 0)

  predicate Usable(k: Jwk) {
    (k.use == "" || k.use == "sig") && k.key.Some?
  }

  /** For each key ID the last usable entry. */
  function UsableKeys(jwks: seq<Jwk>): KeyMap {
    if jwks == [] then map[]
    else
      var before, last := UsableKeys(jwks[..|jwks| - 1]), jwks[|jwks| - 1];
      if Usable(last) then before[last.kid := last.key.value] else before
  }

  ghost predicate IsLastUsable(jwks: seq<Jwk>, kid: string, i: nat)
    requires i < |jwks|
  {
    && jwks[i].kid == kid && jwks[i].use in {"", "sig"} && jwks[i].key.Some?
    && forall j :: i < j < |jwks| && jwks[j].kid == kid ==> jwks[j].use !in {"", "sig"} || jwks[j].key.None?
  }

  /** Exactly the IDs of usable entries are mapped, each to its last usable entry. */
  lemma {:induction false} UsableKeysMeaning(jwks: seq<Jwk>, kid: string)
    ensures kid in UsableKeys(jwks) <==> exists i :: 0 <= i < |jwks| && IsLastUsable(jwks, kid, i)
    ensures forall i :: 0 <= i < |jwks| && IsLastUsable(jwks, kid, i) ==> UsableKeys(jwks)[kid] == jwks[i].key.value
  {
    if jwks != [] {
      var n := |jwks| - 1;
      UsableKeysMeaning(jwks[..n], kid);
      if jwks[n].kid == kid && Usable(jwks[n]) {
        assert IsLastUsable(jwks, kid, n);
      } else {
        forall i | 0 <= i < n
          ensures IsLastUsable(jwks, kid, i) <==> IsLastUsable(jwks[..n], kid, i)
        {
          LastUsablePrefix(jwks, kid, i);
        }
      }
    }
  }

  lemma LastUsablePrefix(jwks: seq<Jwk>, kid: string, i: nat)
    requires i < |jwks| - 1
    requires jwks[|jwks| - 1].kid == kid ==> !Usable(jwks[|jwks| - 1])
    ensures IsLastUsable(jwks, kid, i) <==> IsLastUsable(jwks[..|jwks| - 1], kid, i)
  {}

  function Find(keys: KeyMap, kid: string): Option<PublicKey> {
    if kid in keys then Some(keys[kid]) else None
  }

  /** What a refresh would get: nothing, or a document. */
  datatype Fetch = FetchFailed | Document(jwks: seq<Jwk>)

  /** One call: the clock at its three readings, and the answer of the issuer. */
  datatype Call = Call(kid: string, lookupTime: int, cooldownTime: int, publishTime: int, fetch: Fetch)

  predicate Stale(c: Cache, now: int) {
    now - c.lastFetch > TTL
  }

  predicate CoolingDown(c: Cache, now: int) {
    now - c.lastRefresh < COOLDOWN
  }

  /** The call goes to the issuer. */
  predicate Fetches(c: Cache, call: Call) {
    !(call.kid in c.keys && !Stale(c, call.lookupTime)) && !CoolingDown(c, call.cooldownTime)
  }

  function AfterCall(c: Cache, call: Call): Cache {
    if Fetches(c, call) && call.fetch.Document?
    then Cache(UsableKeys(call.fetch.jwks), call.publishTime, call.publishTime)
    else c
  }

  function Answer(c: Cache, call: Call): Option<PublicKey> {
    Find(AfterCall(c, call).keys, call.kid)
  }

  /** A missing key, or a stale cache, makes the call ask the issuer once the cooldown is over; a
      document then replaces the map, and the answer is its last usable entry for the ID. */
  lemma AskedWhenNeeded(c: Cache, call: Call)
    requires call.kid !in c.keys || call.lookupTime - c.lastFetch > 3600
    requires call.cooldownTime - c.lastRefresh >= 60 && call.fetch.Document?
    ensures AfterCall(c, call).lastFetch == AfterCall(c, call).lastRefresh == call.publishTime
    ensures forall i :: 0 <= i < |call.fetch.jwks| && IsLastUsable(call.fetch.jwks, call.kid, i) ==>
      Answer(c, call) == Some(call.fetch.jwks[i].key.value)
    ensures (forall i :: 0 <= i < |call.fetch.jwks| ==> !IsLastUsable(call.fetch.jwks, call.kid, i)) ==>
      Answer(c, call) == None
  {
    UsableKeysMeaning(call.fetch.jwks, call.kid);
  }

  /** In every other case the cache stays as it is and what it holds is the answer: a key at most
      one hour old, less than a minute since the last refresh, or a failed fetch. */
  lemma OtherwiseUnchanged(c: Cache, call: Call)
    requires
      || (call.kid in c.keys && call.lookupTime - c.lastFetch <= 3600)
      || call.cooldownTime - c.lastRefresh < 60
      || call.fetch.FetchFailed?
    ensures AfterCall(c, call) == c
    ensures Answer(c, call) == if call.kid in c.keys then Some(c.keys[call.kid]) else None
  {}

  class JwksCache {
    var keys: KeyMap
    var lastFetch: int
    var lastRefresh: int

    constructor ()
      ensures Value() == NEW_CACHE
    {
      keys, lastFetch, lastRefresh := map[], 0, 0;
    }

    ghost function Value(): Cache
      reads this
    {
      Cache(keys, lastFetch, lastRefresh)
    }

    method Refresh(fetch: Fetch, now: int) returns (ok: bool)
      modifies this
      ensures ok <==> fetch.Document?
      ensures Value() == if ok then Cache(UsableKeys(fetch.jwks), now, now) else old(Value())
    {
      if fetch.FetchFailed? { return false; }
      var fresh': KeyMap := map[];
      for i := 0 to |fetch.jwks|
        invariant fresh' == UsableKeys(fetch.jwks[..i])
      {
        assert fetch.jwks[..i + 1][..i] == fetch.jwks[..i];
        var k := fetch.jwks[i];
        if k.use != "" && k.use != "sig" { continue; }
        if k.key.None? { continue; }
        fresh' := fresh'[k.kid := k.key.value];
      }
      assert fetch.jwks[..|fetch.jwks|] == fetch.jwks;
      keys, lastFetch, lastRefresh := fresh', now, now;
      return true;
    }

    method GetKey(call: Call) returns (r: Option<PublicKey>)
      modifies this
      ensures Value() == AfterCall(old(Value()), call)
      ensures r == Answer(old(Value()), call)
    {
      var found := Find(keys, call.kid);
      var stale := call.lookupTime - lastFetch > TTL;
      if found.Some? && !stale { return found; }

      var coolingDown := call.cooldownTime - lastRefresh < COOLDOWN;
      if coolingDown { return found; }

      var ok := Refresh(call.fetch, call.publishTime);
      if !ok { return found; }
      return Find(keys, call.kid);
    }
  }

  // ---- Sequential runs ----

  function Run(calls: seq<Call>): Cache {
    if calls == [] then NEW_CACHE else AfterCall(Run(calls[..|calls| - 1]), calls[|calls| - 1])
  }

  predicate Succeeds(c: Cache, call: Call) {
    Fetches(c, call) && call.fetch.Document?
  }

  /** The document of the last successful fetch; at first, an empty one. */
  function LastDocument(calls: seq<Call>): seq<Jwk> {
    if calls == [] then []
    else
      var before, last := calls[..|calls| - 1], calls[|calls| - 1];
      if Succeeds(Run(before), last) then last.fetch.jwks else LastDocument(before)
  }

  /** The readings inside each call are in order. */
  ghost predicate Ordered(calls: seq<Call>) {
    forall i :: 0 <= i < |calls| ==> calls[i].lookupTime <= calls[i].cooldownTime <= calls[i].publishTime
  }

  /** Both times always agree, and the map is the usable part of the last document fetched. */
  lemma {:induction false} CacheIsLastDocument(calls: seq<Call>)
    ensures Run(calls).lastFetch == Run(calls).lastRefresh
    ensures Run(calls).keys == UsableKeys(LastDocument(calls))
  {
    if calls != [] {
      CacheIsLastDocument(calls[..|calls| - 1]);
    }
  }

  /** A call that answers with a key older than the TTL tried the issuer in that very call and
      failed: a stale cache is never inside its cooldown. */
  lemma StaleOnlyAfterFailure(calls: seq<Call>, call: Call)
    requires call.lookupTime <= call.cooldownTime && call.lookupTime <= call.publishTime
    requires Stale(AfterCall(Run(calls), call), call.lookupTime) && Answer(Run(calls), call).Some?
    ensures Fetches(Run(calls), call) && call.fetch.FetchFailed?
  {
    CacheIsLastDocument(calls);
  }

  /** The time of the last success before position n, if there was one. */
  function LastSuccess(calls: seq<Call>, n: nat): Option<int>
    requires n <= |calls|
  {
    if n == 0 then None
    else if Succeeds(Run(calls[..n - 1]), calls[n - 1]) then Some(calls[n - 1].publishTime)
    else LastSuccess(calls, n - 1)
  }

  lemma {:induction false} LastSuccessIsLastRefresh(calls: seq<Call>, n: nat)
    requires n <= |calls|
    ensures LastSuccess(calls, n).Some? ==> Run(calls[..n]).lastRefresh == LastSuccess(calls, n).value
  {
    if n > 0 {
      LastSuccessIsLastRefresh(calls, n - 1);
      assert calls[..n][..n - 1] == calls[..n - 1];
    }
  }

  /** Successful fetches are at least the cooldown apart. */
  lemma FetchesAreApart(calls: seq<Call>, n: nat)
    requires n < |calls| && Ordered(calls) && Succeeds(Run(calls[..n]), calls[n])
    ensures LastSuccess(calls, n).Some? ==> calls[n].publishTime - LastSuccess(calls, n).value >= COOLDOWN
  {
    LastSuccessIsLastRefresh(calls, n);
  }
}
