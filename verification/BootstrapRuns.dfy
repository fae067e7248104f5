/** Runs of the bootstrap endpoint: any interleaving of callers, restarts and installations. */
module BootstrapRuns {
  import opened Wrappers
  import opened Bootstrap

  datatype Op =
    | Arrive(env: Env)                                   // the unlocked check in BootstrapAuth
    | Enter(token: string, csr: string, env: Env)        // a caller that passed it gets the lock
    | Restart
    | Install(token: string, writeFails: bool)

  /** The manager, and how many callers are between the unlocked check and the lock. */
  datatype World = World(s: State, waiting: nat)

  function Step(sha: string -> seq<byte>, w: World, op: Op): World {
    match op
    case Arrive(env) => if Enabled(w.s, env) then w.(waiting := w.waiting + 1) else w
    case Enter(token, csr, env) =>
      if w.waiting == 0 then w else World(Attempt(sha, w.s, token, csr, env).0, w.waiting - 1)
    case Restart => World(w.s.(attempts := 0), 0)
    case Install(token, writeFails) =>
      if writeFails then w else w.(s := w.s.(tokenHash := Some(HashFileText(sha(token)))))
  }

  predicate Runs(w: World, op: Op) {
    op.Enter? && w.waiting > 0
  }

  function OutcomeOf(sha: string -> seq<byte>, w: World, op: Op): Outcome
    requires Runs(w, op)
  {
    Attempt(sha, w.s, op.token, op.csr, op.env).1
  }

  predicate Issues(sha: string -> seq<byte>, w: World, op: Op) {
    Runs(w, op) && OutcomeOf(sha, w, op) == Issued
  }

  predicate Mismatches(sha: string -> seq<byte>, w: World, op: Op) {
    Runs(w, op) && OutcomeOf(sha, w, op) == AuthenticationFailed
  }

  function Run(sha: string -> seq<byte>, w: World, ops: seq<Op>): World {
    if ops == [] then w else Step(sha, Run(sha, w, ops[..|ops| - 1]), ops[|ops| - 1])
  }

  /** Certificates issued in a run. */
  function Certificates(sha: string -> seq<byte>, w: World, ops: seq<Op>): nat {
    if ops == [] then 0
    else
      var before := ops[..|ops| - 1];
      Certificates(sha, w, before) + if Issues(sha, Run(sha, w, before), ops[|ops| - 1]) then 1 else 0
  }

  /** Token hashes written in a run. */
  function Installations(ops: seq<Op>): nat {
    if ops == [] then 0
    else
      var last := ops[|ops| - 1];
      Installations(ops[..|ops| - 1]) + if last.Install? && !last.writeFails then 1 else 0
  }

  /** Token mismatches since the process was started. */
  function MismatchesSinceStart(sha: string -> seq<byte>, w: World, ops: seq<Op>): nat {
    if ops == [] then 0
    else
      var before, last := ops[..|ops| - 1], ops[|ops| - 1];
      if last.Restart? then 0
      else MismatchesSinceStart(sha, w, before) + if Mismatches(sha, Run(sha, w, before), last) then 1 else 0
  }

  ghost predicate MarkerWorks(op: Op) {
    op.Enter? ==> !op.env.markerWriteFails && !op.env.markerStatFails
  }

  ghost predicate RemovalWorks(op: Op) {
    op.Enter? ==> !op.env.hashRemoveFails
  }

  /** If the consumed marker can always be written and seen, at most one certificate is ever
      issued, whatever is installed later and however callers and restarts interleave. */
  lemma {:induction false} OneCertificate(sha: string -> seq<byte>, w: World, ops: seq<Op>)
    requires forall i :: 0 <= i < |ops| ==> MarkerWorks(ops[i])
    ensures Certificates(sha, w, ops) <= 1
    ensures w.s.consumed ==> Certificates(sha, w, ops) == 0
    ensures Run(sha, w, ops).s.consumed <== w.s.consumed || Certificates(sha, w, ops) == 1
  {
    if ops != [] {
      var before := ops[..|ops| - 1];
      assert MarkerWorks(ops[|ops| - 1]);
      OneCertificate(sha, w, before);
    }
  }

  /** If only the removal of the token hash always works, at most one certificate is issued for
      each hash that was installed, the one present at the beginning included. */
  lemma {:induction false} OnePerInstallation(sha: string -> seq<byte>, w: World, ops: seq<Op>)
    requires forall i :: 0 <= i < |ops| ==> RemovalWorks(ops[i])
    ensures Certificates(sha, w, ops) + (if Run(sha, w, ops).s.tokenHash.Some? then 1 else 0)
         <= Installations(ops) + (if w.s.tokenHash.Some? then 1 else 0)
  {
    if ops != [] {
      assert RemovalWorks(ops[|ops| - 1]);
      OnePerInstallation(sha, w, ops[..|ops| - 1]);
    }
  }

  // ---- When a later certificate is possible ----

  /** The locked check of a caller can see the marker. */
  ghost predicate MarkerSeen(op: Op) {
    op.Enter? ==> !op.env.markerStatFails
  }

  ghost predicate AllMarkerSeen(ops: seq<Op>) {
    forall i :: 0 <= i < |ops| ==> MarkerSeen(ops[i])
  }

  /** No continuation of `w` without an installation issues a certificate. */
  ghost predicate SafeWithoutInstall(sha: string -> seq<byte>, w: World) {
    forall later :: Installations(later) == 0 ==> Certificates(sha, w, later) == 0
  }

  /** No continuation in which the marker's stat works does. */
  ghost predicate SafeWhileMarkerSeen(sha: string -> seq<byte>, w: World) {
    forall later :: AllMarkerSeen(later) ==> Certificates(sha, w, later) == 0
  }

  /** No continuation for which both hold does. */
  ghost predicate SafeForBoth(sha: string -> seq<byte>, w: World) {
    forall later :: Installations(later) == 0 && AllMarkerSeen(later) ==> Certificates(sha, w, later) == 0
  }

  /** What the issuing call leaves, in terms of its two file operations. */
  lemma IssueLeaves(sha: string -> seq<byte>, w: World, op: Op)
    requires Issues(sha, w, op)
    ensures var s := Step(sha, w, op).s;
      && (s.tokenHash.None? <==> !op.env.hashRemoveFails)
      && (s.consumed <==> w.s.consumed || !op.env.markerWriteFails)
      && s.attempts == w.s.attempts < MAX_ATTEMPTS
  {}

  lemma {:induction false} NoHashNoCertificate(sha: string -> seq<byte>, w: World, later: seq<Op>)
    requires w.s.tokenHash.None? && Installations(later) == 0
    ensures Run(sha, w, later).s.tokenHash.None? && Certificates(sha, w, later) == 0
  {
    if later != [] { NoHashNoCertificate(sha, w, later[..|later| - 1]); }
  }

  lemma {:induction false} MarkerNoCertificate(sha: string -> seq<byte>, w: World, later: seq<Op>)
    requires w.s.consumed && AllMarkerSeen(later)
    ensures Run(sha, w, later).s.consumed && Certificates(sha, w, later) == 0
  {
    if later != [] {
      assert MarkerSeen(later[|later| - 1]);
      MarkerNoCertificate(sha, w, later[..|later| - 1]);
    }
  }

  /** Everything works, the stat of the marker perhaps excepted. */
  function Working(markerStatFails: bool): Env {
    Env(false, markerStatFails, false, false, Signed, false, false)
  }

  function Again(token: string, markerStatFails: bool): seq<Op> {
    [Arrive(Working(markerStatFails)), Enter(token, "csr", Working(markerStatFails))]
  }

  /** While the token's hash is there and the marker cannot be seen, the token works once more. */
  lemma TokenWorksAgain(sha: string -> seq<byte>, w: World, token: string, markerStatFails: bool)
    requires RightToken(sha, w.s, token) && w.s.attempts < MAX_ATTEMPTS
    requires !w.s.consumed || markerStatFails
    ensures Certificates(sha, w, Again(token, markerStatFails)) == 1
    ensures Installations(Again(token, markerStatFails)) == 0
  {
    var env := Working(markerStatFails);
    var ops := Again(token, markerStatFails);
    assert Installations(ops[..1][..0]) == 0 && Installations(ops[..1]) == 0;
    TwoSteps(sha, w, Arrive(env), Enter(token, "csr", env));
  }

  /** Also when the process has counted three mismatches: a restart forgets them. */
  lemma RestartThenWorks(sha: string -> seq<byte>, w: World, token: string, markerStatFails: bool)
    requires RightToken(sha, w.s, token) && (!w.s.consumed || markerStatFails)
    ensures
      var later := [Restart] + Again(token, markerStatFails);
      && Certificates(sha, w, later) == 1 && Installations(later) == 0
      && (!markerStatFails ==> AllMarkerSeen(later))
  {
    TokenWorksAgain(sha, Step(sha, w, Restart), token, markerStatFails);
    OneStep(sha, w, Restart);
    CertificatesConcat(sha, w, [Restart], Again(token, markerStatFails));
    InstallationsConcat([Restart], Again(token, markerStatFails));
    assert [Restart][..0] == [];
  }

  lemma InstallThenWorks(sha: string -> seq<byte>, w: World, token: string)
    requires !w.s.consumed
    ensures
      var later := [Install(token, false)] + ([Restart] + Again(token, false));
      Certificates(sha, w, later) == 1 && AllMarkerSeen(later)
  {
    var installed := Step(sha, w, Install(token, false));
    StoredHashReadsBack(sha(token));
    RestartThenWorks(sha, installed, token, false);
    OneStep(sha, w, Install(token, false));
    CertificatesConcat(sha, w, [Install(token, false)], [Restart] + Again(token, false));
  }

  lemma {:induction false} InstallationsConcat(first: seq<Op>, more: seq<Op>)
    ensures Installations(first + more) == Installations(first) + Installations(more)
    decreases |more|
  {
    if more == [] {
      assert first + more == first;
    } else {
      var n := |more| - 1;
      assert (first + more)[..|first| + n] == first + more[..n];
      InstallationsConcat(first, more[..n]);
    }
  }

  lemma {:induction false} CertificatesConcat(sha: string -> seq<byte>, w: World, first: seq<Op>, more: seq<Op>)
    ensures Run(sha, w, first + more) == Run(sha, Run(sha, w, first), more)
    ensures Certificates(sha, w, first + more)
         == Certificates(sha, w, first) + Certificates(sha, Run(sha, w, first), more)
    decreases |more|
  {
    if more == [] {
      assert first + more == first;
    } else {
      var n := |more| - 1;
      assert (first + more)[..|first| + n] == first + more[..n];
      CertificatesConcat(sha, w, first, more[..n]);
    }
  }

  /** From any state, however many mismatches were counted: what later runs can issue depends on
      the two files only. Some token must match the hash, if one is installed. */
  lemma SafeExactlyWhen(sha: string -> seq<byte>, w: World, token: string)
    requires w.s.tokenHash.Some? ==> RightToken(sha, w.s, token)
    ensures SafeWithoutInstall(sha, w) <==> w.s.tokenHash.None?
    ensures SafeWhileMarkerSeen(sha, w) <==> w.s.consumed
    ensures SafeForBoth(sha, w) <==> w.s.tokenHash.None? || w.s.consumed
  {
    forall later: seq<Op>
      ensures w.s.tokenHash.None? && Installations(later) == 0 ==> Certificates(sha, w, later) == 0
      ensures w.s.consumed && AllMarkerSeen(later) ==> Certificates(sha, w, later) == 0
    {
      if w.s.tokenHash.None? && Installations(later) == 0 { NoHashNoCertificate(sha, w, later); }
      if w.s.consumed && AllMarkerSeen(later) { MarkerNoCertificate(sha, w, later); }
    }
    if w.s.tokenHash.Some? { RestartThenWorks(sha, w, token, true); }
    if !w.s.consumed { InstallThenWorks(sha, w, token); }
    if w.s.tokenHash.Some? && !w.s.consumed { RestartThenWorks(sha, w, token, false); }
  }

  /** After a certificate was issued no later run without a new installation issues another one
      exactly when the issuing call removed the token hash. */
  lemma SecondNeedsHash(sha: string -> seq<byte>, w: World, op: Op)
    requires Issues(sha, w, op)
    ensures SafeWithoutInstall(sha, Step(sha, w, op)) <==> !op.env.hashRemoveFails
  {
    IssueLeaves(sha, w, op);
    SafeExactlyWhen(sha, Step(sha, w, op), op.token);
  }

  /** No later run in which the marker can be seen issues another one, installations included,
      exactly when the issuing call wrote the marker (or it was there but could not be seen). */
  lemma SecondNeedsNoMarker(sha: string -> seq<byte>, w: World, op: Op)
    requires Issues(sha, w, op)
    ensures SafeWhileMarkerSeen(sha, Step(sha, w, op)) <==> w.s.consumed || !op.env.markerWriteFails
  {
    IssueLeaves(sha, w, op);
    SafeExactlyWhen(sha, Step(sha, w, op), op.token);
  }

  /** And with neither installations nor failing stats of the marker: exactly when one of the two
      file operations of the issuing call worked, or the marker was there already. */
  lemma SecondNeedsBothFailures(sha: string -> seq<byte>, w: World, op: Op)
    requires Issues(sha, w, op)
    ensures SafeForBoth(sha, Step(sha, w, op))
       <==> w.s.consumed || !op.env.markerWriteFails || !op.env.hashRemoveFails
  {
    IssueLeaves(sha, w, op);
    SafeExactlyWhen(sha, Step(sha, w, op), op.token);
  }

  /** It does happen: a fresh installation whose first issue met such failures. */
  lemma SecondCertificate(sha: string -> seq<byte>, token: string, markerWriteFails: bool)
    ensures
      var initial := World(State(Some(HashFileText(sha(token))), false, 0), 0);
      var first := Working(false).(markerWriteFails := markerWriteFails, hashRemoveFails := true);
      var once := [Arrive(first), Enter(token, "csr", first)];
      && Certificates(sha, initial, once) == 1
      && Certificates(sha, Run(sha, initial, once), Again(token, !markerWriteFails)) == 1
  {
    StoredHashReadsBack(sha(token));
    var initial := World(State(Some(HashFileText(sha(token))), false, 0), 0);
    var first := Working(false).(markerWriteFails := markerWriteFails, hashRemoveFails := true);
    TwoSteps(sha, initial, Arrive(first), Enter(token, "csr", first));
    TokenWorksAgain(sha, Run(sha, initial, [Arrive(first), Enter(token, "csr", first)]), token, !markerWriteFails);
  }

  lemma TwoSteps(sha: string -> seq<byte>, w: World, a: Op, b: Op)
    ensures Run(sha, w, [a, b]) == Step(sha, Step(sha, w, a), b)
    ensures Certificates(sha, w, [a, b]) ==
      (if Issues(sha, w, a) then 1 else 0) + (if Issues(sha, Step(sha, w, a), b) then 1 else 0)
  {
    OneStep(sha, w, a);
    assert [a, b][..1] == [a];
    assert Run(sha, w, [a, b]) == Step(sha, Run(sha, w, [a, b][..1]), b);
  }

  lemma OneStep(sha: string -> seq<byte>, w: World, a: Op)
    ensures Run(sha, w, [a]) == Step(sha, w, a)
    ensures Certificates(sha, w, [a]) == if Issues(sha, w, a) then 1 else 0
  {
    assert [a][..0] == [];
  }

  /** The counter is the number of mismatches of this process, and it stops at three. */
  lemma {:induction false} CounterCountsMismatches(sha: string -> seq<byte>, w: World, ops: seq<Op>)
    requires w.s.attempts == 0
    ensures Run(sha, w, ops).s.attempts == MismatchesSinceStart(sha, w, ops) <= MAX_ATTEMPTS
  {
    if ops != [] {
      CounterCountsMismatches(sha, w, ops[..|ops| - 1]);
    }
  }

  // ---- A few wrong tokens ----

  /** All token mismatches of a run, over all its processes. */
  function WrongTokens(sha: string -> seq<byte>, w: World, ops: seq<Op>): nat {
    if ops == [] then 0
    else
      var before := ops[..|ops| - 1];
      WrongTokens(sha, w, before) + if Mismatches(sha, Run(sha, w, before), ops[|ops| - 1]) then 1 else 0
  }

  /** The call ends with a certificate, or with a signer that made a bad one. */
  predicate Signs(sha: string -> seq<byte>, w: World, op: Op) {
    Runs(w, op) && (OutcomeOf(sha, w, op) == Issued || OutcomeOf(sha, w, op) == InvalidCertificate)
  }

  ghost predicate NeverSigns(sha: string -> seq<byte>, w: World, ops: seq<Op>) {
    forall i :: 0 <= i < |ops| ==> !SignsAt(sha, w, ops, i)
  }

  ghost predicate SignsAt(sha: string -> seq<byte>, w: World, ops: seq<Op>, i: nat)
    requires i < |ops|
  {
    Signs(sha, Run(sha, w, ops[..i]), ops[i])
  }

  lemma NeverSignsBefore(sha: string -> seq<byte>, w: World, ops: seq<Op>)
    requires ops != [] && NeverSigns(sha, w, ops)
    ensures NeverSigns(sha, w, ops[..|ops| - 1])
    ensures !Signs(sha, Run(sha, w, ops[..|ops| - 1]), ops[|ops| - 1])
  {
    var n := |ops| - 1;
    assert !SignsAt(sha, w, ops, n);
    forall i: nat | i < n
      ensures !SignsAt(sha, w, ops[..n], i)
    {
      assert ops[..n][..i] == ops[..i];
      assert !SignsAt(sha, w, ops, i);
    }
  }

  /** At most two wrong tokens, with any requests that are refused for other reasons, failing file
      operations and restarts in between, leave the two files as they were. */
  lemma {:induction false} TwoWrongTokensAreForgiven(sha: string -> seq<byte>, w: World, ops: seq<Op>)
    requires w.s.attempts == 0 && WrongTokens(sha, w, ops) <= 2
    requires Installations(ops) == 0 && NeverSigns(sha, w, ops)
    ensures
      var s := Run(sha, w, ops).s;
      s.tokenHash == w.s.tokenHash && s.consumed == w.s.consumed && s.attempts <= WrongTokens(sha, w, ops)
  {
    if ops != [] {
      NeverSignsBefore(sha, w, ops);
      TwoWrongTokensAreForgiven(sha, w, ops[..|ops| - 1]);
    }
  }

  /** So the right token still gets its certificate. */
  lemma RightTokenStillIssues(sha: string -> seq<byte>, w: World, ops: seq<Op>, token: string)
    requires RightToken(sha, w.s, token) && !w.s.consumed && w.s.attempts == 0
    requires WrongTokens(sha, w, ops) <= 2 && Installations(ops) == 0 && NeverSigns(sha, w, ops)
    ensures Certificates(sha, w, ops) == 0
    ensures Certificates(sha, w, ops + Again(token, false)) == 1
  {
    TwoWrongTokensAreForgiven(sha, w, ops);
    NeverSignsIssuesNothing(sha, w, ops);
    CertificatesConcat(sha, w, ops, Again(token, false));
    TokenWorksAgain(sha, Run(sha, w, ops), token, false);
  }

  lemma {:induction false} NeverSignsIssuesNothing(sha: string -> seq<byte>, w: World, ops: seq<Op>)
    requires NeverSigns(sha, w, ops)
    ensures Certificates(sha, w, ops) == 0
  {
    if ops != [] {
      NeverSignsBefore(sha, w, ops);
      NeverSignsIssuesNothing(sha, w, ops[..|ops| - 1]);
    }
  }

  /** Within one process whose marker works, the right token works afterwards exactly when there
      were at most two wrong ones. */
  lemma WorksExactlyUpToTwo(sha: string -> seq<byte>, w: World, ops: seq<Op>, token: string)
    requires RightToken(sha, w.s, token) && !w.s.consumed && w.s.attempts == 0
    requires Installations(ops) == 0 && NeverSigns(sha, w, ops)
    requires forall i :: 0 <= i < |ops| ==> !ops[i].Restart? && MarkerWorks(ops[i])
    ensures Certificates(sha, w, ops + Again(token, false)) == 1 <==> WrongTokens(sha, w, ops) <= 2
  {
    if WrongTokens(sha, w, ops) <= 2 {
      RightTokenStillIssues(sha, w, ops, token);
    } else {
      ThirdWrongTokenConsumes(sha, w, ops);
      NeverSignsIssuesNothing(sha, w, ops);
      CertificatesConcat(sha, w, ops, Again(token, false));
      MarkerNoCertificate(sha, Run(sha, w, ops), Again(token, false));
    }
  }

  lemma {:induction false} ThirdWrongTokenConsumes(sha: string -> seq<byte>, w: World, ops: seq<Op>)
    requires w.s.attempts == 0
    requires forall i :: 0 <= i < |ops| ==> !ops[i].Restart? && MarkerWorks(ops[i])
    ensures
      var s := Run(sha, w, ops).s;
      s.attempts == WrongTokens(sha, w, ops) <= 3 && (s.attempts == 3 ==> s.consumed)
  {
    if ops != [] {
      var last := ops[|ops| - 1];
      assert !last.Restart? && MarkerWorks(last);
      ThirdWrongTokenConsumes(sha, w, ops[..|ops| - 1]);
    }
  }

  /** After three mismatches the process issues nothing more, even if it can neither write the
      marker nor remove the hash. */
  lemma {:induction false} LockoutIsFinal(sha: string -> seq<byte>, w: World, ops: seq<Op>)
    requires w.s.attempts == MAX_ATTEMPTS
    requires forall i :: 0 <= i < |ops| ==> !ops[i].Restart?
    ensures Run(sha, w, ops).s.attempts == MAX_ATTEMPTS
    ensures Certificates(sha, w, ops) == 0
  {
    if ops != [] {
      LockoutIsFinal(sha, w, ops[..|ops| - 1]);
    }
  }

  /** Whether the lockout outlives the process is decided by the two file operations of the third
      mismatch: without new installations it does exactly when the hash was removed; while the
      marker can be seen, installations included, exactly when the marker is there; with neither,
      exactly when one of them worked. `token` is the right one. */
  lemma LockoutSurvivesRestart(sha: string -> seq<byte>, w: World, third: Op, token: string)
    requires Mismatches(sha, w, third) && w.s.attempts == MAX_ATTEMPTS - 1 && RightToken(sha, w.s, token)
    ensures
      var after, marked := Step(sha, w, third), w.s.consumed || !third.env.markerWriteFails;
      && after.s.attempts == MAX_ATTEMPTS
      && (SafeWithoutInstall(sha, after) <==> !third.env.hashRemoveFails)
      && (SafeWhileMarkerSeen(sha, after) <==> marked)
      && (SafeForBoth(sha, after) <==> marked || !third.env.hashRemoveFails)
  {
    SafeExactlyWhen(sha, Step(sha, w, third), token);
  }

  /** While the last installed hash is that of `token`, exactly the calls that present a token
      with the same digest, a CSR that can be signed, and readable files are answered with a
      certificate; a right token with a bad request leaves everything as it was. */
  lemma IssuedExactlyWhen(sha: string -> seq<byte>, s: State, installed: string, token: string, csr: string, env: Env)
    requires s.tokenHash == Some(HashFileText(sha(installed)))
    ensures Attempt(sha, s, token, csr, env).1 == Issued
       <==> Enabled(s, env) && s.attempts < MAX_ATTEMPTS && sha(token) == sha(installed)
            && !env.hashReadFails && !env.caReadFails && csr != "" && env.signing == Signed
    ensures sha(token) == sha(installed) && s.attempts < MAX_ATTEMPTS && (csr == "" || env.signing == SignError) ==>
      Attempt(sha, s, token, csr, env).0 == s
  {
    StoredHashReadsBack(sha(installed));
  }
}
