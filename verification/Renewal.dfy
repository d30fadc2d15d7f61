/** Renewal of the agent's mTLS credentials: the server decides when it asks for a certificate, the agent
    installs what it is sent.  The properties span both sides and any run of certificate requests. */
module Renewal {
  import opened Wrappers
  import opened Words
  import opened SshModel
  import opened ChallengeProtocol
  import opened Issuing
  import Signing

  // ---------- the agent ----------

  datatype ServerEntry = ServerEntry(address: string, caPem: string, mtlsCert: string, mtlsKey: string)

  /** What asking one server yields: an error, or a certificate with new credentials (empty if none). */
  datatype Reply = Refusal | Answer(cert: CertText, newCert: string, newKey: string)

  datatype FetchError = NoServersReturnedCertificate | ServerReturnedInvalidCertificate

  /** `replace("\r", "")`. */
  function WithoutCr(s: string): string {
    if s == "" then "" else (if s[0] == '\r' then "" else [s[0]]) + WithoutCr(s[1..])
  }

  /** Carriage returns go, wherever they are. */
  lemma {:induction false} WithoutCrThen(s: string, t: string)
    ensures WithoutCr(s + t) == WithoutCr(s) + WithoutCr(t)
  {
    if s == "" {
      assert s + t == t;
    } else {
      assert (s + t)[1..] == s[1..] + t;
      WithoutCrThen(s[1..], t);
    }
  }

  /** And nothing else goes. */
  lemma {:induction false} WithoutCrKeeps(s: string, c: char)
    ensures multiset(WithoutCr(s))[c] == if c == '\r' then 0 else multiset(s)[c]
  {
    if s != "" {
      WithoutCrKeeps(s[1..], c);
      assert s == [s[0]] + s[1..];
      var head := if s[0] == '\r' then "" else [s[0]];
      assert multiset(WithoutCr(s)) == multiset(head) + multiset(WithoutCr(s[1..]));
    }
  }

  function Install(server: ServerEntry, reply: Reply): ServerEntry
    requires reply.Answer?
  {
    if reply.newCert == "" then server
    else server.(mtlsCert := WithoutCr(reply.newCert),
                 mtlsKey := if reply.newKey == "" then server.mtlsKey else WithoutCr(reply.newKey))
  }

  /** The first server that does not refuse. */
  function FirstAnswer(replies: seq<Reply>): (i: nat)
    ensures i <= |replies|
    ensures i < |replies| ==> replies[i].Answer?
    ensures forall j :: 0 <= j < i ==> replies[j].Refusal?
  {
    if replies == [] || replies[0].Answer? then 0 else 1 + FirstAnswer(replies[1..])
  }

  /** The server whose entry a fetch changes, if any. */
  function InstallsAt(replies: seq<Reply>): Option<nat> {
    var i := FirstAnswer(replies);
    if i < |replies| && ParseCert(replies[i].cert).Some? && replies[i].newCert != "" then Some(i) else None
  }

  function Fetched(servers: seq<ServerEntry>, replies: seq<Reply>): seq<ServerEntry>
    requires |servers| == |replies|
  {
    match InstallsAt(replies)
    case None => servers
    case Some(i) => servers[i := Install(servers[i], replies[i])]
  }

  class Configuration {
    var servers: seq<ServerEntry>

    constructor (servers: seq<ServerEntry>)
      ensures this.servers == servers
    {
      this.servers := servers;
    }

    /** `fetch_new_certificate`: servers are asked in order until one answers; only that one's entry may change,
        and not when its certificate is unusable. */
    method FetchNewCertificate(replies: seq<Reply>) returns (r: Result<Certificate, FetchError>)
      requires |replies| == |servers|
      modifies this
      ensures servers == Fetched(old(servers), replies)
      ensures var i := FirstAnswer(replies);
              if i < |replies| && ParseCert(replies[i].cert).Some? && replies[i].newCert != ""
              then && |servers| == |old(servers)|
                   && (forall j :: 0 <= j < |servers| && j != i ==> servers[j] == old(servers)[j])
                   && servers[i].mtlsCert == WithoutCr(replies[i].newCert)
                   && (replies[i].newKey != "" ==> servers[i].mtlsKey == WithoutCr(replies[i].newKey))
                   && (replies[i].newKey == "" ==> servers[i].mtlsKey == old(servers)[i].mtlsKey)
                   && servers[i].address == old(servers)[i].address && servers[i].caPem == old(servers)[i].caPem
              else servers == old(servers)
      ensures r == var i := FirstAnswer(replies);
                   if i == |replies| then Err(NoServersReturnedCertificate)
                   else if ParseCert(replies[i].cert).None? then Err(ServerReturnedInvalidCertificate)
                   else Ok(ParseCert(replies[i].cert).value)
    {
      var i := 0;
      while i < |servers|
        invariant i <= |servers| && servers == old(servers)
        invariant forall j :: 0 <= j < i ==> replies[j].Refusal?
      {
        match replies[i] {
          case Refusal =>
          case Answer(cert, newCert, newKey) =>
            assert FirstAnswer(replies) == i;
            var parsed := ParseCert(cert);
            if parsed.None? {
              return Err(ServerReturnedInvalidCertificate);
            }
            if newCert != "" {
              var server := servers[i];
              server := server.(mtlsCert := WithoutCr(newCert));
              if newKey != "" {
                server := server.(mtlsKey := WithoutCr(newKey));
              }
              servers := servers[i := server];
            }
            return Ok(parsed.value);
        }
        i := i + 1;
      }
      return Err(NoServersReturnedCertificate);
    }
  }

  // ---------- the server ----------

  /** The X.509 library, uninterpreted: reading credentials, and making a pair from a validity and fresh randomness. */
  datatype Pem = Pem(
    expiry: string -> i64,
    pairOfCert: string -> nat,
    pairOfKey: string -> nat,
    makeCert: (Refresh, nat) -> string,
    makeKey: nat -> string)

  /** The end of the year 9999, the last second that an X.509 time can name. */
  const LAST_X509_TIME: u64 := 253402300799

  ghost predicate PemReadsBack(pem: Pem) {
    && (forall r: Refresh, seed :: pem.makeCert(r, seed) != "" && pem.makeKey(seed) != "")
    && (forall r: Refresh, seed :: r.notAfter <= LAST_X509_TIME ==>
          pem.expiry(WithoutCr(pem.makeCert(r, seed))) == r.notAfter)
    && (forall r: Refresh, seed :: pem.pairOfCert(WithoutCr(pem.makeCert(r, seed))) == seed)
    && (forall seed :: pem.pairOfKey(WithoutCr(pem.makeKey(seed))) == seed)
  }

  /** The circumstances of one certificate call to one server. */
  datatype Exchange = Exchange(
    backend: Backend,
    names: seq<Option<string>>,
    req: CertificateRequest,
    clocks: Clocks,
    seed: nat)

  /** What a server answers an agent that presents `entry`'s client certificate. */
  function ReplyTo(pem: Pem, entry: ServerEntry, x: Exchange): Reply {
    var peer := Peer(x.names, pem.expiry(entry.mtlsCert));
    match HandleCertificate(x.backend, Some([peer]), x.req, x.clocks)
    case Failed(_) => Refusal
    case Issued(cert, None) => Answer(PrintCert(x.backend.lib, cert), "", "")
    case Issued(cert, Some(refresh)) =>
      Answer(PrintCert(x.backend.lib, cert), pem.makeCert(refresh, x.seed), pem.makeKey(x.seed))
  }

  function Replies(pem: Pem, servers: seq<ServerEntry>, xs: seq<Exchange>): seq<Reply>
    requires |servers| == |xs|
  {
    seq(|xs|, i requires 0 <= i < |xs| => ReplyTo(pem, servers[i], xs[i]))
  }

  /** The wrapping test renews exactly when less than the renewal period is left, expired certificates included, and
      the renewal starts now.  An expiry before 1970 counts as one just below 2^64. */
  lemma RenewedExactlyWhenDue(srv: Server, expiry: i64, time: u64)
    ensures var refresh := RefreshFor(srv, expiry, time);
            && (refresh.Some? <==> (if expiry < 0 then expiry + U64_BOUND else expiry) - time < srv.renewalPeriod)
            && (refresh.Some? && time + srv.validityLength < U64_BOUND ==>
                  refresh.value.notBefore == time && refresh.value.notAfter - time == srv.validityLength)
  {
  }

  /** At every clock to which the validity length can be added, the policy raises every expiry it touches exactly when
      the renewal period does not exceed the validity length; a renewal that ends past every expiry always does. */
  lemma RenewalRaisesExpiryIff(srv: Server, time: u64)
    requires time + srv.validityLength < U64_BOUND
    ensures time + srv.validityLength < I64_BOUND ==>
              (srv.renewalPeriod <= srv.validityLength <==> AlwaysRaises(srv, time))
    ensures time + srv.validityLength >= I64_BOUND ==> AlwaysRaises(srv, time)
  {
    if srv.renewalPeriod > srv.validityLength && time + srv.validityLength < I64_BOUND {
      var expiry: i64 := time + srv.validityLength;
      assert RefreshFor(srv, expiry, time).Some? && RefreshFor(srv, expiry, time).value.notAfter == expiry;
    }
  }

  ghost predicate AlwaysRaises(srv: Server, time: u64) {
    forall expiry: i64 :: 0 <= expiry && RefreshFor(srv, expiry, time).Some?
                          ==> RefreshFor(srv, expiry, time).value.notAfter > expiry
  }

  // ---------- runs ----------

  /** Server `s` keeps its policy, and its calls stay within the range of X.509 times. */
  ghost predicate Steady(srvs: seq<Server>, xs: seq<Exchange>) {
    && |xs| == |srvs|
    && forall s :: 0 <= s < |srvs| ==>
         && xs[s].backend.srv == srvs[s]
         && (xs[s].clocks.validated.Some? ==> xs[s].clocks.validated.value + srvs[s].validityLength <= LAST_X509_TIME)
  }

  /** One agent's configuration before and after each of its certificate requests. */
  datatype Run = Run(pem: Pem, srvs: seq<Server>, states: seq<seq<ServerEntry>>, rounds: seq<seq<Exchange>>)

  ghost predicate Legal(run: Run) {
    && PemReadsBack(run.pem)
    && |run.states| == |run.rounds| + 1
    && (forall n :: 0 <= n < |run.states| ==> |run.states[n]| == |run.srvs|)
    && (forall s :: 0 <= s < |run.srvs| ==> 0 <= run.pem.expiry(run.states[0][s].mtlsCert))
    && (forall n :: 0 <= n < |run.rounds| ==> Steady(run.srvs, run.rounds[n]))
    && (forall n :: 0 <= n < |run.rounds| ==> run.states[n + 1] == Fetched(run.states[n], RepliesIn(run, n)))
  }

  function RepliesIn(run: Run, n: nat): seq<Reply>
    requires n < |run.rounds| && n < |run.states| && |run.states[n]| == |run.rounds[n]|
  {
    Replies(run.pem, run.states[n], run.rounds[n])
  }

  /** Round `n` renews the credentials for server `s`. */
  predicate Renews(run: Run, n: nat, s: nat)
    requires n < |run.rounds| && n < |run.states| && |run.states[n]| == |run.rounds[n]|
  {
    InstallsAt(RepliesIn(run, n)) == Some(s)
  }

  function Expiry(run: Run, n: nat, s: nat): i64
    requires n < |run.states| && s < |run.states[n]|
  {
    run.pem.expiry(run.states[n][s].mtlsCert)
  }

  predicate Paired(run: Run, n: nat, s: nat)
    requires n < |run.states| && s < |run.states[n]|
  {
    run.pem.pairOfCert(run.states[n][s].mtlsCert) == run.pem.pairOfKey(run.states[n][s].mtlsKey)
  }

  lemma OneRenewal(run: Run, n: nat, s: nat)
    requires Legal(run) && n < |run.rounds| && s < |run.srvs| && Renews(run, n, s)
    ensures run.rounds[n][s].clocks.validated.Some?
    ensures var time := run.rounds[n][s].clocks.validated.value;
            && RefreshFor(run.srvs[s], Expiry(run, n, s), time).Some?
            && time + run.srvs[s].validityLength <= LAST_X509_TIME
            && Expiry(run, n + 1, s) == time + run.srvs[s].validityLength
    ensures Paired(run, n + 1, s)
  {
    var x, entry := run.rounds[n][s], run.states[n][s];
    var reply := ReplyTo(run.pem, entry, x);
    assert RepliesIn(run, n)[s] == reply;
    assert Steady(run.srvs, run.rounds[n]);
    IssuedIsEntitled(x.backend, Some([Peer(x.names, run.pem.expiry(entry.mtlsCert))]), x.req, x.clocks);
    assert run.states[n + 1][s] == Install(entry, reply);
  }

  /** What server `s` does in round `n`. */
  function ResponseIn(run: Run, n: nat, s: nat): Response
    requires n < |run.rounds| && n < |run.states| && s < |run.states[n]| == |run.rounds[n]|
  {
    var x := run.rounds[n][s];
    HandleCertificate(x.backend, Some([Peer(x.names, Expiry(run, n, s))]), x.req, x.clocks)
  }

  /** Renewals happen: round `n` renews the credentials for `s` exactly when the servers before it refuse, it issues a
      certificate, less than the renewal period is left and its client authority has a CA. */
  lemma RenewsExactlyWhen(run: Run, n: nat, s: nat)
    requires Legal(run) && n < |run.rounds| && s < |run.srvs| && 0 <= Expiry(run, n, s)
    ensures var x := run.rounds[n][s];
            Renews(run, n, s) <==>
              && (forall e :: 0 <= e < s ==> ResponseIn(run, n, e).Failed?)
              && ResponseIn(run, n, s).Issued?
              && x.clocks.validated.Some?
              && Expiry(run, n, s) - x.clocks.validated.value < run.srvs[s].renewalPeriod
              && run.srvs[s].clientAuthority in x.backend.signing.authorities
              && Signing.ClientCa(x.backend.signing.authorities[run.srvs[s].clientAuthority]).Some?
  {
    InstalledFirst(RepliesIn(run, n), s);
    forall e | 0 <= e <= s ensures RepliesIn(run, n)[e].Refusal? <==> ResponseIn(run, n, e).Failed? {
      RefusalIsFailure(run, n, e);
    }
    if ResponseIn(run, n, s).Issued? {
      AnswerCarriesRenewal(run, n, s);
    }
  }

  lemma InstalledFirst(replies: seq<Reply>, i: nat)
    requires i < |replies|
    ensures InstallsAt(replies) == Some(i)
       <==> && (forall e :: 0 <= e < i ==> replies[e].Refusal?)
            && replies[i].Answer? && ParseCert(replies[i].cert).Some? && replies[i].newCert != ""
  {
    if replies[i].Answer? && forall e :: 0 <= e < i ==> replies[e].Refusal? {
      assert FirstAnswer(replies) == i;
    }
  }

  lemma RefusalIsFailure(run: Run, n: nat, e: nat)
    requires Legal(run) && n < |run.rounds| && e < |run.srvs|
    ensures RepliesIn(run, n)[e].Refusal? <==> ResponseIn(run, n, e).Failed?
  {
    assert Steady(run.srvs, run.rounds[n]);
    assert RepliesIn(run, n)[e] == ReplyTo(run.pem, run.states[n][e], run.rounds[n][e]);
  }

  lemma AnswerCarriesRenewal(run: Run, n: nat, s: nat)
    requires Legal(run) && n < |run.rounds| && s < |run.srvs| && 0 <= Expiry(run, n, s)
    requires ResponseIn(run, n, s).Issued?
    ensures run.rounds[n][s].clocks.validated.Some?
    ensures var x := run.rounds[n][s];
            var reply := RepliesIn(run, n)[s];
            && reply.Answer? && ParseCert(reply.cert).Some?
            && (reply.newCert != "" <==>
                  && Expiry(run, n, s) - x.clocks.validated.value < run.srvs[s].renewalPeriod
                  && run.srvs[s].clientAuthority in x.backend.signing.authorities
                  && Signing.ClientCa(x.backend.signing.authorities[run.srvs[s].clientAuthority]).Some?)
  {
    var x := run.rounds[n][s];
    var peers := Some([Peer(x.names, Expiry(run, n, s))]);
    assert Steady(run.srvs, run.rounds[n]);
    IssuedIsEntitled(x.backend, peers, x.req, x.clocks);
    RenewalIsSentIff(x.backend, peers, x.req, x.clocks);
    RenewedExactlyWhenDue(run.srvs[s], Expiry(run, n, s), x.clocks.validated.value);
  }

  lemma NoRenewal(run: Run, n: nat, s: nat)
    requires Legal(run) && n < |run.rounds| && s < |run.srvs| && !Renews(run, n, s)
    ensures run.states[n + 1][s] == run.states[n][s]
  {
    assert run.states[n + 1] == Fetched(run.states[n], RepliesIn(run, n));
  }

  lemma OneRound(run: Run, n: nat, s: nat)
    requires Legal(run) && n < |run.rounds| && s < |run.srvs|
    requires run.srvs[s].renewalPeriod <= run.srvs[s].validityLength
    requires 0 <= Expiry(run, n, s)
    ensures Expiry(run, n, s) <= Expiry(run, n + 1, s)
    ensures Renews(run, n, s) ==> Expiry(run, n, s) < Expiry(run, n + 1, s)
  {
    if Renews(run, n, s) {
      OneRenewal(run, n, s);
    } else {
      NoRenewal(run, n, s);
    }
  }

  lemma {:induction false} ExpiryIsPositive(run: Run, n: nat, s: nat)
    requires Legal(run) && n <= |run.rounds| && s < |run.srvs|
    requires run.srvs[s].renewalPeriod <= run.srvs[s].validityLength
    ensures 0 <= Expiry(run, n, s)
  {
    if n > 0 {
      ExpiryIsPositive(run, n - 1, s);
      OneRound(run, n - 1, s);
    }
  }

  lemma {:induction false} ExpiryNeverFalls(run: Run, n: nat, m: nat, s: nat)
    requires Legal(run) && n <= m <= |run.rounds| && s < |run.srvs|
    requires run.srvs[s].renewalPeriod <= run.srvs[s].validityLength
    ensures Expiry(run, n, s) <= Expiry(run, m, s)
    decreases m
  {
    if n < m {
      ExpiryNeverFalls(run, n, m - 1, s);
      ExpiryIsPositive(run, m - 1, s);
      OneRound(run, m - 1, s);
    }
  }

  /** An installed renewal raises that server's expiry above every earlier one. */
  lemma RenewalRaisesExpiry(run: Run, n: nat, m: nat, s: nat)
    requires Legal(run) && n <= m < |run.rounds| && s < |run.srvs|
    requires run.srvs[s].renewalPeriod <= run.srvs[s].validityLength
    requires Renews(run, m, s)
    ensures Expiry(run, n, s) <= Expiry(run, m, s) < Expiry(run, m + 1, s)
  {
    ExpiryNeverFalls(run, n, m, s);
    ExpiryIsPositive(run, m, s);
    OneRound(run, m, s);
  }

  /** Any two renewals of one server are more than the validity length minus the renewal period apart. */
  lemma RenewalsAreSpaced(run: Run, n: nat, m: nat, s: nat)
    requires Legal(run) && n < m < |run.rounds| && s < |run.srvs|
    requires run.srvs[s].renewalPeriod <= run.srvs[s].validityLength
    requires Renews(run, n, s) && Renews(run, m, s)
    ensures run.rounds[n][s].clocks.validated.Some? && run.rounds[m][s].clocks.validated.Some?
    ensures run.rounds[m][s].clocks.validated.value - run.rounds[n][s].clocks.validated.value
            > run.srvs[s].validityLength - run.srvs[s].renewalPeriod
  {
    OneRenewal(run, n, s);
    OneRenewal(run, m, s);
    ExpiryNeverFalls(run, n + 1, m, s);
    RenewedExactlyWhenDue(run.srvs[s], Expiry(run, m, s), run.rounds[m][s].clocks.validated.value);
  }

  /** Certificate and key stay halves of one pair through every run. */
  lemma {:induction false} CredentialsStayPaired(run: Run, n: nat, s: nat)
    requires Legal(run) && n <= |run.rounds| && s < |run.srvs| && Paired(run, 0, s)
    ensures Paired(run, n, s)
  {
    if n > 0 {
      CredentialsStayPaired(run, n - 1, s);
      PairedRound(run, n - 1, s);
    }
  }

  lemma PairedRound(run: Run, n: nat, s: nat)
    requires Legal(run) && n < |run.rounds| && s < |run.srvs| && Paired(run, n, s)
    ensures Paired(run, n + 1, s)
  {
    if Renews(run, n, s) {
      OneRenewal(run, n, s);
    } else {
      NoRenewal(run, n, s);
    }
  }
}
