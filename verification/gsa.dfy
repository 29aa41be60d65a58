/**
 * One GrandSlam login (`gsa_authenticate`): the SRP exchange driven through
 * an SRP user object whose password material is replaced once the server has
 * chosen its derivation mode, the decryption of the `spd` payload, and the
 * dispatch on the `au` status that may run the second-factor step and start
 * the login again.
 *
 * The server is not modelled: each attempt is given the replies it receives
 * (a `Round`). The SRP library is a record of functions (`SrpLibrary`), the
 * property-list parser is a function, and network calls other than the two
 * exchange replies and the 2FA validation verdict are left out.
 */
module Gsa {
  import opened Wrappers
  import opened Encoding
  import opened GsaCrypto
  import opened Plist

  // ---------------------------------------------------------------------------
  // The SRP library, opaque
  // ---------------------------------------------------------------------------

  /** What `process_challenge` computes: the client proof M, the session key K and the expected server proof. */
  datatype SrpSession = SrpSession(m: seq<Byte>, k: seq<Byte>, hamk: seq<Byte>)

  datatype SrpLibrary = SrpLibrary(
    /** private ephemeral a |-> public ephemeral A */
    publicEphemeral: seq<Byte> -> seq<Byte>,
    /** (username, password material, a, salt, B) |-> the session, or None when B or u is degenerate */
    processChallenge: (string, seq<Byte>, seq<Byte>, seq<Byte>, seq<Byte>) -> Option<SrpSession>)

  /** The library's `User` object: its password field is overwritten by the handshake. */
  class SrpUser {
    const username: string
    const ephemeral: seq<Byte>
    var password: seq<Byte>
    var session: Option<SrpSession>
    var authenticated: bool

    constructor (username: string, password: seq<Byte>, ephemeral: seq<Byte>)
      ensures this.username == username && this.ephemeral == ephemeral && this.password == password
      ensures session.None? && !authenticated
    {
      this.username := username;
      this.ephemeral := ephemeral;
      this.password := password;
      session := None;
      authenticated := false;
    }

    /** `start_authentication`: the public ephemeral value A. */
    method StartAuthentication(lib: SrpLibrary) returns (a: seq<Byte>)
      ensures a == lib.publicEphemeral(ephemeral)
    {
      a := lib.publicEphemeral(ephemeral);
    }

    /** `process_challenge`: computed from whatever `password` holds at the time of the call. */
    method ProcessChallenge(lib: SrpLibrary, salt: seq<Byte>, b: seq<Byte>) returns (m: Option<seq<Byte>>)
      modifies this
      ensures session == lib.processChallenge(username, password, ephemeral, salt, b)
      ensures m.Some? <==> session.Some?
      ensures m.Some? ==> m.value == session.value.m
      ensures password == old(password) && authenticated == old(authenticated)
    {
      session := lib.processChallenge(username, password, ephemeral, salt, b);
      m := if session.Some? then Some(session.value.m) else None;
    }

    /** `verify_session`: authenticated once the server's proof equals the expected one. */
    method VerifySession(hamk: seq<Byte>)
      modifies this`authenticated
      ensures authenticated == (old(authenticated) || (session.Some? && session.value.hamk == hamk))
    {
      if session.Some? && session.value.hamk == hamk {
        authenticated := true;
      }
    }

    /** `get_session_key`: K, but only after the server's proof was verified. */
    function SessionKey(): (k: Option<seq<Byte>>)
      reads this
      ensures k.Some? <==> authenticated && session.Some?
      ensures k.Some? ==> k.value == session.value.k
    {
      if authenticated && session.Some? then Some(session.value.k) else None
    }
  }

  /** The collaborators of a login: crypto primitives, the SRP library and the property-list parser. */
  datatype Services = Services(prims: Primitives, srp: SrpLibrary, plistLoads: seq<Byte> -> Option<PValue>)

  // ---------------------------------------------------------------------------
  // Request bodies (`gsa_authenticated_request`, `generate_cpd`)
  // ---------------------------------------------------------------------------

  const ProtocolVersion: string := "1.0.1"

  /** The client description: five fixed entries, then the anisette headers merged over them. */
  function Cpd(anisette: map<string, string>): (cpd: map<string, PValue>)
    ensures cpd.Keys == {"bootstrap", "icscrec", "pbe", "prkgen", "svct"} + anisette.Keys
    ensures forall k :: k in anisette ==> cpd[k] == PString(anisette[k])
  {
    var fixed := map["bootstrap" := PBool(true), "icscrec" := PBool(true), "pbe" := PBool(false),
                     "prkgen" := PBool(true), "svct" := PString("iCloud")];
    fixed + map k | k in anisette :: PString(anisette[k])
  }

  /** `{"Header": {"Version": "1.0.1"}, "Request": {"cpd": cpd}}` with the parameters merged into `Request`. */
  function RequestBody(cpd: map<string, PValue>, parameters: map<string, PValue>): PValue
  {
    PDict(map["Header" := PDict(map["Version" := PString(ProtocolVersion)]),
              "Request" := PDict(map["cpd" := PDict(cpd)] + parameters)])
  }

  /** The body always carries version 1.0.1; `Request` holds `cpd` and the parameters, which win on a clash. */
  lemma RequestBodyShape(cpd: map<string, PValue>, parameters: map<string, PValue>)
    ensures var body := RequestBody(cpd, parameters);
      && body.PDict? && body.entries.Keys == {"Header", "Request"}
      && body.entries["Header"] == PDict(map["Version" := PString("1.0.1")])
      && body.entries["Request"].PDict?
      && body.entries["Request"].entries.Keys == {"cpd"} + parameters.Keys
      && (forall k :: k in parameters ==> body.entries["Request"].entries[k] == parameters[k])
      && ("cpd" !in parameters ==> body.entries["Request"].entries["cpd"] == PDict(cpd))
  {
  }

  /** The parameters of the first exchange: A, the modes offered, the user name. */
  function InitParameters(a: seq<Byte>, username: string): (r: map<string, PValue>)
    ensures r.Keys == {"A2k", "ps", "u", "o"}
    ensures r["A2k"] == PBytes(a) && r["u"] == PString(username) && r["o"] == PString("init")
    ensures r["ps"].PArray?
    ensures forall m :: PString(m) in r["ps"].items <==> ParseProtocol(m).Some?
  {
    map["A2k" := PBytes(a), "ps" := PArray([PString("s2k"), PString("s2k_fo")]),
        "u" := PString(username), "o" := PString("init")]
  }

  /** The parameters of the second exchange: the server's continuation token echoed, and the proof M1. */
  function CompleteParameters(c: PValue, m: seq<Byte>, username: string): (r: map<string, PValue>)
    ensures r.Keys == {"c", "M1", "u", "o"}
    ensures r["c"] == c && r["M1"] == PBytes(m) && r["u"] == PString(username)
    ensures r["o"] == PString("complete") && r["o"] != PString("init")
  {
    map["c" := c, "M1" := PBytes(m), "u" := PString(username), "o" := PString("complete")]
  }

  // ---------------------------------------------------------------------------
  // The second-factor headers (`generate_second_factor_code_headers`)
  // ---------------------------------------------------------------------------

  /** `X-Apple-Identity-Token`: Base64 of the UTF-8 text `dsid:token`. */
  function IdentityToken(dsid: string, idmsToken: string): string
  {
    Base64Encode(Utf8(dsid + ":" + idmsToken))
  }

  /** The identity token decodes to the account id, a colon and the IdMS token. */
  lemma IdentityTokenDecodes(dsid: string, idmsToken: string)
    ensures Base64Decode(IdentityToken(dsid, idmsToken)) == Some(Utf8(dsid) + [0x3A] + Utf8(idmsToken))
  {
    Base64RoundTrip(Utf8(dsid + ":" + idmsToken));
    Utf8Append(dsid + ":", idmsToken);
    Utf8Append(dsid, ":");
    assert Utf8(":") == [0x3A];
  }

  /** The Xcode build and the client description the second-factor requests present. */
  const XcodeVersion: string := "11.2 (11B41)"
  const XcodeClientInfo: string := "<MacBookPro18,3> <Mac OS X;13.4.1;22F8> <com.apple.AOSKit/282 (com.apple.dt.Xcode/3594.4.19)>"

  const SecondFactorHeaderKeys: set<string> :=
    {"User-Agent", "Accept-Language", "X-Apple-Identity-Token", "X-Apple-App-Info", "X-Xcode-Version", "X-Mme-Client-Info"}

  /** The fixed Xcode-style headers with the identity token, then the anisette headers merged over them. */
  function SecondFactorHeaders(dsid: string, idmsToken: string, anisette: map<string, string>)
    : (h: map<string, string>)
    ensures h.Keys == SecondFactorHeaderKeys + anisette.Keys
    ensures forall k :: k in anisette ==> h[k] == anisette[k]
    ensures "X-Apple-Identity-Token" !in anisette ==> h["X-Apple-Identity-Token"] == IdentityToken(dsid, idmsToken)
  {
    map["User-Agent" := "Xcode",
        "Accept-Language" := "en-us",
        "X-Apple-Identity-Token" := IdentityToken(dsid, idmsToken),
        "X-Apple-App-Info" := "com.apple.gs.xcode.auth",
        "X-Xcode-Version" := XcodeVersion,
        "X-Mme-Client-Info" := XcodeClientInfo]
    + anisette
  }

  /** The payload with every top-level bytes entry replaced by Base64 text. */
  function TextifiedEntries(entries: map<string, PValue>): map<string, PValue>
  {
    map k | k in entries :: Textified(entries[k])
  }

  /**
   * The `adsid` and `GsIdmsToken` texts of the payload. The source raises when
   * either is missing (looked up in this order) or is not text.
   */
  function IdentityFields(entries: map<string, PValue>): (r: Result<(string, string), GsaError>)
    ensures r.Success? <==>
      "adsid" in entries && entries["adsid"].PString? && "GsIdmsToken" in entries && entries["GsIdmsToken"].PString?
    ensures r.Success? ==> r.value == (entries["adsid"].text, entries["GsIdmsToken"].text)
  {
    if "adsid" !in entries then Failure(MalformedPayload("adsid"))
    else if "GsIdmsToken" !in entries then Failure(MalformedPayload("GsIdmsToken"))
    else if !entries["adsid"].PString? then Failure(MalformedPayload("adsid"))
    else if !entries["GsIdmsToken"].PString? then Failure(MalformedPayload("GsIdmsToken"))
    else Success((entries["adsid"].text, entries["GsIdmsToken"].text))
  }

  /**
   * The headers of the second-factor requests, read from the decrypted
   * payload after its bytes entries became text; a payload that is not a
   * dictionary raises in the source.
   */
  function SecondFactorHeadersFor(spd: PValue, anisette: map<string, string>): (r: Result<map<string, string>, GsaError>)
    ensures r.Success? <==>
      && spd.PDict?
      && "adsid" in spd.entries && Textified(spd.entries["adsid"]).PString?
      && "GsIdmsToken" in spd.entries && Textified(spd.entries["GsIdmsToken"]).PString?
    ensures r.Success? ==> r.value == SecondFactorHeaders(
      Textified(spd.entries["adsid"]).text, Textified(spd.entries["GsIdmsToken"]).text, anisette)
  {
    if !spd.PDict? then Failure(MalformedPayload("spd"))
    else match IdentityFields(TextifiedEntries(spd.entries))
      case Failure(e) => Failure(e)
      case Success((dsid, token)) => Success(SecondFactorHeaders(dsid, token, anisette))
  }

  // ---------------------------------------------------------------------------
  // Status dispatch
  // ---------------------------------------------------------------------------

  /** The `au` values that call for a second factor. */
  const SecondFactorStates: seq<string> := ["trustedDeviceSecondaryAuth", "secondaryAuth"]

  datatype StatusAction = RunSecondFactor | UnknownAuthValue | ReturnPayload

  /** Two known `au` values lead to 2FA, any other `au` to no result, no `au` to the payload. */
  function Dispatch(status: map<string, PValue>): (a: StatusAction)
    ensures a == RunSecondFactor <==>
      "au" in status && status["au"].PString? && status["au"].text in SecondFactorStates
    ensures a == UnknownAuthValue <==> "au" in status && a != RunSecondFactor
    ensures a == ReturnPayload <==> "au" !in status
  {
    if "au" !in status then ReturnPayload
    else if status["au"] in [PString("trustedDeviceSecondaryAuth"), PString("secondaryAuth")] then RunSecondFactor
    else UnknownAuthValue
  }

  // ---------------------------------------------------------------------------
  // One login
  // ---------------------------------------------------------------------------

  /** The `init` reply: mode `sp`, salt `s`, iterations `i`, server ephemeral `B`, continuation `c`. */
  datatype InitReply = InitReply(sp: string, salt: seq<Byte>, iterations: int, b: seq<Byte>, c: PValue)

  /** The `complete` reply: server proof `M2`, encrypted payload `spd`, and `Status`. */
  datatype CompleteReply = CompleteReply(m2: seq<Byte>, spd: seq<Byte>, status: map<string, PValue>)

  /**
   * What one attempt receives from outside: the SRP user's random private
   * value, the two exchange replies, the anisette headers, the code typed at
   * the prompt and whether the validation endpoint accepted it.
   */
  datatype Round = Round(
    ephemeral: seq<Byte>,
    init: InitReply,
    complete: CompleteReply,
    anisette: map<string, string>,
    code: string,
    codeAccepted: bool)

  /** What `gsa_authenticate` ends with. */
  datatype Outcome =
    | Authenticated(payload: PValue)  // no `au`: the parsed payload
    | NoPayload                       // an unknown `au`: the function returns None
    | Failed(error: GsaError)
    | RoundsExhausted                 // the model ran out of given rounds

  /** The second-factor step of an attempt: the channel flag passed on, the headers and the code. */
  datatype SecondFactorStep = SecondFactorStep(sms: bool, headers: map<string, string>, code: string)

  /** What an attempt sent and installed, for stating properties. */
  datatype AttemptLog = AttemptLog(
    initBody: PValue,
    srpPassword: Option<seq<Byte>>,
    completeBody: Option<PValue>,
    secondFactor: Option<SecondFactorStep>)

  datatype AttemptEnd = Finished(outcome: Outcome) | Restart

  /** One pass through `gsa_authenticate`, up to its return or its recursive call. */
  function Attempt(env: Services, username: string, password: string, secondFactor: string, round: Round)
    : (AttemptEnd, AttemptLog)
  {
    var a := env.srp.publicEphemeral(round.ephemeral);
    var initBody := RequestBody(Cpd(round.anisette), InitParameters(a, username));
    var r := round.init;
    if r.sp !in SupportedProtocols then
      (Finished(Failed(UnsupportedProtocol(r.sp))), AttemptLog(initBody, None, None, None))
    else
      var p := EncryptPassword(env.prims, password, r.salt, r.iterations, r.sp).value;
      var session := env.srp.processChallenge(username, p, round.ephemeral, r.salt, r.b);
      if session.None? then
        (Finished(Failed(ChallengeFailed)), AttemptLog(initBody, Some(p), None, None))
      else
        var completeBody := RequestBody(Cpd(round.anisette), CompleteParameters(r.c, session.value.m, username));
        CompletePhase(env, secondFactor, round, session.value, AttemptLog(initBody, Some(p), Some(completeBody), None))
  }

  /** From the `complete` reply on: verify the server, decrypt and parse the payload, dispatch. */
  function CompletePhase(env: Services, secondFactor: string, round: Round, session: SrpSession, log: AttemptLog)
    : (AttemptEnd, AttemptLog)
  {
    var r2 := round.complete;
    if session.hamk != r2.m2 then (Finished(Failed(SessionNotVerified)), log)
    else match DecryptCbc(env.prims, Some(session.k), r2.spd)
      case Failure(e) => (Finished(Failed(e)), log)
      case Success(plain) =>
        match env.plistLoads(PlistHeader + plain)
        case None => (Finished(Failed(PlistError)), log)
        case Some(spd) => StatusPhase(secondFactor, round, spd, log)
  }

  /** The `au` dispatch and, when asked for, the second-factor step. */
  function StatusPhase(secondFactor: string, round: Round, spd: PValue, log: AttemptLog)
    : (AttemptEnd, AttemptLog)
  {
    match Dispatch(round.complete.status)
    case ReturnPayload => (Finished(Authenticated(spd)), log)
    case UnknownAuthValue => (Finished(NoPayload), log)
    case RunSecondFactor =>
      match SecondFactorHeadersFor(spd, round.anisette)
      case Failure(e) => (Finished(Failed(e)), log)
      case Success(headers) =>
        var log2 := log.(secondFactor := Some(SecondFactorStep(secondFactor == "sms", headers, round.code)));
        if round.codeAccepted then (Restart, log2) else (Finished(Failed(CodeRejected)), log2)
  }

  /**
   * The retry structure of `gsa_authenticate`, over any attempt body: an
   * attempt that restarts hands over to the next round, and the recursive call
   * passes no channel, so "sms" applies from then on.
   */
  function Retry(attempt: (string, Round) -> (AttemptEnd, AttemptLog), secondFactor: string, rounds: seq<Round>)
    : (Outcome, seq<AttemptLog>)
    decreases |rounds|
  {
    if rounds == [] then (RoundsExhausted, [])
    else
      var (end, log) := attempt(secondFactor, rounds[0]);
      match end
      case Finished(o) => (o, [log])
      case Restart =>
        var (o, logs) := Retry(attempt, "sms", rounds[1..]);
        (o, [log] + logs)
  }

  /** The attempt body of one login. */
  function AttemptOf(env: Services, username: string, password: string): (string, Round) -> (AttemptEnd, AttemptLog)
  {
    (secondFactor, round) => Attempt(env, username, password, secondFactor, round)
  }

  /** `gsa_authenticate` over a sequence of rounds. */
  function Authenticate(env: Services, username: string, password: string, secondFactor: string, rounds: seq<Round>)
    : (Outcome, seq<AttemptLog>)
  {
    Retry(AttemptOf(env, username, password), secondFactor, rounds)
  }

  /** The handshake as the source runs it, step by step on an SRP user object. */
  method GsaAuthenticate(env: Services, username: string, password: string, secondFactor: string, rounds: seq<Round>)
    returns (outcome: Outcome, ghost logs: seq<AttemptLog>)
    ensures outcome == Authenticate(env, username, password, secondFactor, rounds).0
    ensures logs == Authenticate(env, username, password, secondFactor, rounds).1
    decreases |rounds|
  {
    if rounds == [] {
      return RoundsExhausted, [];
    }
    var round := rounds[0];
    var end: AttemptEnd;
    ghost var log: AttemptLog;
    end, log := AttemptSteps(env, username, password, secondFactor, round);
    if end.Finished? {
      return end.outcome, [log];
    }
    ghost var restLogs;
    outcome, restLogs := GsaAuthenticate(env, username, password, "sms", rounds[1..]);
    logs := [log] + restLogs;
  }

  /** The body of `gsa_authenticate` up to its return or its recursive call. */
  method AttemptSteps(env: Services, username: string, password: string, secondFactor: string, round: Round)
    returns (end: AttemptEnd, ghost log: AttemptLog)
    ensures end == Attempt(env, username, password, secondFactor, round).0
    ensures log == Attempt(env, username, password, secondFactor, round).1
  {
    // The password is empty until the server has chosen the derivation mode.
    var usr := new SrpUser(username, [], round.ephemeral);
    var a := usr.StartAuthentication(env.srp);
    ghost var initBody := RequestBody(Cpd(round.anisette), InitParameters(a, username));
    var r := round.init;
    if r.sp !in SupportedProtocols {
      return Finished(Failed(UnsupportedProtocol(r.sp))), AttemptLog(initBody, None, None, None);
    }
    var derived := EncryptPassword(env.prims, password, r.salt, r.iterations, r.sp);
    usr.password := derived.value;
    var m := usr.ProcessChallenge(env.srp, r.salt, r.b);
    if m.None? {
      return Finished(Failed(ChallengeFailed)), AttemptLog(initBody, Some(derived.value), None, None);
    }
    ghost var session := usr.session.value;
    log := AttemptLog(initBody, Some(derived.value),
      Some(RequestBody(Cpd(round.anisette), CompleteParameters(r.c, m.value, username))), None);
    assert Attempt(env, username, password, secondFactor, round) == CompletePhase(env, secondFactor, round, session, log);
    end, log := CompleteSteps(env, secondFactor, round, usr, log);
  }

  /** From the `complete` reply on, on the user object that holds the session. */
  method CompleteSteps(env: Services, secondFactor: string, round: Round, usr: SrpUser, ghost log0: AttemptLog)
    returns (end: AttemptEnd, ghost log: AttemptLog)
    requires usr.session.Some? && !usr.authenticated
    modifies usr
    ensures end == CompletePhase(env, secondFactor, round, old(usr.session.value), log0).0
    ensures log == CompletePhase(env, secondFactor, round, old(usr.session.value), log0).1
  {
    log := log0;
    ghost var session := usr.session.value;
    var r2 := round.complete;
    usr.VerifySession(r2.m2);
    if !usr.authenticated {
      return Finished(Failed(SessionNotVerified)), log;
    }
    var key := usr.SessionKey();
    assert key == Some(session.k);
    var plain := DecryptCbc(env.prims, key, r2.spd);
    if plain.Failure? {
      return Finished(Failed(plain.error)), log;
    }
    var spd := env.plistLoads(PlistHeader + plain.value);
    if spd.None? {
      return Finished(Failed(PlistError)), log;
    }
    assert session.hamk == r2.m2;
    assert DecryptCbc(env.prims, Some(session.k), r2.spd) == plain;
    assert env.plistLoads(PlistHeader + plain.value) == spd;
    assert CompletePhase(env, secondFactor, round, session, log0) == StatusPhase(secondFactor, round, spd.value, log0);
    end, log := StatusSteps(secondFactor, round, spd.value, log);
  }

  /** The `au` dispatch, the bytes-to-Base64 loop and the second-factor exchange. */
  method StatusSteps(secondFactor: string, round: Round, spd: PValue, ghost log0: AttemptLog)
    returns (end: AttemptEnd, ghost log: AttemptLog)
    ensures end == StatusPhase(secondFactor, round, spd, log0).0
    ensures log == StatusPhase(secondFactor, round, spd, log0).1
  {
    log := log0;
    var action := Dispatch(round.complete.status);
    if action == ReturnPayload {
      return Finished(Authenticated(spd)), log;
    } else if action == UnknownAuthValue {
      return Finished(NoPayload), log;
    }
    if !spd.PDict? {
      return Finished(Failed(MalformedPayload("spd"))), log;
    }
    var entries := ReplaceBytesWithBase64(spd.entries);
    assert entries == TextifiedEntries(spd.entries);
    var fields := IdentityFields(entries);
    if fields.Failure? {
      assert SecondFactorHeadersFor(spd, round.anisette) == Failure(fields.error);
      return Finished(Failed(fields.error)), log;
    }
    var headers := SecondFactorHeaders(fields.value.0, fields.value.1, round.anisette);
    assert SecondFactorHeadersFor(spd, round.anisette) == Success(headers);
    log := log.(secondFactor := Some(SecondFactorStep(secondFactor == "sms", headers, round.code)));
    if !round.codeAccepted {
      return Finished(Failed(CodeRejected)), log;
    }
    return Restart, log;
  }

  // ---------------------------------------------------------------------------
  // Properties of a login
  // ---------------------------------------------------------------------------

  /** The channel flag of attempt `i`: the caller's for the first, the default "sms" for every retry. */
  function Channel(secondFactor: string, i: nat): (c: string)
    ensures i > 0 ==> c == "sms"
  {
    if i == 0 then secondFactor else "sms"
  }

  /**
   * How an attempt may end, given its log: never out of rounds; a second-factor
   * step only after a `complete` exchange on a 2FA status, with the caller's
   * channel flag and the typed code; a restart exactly when that step's code
   * was accepted; the payload only when the status has no `au`.
   */
  predicate EndAgrees(secondFactor: string, round: Round, end: AttemptEnd, log: AttemptLog)
  {
    var status := round.complete.status;
    && end != Finished(RoundsExhausted)
    && (log.secondFactor.Some? ==>
          && log.completeBody.Some?
          && Dispatch(status) == RunSecondFactor
          && log.secondFactor.value.sms == (secondFactor == "sms")
          && log.secondFactor.value.code == round.code)
    && (end == Restart <==> log.secondFactor.Some? && round.codeAccepted)
    && (end.Finished? && end.outcome.Authenticated? ==> "au" !in status && log.secondFactor.None?)
    && (end == Finished(NoPayload) ==> Dispatch(status) == UnknownAuthValue)
  }

  /** The status phase only ever adds the second-factor step to the log. */
  lemma StatusPhaseEnds(secondFactor: string, round: Round, spd: PValue, log: AttemptLog)
    requires log.completeBody.Some? && log.secondFactor.None?
    ensures var (end, log') := StatusPhase(secondFactor, round, spd, log);
      && log'.(secondFactor := None) == log
      && EndAgrees(secondFactor, round, end, log')
      && (end.Finished? && end.outcome.Authenticated? ==> end.outcome.payload == spd)
      && ("au" !in round.complete.status ==> end == Finished(Authenticated(spd)))
      && (Dispatch(round.complete.status) == UnknownAuthValue ==> end == Finished(NoPayload) && log' == log)
      && (Dispatch(round.complete.status) == RunSecondFactor ==>
            var headers := SecondFactorHeadersFor(spd, round.anisette);
            && (headers.Failure? ==> end == Finished(Failed(headers.error)) && log' == log)
            && (headers.Success? ==>
                  && log'.secondFactor == Some(SecondFactorStep(secondFactor == "sms", headers.value, round.code))
                  && end == if round.codeAccepted then Restart else Finished(Failed(CodeRejected))))
  {
    match Dispatch(round.complete.status)
    case ReturnPayload =>
    case UnknownAuthValue =>
    case RunSecondFactor =>
      match SecondFactorHeadersFor(spd, round.anisette)
      case Failure(e) =>
      case Success(headers) =>
  }

  /** From the `complete` reply on, the log is only extended by the status phase. */
  lemma CompletePhaseEnds(env: Services, secondFactor: string, round: Round, session: SrpSession, log: AttemptLog)
    requires log.completeBody.Some? && log.secondFactor.None?
    ensures var (end, log') := CompletePhase(env, secondFactor, round, session, log);
      && log'.(secondFactor := None) == log
      && EndAgrees(secondFactor, round, end, log')
  {
    var r2 := round.complete;
    if session.hamk == r2.m2 {
      match DecryptCbc(env.prims, Some(session.k), r2.spd)
      case Failure(e) =>
      case Success(plain) =>
        match env.plistLoads(PlistHeader + plain)
        case None =>
        case Some(spd) =>
          assert CompletePhase(env, secondFactor, round, session, log) == StatusPhase(secondFactor, round, spd, log);
          StatusPhaseEnds(secondFactor, round, spd, log);
    }
  }


  /** A server proof other than the expected one ends the attempt before any decryption. */
  lemma CompletePhaseRejectsProof(env: Services, secondFactor: string, round: Round, session: SrpSession, log: AttemptLog)
    requires session.hamk != round.complete.m2
    ensures CompletePhase(env, secondFactor, round, session, log) == (Finished(Failed(SessionNotVerified)), log)
  {
  }

  /**
   * Once the server's proof matches, a failed decryption or parse ends the
   * attempt with that error, and a parsed payload goes through the `au`
   * dispatch: no `au` returns it, an unknown `au` returns nothing, a known one
   * runs the second-factor step exactly when the identity fields are there.
   */
  lemma CompletePhaseOutcome(env: Services, secondFactor: string, round: Round, session: SrpSession, log: AttemptLog)
    requires log.completeBody.Some? && log.secondFactor.None?
    requires session.hamk == round.complete.m2
    ensures var (end, log') := CompletePhase(env, secondFactor, round, session, log);
      var plain := DecryptCbc(env.prims, Some(session.k), round.complete.spd);
      && (end.Finished? && end.outcome.Authenticated? ==>
            plain.Success? && env.plistLoads(PlistHeader + plain.value) == Some(end.outcome.payload))
      && (plain.Failure? ==> end == Finished(Failed(plain.error)) && log' == log)
      && (plain.Success? && env.plistLoads(PlistHeader + plain.value).None? ==>
            end == Finished(Failed(PlistError)) && log' == log)
      && (plain.Success? && env.plistLoads(PlistHeader + plain.value).Some? ==>
            var spd := env.plistLoads(PlistHeader + plain.value).value;
            && (Dispatch(round.complete.status) == ReturnPayload ==> end == Finished(Authenticated(spd)))
            && (Dispatch(round.complete.status) == UnknownAuthValue ==> end == Finished(NoPayload))
            && (Dispatch(round.complete.status) == RunSecondFactor ==>
                  (log'.secondFactor.Some? <==> SecondFactorHeadersFor(spd, round.anisette).Success?)))
  {
    var plain := DecryptCbc(env.prims, Some(session.k), round.complete.spd);
    if plain.Success? {
      var spd := env.plistLoads(PlistHeader + plain.value);
      if spd.Some? {
        assert CompletePhase(env, secondFactor, round, session, log) == StatusPhase(secondFactor, round, spd.value, log);
        StatusPhaseEnds(secondFactor, round, spd.value, log);
      }
    }
  }

  /**
   * What a single attempt guarantees: the mode is checked before any proof is
   * computed and before the `complete` request, the SRP password is the
   * derived one, and the attempt ends as `EndAgrees` says.
   */
  predicate AttemptFacts(env: Services, password: string, secondFactor: string, round: Round, end: AttemptEnd, log: AttemptLog)
  {
    var r := round.init;
    && (log.srpPassword.Some? <==> r.sp in SupportedProtocols)
    && (log.srpPassword.Some? ==> log.srpPassword.value == EncryptPassword(env.prims, password, r.salt, r.iterations, r.sp).value)

    && (r.sp !in SupportedProtocols ==> end == Finished(Failed(UnsupportedProtocol(r.sp))) && log.completeBody.None?)
    && EndAgrees(secondFactor, round, end, log)
  }

  /**
   * The password `processChallenge` is given is the one the log records: the
   * `complete` request is sent exactly when the challenge on it yields a
   * session, and carries that session's proof.
   */
  predicate ChallengedWith(env: Services, username: string, round: Round, log: AttemptLog)
  {
    var r := round.init;
    log.srpPassword.Some? ==>
      var session := env.srp.processChallenge(username, log.srpPassword.value, round.ephemeral, r.salt, r.b);
      && (log.completeBody.Some? <==> session.Some?)
      && (session.Some? ==>
            log.completeBody.value == RequestBody(Cpd(round.anisette), CompleteParameters(r.c, session.value.m, username)))
  }

  lemma AttemptEnds(env: Services, username: string, password: string, secondFactor: string, round: Round)
    ensures var (end, log) := Attempt(env, username, password, secondFactor, round);
      AttemptFacts(env, password, secondFactor, round, end, log)
  {
    var r := round.init;
    if r.sp in SupportedProtocols {
      var p := EncryptPassword(env.prims, password, r.salt, r.iterations, r.sp).value;
      var session := env.srp.processChallenge(username, p, round.ephemeral, r.salt, r.b);
      if session.Some? {
        var a := env.srp.publicEphemeral(round.ephemeral);
        var initBody := RequestBody(Cpd(round.anisette), InitParameters(a, username));
        var completeBody := RequestBody(Cpd(round.anisette), CompleteParameters(r.c, session.value.m, username));
        var log := AttemptLog(initBody, Some(p), Some(completeBody), None);
        assert Attempt(env, username, password, secondFactor, round) == CompletePhase(env, secondFactor, round, session.value, log);
        CompletePhaseEnds(env, secondFactor, round, session.value, log);
      }
    }
  }

  /** Each attempt processes the challenge with the derived password it records. */
  lemma AttemptChallengesDerived(env: Services, username: string, password: string, secondFactor: string, round: Round)
    ensures ChallengedWith(env, username, round, Attempt(env, username, password, secondFactor, round).1)
  {
    var r := round.init;
    if r.sp in SupportedProtocols {
      var p := EncryptPassword(env.prims, password, r.salt, r.iterations, r.sp).value;
      var session := env.srp.processChallenge(username, p, round.ephemeral, r.salt, r.b);
      if session.Some? {
        var a := env.srp.publicEphemeral(round.ephemeral);
        var initBody := RequestBody(Cpd(round.anisette), InitParameters(a, username));
        var completeBody := RequestBody(Cpd(round.anisette), CompleteParameters(r.c, session.value.m, username));
        var log := AttemptLog(initBody, Some(p), Some(completeBody), None);
        assert Attempt(env, username, password, secondFactor, round) == CompletePhase(env, secondFactor, round, session.value, log);
        CompletePhaseEnds(env, secondFactor, round, session.value, log);
      }
    }
  }

  /**
   * The session an attempt went on with: the challenge on the derived password
   * gave a session, the server's proof M2 matched it, and the payload
   * decrypted under its key (and, when given, parsed to `payload`).
   */
  predicate VerifiedSession(env: Services, username: string, round: Round, log: AttemptLog, payload: Option<PValue>)
  {
    var r := round.init;
    && log.srpPassword.Some?
    && var s := env.srp.processChallenge(username, log.srpPassword.value, round.ephemeral, r.salt, r.b);
    && s.Some?
    && s.value.hamk == round.complete.m2
    && var plain := DecryptCbc(env.prims, Some(s.value.k), round.complete.spd);
    && plain.Success?
    && (payload.Some? ==> env.plistLoads(PlistHeader + plain.value) == payload)
  }

  /**
   * The mutual proof is never skipped: a challenge without a session fails
   * with `ChallengeFailed`, a wrong M2 with `SessionNotVerified`, and a
   * payload or a second-factor restart only follows a verified session.
   */
  predicate AttemptVerified(env: Services, username: string, round: Round, end: AttemptEnd, log: AttemptLog)
  {
    var r := round.init;
    && (log.srpPassword.Some? ==>
          var s := env.srp.processChallenge(username, log.srpPassword.value, round.ephemeral, r.salt, r.b);
          && (s.None? ==> end == Finished(Failed(ChallengeFailed)))
          && (s.Some? && s.value.hamk != round.complete.m2 ==> end == Finished(Failed(SessionNotVerified))))
    && (end == Restart ==> VerifiedSession(env, username, round, log, None))
    && (end.Finished? && end.outcome.Authenticated? ==> VerifiedSession(env, username, round, log, Some(end.outcome.payload)))
  }

  lemma AttemptVerifiedBeforePayload(env: Services, username: string, password: string, secondFactor: string, round: Round)
    ensures var (end, log) := Attempt(env, username, password, secondFactor, round);
      AttemptVerified(env, username, round, end, log)
  {
    var r := round.init;
    if r.sp in SupportedProtocols {
      var p := EncryptPassword(env.prims, password, r.salt, r.iterations, r.sp).value;
      if env.srp.processChallenge(username, p, round.ephemeral, r.salt, r.b).Some? {
        AttemptVerifiedWithSession(env, username, password, secondFactor, round);
      }
    }
  }

  lemma AttemptVerifiedWithSession(env: Services, username: string, password: string, secondFactor: string, round: Round)
    requires round.init.sp in SupportedProtocols
    requires var r := round.init;
      var p := EncryptPassword(env.prims, password, r.salt, r.iterations, r.sp).value;
      env.srp.processChallenge(username, p, round.ephemeral, r.salt, r.b).Some?
    ensures var (end, log) := Attempt(env, username, password, secondFactor, round);
      AttemptVerified(env, username, round, end, log)
  {
    var r := round.init;
    var (end, log') := Attempt(env, username, password, secondFactor, round);
    var p := EncryptPassword(env.prims, password, r.salt, r.iterations, r.sp).value;
    var session := env.srp.processChallenge(username, p, round.ephemeral, r.salt, r.b);
    var a := env.srp.publicEphemeral(round.ephemeral);
    var initBody := RequestBody(Cpd(round.anisette), InitParameters(a, username));
    var completeBody := RequestBody(Cpd(round.anisette), CompleteParameters(r.c, session.value.m, username));
    var log := AttemptLog(initBody, Some(p), Some(completeBody), None);
    assert (end, log') == CompletePhase(env, secondFactor, round, session.value, log);
    CompletePhaseVerified(env, secondFactor, round, session.value, log);
  }

  /** From the `complete` reply on: a payload or a restart needs a matching M2 and a successful decryption. */
  lemma CompletePhaseVerified(env: Services, secondFactor: string, round: Round, session: SrpSession, log: AttemptLog)
    requires log.completeBody.Some? && log.secondFactor.None?
    ensures var (end, log') := CompletePhase(env, secondFactor, round, session, log);
      var plain := DecryptCbc(env.prims, Some(session.k), round.complete.spd);
      && log'.srpPassword == log.srpPassword
      && (session.hamk != round.complete.m2 ==> end == Finished(Failed(SessionNotVerified)))
      && ((end == Restart || (end.Finished? && end.outcome.Authenticated?)) ==>
            session.hamk == round.complete.m2 && plain.Success?)
      && (end.Finished? && end.outcome.Authenticated? ==>
            plain.Success? && env.plistLoads(PlistHeader + plain.value) == Some(end.outcome.payload))
  {
    CompletePhaseEnds(env, secondFactor, round, session, log);
    if session.hamk == round.complete.m2 {
      CompletePhaseOutcome(env, secondFactor, round, session, log);
    } else {
      CompletePhaseRejectsProof(env, secondFactor, round, session, log);
    }
  }

  /** `Retry` runs the attempts one after another until one finishes or the rounds run out. */
  lemma {:induction false} RetryUnrolled(attempt: (string, Round) -> (AttemptEnd, AttemptLog), secondFactor: string, rounds: seq<Round>)
    requires forall c, r :: attempt(c, r).0 != Finished(RoundsExhausted)
    ensures var (o, logs) := Retry(attempt, secondFactor, rounds);
      && |logs| <= |rounds|
      && (rounds != [] ==> logs != [])
      && (forall i :: 0 <= i < |logs| ==> attempt(Channel(secondFactor, i), rounds[i]).1 == logs[i])
      && (forall i :: 0 <= i < |logs| - 1 ==> attempt(Channel(secondFactor, i), rounds[i]).0 == Restart)
      && (o == RoundsExhausted ==>
            |logs| == |rounds| && (logs != [] ==> attempt(Channel(secondFactor, |logs| - 1), rounds[|logs| - 1]).0 == Restart))
      && (o != RoundsExhausted ==>
            logs != [] && attempt(Channel(secondFactor, |logs| - 1), rounds[|logs| - 1]).0 == Finished(o))
    decreases |rounds|
  {
    if rounds != [] {
      var (end, log) := attempt(secondFactor, rounds[0]);
      if end.Restart? {
        var (o, rest) := Retry(attempt, "sms", rounds[1..]);
        RetryUnrolled(attempt, "sms", rounds[1..]);
        var logs := [log] + rest;
        assert Retry(attempt, secondFactor, rounds) == (o, logs);
        forall i | 1 <= i < |logs|
          ensures attempt(Channel(secondFactor, i), rounds[i]).1 == logs[i]
          ensures i < |logs| - 1 ==> attempt(Channel(secondFactor, i), rounds[i]).0 == Restart
        {
          assert rounds[1..][i - 1] == rounds[i] && logs[i] == rest[i - 1];
          assert Channel("sms", i - 1) == Channel(secondFactor, i);
        }
        if o == RoundsExhausted {
          assert |logs| == |rounds|;
          if rest == [] {
            assert Channel(secondFactor, 0) == secondFactor;
          } else {
            assert rounds[1..][|rest| - 1] == rounds[|logs| - 1];
            assert Channel("sms", |rest| - 1) == Channel(secondFactor, |logs| - 1);
          }
          assert attempt(Channel(secondFactor, |logs| - 1), rounds[|logs| - 1]).0 == Restart;
        }
      }
    }
  }

  /**
   * Over a whole login: at most one attempt per round; every attempt but the
   * last passed an accepted second factor; every retry asks for the code by
   * SMS; each attempt installed the derived password exactly when the server's
   * mode was supported; a returned payload comes from a status without `au`.
   */
  lemma AuthenticateTrace(env: Services, username: string, password: string, secondFactor: string, rounds: seq<Round>)
    ensures var (o, logs) := Authenticate(env, username, password, secondFactor, rounds);
      && |logs| <= |rounds|
      && (rounds != [] ==> logs != [])
      && (forall i :: 0 <= i < |logs| - 1 ==> logs[i].secondFactor.Some? && rounds[i].codeAccepted)
      && (forall i :: 0 <= i < |logs| && logs[i].secondFactor.Some? ==>
            logs[i].secondFactor.value.sms == (i > 0 || secondFactor == "sms"))
      && (forall i :: 0 <= i < |logs| ==>
            (logs[i].srpPassword.Some? <==> rounds[i].init.sp in SupportedProtocols))
      && (forall i :: 0 <= i < |logs| && logs[i].srpPassword.Some? ==>
            logs[i].srpPassword.value
              == EncryptPassword(env.prims, password, rounds[i].init.salt, rounds[i].init.iterations, rounds[i].init.sp).value)
  {
    var (o, logs) := Authenticate(env, username, password, secondFactor, rounds);
    var attempt := AttemptOf(env, username, password);
    AttemptNeverExhausts(env, username, password);
    RetryUnrolled(attempt, secondFactor, rounds);
    forall i | 0 <= i < |logs|
      ensures logs[i].srpPassword.Some? <==> rounds[i].init.sp in SupportedProtocols
      ensures logs[i].srpPassword.Some? ==>
        logs[i].srpPassword.value
          == EncryptPassword(env.prims, password, rounds[i].init.salt, rounds[i].init.iterations, rounds[i].init.sp).value
      ensures logs[i].secondFactor.Some? ==> logs[i].secondFactor.value.sms == (i > 0 || secondFactor == "sms")
      ensures i < |logs| - 1 ==> logs[i].secondFactor.Some? && rounds[i].codeAccepted
    {
      var c := Channel(secondFactor, i);
      AttemptEnds(env, username, password, c, rounds[i]);
      assert AttemptFacts(env, password, c, rounds[i], attempt(c, rounds[i]).0, logs[i]);
    }
  }

  /**
   * Over a whole login, the derived password is what the SRP challenge is
   * processed with: each attempt sends `complete` exactly when the challenge
   * on that password yields a session, and then with that session's proof.
   */
  lemma AuthenticateUsesDerivedPassword(env: Services, username: string, password: string, secondFactor: string, rounds: seq<Round>)
    ensures var (o, logs) := Authenticate(env, username, password, secondFactor, rounds);
      && |logs| <= |rounds|
      && (forall i :: 0 <= i < |logs| && logs[i].srpPassword.Some? ==>
            var r := rounds[i].init;
            var session := env.srp.processChallenge(username, logs[i].srpPassword.value, rounds[i].ephemeral, r.salt, r.b);
            && (logs[i].completeBody.Some? <==> session.Some?)
            && (session.Some? ==>
                  logs[i].completeBody.value == RequestBody(Cpd(rounds[i].anisette), CompleteParameters(r.c, session.value.m, username))))
  {
    var (o, logs) := Authenticate(env, username, password, secondFactor, rounds);
    var attempt := AttemptOf(env, username, password);
    AttemptNeverExhausts(env, username, password);
    RetryUnrolled(attempt, secondFactor, rounds);
    forall i | 0 <= i < |logs|
      ensures ChallengedWith(env, username, rounds[i], logs[i])
    {
      AttemptChallengesDerived(env, username, password, Channel(secondFactor, i), rounds[i]);
    }
  }

  /**
   * A login that does not run out of rounds ends with exactly what its last
   * attempt ends with; on that attempt a payload needs a status without `au`
   * and `None` an unknown `au`, and the challenge and the server's proof are
   * checked as `AttemptVerified` says.
   */
  lemma AuthenticateLastAttempt(env: Services, username: string, password: string, secondFactor: string, rounds: seq<Round>)
    ensures var (o, logs) := Authenticate(env, username, password, secondFactor, rounds);
      o != RoundsExhausted ==>
        && 0 < |logs| <= |rounds|
        && Attempt(env, username, password, Channel(secondFactor, |logs| - 1), rounds[|logs| - 1])
             == (Finished(o), logs[|logs| - 1])
        && (o.Authenticated? ==> "au" !in rounds[|logs| - 1].complete.status)
        && (o == NoPayload ==> Dispatch(rounds[|logs| - 1].complete.status) == UnknownAuthValue)
        && AttemptVerified(env, username, rounds[|logs| - 1], Finished(o), logs[|logs| - 1])
  {
    var (o, logs) := Authenticate(env, username, password, secondFactor, rounds);
    AttemptNeverExhausts(env, username, password);
    RetryUnrolled(AttemptOf(env, username, password), secondFactor, rounds);
    if o != RoundsExhausted {
      var k := |logs| - 1;
      AttemptEnds(env, username, password, Channel(secondFactor, k), rounds[k]);
      AttemptVerifiedBeforePayload(env, username, password, Channel(secondFactor, k), rounds[k]);
    }
  }

  /**
   * Over a whole login, every restart and the returned payload come from an
   * attempt whose session was verified and whose payload decrypted.
   */
  lemma AuthenticateVerifiedBeforePayload(env: Services, username: string, password: string, secondFactor: string, rounds: seq<Round>)
    ensures var (o, logs) := Authenticate(env, username, password, secondFactor, rounds);
      && |logs| <= |rounds|
      && (forall i :: 0 <= i < |logs| - 1 ==> VerifiedSession(env, username, rounds[i], logs[i], None))
      && (o.Authenticated? ==> 0 < |logs| && VerifiedSession(env, username, rounds[|logs| - 1], logs[|logs| - 1], Some(o.payload)))
  {
    var (o, logs) := Authenticate(env, username, password, secondFactor, rounds);
    var attempt := AttemptOf(env, username, password);
    AttemptNeverExhausts(env, username, password);
    RetryUnrolled(attempt, secondFactor, rounds);
    forall i | 0 <= i < |logs| - 1
      ensures VerifiedSession(env, username, rounds[i], logs[i], None)
    {
      var c := Channel(secondFactor, i);
      AttemptVerifiedBeforePayload(env, username, password, c, rounds[i]);
      assert AttemptVerified(env, username, rounds[i], attempt(c, rounds[i]).0, logs[i]);
    }
    if o.Authenticated? {
      var k := |logs| - 1;
      var c := Channel(secondFactor, k);
      AttemptVerifiedBeforePayload(env, username, password, c, rounds[k]);
      assert AttemptVerified(env, username, rounds[k], attempt(c, rounds[k]).0, logs[k]);
    }
  }

  lemma AttemptNeverExhausts(env: Services, username: string, password: string)
    ensures forall c, r :: AttemptOf(env, username, password)(c, r).0 != Finished(RoundsExhausted)
  {
    forall c, r | true
      ensures AttemptOf(env, username, password)(c, r).0 != Finished(RoundsExhausted)
    {
      AttemptEnds(env, username, password, c, r);
    }
  }
}
