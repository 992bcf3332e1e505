/**
 The greeter's authentication state machine. Sessions and their signals belong to the
 environment: a session's creation, its authentication result and its messages arrive as
 arguments or as calls of the callbacks. Everything the machine does is written to a log,
 and the log alone says what was allowed.
 */
module GreeterAuth {
  import opened ByteTypes
  import opened Options

  type SessionId = nat

  const SUCCESS: int := 0
  const USER_UNKNOWN: int := 5
  const SYSTEM_ERR: int := 7

  /** How a session is set up before it starts; no user name means that the session asks for it. */
  datatype Setup = Setup(service: string, username: Option<string>, interactive: bool, guest: bool)

  /** The kinds of messages a session shows; only prompts are answered. */
  datatype Style = PromptEchoOff | PromptEchoOn | ErrorMessage | TextInfo

  /** What a session gets back, message by message; a message that is no prompt gets nothing. */
  type Response = seq<Option<string>>

  datatype Event =
    | Requested(sequence: UInt32)                 // an authenticate request of any kind arrived
    | WasReset(stopped: Option<SessionId>)        // reset_session ran and stopped the session in use
    | GuestAccepted
    | Created(session: SessionId, setup: Setup)   // a session became the one in use and was started
    | Taken                                       // the seat took the session in use over
    | AuthResult(session: SessionId, ok: bool)
    | Prompted(sequence: UInt32, styles: seq<Style>)
    | EndSent(sequence: UInt32, username: string, result: int)
    | ContinueReached(session: SessionId, response: Option<Response>)   // none: an error was reported
    | Answered(session: SessionId)                // a session that asked nothing was answered at once
    | Cancelled(session: SessionId)               // the session in use was stopped on request
    | Started(remote: bool, name: Option<string>) // START_SESSION was emitted
    | LanguageSet(session: SessionId, language: string)

  // ----- What a log says -----

  /** A guest login was accepted and not reset since. */
  predicate GuestHeld(log: seq<Event>) {
    log != [] &&
    var (front, last) := (log[..|log| - 1], log[|log| - 1]);
    last.GuestAccepted? || (!last.WasReset? && GuestHeld(front))
  }

  /** The session created last, unless it was reset or taken since. */
  function Current(log: seq<Event>): Option<SessionId> {
    if log == [] then None else
    var (front, last) := (log[..|log| - 1], log[|log| - 1]);
    if last.Created? then Some(last.session)
    else if last.WasReset? || last.Taken? then None
    else Current(front)
  }

  /** The last result of session `s` was success. */
  predicate Succeeded(log: seq<Event>, s: SessionId) {
    log != [] &&
    var (front, last) := (log[..|log| - 1], log[|log| - 1]);
    if last.AuthResult? && last.session == s then last.ok else Succeeded(front, s)
  }

  /** END_AUTHENTICATION was sent and no authenticate request arrived since. */
  predicate Ended(log: seq<Event>) {
    log != [] &&
    var (front, last) := (log[..|log| - 1], log[|log| - 1]);
    last.EndSent? || (!last.Requested? && Ended(front))
  }

  /** The sequence number of the last authenticate request. */
  function LastRequest(log: seq<Event>): Option<UInt32> {
    if log == [] then None else
    var (front, last) := (log[..|log| - 1], log[|log| - 1]);
    if last.Requested? then Some(last.sequence) else LastRequest(front)
  }

  predicate CurrentSucceeded(log: seq<Event>) {
    Current(log).Some? && Succeeded(log, Current(log).value)
  }

  /** Whether event `e` is allowed after `log`. */
  predicate Allowed(log: seq<Event>, e: Event) {
    match e
    case Started(_, _) => GuestHeld(log) || CurrentSucceeded(log)
    case ContinueReached(s, _) => !Ended(log) && Current(log) == Some(s)
    case LanguageSet(s, _) => !GuestHeld(log) && Current(log) == Some(s) && Succeeded(log, s)
    case GuestAccepted => Current(log) == None
    case Created(_, _) => !GuestHeld(log)
    case WasReset(stopped) => Current(log) == stopped
    case Cancelled(s) => Current(log) == Some(s)
    case Answered(s) => Current(log) == Some(s)
    case Prompted(sequence, _) => LastRequest(log) == Some(sequence)
    case EndSent(sequence, _, _) => LastRequest(log) == Some(sequence)
    case _ => true
  }

  ghost predicate Safe(log: seq<Event>) {
    forall i :: 0 <= i < |log| ==> Allowed(log[..i], log[i])
  }

  lemma SafeAppend(log: seq<Event>, e: Event)
    requires Safe(log) && Allowed(log, e)
    ensures Safe(log + [e])
  {
    var l := log + [e];
    forall i | 0 <= i < |l|
      ensures Allowed(l[..i], l[i])
    {
      assert l[..i] == log[..i];
      assert log[..|log|] == log;
    }
  }

  /** How one more event changes what the log says. */
  lemma OneMore(log: seq<Event>, e: Event)
    ensures GuestHeld(log + [e]) <==> e.GuestAccepted? || (!e.WasReset? && GuestHeld(log))
    ensures Current(log + [e]) ==
      if e.Created? then Some(e.session) else if e.WasReset? || e.Taken? then None else Current(log)
    ensures forall s :: Succeeded(log + [e], s) <==> if e.AuthResult? && e.session == s then e.ok else Succeeded(log, s)
    ensures Ended(log + [e]) <==> e.EndSent? || (!e.Requested? && Ended(log))
    ensures LastRequest(log + [e]) == if e.Requested? then Some(e.sequence) else LastRequest(log)
  {
    assert (log + [e])[..|log|] == log;
  }

  // ----- Responses -----

  predicate IsPrompt(style: Style) {
    style.PromptEchoOff? || style.PromptEchoOn?
  }

  function Prompts(styles: seq<Style>): nat {
    if styles == [] then 0 else Prompts(styles[..|styles| - 1]) + if IsPrompt(styles[|styles| - 1]) then 1 else 0
  }

  /** Both kinds of prompt are counted, and nothing else. */
  lemma {:induction false} PromptsAre(styles: seq<Style>)
    ensures Prompts(styles) == multiset(styles)[PromptEchoOff] + multiset(styles)[PromptEchoOn]
    decreases |styles|
  {
    if styles != [] {
      var front := styles[..|styles| - 1];
      PromptsAre(front);
      assert styles == front + [styles[|styles| - 1]];
    }
  }

  /** The answers a response gives, in order. */
  function Given(response: Response): seq<string> {
    if response == [] then [] else
    var last := response[|response| - 1];
    Given(response[..|response| - 1]) + if last.Some? then [last.value] else []
  }

  /** Answers go to the prompts, hidden or shown, and to nothing else. */
  predicate Answers(styles: seq<Style>, response: Response) {
    && |response| == |styles|
    && forall i :: 0 <= i < |styles| ==> (response[i].Some? <==> styles[i] in {PromptEchoOff, PromptEchoOn})
  }

  lemma PrefixStep(styles: seq<Style>, i: nat)
    requires i < |styles|
    ensures Prompts(styles[..i + 1]) == Prompts(styles[..i]) + if IsPrompt(styles[i]) then 1 else 0
  {
    assert styles[..i + 1][..i] == styles[..i];
  }

  lemma {:induction false} PromptsMono(styles: seq<Style>, i: nat)
    requires i <= |styles|
    ensures Prompts(styles[..i]) <= Prompts(styles)
    decreases |styles| - i
  {
    if i < |styles| {
      PrefixStep(styles, i);
      PromptsMono(styles, i + 1);
    } else {
      assert styles[..i] == styles;
    }
  }

  lemma GivenAppend(response: Response, r: Option<string>)
    ensures Given(response + [r]) == Given(response) + if r.Some? then [r.value] else []
  {
    assert (response + [r])[..|response|] == response;
  }

  method CountPrompts(styles: seq<Style>) returns (n: nat)
    ensures n == Prompts(styles)
  {
    n := 0;
    for i := 0 to |styles|
      invariant n == Prompts(styles[..i])
    {
      PrefixStep(styles, i);
      if IsPrompt(styles[i]) {
        n := n + 1;
      }
    }
    assert styles[..|styles|] == styles;
  }

  /** Hands the secrets to the prompts, in order, one each. */
  method BuildResponse(styles: seq<Style>, secrets: seq<string>) returns (response: Response)
    requires |secrets| == Prompts(styles)
    ensures Answers(styles, response) && Given(response) == secrets
  {
    hide Given, Prompts;
    response := [];
    var j := 0;
    assert Given([]) == [] && Prompts(styles[..0]) == 0 by {
      EmptyResponse(styles);
    }
    for i := 0 to |styles|
      invariant j == Prompts(styles[..i]) <= |secrets|
      invariant Answers(styles[..i], response) && Given(response) == secrets[..j]
    {
      PrefixStep(styles, i);
      PromptsMono(styles, i + 1);
      var r := None;
      if IsPrompt(styles[i]) {
        r := Some(secrets[j]);
        j := j + 1;
      }
      GivenAppend(response, r);
      response := response + [r];
    }
    assert styles[..|styles|] == styles;
  }

  lemma EmptyResponse(styles: seq<Style>)
    ensures Given([]) == [] && Prompts(styles[..0]) == 0
  {
  }

  // ----- The machine -----

  class Greeter {
    const allowGuest: bool
    const authService: string
    const autologinService: string
    const autologinUser: Option<string>
    var authenticationSession: Option<SessionId>
    var sequenceNumber: UInt32
    var remoteSession: Option<string>
    var guestAuthenticated: bool
    var haveSentEnd: bool
    var cancelling: bool
    var startSession: bool
    var log: seq<Event>
    /** The sessions whose signals are connected to this greeter. */
    var connected: set<SessionId>
    /** The sessions for which session_get_is_authenticated holds. */
    var authenticated: set<SessionId>

    /** Only the autologin user is let in without questions, and by its own service; remote sessions are for guests. */
    ghost predicate SetupOk(setup: Setup) {
      && (!setup.interactive ==> autologinUser.Some? && setup.username == autologinUser && !setup.guest)
      && (!setup.guest ==> setup.service == if setup.interactive then authService else autologinService)
      && setup.username != Some("")
    }

    ghost predicate Sound(log: seq<Event>) {
      Safe(log) && forall i :: 0 <= i < |log| && log[i].Created? ==> SetupOk(log[i].setup)
    }

    ghost predicate Valid()
      reads this
    {
      && Sound(log)
      && guestAuthenticated == GuestHeld(log)
      && authenticationSession == Current(log)
      && (forall s :: s in authenticated <==> Succeeded(log, s))
      && (Ended(log) ==> haveSentEnd)
      && (guestAuthenticated ==> authenticationSession == None && remoteSession == None)
      && (forall s :: s in connected ==> authenticationSession == Some(s))
      && (authenticationSession.Some? ==> LastRequest(log) == Some(sequenceNumber))
    }

    constructor (allowGuest: bool, authService: string, autologinService: string, autologinUser: Option<string>)
      ensures Valid() && log == [] && this.allowGuest == allowGuest && this.authService == authService
      ensures this.autologinService == autologinService && this.autologinUser == autologinUser
    {
      this.allowGuest, this.authService := allowGuest, authService;
      this.autologinService, this.autologinUser := autologinService, autologinUser;
      authenticationSession, remoteSession, sequenceNumber := None, None, 0;
      guestAuthenticated, haveSentEnd, cancelling, startSession := false, false, false, false;
      log, connected, authenticated := [], {}, {};
    }

    method Record(e: Event)
      requires Sound(log) && Allowed(log, e) && (e.Created? ==> SetupOk(e.setup))
      modifies this`log
      ensures log == old(log) + [e] && Sound(log)
      ensures GuestHeld(log) <==> e.GuestAccepted? || (!e.WasReset? && GuestHeld(old(log)))
      ensures Current(log) ==
        if e.Created? then Some(e.session) else if e.WasReset? || e.Taken? then None else Current(old(log))
      ensures forall s ::
        Succeeded(log, s) <==> if e.AuthResult? && e.session == s then e.ok else Succeeded(old(log), s)
      ensures Ended(log) <==> e.EndSent? || (!e.Requested? && Ended(old(log)))
      ensures LastRequest(log) == if e.Requested? then Some(e.sequence) else LastRequest(old(log))
    {
      hide GuestHeld, Current, Succeeded, Ended, LastRequest, Safe;
      SafeAppend(log, e);
      OneMore(log, e);
      log := log + [e];
    }

    method ResetSession()
      requires Sound(log) && authenticationSession == Current(log)
      modifies this`remoteSession, this`authenticationSession, this`guestAuthenticated, this`haveSentEnd
      modifies this`cancelling, this`connected, this`log
      ensures Sound(log) && log == old(log) + [WasReset(old(authenticationSession))]
      ensures Ended(log) == Ended(old(log)) && LastRequest(log) == LastRequest(old(log))
      ensures forall s :: Succeeded(log, s) <==> Succeeded(old(log), s)
      ensures remoteSession == None && authenticationSession == None == Current(log)
      ensures !guestAuthenticated && !GuestHeld(log) && !haveSentEnd && !cancelling && connected == {}
    {
      hide GuestHeld, Current, Succeeded, Ended, LastRequest, Safe, Sound;
      Record(WasReset(authenticationSession));
      remoteSession := None;
      connected := {};
      authenticationSession := None;
      guestAuthenticated, haveSentEnd, cancelling := false, false, false;
    }

    method SendEndAuthentication(sequence: UInt32, username: string, result: int)
      requires Sound(log) && LastRequest(log) == Some(sequence)
      modifies this`haveSentEnd, this`log
      ensures haveSentEnd && log == old(log) + [EndSent(sequence, username, result)] && Sound(log) && Ended(log)
      ensures GuestHeld(log) == GuestHeld(old(log)) && Current(log) == Current(old(log))
      ensures LastRequest(log) == LastRequest(old(log))
      ensures forall s :: Succeeded(log, s) <==> Succeeded(old(log), s)
    {
      hide GuestHeld, Current, Succeeded, Ended, LastRequest, Safe, Sound;
      Record(EndSent(sequence, username, result));
      haveSentEnd := true;
    }

    /** What a session-backed request does after the reset, given the session it gets, if any. */
    static function BeginEvents(sequence: UInt32, created: Option<SessionId>, setup: Setup): seq<Event> {
      if created == None then [EndSent(sequence, "", USER_UNKNOWN)] else [Created(created.value, setup)]
    }

    /** The common part of the two session-backed requests: `created` is what the CREATE_SESSION handler returns. */
    method BeginSession(sequence: UInt32, created: Option<SessionId>, setup: Setup)
      requires Sound(log) && !guestAuthenticated && !GuestHeld(log) && authenticationSession == None == Current(log)
      requires connected == {} && (forall s :: s in authenticated <==> Succeeded(log, s)) && !Ended(log)
      requires LastRequest(log) == Some(sequence) && SetupOk(setup)
      modifies this`authenticationSession, this`sequenceNumber, this`connected, this`haveSentEnd, this`log
      ensures Valid() && log == old(log) + BeginEvents(sequence, created, setup) && sequenceNumber == sequence
      ensures authenticationSession == created && haveSentEnd == (old(haveSentEnd) || created == None)
      ensures connected == if created == None then {} else {created.value}
    {
      hide GuestHeld, Current, Succeeded, Ended, LastRequest, Safe, Sound;
      sequenceNumber := sequence;
      if created == None {
        SendEndAuthentication(sequence, "", USER_UNKNOWN);
        return;
      }
      authenticationSession := created;
      connected := {created.value};
      Record(Created(created.value, setup));
    }

    /** An empty name stands for none. */
    static function NameOf(name: string): (r: Option<string>)
      ensures r == None <==> name == ""
      ensures r.Some? ==> r.value == name
    {
      if name == "" then None else Some(name)
    }

    /** The autologin user is served without questions, by a service of its own. */
    function LocalSetup(username: string): Setup {
      if autologinUser.Some? && NameOf(username) == autologinUser
      then Setup(autologinService, NameOf(username), false, false)
      else Setup(authService, NameOf(username), true, false)
    }

    method HandleAuthenticate(sequence: UInt32, username: string, created: Option<SessionId>)
      requires Valid()
      modifies this`authenticationSession, this`sequenceNumber, this`remoteSession, this`guestAuthenticated
      modifies this`haveSentEnd, this`cancelling, this`connected, this`log
      ensures Valid() && |log| == |old(log)| + 3
      ensures log[..|log| - 1] == old(log) + [Requested(sequence), WasReset(old(authenticationSession))]
      ensures created == None ==> log[|log| - 1] == EndSent(sequence, "", USER_UNKNOWN)
      ensures created.Some? ==>
        var e := log[|log| - 1];
        && e.Created? && e.session == created.value && !e.setup.guest
        && e.setup.username == (if username == "" then None else Some(username))
        && (!e.setup.interactive <==> username != "" && autologinUser == Some(username))
        && e.setup.service == if e.setup.interactive then authService else autologinService
      ensures authenticationSession == created && remoteSession == None && !guestAuthenticated && !cancelling
      ensures sequenceNumber == sequence && (haveSentEnd <==> created == None)
      ensures connected == if created == None then {} else {created.value}
    {
      hide GuestHeld, Current, Succeeded, Ended, LastRequest, Safe, Sound;
      Record(Requested(sequence));
      ResetSession();
      BeginSession(sequence, created, LocalSetup(username));
      assert log[..|log| - 1] == old(log) + [Requested(sequence), WasReset(old(authenticationSession))];
    }

    method HandleAuthenticateAsGuest(sequence: UInt32)
      requires Valid()
      modifies this`authenticationSession, this`remoteSession, this`guestAuthenticated
      modifies this`haveSentEnd, this`cancelling, this`connected, this`log
      ensures Valid()
      ensures log == old(log) + [Requested(sequence), WasReset(old(authenticationSession))] +
        if allowGuest then [GuestAccepted, EndSent(sequence, "", SUCCESS)] else [EndSent(sequence, "", USER_UNKNOWN)]
      ensures guestAuthenticated == allowGuest && haveSentEnd && authenticationSession == None && !cancelling
      ensures remoteSession == None && connected == {}
    {
      hide GuestHeld, Current, Succeeded, Ended, LastRequest, Safe, Sound;
      Record(Requested(sequence));
      ResetSession();
      if !allowGuest {
        SendEndAuthentication(sequence, "", USER_UNKNOWN);
        return;
      }
      guestAuthenticated := true;
      Record(GuestAccepted);
      SendEndAuthentication(sequence, "", SUCCESS);
    }

    /** `service` is what the remote session's file names, if it could be loaded. */
    method HandleAuthenticateRemote(
      sessionName: string, username: string, sequence: UInt32, service: Option<string>, created: Option<SessionId>)
      requires Valid()
      modifies this`authenticationSession, this`sequenceNumber, this`remoteSession, this`guestAuthenticated
      modifies this`haveSentEnd, this`cancelling, this`connected, this`log
      ensures Valid() && !guestAuthenticated && !cancelling
      ensures log == old(log) + [Requested(sequence), WasReset(old(authenticationSession))] +
        if service == None then [EndSent(sequence, "", SYSTEM_ERR)]
        else if created == None then [EndSent(sequence, "", USER_UNKNOWN)]
        else [Created(created.value, Setup(service.value, if username == "" then None else Some(username), true, true))]
      ensures authenticationSession == (if service == None then None else created)
      ensures haveSentEnd <==> authenticationSession == None
      ensures remoteSession == if service == None then None else Some(sessionName)
      ensures connected == if authenticationSession == None then {} else {authenticationSession.value}
      ensures sequenceNumber == if service == None then old(sequenceNumber) else sequence
    {
      hide GuestHeld, Current, Succeeded, Ended, LastRequest, Safe, Sound;
      Record(Requested(sequence));
      ResetSession();
      if service == None {
        SendEndAuthentication(sequence, "", SYSTEM_ERR);
        return;
      }
      remoteSession := Some(sessionName);
      BeginSession(sequence, created, Setup(service.value, NameOf(username), true, true));
    }

    /**
     A continue message reaches the session in use, unless the end was sent already: with the
     secrets handed to its prompts, or with an error if their number is wrong.
     */
    method HandleContinueAuthentication(secrets: seq<string>, styles: seq<Style>)
      returns (ghost response: Option<Response>)
      requires Valid()
      modifies this`log
      ensures Valid()
      ensures log == old(log) +
        if authenticationSession == None || haveSentEnd then []
        else [ContinueReached(authenticationSession.value, response)]
      ensures response.Some? <==> authenticationSession != None && !haveSentEnd && |secrets| == Prompts(styles)
      ensures response.Some? ==> Answers(styles, response.value) && Given(response.value) == secrets
    {
      hide GuestHeld, Current, Succeeded, Ended, LastRequest, Safe, Sound, Given, Prompts;
      response := None;
      if authenticationSession == None {
        return;
      }
      if haveSentEnd {
        return;
      }
      var n := CountPrompts(styles);
      if |secrets| != n {
        Record(ContinueReached(authenticationSession.value, None));
        return;
      }
      var answers := BuildResponse(styles, secrets);
      response := Some(answers);
      Record(ContinueReached(authenticationSession.value, Some(answers)));
    }

    method HandleCancelAuthentication()
      requires Valid()
      modifies this`cancelling, this`log
      ensures Valid() && cancelling == (old(cancelling) || authenticationSession != None)
      ensures log == old(log) + if authenticationSession == None then [] else [Cancelled(authenticationSession.value)]
    {
      hide GuestHeld, Current, Succeeded, Ended, LastRequest, Safe, Sound;
      if authenticationSession == None {
        return;
      }
      cancelling := true;
      Record(Cancelled(authenticationSession.value));
    }

    /** Whether the session in use is authenticated; a missing session is not. */
    predicate IsAuthenticated()
      reads this
    {
      authenticationSession.Some? && authenticationSession.value in authenticated
    }

    /** `takes`: the START_SESSION handler took the session over; `accepts`: it returned TRUE. */
    method HandleStartSession(session: string, takes: bool, accepts: bool) returns (result: bool)
      requires Valid()
      modifies this`startSession, this`authenticationSession, this`connected, this`log
      ensures Valid()
      ensures !old(GuestHeld(log) || CurrentSucceeded(log)) ==>
        log == old(log) && !result && startSession == old(startSession)
      ensures old(GuestHeld(log) || CurrentSucceeded(log)) ==>
        var name :=
          if old(remoteSession).Some? then old(remoteSession) else if session == "" then None else Some(session);
        && startSession && result == accepts
        && log == old(log) + [Started(old(remoteSession).Some?, name)] + if takes then [Taken] else []
    {
      hide GuestHeld, Current, Succeeded, Ended, LastRequest, Safe, Sound;
      var remote, name := false, NameOf(session);
      if remoteSession.Some? {
        remote, name := true, remoteSession;
      }
      if guestAuthenticated || IsAuthenticated() {
        startSession := true;
        Record(Started(remote, name));
        if takes {
          var _ := TakeAuthenticationSession();
        }
        result := accepts;
      } else {
        result := false;
      }
    }

    method TakeAuthenticationSession() returns (session: Option<SessionId>)
      requires Valid()
      modifies this`authenticationSession, this`connected, this`log
      ensures Valid() && log == old(log) + [Taken]
      ensures session == old(authenticationSession) && authenticationSession == None && connected == {}
    {
      hide GuestHeld, Current, Succeeded, Ended, LastRequest, Safe, Sound;
      session := authenticationSession;
      connected := {};
      authenticationSession := None;
      Record(Taken);
    }

    method HandleSetLanguage(language: string)
      requires Valid()
      modifies this`log
      ensures Valid()
      ensures log == old(log) +
        if GuestHeld(old(log)) || !CurrentSucceeded(old(log)) then []
        else [LanguageSet(Current(old(log)).value, language)]
    {
      hide GuestHeld, Current, Succeeded, Ended, LastRequest, Safe, Sound;
      if !guestAuthenticated && !IsAuthenticated() {
        return;
      }
      if guestAuthenticated {
        return;
      }
      Record(LanguageSet(authenticationSession.value, language));
    }

    // ----- Environment -----

    /** The session process reports its result; sessions not in use may report late. */
    method SessionResult(s: SessionId, ok: bool)
      requires Valid()
      modifies this`authenticated, this`log
      ensures Valid() && log == old(log) + [AuthResult(s, ok)]
    {
      hide GuestHeld, Current, Succeeded, Ended, LastRequest, Safe, Sound;
      authenticated := if ok then authenticated + {s} else authenticated - {s};
      Record(AuthResult(s, ok));
    }

    /**
     authentication_complete_cb: a connected session's signal. An authenticated user without an
     account is reported as unknown.
     */
    method AuthenticationComplete(s: SessionId, username: string, result: int, hasAccount: bool)
      requires Valid() && s in connected
      modifies this`authenticationSession, this`remoteSession, this`guestAuthenticated
      modifies this`haveSentEnd, this`cancelling, this`connected, this`log
      ensures Valid() && haveSentEnd && old(authenticationSession) == Some(s)
      ensures log == old(log) + (if old(cancelling) then [WasReset(Some(s))] else []) +
        [EndSent(sequenceNumber, username, if s in authenticated && !hasAccount then USER_UNKNOWN else result)]
      ensures authenticationSession == (if old(cancelling) then None else Some(s)) && !cancelling
      ensures remoteSession == (if old(cancelling) then None else old(remoteSession))
      ensures connected == if old(cancelling) then {} else old(connected)
    {
      hide GuestHeld, Current, Succeeded, Ended, LastRequest, Safe, Sound;
      var code := result;
      if s in authenticated && !hasAccount {
        code := USER_UNKNOWN;
      }
      if cancelling {
        ResetSession();
      } else {
        cancelling := false;
      }
      SendEndAuthentication(sequenceNumber, username, code);
    }

    /** pam_messages_cb: the messages are passed on, and a session in use that asks nothing is answered at once. */
    method PamMessages(s: SessionId, styles: seq<Style>)
      requires Valid() && s in connected
      modifies this`log
      ensures Valid()
      ensures log == old(log) + [Prompted(sequenceNumber, styles)] + if Prompts(styles) == 0 then [Answered(s)] else []
    {
      hide GuestHeld, Current, Succeeded, Ended, LastRequest, Safe, Sound, Prompts;
      Record(Prompted(sequenceNumber, styles));
      var n := CountPrompts(styles);
      if n == 0 {
        Record(Answered(authenticationSession.value));
      }
    }
  }

  // ----- What the invariant means for a whole run -----

  /** A guest login was accepted at `j` and no reset happened from there to `i`. */
  ghost predicate GuestFrom(log: seq<Event>, j: int, i: int) {
    0 <= j < i <= |log| && log[j].GuestAccepted? && forall k :: j < k < i ==> !log[k].WasReset?
  }

  ghost predicate SessionFrom(log: seq<Event>, j: int, i: int, s: SessionId) {
    && 0 <= j < i <= |log| && log[j].Created? && log[j].session == s
    && forall k :: j < k < i ==> !log[k].Created? && !log[k].WasReset? && !log[k].Taken?
  }

  ghost predicate SuccessFrom(log: seq<Event>, j: int, i: int, s: SessionId) {
    && 0 <= j < i <= |log| && log[j] == AuthResult(s, true)
    && forall k :: j < k < i ==> log[k] != AuthResult(s, false)
  }

  lemma {:induction false} GuestHeldFrom(log: seq<Event>, i: nat) returns (j: int)
    requires i <= |log| && GuestHeld(log[..i])
    ensures GuestFrom(log, j, i)
  {
    assert log[..i][..i - 1] == log[..i - 1];
    if log[i - 1].GuestAccepted? {
      j := i - 1;
    } else {
      j := GuestHeldFrom(log, i - 1);
    }
  }

  lemma {:induction false} CurrentFrom(log: seq<Event>, i: nat, s: SessionId) returns (j: int)
    requires i <= |log| && Current(log[..i]) == Some(s)
    ensures SessionFrom(log, j, i, s)
  {
    assert log[..i][..i - 1] == log[..i - 1];
    if log[i - 1].Created? {
      j := i - 1;
    } else {
      j := CurrentFrom(log, i - 1, s);
    }
  }

  lemma {:induction false} SucceededFrom(log: seq<Event>, i: nat, s: SessionId) returns (j: int)
    requires i <= |log| && Succeeded(log[..i], s)
    ensures SuccessFrom(log, j, i, s)
  {
    assert log[..i][..i - 1] == log[..i - 1];
    if log[i - 1] == AuthResult(s, true) {
      j := i - 1;
    } else {
      j := SucceededFrom(log, i - 1, s);
    }
  }

  /**
   In every run START_SESSION is emitted only after an accepted guest login with no reset
   since, or with a current session, created and neither reset nor taken since, whose last result was success.
   */
  lemma StartAuthorised(log: seq<Event>, i: nat)
    requires Safe(log) && i < |log| && log[i].Started?
    ensures
      || (exists j :: GuestFrom(log, j, i))
      || (exists s, j, k :: SessionFrom(log, j, i, s) && SuccessFrom(log, k, i, s))
  {
    assert Allowed(log[..i], log[i]);
    if GuestHeld(log[..i]) {
      var j := GuestHeldFrom(log, i);
    } else {
      var s := Current(log[..i]).value;
      var j := CurrentFrom(log, i, s);
      var k := SucceededFrom(log, i, s);
      assert SessionFrom(log, j, i, s) && SuccessFrom(log, k, i, s);
    }
  }

  lemma {:induction false} SuccessHolds(log: seq<Event>, k: int, i: nat, s: SessionId)
    requires i <= |log| && SuccessFrom(log, k, i, s)
    ensures Succeeded(log[..i], s)
    decreases i
  {
    assert log[..i][..i - 1] == log[..i - 1];
    if k < i - 1 {
      SuccessHolds(log, k, i - 1, s);
    }
  }

  /** For a session that had not succeeded before it was created, the success that authorises it came after. */
  lemma SuccessAfterCreation(log: seq<Event>, j: int, k: int, i: nat, s: SessionId)
    requires i <= |log| && SessionFrom(log, j, i, s) && SuccessFrom(log, k, i, s) && !Succeeded(log[..j], s)
    ensures j < k
  {
    if k < j {
      SuccessHolds(log, k, j, s);
    }
  }

  lemma {:induction false} EndedUnlessRequested(log: seq<Event>, j: nat, i: nat)
    requires j < i <= |log| && log[j].EndSent? && forall k :: j < k < i ==> !log[k].Requested?
    ensures Ended(log[..i])
    decreases i
  {
    assert log[..i][..i - 1] == log[..i - 1];
    if j < i - 1 {
      EndedUnlessRequested(log, j, i - 1);
    }
  }

  /** Between END_AUTHENTICATION and a continue message that reaches a session lies a new authenticate request. */
  lemma ContinueNeedsRequest(log: seq<Event>, j: nat, i: nat)
    requires Safe(log) && j < i < |log| && log[j].EndSent? && log[i].ContinueReached?
    ensures exists k :: j < k < i && log[k].Requested?
  {
    assert Allowed(log[..i], log[i]);
    if forall k :: j < k < i ==> !log[k].Requested? {
      EndedUnlessRequested(log, j, i);
      assert false;
    }
  }

  /** The request at `j` is the last one before `i`. */
  ghost predicate RequestFrom(log: seq<Event>, j: int, i: int) {
    0 <= j < i <= |log| && log[j].Requested? && forall k :: j < k < i ==> !log[k].Requested?
  }

  lemma {:induction false} LastRequestFrom(log: seq<Event>, i: nat) returns (j: int)
    requires i <= |log| && LastRequest(log[..i]).Some?
    ensures RequestFrom(log, j, i) && log[j].sequence == LastRequest(log[..i]).value
  {
    assert log[..i][..i - 1] == log[..i - 1];
    if log[i - 1].Requested? {
      j := i - 1;
    } else {
      j := LastRequestFrom(log, i - 1);
    }
  }

  /** In every run each prompt and each end carries the sequence number of the latest authenticate request. */
  lemma RepliesMatchRequest(log: seq<Event>, i: nat)
    requires Safe(log) && i < |log| && (log[i].EndSent? || log[i].Prompted?)
    ensures exists j :: RequestFrom(log, j, i) && log[j].sequence == log[i].sequence
  {
    assert Allowed(log[..i], log[i]);
    var j := LastRequestFrom(log, i);
  }

  /** In every run a session that asks no questions was created for the autologin user, by its service. */
  lemma UnattendedIsAutologin(greeter: Greeter, i: nat)
    requires greeter.Valid() && i < |greeter.log| && greeter.log[i].Created? && !greeter.log[i].setup.interactive
    ensures greeter.autologinUser.Some? && greeter.log[i].setup.username == greeter.autologinUser
    ensures greeter.log[i].setup.service == greeter.autologinService && !greeter.log[i].setup.guest
  {
  }
}
