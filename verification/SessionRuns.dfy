/**
 Whole runs of a system with sessions: credentials are verified, sign-ins happen later,
 security versions rotate and accounts are disabled meanwhile, and requests overlap.
 */
module SessionRuns {
  import opened Wrappers
  import opened Sessions

  /** The application's record of one subject. */
  datatype Account = Account(version: Version, enabled: bool, rotatedAt: nat, used: set<Version>)

  /** Credentials checked at a moment, with the security version read at that moment. */
  datatype Verified = Verified(identity: Identity, at: nat)

  datatype Phase = Loaded | Handling | Closing | Finished

  /** `rotatedAt` is the latest rotation of the principal's subject when it was resolved. */
  datatype Request = Request(session: Session, phase: Phase, principal: Option<Identity>, rotatedAt: nat)

  datatype State = State(
    clock: nat,
    idleTimeout: bool,
    accounts: map<Subject, Account>,
    verified: set<Verified>,
    signedIn: set<Verified>,
    store: map<Token, Values>,
    next: Token,
    requests: seq<Request>)

  datatype Action =
    | VerifyCredentials(subject: Subject)
    | Rotate(subject: Subject, version: Version)
    | SetEnabled(subject: Subject, enabled: bool)
    | Expire(token: Token)
    | Begin(cookie: Option<Token>)
    | Authenticate(request: nat, answer: Answer, storeOk: bool)
    | HandlerSignIn(request: nat, credentials: Verified, storeOk: bool)
    | HandlerSignOut(request: nat, storeOk: bool)
    | HandlerPut(request: nat, key: string, value: string)
    | HandlerRemove(request: nat, key: string)
    | End(request: nat, storeOk: bool)

  function Init(accounts: map<Subject, Account>, idleTimeout: bool): State {
    State(0, idleTimeout, accounts, {}, {}, map[], 0, [])
  }

  /** Each account starts with its version in use. */
  predicate GoodAccounts(accounts: map<Subject, Account>) {
    forall s :: s in accounts ==> accounts[s].version in accounts[s].used
  }

  predicate NotYetRotated(accounts: map<Subject, Account>) {
    forall s :: s in accounts ==> accounts[s].rotatedAt == 0
  }

  predicate InPhase(s: State, r: nat, phase: Phase) {
    r < |s.requests| && s.requests[r].phase == phase
  }

  /** A resolver that returns current state: only an enabled account, with its current version. */
  predicate Honest(s: State, answer: Answer) {
    answer.Principal? ==>
      answer.subject in s.accounts && s.accounts[answer.subject].enabled && s.accounts[answer.subject].version == answer.version
  }

  /**
   What the application may do: versions are not reused, sign-in passes credentials that
   were verified, and the reserved keys are left alone.
   */
  predicate Allowed(s: State, a: Action) {
    match a
    case VerifyCredentials(subject) => subject in s.accounts && s.accounts[subject].enabled
    case Rotate(subject, version) => subject in s.accounts && version !in s.accounts[subject].used
    case SetEnabled(subject, _) => subject in s.accounts
    case Expire(_) => true
    case Begin(_) => true
    case Authenticate(r, answer, _) => InPhase(s, r, Loaded) && Honest(s, answer)
    case HandlerSignIn(r, credentials, _) => InPhase(s, r, Handling) && credentials in s.verified
    case HandlerSignOut(r, _) => InPhase(s, r, Handling)
    case HandlerPut(r, key, _) => InPhase(s, r, Handling) && !IsReserved(key)
    case HandlerRemove(r, key) => InPhase(s, r, Handling) && !IsReserved(key)
    case End(r, _) => InPhase(s, r, Handling) || InPhase(s, r, Closing)
  }

  /** The actions of a request: of the middleware, of its handler, and its end. */
  predicate ByRequest(a: Action) {
    a.Authenticate? || a.HandlerSignIn? || a.HandlerSignOut? || a.HandlerPut? || a.HandlerRemove? || a.End?
  }

  function HeldBy(s: State, r: nat): Held
    requires r < |s.requests|
  {
    Held(s.store, s.next, s.requests[r].session)
  }

  function WithHeld(s: State, r: nat, h: Held): State
    requires r < |s.requests|
  {
    s.(store := h.store, next := h.next, requests := s.requests[r := s.requests[r].(session := h.session)])
  }

  function RotationOf(accounts: map<Subject, Account>, subject: Subject): nat {
    if subject in accounts then accounts[subject].rotatedAt else 0
  }

  /** How a request goes on after the middleware's verdict. */
  function Judged(accounts: map<Subject, Account>, request: Request, verdict: Verdict): Request {
    match verdict
    case Anonymous => request.(phase := Handling, principal := None)
    case Authenticated(id) => request.(phase := Handling, principal := Some(id), rotatedAt := RotationOf(accounts, id.subject))
    case Rejected => request.(phase := Closing, principal := None)
  }

  function Authenticated(s: State, r: nat, answer: Answer, storeOk: bool): State
    requires r < |s.requests|
  {
    var (h, verdict) := Resolve(HeldBy(s, r), answer, storeOk);
    var s' := WithHeld(s, r, h);
    s'.(requests := s'.requests[r := Judged(s.accounts, s'.requests[r], verdict)])
  }

  function Effect(s: State, a: Action): State
    requires Allowed(s, a)
  {
    match a
    case VerifyCredentials(subject) =>
      s.(verified := s.verified + {Verified(Identity(subject, s.accounts[subject].version), s.clock)})
    case Rotate(subject, version) =>
      var account := s.accounts[subject];
      s.(accounts := s.accounts[subject := Account(version, account.enabled, s.clock, account.used + {version})])
    case SetEnabled(subject, enabled) => s.(accounts := s.accounts[subject := s.accounts[subject].(enabled := enabled)])
    case Expire(token) => s.(store := s.store - {token})
    case Begin(cookie) => s.(requests := s.requests + [Request(Load(s.store, cookie, s.idleTimeout), Loaded, None, 0)])
    case Authenticate(r, answer, storeOk) => Authenticated(s, r, answer, storeOk)
    case HandlerSignIn(r, credentials, storeOk) =>
      var signed := WithHeld(s, r, SignIn(HeldBy(s, r), credentials.identity, storeOk));
      if SignInSucceeds(credentials.identity, storeOk) then signed.(signedIn := s.signedIn + {credentials}) else signed
    case HandlerSignOut(r, storeOk) => WithHeld(s, r, Destroy(HeldBy(s, r), storeOk))
    case HandlerPut(r, key, value) => WithHeld(s, r, Put(HeldBy(s, r), key, value))
    case HandlerRemove(r, key) => WithHeld(s, r, Remove(HeldBy(s, r), key))
    case End(r, storeOk) =>
      var saved := WithHeld(s, r, Save(HeldBy(s, r), storeOk));
      saved.(requests := saved.requests[r := saved.requests[r].(phase := Finished)])
  }

  function Next(s: State, a: Action): State
    requires Allowed(s, a)
  {
    Effect(s, a).(clock := s.clock + 1)
  }

  ghost predicate Step(s: State, s': State) {
    exists a: Action :: Allowed(s, a) && s' == Next(s, a)
  }

  ghost predicate IsRun(run: seq<State>, accounts: map<Subject, Account>, idleTimeout: bool) {
    && |run| > 0
    && GoodAccounts(accounts) && NotYetRotated(accounts)
    && run[0] == Init(accounts, idleTimeout)
    && forall i :: 0 < i < |run| ==> Step(run[i - 1], run[i])
  }

  // ------------------------------------------------------------------ provenance

  /** The pair in a session is either absent or was put there by one successful sign-in. */
  ghost predicate Sound(signedIn: set<Verified>, values: Values) {
    && (SUBJECT_KEY in values <==> VERSION_KEY in values)
    && (SUBJECT_KEY in values ==> FromSignIn(signedIn, Identity(values[SUBJECT_KEY], values[VERSION_KEY])))
  }

  ghost predicate FromSignIn(signedIn: set<Verified>, identity: Identity) {
    exists v :: v in signedIn && v.identity == identity
  }

  /** Credentials of the current version were verified after the version was last rotated. */
  ghost predicate CredentialsOk(s: State, v: Verified) {
    && v.identity.subject in s.accounts
    && v.identity.version in s.accounts[v.identity.subject].used
    && (v.identity.version == s.accounts[v.identity.subject].version ==> v.at >= s.accounts[v.identity.subject].rotatedAt)
  }

  /** A principal has credentials verified no earlier than the rotation seen at resolution. */
  ghost predicate PrincipalOk(signedIn: set<Verified>, request: Request) {
    request.principal.Some? ==>
      exists v :: v in signedIn && v.identity == request.principal.value && v.at >= request.rotatedAt
  }

  ghost predicate RequestOk(signedIn: set<Verified>, request: Request) {
    Sound(signedIn, request.session.values) && PrincipalOk(signedIn, request)
  }

  ghost predicate CredentialsInv(s: State) {
    && GoodAccounts(s.accounts)
    && s.signedIn <= s.verified
    && (forall v :: v in s.verified ==> CredentialsOk(s, v))
    && (forall subject :: subject in s.accounts ==> s.accounts[subject].rotatedAt <= s.clock)
  }

  ghost predicate StoreOk(signedIn: set<Verified>, store: map<Token, Values>) {
    forall t :: t in store ==> Sound(signedIn, store[t])
  }

  ghost predicate SessionInv(s: State) {
    StoreOk(s.signedIn, s.store) && forall r :: 0 <= r < |s.requests| ==> RequestOk(s.signedIn, s.requests[r])
  }

  ghost predicate Inv(s: State) { CredentialsInv(s) && SessionInv(s) }

  lemma CredentialsKept(s: State, a: Action)
    requires Allowed(s, a) && CredentialsInv(s)
    ensures CredentialsInv(Next(s, a))
  {
    var s' := Next(s, a);
    forall v | v in s'.verified ensures CredentialsOk(s', v) {
      assert v in s.verified ==> CredentialsOk(s, v);
    }
  }

  lemma SoundGrows(signedIn: set<Verified>, more: set<Verified>, values: Values)
    requires Sound(signedIn, values) && signedIn <= more
    ensures Sound(more, values)
  {
    if SUBJECT_KEY in values {
      var v :| v in signedIn && v.identity == Identity(values[SUBJECT_KEY], values[VERSION_KEY]);
      assert v in more;
    }
  }

  /** Everything an operation on session data does to what is stored. */
  ghost predicate HeldOk(signedIn: set<Verified>, h: Held) {
    StoreOk(signedIn, h.store) && Sound(signedIn, h.session.values)
  }

  lemma ResolveKeeps(signedIn: set<Verified>, h: Held, answer: Answer, storeOk: bool)
    requires HeldOk(signedIn, h)
    ensures HeldOk(signedIn, Resolve(h, answer, storeOk).0)
  {
  }

  lemma SignInKeeps(signedIn: set<Verified>, h: Held, credentials: Verified, storeOk: bool)
    requires HeldOk(signedIn, h)
    ensures var more := if SignInSucceeds(credentials.identity, storeOk) then signedIn + {credentials} else signedIn;
            HeldOk(more, SignIn(h, credentials.identity, storeOk))
  {
    if SignInSucceeds(credentials.identity, storeOk) {
      var more := signedIn + {credentials};
      assert credentials in more;
      var h' := SignIn(h, credentials.identity, storeOk);
      forall t | t in h'.store ensures Sound(more, h'.store[t]) {
        SoundGrows(signedIn, more, h.store[t]);
      }
      assert FromSignIn(more, credentials.identity);
    }
  }

  lemma SaveKeeps(signedIn: set<Verified>, h: Held, storeOk: bool)
    requires HeldOk(signedIn, h)
    ensures HeldOk(signedIn, Save(h, storeOk))
  {
  }

  lemma EditKeeps(signedIn: set<Verified>, h: Held, key: string, value: string)
    requires HeldOk(signedIn, h) && !IsReserved(key)
    ensures HeldOk(signedIn, Put(h, key, value)) && HeldOk(signedIn, Remove(h, key))
  {
  }

  /** Requests other than the one acting keep what they had. */
  lemma OthersKept(s: State, more: set<Verified>, r: nat)
    requires SessionInv(s) && s.signedIn <= more && r < |s.requests|
    ensures RequestOk(more, s.requests[r])
  {
    assert RequestOk(s.signedIn, s.requests[r]);
    SoundGrows(s.signedIn, more, s.requests[r].session.values);
    if s.requests[r].principal.Some? {
      var v :| v in s.signedIn && v.identity == s.requests[r].principal.value && v.at >= s.requests[r].rotatedAt;
      assert v in more;
    }
  }

  /** The middleware's verdict: a session that passes carries credentials newer than the latest rotation. */
  lemma AuthenticatedKept(s: State, r: nat, answer: Answer, storeOk: bool)
    requires Inv(s) && Allowed(s, Authenticate(r, answer, storeOk))
    ensures SessionInv(Authenticated(s, r, answer, storeOk))
  {
    var h := HeldBy(s, r);
    var s' := Authenticated(s, r, answer, storeOk);
    assert RequestOk(s.signedIn, s.requests[r]);
    ResolveKeeps(s.signedIn, h, answer, storeOk);
    VerdictMeaning(h, answer, storeOk);
    if Resolve(h, answer, storeOk).1.Authenticated? {
      var v :| v in s.signedIn && v.identity == Identity(answer.subject, answer.version);
      assert CredentialsOk(s, v);
      assert PrincipalOk(s.signedIn, s'.requests[r]);
    }
    forall q | 0 <= q < |s'.requests| ensures RequestOk(s.signedIn, s'.requests[q]) {
      OthersKept(s, s.signedIn, q);
    }
  }

  /** An operation of one request's handler or of its end. */
  lemma HeldKept(s: State, r: nat, h: Held, more: set<Verified>)
    requires SessionInv(s) && r < |s.requests| && s.signedIn <= more && HeldOk(more, h)
    ensures SessionInv(WithHeld(s, r, h).(signedIn := more))
  {
    var s' := WithHeld(s, r, h).(signedIn := more);
    forall q | 0 <= q < |s'.requests| ensures RequestOk(more, s'.requests[q]) {
      OthersKept(s, more, q);
    }
  }

  lemma HandlerKept(s: State, a: Action)
    requires Inv(s) && Allowed(s, a)
    requires a.HandlerSignIn? || a.HandlerSignOut? || a.HandlerPut? || a.HandlerRemove? || a.End?
    ensures SessionInv(Effect(s, a))
  {
    var r := a.request;
    var h := HeldBy(s, r);
    assert RequestOk(s.signedIn, s.requests[r]);
    match a
    case HandlerSignIn(_, credentials, storeOk) =>
      SignInKeeps(s.signedIn, h, credentials, storeOk);
      var more := if SignInSucceeds(credentials.identity, storeOk) then s.signedIn + {credentials} else s.signedIn;
      HeldKept(s, r, SignIn(h, credentials.identity, storeOk), more);
    case HandlerSignOut(_, storeOk) =>
      HeldKept(s, r, Destroy(h, storeOk), s.signedIn);
    case HandlerPut(_, key, value) =>
      EditKeeps(s.signedIn, h, key, value);
      HeldKept(s, r, Put(h, key, value), s.signedIn);
    case HandlerRemove(_, key) =>
      EditKeeps(s.signedIn, h, key, "");
      HeldKept(s, r, Remove(h, key), s.signedIn);
    case End(_, storeOk) =>
      SaveKeeps(s.signedIn, h, storeOk);
      HeldKept(s, r, Save(h, storeOk), s.signedIn);
      var saved := WithHeld(s, r, Save(h, storeOk));
      assert forall q :: 0 <= q < |saved.requests| ==> RequestOk(s.signedIn, saved.requests[q]);
  }

  lemma BeginKept(s: State, cookie: Option<Token>)
    requires SessionInv(s)
    ensures SessionInv(Next(s, Begin(cookie)))
  {
    var s' := Next(s, Begin(cookie));
    forall r | 0 <= r < |s'.requests| ensures RequestOk(s.signedIn, s'.requests[r]) {
      if r < |s.requests| {
        assert RequestOk(s.signedIn, s.requests[r]);
      }
    }
  }

  /** Outside requests only an expiry touches sessions, and it only deletes. */
  lemma OutsideKept(s: State, a: Action)
    requires SessionInv(s) && Allowed(s, a)
    requires a.VerifyCredentials? || a.Rotate? || a.SetEnabled? || a.Expire?
    ensures SessionInv(Next(s, a))
  {
  }

  lemma StepKeepsInv(s: State, s': State)
    requires Inv(s) && Step(s, s')
    ensures Inv(s')
  {
    var a: Action :| Allowed(s, a) && s' == Next(s, a);
    CredentialsKept(s, a);
    if a.Begin? {
      BeginKept(s, a.cookie);
    } else if a.Authenticate? {
      AuthenticatedKept(s, a.request, a.answer, a.storeOk);
    } else if a.VerifyCredentials? || a.Rotate? || a.SetEnabled? || a.Expire? {
      OutsideKept(s, a);
    } else {
      HandlerKept(s, a);
    }
  }

  lemma {:induction false} RunKeepsInv(run: seq<State>, accounts: map<Subject, Account>, idleTimeout: bool, i: nat)
    requires IsRun(run, accounts, idleTimeout) && i < |run|
    ensures Inv(run[i])
  {
    if i > 0 {
      RunKeepsInv(run, accounts, idleTimeout, i - 1);
      assert Step(run[i - 1], run[i]);
      StepKeepsInv(run[i - 1], run[i]);
    }
  }

  /**
   Provenance.  Every stored session's subject and security version come from one
   successful sign-in with credentials verified at that version, however late it was.
   */
  lemma StoredPairsComeFromSignIn(run: seq<State>, accounts: map<Subject, Account>, idleTimeout: bool, i: nat, t: Token)
    requires IsRun(run, accounts, idleTimeout) && i < |run| && t in run[i].store
    ensures var values := run[i].store[t];
            (SUBJECT_KEY in values || VERSION_KEY in values) ==>
              && SUBJECT_KEY in values && VERSION_KEY in values
              && exists v :: v in run[i].signedIn && v in run[i].verified
                             && v.identity == Identity(values[SUBJECT_KEY], values[VERSION_KEY])
  {
    RunKeepsInv(run, accounts, idleTimeout, i);
    assert Sound(run[i].signedIn, run[i].store[t]);
  }

  /**
   Freshness.  A handler that sees a principal has it from credentials of that subject that
   were verified no earlier than the latest rotation before the principal was resolved.
   */
  lemma PrincipalsAreFresh(run: seq<State>, accounts: map<Subject, Account>, idleTimeout: bool, i: nat, r: nat)
    requires IsRun(run, accounts, idleTimeout) && i < |run| && r < |run[i].requests|
    requires run[i].requests[r].principal.Some?
    ensures exists v :: v in run[i].signedIn && v in run[i].verified
                        && v.identity == run[i].requests[r].principal.value && v.at >= run[i].requests[r].rotatedAt
  {
    RunKeepsInv(run, accounts, idleTimeout, i);
    assert RequestOk(run[i].signedIn, run[i].requests[r]);
  }

  // ------------------------------------------------------------------ sign-out

  /**
   Whether a request that has loaded the session of `t` may still write it back: it has
   changed it already, its handler is running, or its handler may yet be reached.
   */
  ghost predicate MaySave(s: State, request: Request, t: Token) {
    && !request.phase.Finished? && request.session.token == Some(t)
    && (request.session.status.Modified? || request.phase.Handling? || (request.phase.Loaded? && MayPass(s, request.session.values)))
  }

  /** The middleware may let the session through: it is anonymous, or of its subject's current version. */
  ghost predicate MayPass(s: State, values: Values) {
    var subject, version := Get(values, SUBJECT_KEY), Get(values, VERSION_KEY);
    subject == "" || (version != "" && subject in s.accounts && s.accounts[subject].version == version)
  }

  ghost predicate NobodySaves(s: State, t: Token) {
    forall r :: 0 <= r < |s.requests| ==> !MaySave(s, s.requests[r], t)
  }

  /** A token that has been issued, is not stored, and that no request may write back. */
  ghost predicate Gone(s: State, t: Token) {
    t < s.next && t !in s.store && NobodySaves(s, t)
  }

  /** Versions are not reused, so a session that has become stale stays stale. */
  lemma StaleStaysStale(s: State, a: Action, values: Values)
    requires CredentialsInv(s) && Sound(s.signedIn, values) && Allowed(s, a) && !MayPass(s, values)
    ensures !MayPass(Next(s, a), values)
  {
    var subject, version := Get(values, SUBJECT_KEY), Get(values, VERSION_KEY);
    var v :| v in s.signedIn && v.identity == Identity(subject, version);
    assert CredentialsOk(s, v);
  }

  /** A request that may not save the session may not save it after a step of anybody else. */
  lemma BystanderStaysIdle(s: State, a: Action, request: Request, t: Token)
    requires CredentialsInv(s) && RequestOk(s.signedIn, request) && Allowed(s, a) && !MaySave(s, request, t)
    ensures !MaySave(Next(s, a), request, t)
  {
    if !MayPass(s, request.session.values) {
      StaleStaysStale(s, a, request.session.values);
    }
  }

  /** Nor after its own step, unless the middleware lets it pass. */
  lemma AuthenticateStaysIdle(s: State, r: nat, answer: Answer, storeOk: bool, t: Token)
    requires Allowed(s, Authenticate(r, answer, storeOk)) && Gone(s, t)
    ensures !MaySave(s, Authenticated(s, r, answer, storeOk).requests[r], t)
    ensures Authenticated(s, r, answer, storeOk).store.Keys <= s.store.Keys
  {
    assert !MaySave(s, s.requests[r], t);
    VerdictMeaning(HeldBy(s, r), answer, storeOk);
  }

  lemma HandlerStaysIdle(s: State, a: Action, t: Token)
    requires Allowed(s, a) && Gone(s, t)
    requires a.HandlerSignIn? || a.HandlerSignOut? || a.HandlerPut? || a.HandlerRemove? || a.End?
    ensures !MaySave(s, Effect(s, a).requests[a.request], t)
    ensures t < Effect(s, a).next && t !in Effect(s, a).store
  {
    assert !MaySave(s, s.requests[a.request], t);
  }

  lemma ActorStaysIdle(s: State, a: Action, t: Token)
    requires Allowed(s, a) && Gone(s, t)
    requires ByRequest(a)
    ensures !MaySave(Next(s, a), Next(s, a).requests[a.request], t)
    ensures t < Next(s, a).next && t !in Next(s, a).store
    ensures |Next(s, a).requests| == |s.requests|
    ensures forall q :: 0 <= q < |s.requests| && q != a.request ==> Next(s, a).requests[q] == s.requests[q]
  {
    if a.Authenticate? {
      AuthenticateStaysIdle(s, a.request, a.answer, a.storeOk, t);
    } else {
      HandlerStaysIdle(s, a, t);
    }
  }

  lemma StepKeepsGone(s: State, s': State, t: Token)
    requires Inv(s) && Step(s, s') && Gone(s, t)
    ensures Gone(s', t)
  {
    var a: Action :| Allowed(s, a) && s' == Next(s, a);
    var acting := ByRequest(a);
    if acting {
      ActorStaysIdle(s, a, t);
    }
    forall r | 0 <= r < |s'.requests| ensures !MaySave(s', s'.requests[r], t) {
      if r < |s.requests| && !(acting && r == a.request) {
        assert RequestOk(s.signedIn, s.requests[r]) && s'.requests[r] == s.requests[r];
        BystanderStaysIdle(s, a, s.requests[r], t);
      } else if !acting {
        assert s'.requests[r].session == Load(s.store, a.cookie, s.idleTimeout);
      }
    }
  }

  /** Tokens in use have been issued. */
  ghost predicate TokensIssued(s: State) {
    && (forall t :: t in s.store ==> t < s.next)
    && (forall r :: 0 <= r < |s.requests| && s.requests[r].session.token.Some? ==> s.requests[r].session.token.value < s.next)
  }

  ghost predicate HeldIssued(h: Held) {
    && (forall t :: t in h.store ==> t < h.next)
    && (h.session.token.Some? ==> h.session.token.value < h.next)
  }

  lemma HeldStaysIssued(h: Held, identity: Identity, key: string, value: string, answer: Answer, storeOk: bool)
    requires HeldIssued(h)
    ensures HeldIssued(Resolve(h, answer, storeOk).0) && Resolve(h, answer, storeOk).0.next >= h.next
    ensures HeldIssued(SignIn(h, identity, storeOk)) && SignIn(h, identity, storeOk).next >= h.next
    ensures HeldIssued(Destroy(h, storeOk)) && Destroy(h, storeOk).next >= h.next
    ensures HeldIssued(Put(h, key, value)) && HeldIssued(Remove(h, key))
    ensures HeldIssued(Save(h, storeOk)) && Save(h, storeOk).next >= h.next
  {
  }

  lemma WithHeldIssued(s: State, r: nat, h: Held)
    requires TokensIssued(s) && r < |s.requests| && HeldIssued(h) && h.next >= s.next
    ensures TokensIssued(WithHeld(s, r, h))
  {
    var s' := WithHeld(s, r, h);
    assert forall q :: 0 <= q < |s.requests| && q != r ==> s'.requests[q] == s.requests[q];
  }

  lemma AuthenticateKeepsIssued(s: State, r: nat, answer: Answer, storeOk: bool)
    requires TokensIssued(s) && r < |s.requests|
    ensures TokensIssued(Authenticated(s, r, answer, storeOk))
  {
    var h := HeldBy(s, r);
    HeldStaysIssued(h, Identity("", ""), "", "", answer, storeOk);
    WithHeldIssued(s, r, Resolve(h, answer, storeOk).0);
  }

  lemma HandlerKeepsIssued(s: State, a: Action)
    requires Allowed(s, a) && TokensIssued(s)
    requires a.HandlerSignIn? || a.HandlerSignOut? || a.HandlerPut? || a.HandlerRemove?
    ensures TokensIssued(Effect(s, a))
  {
    var r := a.request;
    var h := HeldBy(s, r);
    match a
    case HandlerSignIn(_, credentials, storeOk) =>
      HeldStaysIssued(h, credentials.identity, "", "", Failure, storeOk);
      WithHeldIssued(s, r, SignIn(h, credentials.identity, storeOk));
    case HandlerSignOut(_, storeOk) =>
      HeldStaysIssued(h, Identity("", ""), "", "", Failure, storeOk);
      WithHeldIssued(s, r, Destroy(h, storeOk));
    case HandlerPut(_, key, value) =>
      HeldStaysIssued(h, Identity("", ""), key, value, Failure, true);
      WithHeldIssued(s, r, Put(h, key, value));
    case HandlerRemove(_, key) =>
      HeldStaysIssued(h, Identity("", ""), key, "", Failure, true);
      WithHeldIssued(s, r, Remove(h, key));
  }

  lemma EndKeepsIssued(s: State, r: nat, storeOk: bool)
    requires Allowed(s, End(r, storeOk)) && TokensIssued(s)
    ensures TokensIssued(Effect(s, End(r, storeOk)))
  {
    var h := HeldBy(s, r);
    HeldStaysIssued(h, Identity("", ""), "", "", Failure, storeOk);
    WithHeldIssued(s, r, Save(h, storeOk));
  }

  lemma StepKeepsTokensIssued(s: State, s': State)
    requires Step(s, s') && TokensIssued(s)
    ensures TokensIssued(s')
  {
    var a: Action :| Allowed(s, a) && s' == Next(s, a);
    if a.Begin? {
      assert forall r :: 0 <= r < |s'.requests| ==> r < |s.requests| || s'.requests[r].session == Load(s.store, a.cookie, s.idleTimeout);
    } else if a.Authenticate? {
      AuthenticateKeepsIssued(s, a.request, a.answer, a.storeOk);
    } else if a.End? {
      EndKeepsIssued(s, a.request, a.storeOk);
    } else if !a.VerifyCredentials? && !a.Rotate? && !a.SetEnabled? && !a.Expire? {
      HandlerKeepsIssued(s, a);
    }
  }

  lemma {:induction false} RunKeepsTokensIssued(run: seq<State>, accounts: map<Subject, Account>, idleTimeout: bool, i: nat)
    requires IsRun(run, accounts, idleTimeout) && i < |run|
    ensures TokensIssued(run[i])
  {
    if i > 0 {
      RunKeepsTokensIssued(run, accounts, idleTimeout, i - 1);
      assert Step(run[i - 1], run[i]);
      StepKeepsTokensIssued(run[i - 1], run[i]);
    }
  }


  // ------------------------------------------------------- other people's sessions

  /** The action is about the session of `t` itself. */
  predicate Touches(s: State, a: Action, t: Token) {
    a == Expire(t) || (ByRequest(a) && a.request < |s.requests| && s.requests[a.request].session.token == Some(t))
  }

  /** No action deletes, changes or creates the stored session of a token that it is not about. */
  lemma OtherSessionsKept(s: State, a: Action, t: Token)
    requires Allowed(s, a) && TokensIssued(s) && t < s.next && !Touches(s, a, t)
    ensures SameStored(s.store, Next(s, a).store, t) && s.next <= Next(s, a).next
  {
    if ByRequest(a) {
      var h := HeldBy(s, a.request);
      match a
      case Authenticate(_, answer, storeOk) => OthersStayStored(h, t, Identity("", ""), "", "", answer, storeOk);
      case HandlerSignIn(_, credentials, storeOk) => OthersStayStored(h, t, credentials.identity, "", "", Failure, storeOk);
      case HandlerSignOut(_, storeOk) => OthersStayStored(h, t, Identity("", ""), "", "", Failure, storeOk);
      case HandlerPut(_, key, value) => OthersStayStored(h, t, Identity("", ""), key, value, Failure, true);
      case HandlerRemove(_, key) => OthersStayStored(h, t, Identity("", ""), key, "", Failure, true);
      case End(_, storeOk) => OthersStayStored(h, t, Identity("", ""), "", "", Failure, storeOk);
    }
  }

  /** From `from` on the run performs exactly these actions. */
  ghost predicate Traces(run: seq<State>, from: nat, actions: seq<Action>) {
    && |run| == from + |actions| + 1
    && forall i :: 0 <= i < |actions| ==> Allowed(run[from + i], actions[i]) && run[from + i + 1] == Next(run[from + i], actions[i])
  }

  /** No action of the first `n` is about the session of `t`. */
  ghost predicate Untouched(run: seq<State>, from: nat, actions: seq<Action>, n: nat, t: Token)
    requires |run| == from + |actions| + 1
  {
    forall i :: 0 <= i < n && i < |actions| ==> !Touches(run[from + i], actions[i], t)
  }

  lemma StillSameStored(store: map<Token, Values>, s: State, a: Action, s': State, t: Token)
    requires Allowed(s, a) && s' == Next(s, a) && TokensIssued(s) && t < s.next && !Touches(s, a, t)
    requires SameStored(store, s.store, t)
    ensures SameStored(store, s'.store, t) && s.next <= s'.next
  {
    OtherSessionsKept(s, a, t);
  }

  /** So a session stays as it is stored, whatever happens to others. */
  lemma {:induction false} UntouchedStays(run: seq<State>, accounts: map<Subject, Account>, idleTimeout: bool,
                                          from: nat, actions: seq<Action>, n: nat, t: Token)
    requires IsRun(run, accounts, idleTimeout) && Traces(run, from, actions) && n <= |actions|
    requires t < run[from].next && Untouched(run, from, actions, n, t)
    ensures SameStored(run[from].store, run[from + n].store, t) && run[from].next <= run[from + n].next
  {
    if n > 0 {
      var m := n - 1;
      UntouchedStays(run, accounts, idleTimeout, from, actions, m, t);
      RunKeepsTokensIssued(run, accounts, idleTimeout, from + m);
      assert !Touches(run[from + m], actions[m], t) && run[from + m + 1] == Next(run[from + m], actions[m]);
      StillSameStored(run[from].store, run[from + m], actions[m], run[from + m + 1], t);
    }
  }

  // ------------------------------------------------------- sign-out is final, or not

  ghost predicate Continues(later: seq<State>, s: State) {
    && |later| > 0 && later[0] == s
    && forall i :: 0 < i < |later| ==> Step(later[i - 1], later[i])
  }

  /** Some continuation of `s` stores a session under `t` again. */
  ghost predicate ComesBack(s: State, t: Token) {
    exists later: seq<State>, j: nat :: Continues(later, s) && j < |later| && t in later[j].store
  }

  /** A token that is gone never comes back, whatever happens. */
  lemma {:induction false} GoneForever(later: seq<State>, s: State, j: nat, t: Token)
    requires Inv(s) && Gone(s, t) && Continues(later, s) && j < |later|
    ensures Inv(later[j]) && Gone(later[j], t)
  {
    if j > 0 {
      GoneForever(later, s, j - 1, t);
      assert Step(later[j - 1], later[j]);
      StepKeepsInv(later[j - 1], later[j]);
      StepKeepsGone(later[j - 1], later[j], t);
    }
  }

  lemma OneStepEarlier(s: State, a: Action, t: Token)
    requires Allowed(s, a) && ComesBack(Next(s, a), t)
    ensures ComesBack(s, t)
  {
    var later: seq<State>, j: nat :| Continues(later, Next(s, a)) && j < |later| && t in later[j].store;
    var longer := [s] + later;
    forall i | 0 < i < |longer| ensures Step(longer[i - 1], longer[i]) {
      assert i > 1 ==> longer[i - 1] == later[i - 2];
    }
    assert Continues(longer, s) && t in longer[j + 1].store;
  }

  /** A changed session is written back when its request ends. */
  lemma ChangedComesBack(s: State, q: nat, t: Token)
    requires InPhase(s, q, Handling) || InPhase(s, q, Closing)
    requires s.requests[q].session.token == Some(t) && s.requests[q].session.status.Modified?
    ensures Next(s, End(q, true)).store == s.store[t := s.requests[q].session.values]
    ensures ComesBack(s, t)
  {
    var ended := Next(s, End(q, true));
    assert Continues([ended], ended) && t in [ended][0].store;
    OneStepEarlier(s, End(q, true), t);
  }

  /** A running handler can change its session. */
  lemma HandlingComesBack(s: State, q: nat, t: Token)
    requires InPhase(s, q, Handling) && s.requests[q].session.token == Some(t)
    ensures ComesBack(s, t)
  {
    ChangedComesBack(Next(s, HandlerPut(q, "", "")), q, t);
    OneStepEarlier(s, HandlerPut(q, "", ""), t);
  }

  /** A session of its subject's current version passes the middleware once the account is enabled. */
  lemma CurrentComesBack(s: State, q: nat, t: Token)
    requires InPhase(s, q, Loaded) && s.requests[q].session.token == Some(t)
    requires Get(s.requests[q].session.values, SUBJECT_KEY) != "" && MayPass(s, s.requests[q].session.values)
    ensures ComesBack(s, t)
  {
    var values := s.requests[q].session.values;
    var subject, version := Get(values, SUBJECT_KEY), Get(values, VERSION_KEY);
    var enabled := Next(s, SetEnabled(subject, true));
    var passed := Next(enabled, Authenticate(q, Principal(subject, version), true));
    HandlingComesBack(passed, q, t);
    OneStepEarlier(enabled, Authenticate(q, Principal(subject, version), true), t);
    OneStepEarlier(s, SetEnabled(subject, true), t);
  }

  lemma MaySaveComesBack(s: State, q: nat, t: Token)
    requires q < |s.requests| && MaySave(s, s.requests[q], t)
    ensures ComesBack(s, t)
  {
    if s.requests[q].phase.Handling? {
      HandlingComesBack(s, q, t);
    } else if s.requests[q].phase.Closing? {
      ChangedComesBack(s, q, t);
    } else if Get(s.requests[q].session.values, SUBJECT_KEY) == "" || s.requests[q].session.status.Modified? {
      var resolved := Next(s, Authenticate(q, Failure, false));
      if InPhase(resolved, q, Handling) {
        HandlingComesBack(resolved, q, t);
      } else {
        ChangedComesBack(resolved, q, t);
      }
      OneStepEarlier(s, Authenticate(q, Failure, false), t);
    } else {
      CurrentComesBack(s, q, t);
    }
  }

  lemma ComesBackIff(s: State, t: Token)
    requires Inv(s) && t < s.next && t !in s.store
    ensures ComesBack(s, t) <==> !NobodySaves(s, t)
  {
    if NobodySaves(s, t) {
      forall later: seq<State>, j: nat | Continues(later, s) && j < |later| ensures t !in later[j].store {
        GoneForever(later, s, j, t);
      }
    } else {
      var q :| 0 <= q < |s.requests| && MaySave(s, s.requests[q], t);
      MaySaveComesBack(s, q, t);
    }
  }

  /** Another request that overlaps `r` may still write the session of `t` back. */
  ghost predicate OverlapMaySave(s: State, r: nat, t: Token) {
    exists q :: 0 <= q < |s.requests| && q != r && MaySave(s, s.requests[q], t)
  }

  lemma RetiredIff(s: State, a: Action, r: nat, t: Token)
    requires Inv(s) && TokensIssued(s) && Allowed(s, a)
    requires (a == HandlerSignOut(r, true)) || (a.HandlerSignIn? && a.request == r && SignInSucceeds(a.credentials.identity, a.storeOk))
    requires s.requests[r].session.token == Some(t)
    ensures Next(s, a).store == s.store - {t}
    ensures ComesBack(Next(s, a), t) <==> OverlapMaySave(s, r, t)
  {
    var s' := Next(s, a);
    assert Step(s, s');
    StepKeepsInv(s, s');
    forall q | 0 <= q < |s.requests| && q != r ensures MaySave(s', s'.requests[q], t) <==> MaySave(s, s.requests[q], t) {
      assert s'.requests[q] == s.requests[q];
    }
    assert !MaySave(s', s'.requests[r], t);
    ComesBackIff(s', t);
  }

  /**
   A successful sign-out deletes the session at once.  It stays deleted in every
   continuation of the run exactly when no overlapping request may still save it.
   */
  lemma SignOutIsFinalIff(run: seq<State>, accounts: map<Subject, Account>, idleTimeout: bool, i: nat, r: nat, t: Token)
    requires IsRun(run, accounts, idleTimeout) && i < |run|
    requires Allowed(run[i], HandlerSignOut(r, true)) && run[i].requests[r].session.token == Some(t)
    ensures Next(run[i], HandlerSignOut(r, true)).store == run[i].store - {t}
    ensures ComesBack(Next(run[i], HandlerSignOut(r, true)), t) <==> OverlapMaySave(run[i], r, t)
  {
    RunKeepsInv(run, accounts, idleTimeout, i);
    RunKeepsTokensIssued(run, accounts, idleTimeout, i);
    RetiredIff(run[i], HandlerSignOut(r, true), r, t);
  }

  /** A successful sign-in retires the token it replaces on the same condition. */
  lemma SignInIsFinalIff(run: seq<State>, accounts: map<Subject, Account>, idleTimeout: bool, i: nat, r: nat,
                         credentials: Verified, t: Token)
    requires IsRun(run, accounts, idleTimeout) && i < |run|
    requires Allowed(run[i], HandlerSignIn(r, credentials, true)) && SignInSucceeds(credentials.identity, true)
    requires run[i].requests[r].session.token == Some(t)
    ensures Next(run[i], HandlerSignIn(r, credentials, true)).store == run[i].store - {t}
    ensures ComesBack(Next(run[i], HandlerSignIn(r, credentials, true)), t) <==> OverlapMaySave(run[i], r, t)
  {
    RunKeepsInv(run, accounts, idleTimeout, i);
    RunKeepsTokensIssued(run, accounts, idleTimeout, i);
    RetiredIff(run[i], HandlerSignIn(r, credentials, true), r, t);
  }

  // ------------------------------------------------------- an overlap that revives

  lemma Extended(run: seq<State>, accounts: map<Subject, Account>, idleTimeout: bool, a: Action)
    requires IsRun(run, accounts, idleTimeout) && Allowed(run[|run| - 1], a)
    ensures IsRun(run + [Next(run[|run| - 1], a)], accounts, idleTimeout)
  {
    assert Step(run[|run| - 1], Next(run[|run| - 1], a));
  }

  const ANN := Identity("ann", "1")
  const ANNS_ACCOUNT: map<Subject, Account> := map["ann" := Account("1", true, 0, {"1"})]

  /** Ann's session, stored under token 0. */
  ghost predicate AnnSignedIn(s: State) {
    && s.accounts == ANNS_ACCOUNT && s.next == 1 && !s.idleTimeout && |s.requests| == 1
    && 0 in s.store && SignedInAs(s.store[0], ANN)
  }

  ghost predicate SignedInAs(values: Values, identity: Identity) {
    Get(values, SUBJECT_KEY) == identity.subject && Get(values, VERSION_KEY) == identity.version
  }

  /** Her credentials have been verified, and the handler of her first request is running. */
  ghost predicate AnnVerified(s: State) {
    && s.accounts == ANNS_ACCOUNT && s.next == 0 && !s.idleTimeout && |s.requests| == 1 && s.store == map[]
    && Verified(ANN, 0) in s.verified && InPhase(s, 0, Handling)
    && s.requests[0].session == Session(None, map[], Unmodified)
  }

  lemma VerifyExample() returns (run: seq<State>)
    ensures IsRun(run, ANNS_ACCOUNT, false) && AnnVerified(run[|run| - 1])
  {
    run := [Init(ANNS_ACCOUNT, false)];
    var s1 := Next(run[0], VerifyCredentials("ann"));
    var s2 := Next(s1, Begin(None));
    Extended(run, ANNS_ACCOUNT, false, VerifyCredentials("ann"));
    Extended(run + [s1], ANNS_ACCOUNT, false, Begin(None));
    Extended(run + [s1] + [s2], ANNS_ACCOUNT, false, Authenticate(0, Unauthenticated, true));
    run := run + [s1] + [s2] + [Next(s2, Authenticate(0, Unauthenticated, true))];
  }

  lemma AnnSignsIn(s: State)
    requires AnnVerified(s)
    ensures var signedIn := Next(s, HandlerSignIn(0, Verified(ANN, 0), true));
            Allowed(signedIn, End(0, true)) && AnnSignedIn(Next(signedIn, End(0, true)))
  {
    assert ANN.subject[0] == 'a' && SignInSucceeds(ANN, true);
    var signedIn := Next(s, HandlerSignIn(0, Verified(ANN, 0), true));
    assert signedIn.requests[0].session.token == Some(0) && SignedInAs(signedIn.requests[0].session.values, ANN);
  }

  lemma SignInExample() returns (run: seq<State>)
    ensures IsRun(run, ANNS_ACCOUNT, false) && AnnSignedIn(run[|run| - 1])
  {
    run := VerifyExample();
    var s := run[|run| - 1];
    var signedIn := Next(s, HandlerSignIn(0, Verified(ANN, 0), true));
    AnnSignsIn(s);
    Extended(run, ANNS_ACCOUNT, false, HandlerSignIn(0, Verified(ANN, 0), true));
    Extended(run + [signedIn], ANNS_ACCOUNT, false, End(0, true));
    run := run + [signedIn] + [Next(signedIn, End(0, true))];
  }

  /** Two requests of her browser overlap; the second one has put a value. */
  ghost predicate AnnOverlaps(s: State) {
    && InPhase(s, 1, Handling) && InPhase(s, 2, Handling)
    && s.requests[1].session.token == s.requests[2].session.token == Some(0)
    && s.requests[1].principal == Some(ANN)
    && s.requests[2].session.status.Modified? && SignedInAs(s.requests[2].session.values, ANN)
  }

  /** Both requests have loaded her session. */
  ghost predicate AnnLoads(s: State) {
    && s.accounts == ANNS_ACCOUNT && InPhase(s, 1, Loaded) && InPhase(s, 2, Loaded)
    && s.requests[1].session.token == s.requests[2].session.token == Some(0)
    && SignedInAs(s.requests[1].session.values, ANN) && SignedInAs(s.requests[2].session.values, ANN)
  }

  lemma LoadExample() returns (run: seq<State>)
    ensures IsRun(run, ANNS_ACCOUNT, false) && AnnLoads(run[|run| - 1])
  {
    run := SignInExample();
    var s1 := Next(run[|run| - 1], Begin(Some(0)));
    Extended(run, ANNS_ACCOUNT, false, Begin(Some(0)));
    Extended(run + [s1], ANNS_ACCOUNT, false, Begin(Some(0)));
    run := run + [s1] + [Next(s1, Begin(Some(0)))];
  }

  lemma OverlapExample() returns (run: seq<State>)
    ensures IsRun(run, ANNS_ACCOUNT, false) && AnnOverlaps(run[|run| - 1])
  {
    run := LoadExample();
    var answer := Principal("ann", "1");
    var s1 := Next(run[|run| - 1], Authenticate(1, answer, true));
    var s2 := Next(s1, Authenticate(2, answer, true));
    Extended(run, ANNS_ACCOUNT, false, Authenticate(1, answer, true));
    Extended(run + [s1], ANNS_ACCOUNT, false, Authenticate(2, answer, true));
    Extended(run + [s1] + [s2], ANNS_ACCOUNT, false, HandlerPut(2, "k", "v"));
    run := run + [s1] + [s2] + [Next(s2, HandlerPut(2, "k", "v"))];
  }

  /**
   A run in which a successful sign-out does not last: the session it deleted is stored
   again, under the same token and still signed in, when the overlapping request ends.
   */
  lemma SignOutUndone() returns (run: seq<State>)
    ensures var n := |run|;
            && n > 2 && IsRun(run, ANNS_ACCOUNT, false) && AnnOverlaps(run[n - 3])
            && run[n - 2] == Next(run[n - 3], HandlerSignOut(1, true)) && 0 !in run[n - 2].store
            && run[n - 1] == Next(run[n - 2], End(2, true)) && 0 in run[n - 1].store
            && SignedInAs(run[n - 1].store[0], ANN)
  {
    run := OverlapExample();
    var s := run[|run| - 1];
    var signedOut := Next(s, HandlerSignOut(1, true));
    Extended(run, ANNS_ACCOUNT, false, HandlerSignOut(1, true));
    Extended(run + [signedOut], ANNS_ACCOUNT, false, End(2, true));
    ChangedComesBack(signedOut, 2, 0);
    run := run + [signedOut] + [Next(signedOut, End(2, true))];
  }
}
