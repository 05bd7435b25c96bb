/**
 The sessions of SessionRuns as objects: a server that updates its store, and the session data of
 the requests it is handling, in place.
 */
module SessionServer {
  import opened Wrappers
  import opened Sessions
  import opened SessionRuns

  /** A request with the session data that its context points to. */
  class OpenRequest {
    var token: Option<Token>
    var values: Values
    var status: Status
    var phase: Phase
    var principal: Option<Identity>
    var rotatedAt: nat

    constructor (loaded: Session)
      ensures View() == Request(loaded, Loaded, None, 0)
    {
      token, values, status := loaded.token, loaded.values, loaded.status;
      phase, principal, rotatedAt := Loaded, None, 0;
    }

    function Data(): Session
      reads this
    {
      Session(token, values, status)
    }

    function View(): Request
      reads this
    {
      Request(Data(), phase, principal, rotatedAt)
    }
  }

  function Views(requests: seq<OpenRequest>): seq<Request>
    reads requests
  {
    seq(|requests|, i requires 0 <= i < |requests| reads requests => requests[i].View())
  }

  class Server {
    const idleTimeout: bool
    var clock: nat
    var accounts: map<Subject, Account>
    var verified: set<Verified>
    var signedIn: set<Verified>
    var store: map<Token, Values>
    var next: Token
    var requests: seq<OpenRequest>

    /** No two requests share their session data. */
    ghost predicate Valid()
      reads this
    {
      forall i, j :: 0 <= i < j < |requests| ==> requests[i] != requests[j]
    }

    function View(): State
      reads this, requests
    {
      State(clock, idleTimeout, accounts, verified, signedIn, store, next, Views(requests))
    }

    function With(request: OpenRequest): Held
      reads this, request
    {
      Held(store, next, request.Data())
    }

    constructor (accounts: map<Subject, Account>, idleTimeout: bool)
      ensures Valid() && View() == Init(accounts, idleTimeout) && requests == []
    {
      this.idleTimeout, this.accounts := idleTimeout, accounts;
      clock, verified, signedIn, store, next, requests := 0, {}, {}, map[], 0, [];
    }

    // ------------------------------------------------- the session manager and Sessions

    method DestroySession(request: OpenRequest, storeOk: bool) returns (ok: bool)
      modifies this`store, request
      ensures ok == storeOk && With(request) == Destroy(old(With(request)), storeOk)
      ensures request.View() == old(request.View()).(session := request.Data())
    {
      if !storeOk {
        return false;
      }
      store := Without(store, request.token);
      request.token, request.values, request.status := None, map[], Destroyed;
      ok := true;
    }

    method PutValue(request: OpenRequest, key: string, value: string)
      modifies request
      ensures With(request) == Put(old(With(request)), key, value)
      ensures request.View() == old(request.View()).(session := request.Data())
    {
      request.values := request.values[key := value];
      request.status := Modified;
    }

    method RemoveValue(request: OpenRequest, key: string)
      modifies request
      ensures With(request) == Remove(old(With(request)), key)
      ensures request.View() == old(request.View()).(session := request.Data())
    {
      if key in request.values {
        request.values := request.values - {key};
        request.status := Modified;
      }
    }

    method SignInSession(request: OpenRequest, identity: Identity, storeOk: bool) returns (ok: bool)
      modifies this`store, this`next, request
      ensures ok == SignInSucceeds(identity, storeOk)
      ensures With(request) == SignIn(old(With(request)), identity, storeOk)
      ensures request.View() == old(request.View()).(session := request.Data())
    {
      if Blank(identity.subject) || identity.version == "" || !storeOk {
        return false;
      }
      store := Without(store, request.token);
      request.token, request.status := Some(next), Modified;
      next := next + 1;
      PutValue(request, SUBJECT_KEY, identity.subject);
      PutValue(request, VERSION_KEY, identity.version);
      ok := true;
    }

    /** The handler that the middleware puts in front of the application's. */
    method ResolveSession(request: OpenRequest, answer: Answer, storeOk: bool) returns (verdict: Verdict)
      modifies this`store, request
      ensures (With(request), verdict) == Resolve(old(With(request)), answer, storeOk)
      ensures request.View() == old(request.View()).(session := request.Data())
    {
      var subject := Get(request.values, SUBJECT_KEY);
      if subject == "" {
        return Anonymous;
      }
      var version := Get(request.values, VERSION_KEY);
      var ok := true;
      if version == "" || answer.Unauthenticated? {
        ok := DestroySession(request, storeOk);
        return if ok then Anonymous else Rejected;
      }
      if answer.Failure? || answer.subject == "" || answer.subject != subject {
        return Rejected;
      }
      if answer.version == "" || answer.version != version {
        ok := DestroySession(request, storeOk);
        return if ok then Anonymous else Rejected;
      }
      verdict := Verdict.Authenticated(Identity(answer.subject, answer.version));
    }

    method SaveSession(request: OpenRequest, storeOk: bool)
      modifies this`store, this`next, request
      ensures With(request) == Save(old(With(request)), storeOk)
      ensures request.View() == old(request.View()).(session := request.Data())
    {
      if !request.status.Modified? || !storeOk {
        return;
      }
      if request.token.None? {
        request.token := Some(next);
        next := next + 1;
      }
      store := store[request.token.value := request.values];
    }

    // ------------------------------------------------------------------ steps of a run

    method Judge(request: OpenRequest, verdict: Verdict)
      modifies request
      ensures request.View() == Judged(accounts, old(request.View()), verdict)
    {
      request.phase := if verdict.Rejected? then Closing else Handling;
      request.principal := if verdict.Authenticated? then Some(verdict.identity) else None;
      if verdict.Authenticated? {
        request.rotatedAt := RotationOf(accounts, verdict.identity.subject);
      }
    }

    method AuthenticateRequest(r: nat, answer: Answer, storeOk: bool)
      requires Valid() && Allowed(View(), Authenticate(r, answer, storeOk))
      modifies this`store, requests[r]
      ensures View() == Effect(old(View()), Authenticate(r, answer, storeOk))
    {
      var request := requests[r];
      var verdict := ResolveSession(request, answer, storeOk);
      Judge(request, verdict);
      assert Views(requests) == old(Views(requests))[r := request.View()];
    }

    method HandleRequest(a: Action)
      requires a.HandlerSignIn? || a.HandlerSignOut? || a.HandlerPut? || a.HandlerRemove?
      requires Valid() && Allowed(View(), a)
      modifies this`store, this`next, this`signedIn, requests[a.request]
      ensures View() == Effect(old(View()), a)
    {
      var request := requests[a.request];
      match a {
        case HandlerSignIn(_, credentials, storeOk) =>
          var ok := SignInSession(request, credentials.identity, storeOk);
          if ok {
            signedIn := signedIn + {credentials};
          }
        case HandlerSignOut(_, storeOk) =>
          var _ := DestroySession(request, storeOk);
        case HandlerPut(_, key, value) =>
          PutValue(request, key, value);
        case HandlerRemove(_, key) =>
          RemoveValue(request, key);
      }
      assert Views(requests) == old(Views(requests))[a.request := request.View()];
    }

    method EndRequest(r: nat, storeOk: bool)
      requires Valid() && Allowed(View(), End(r, storeOk))
      modifies this`store, this`next, requests[r]
      ensures View() == Effect(old(View()), End(r, storeOk))
    {
      var request := requests[r];
      SaveSession(request, storeOk);
      request.phase := Finished;
      assert Views(requests) == old(Views(requests))[r := request.View()];
    }

    method BeginRequest(cookie: Option<Token>)
      requires Valid()
      modifies this`requests
      ensures Valid() && View() == Effect(old(View()), Begin(cookie))
      ensures |requests| == |old(requests)| + 1 && requests[..|old(requests)|] == old(requests) && fresh(requests[|old(requests)|])
    {
      var request := new OpenRequest(Load(store, cookie, idleTimeout));
      requests := requests + [request];
    }

    /** What happens outside requests. */
    method OutsideRequests(a: Action)
      requires a.VerifyCredentials? || a.Rotate? || a.SetEnabled? || a.Expire?
      requires Allowed(View(), a)
      modifies this`verified, this`accounts, this`store
      ensures View() == Effect(old(View()), a)
    {
      match a {
        case VerifyCredentials(subject) =>
          verified := verified + {Verified(Identity(subject, accounts[subject].version), clock)};
        case Rotate(subject, version) =>
          var account := accounts[subject];
          accounts := accounts[subject := Account(version, account.enabled, clock, account.used + {version})];
        case SetEnabled(subject, enabled) =>
          accounts := accounts[subject := accounts[subject].(enabled := enabled)];
        case Expire(token) =>
          store := store - {token};
      }
    }

    method Act(a: Action)
      requires Valid() && Allowed(View(), a)
      modifies this, requests
      ensures Valid() && View() == Effect(old(View()), a)
      ensures |old(requests)| <= |requests| && requests[..|old(requests)|] == old(requests)
      ensures forall i :: |old(requests)| <= i < |requests| ==> fresh(requests[i])
    {
      if a.Begin? {
        BeginRequest(a.cookie);
      } else if a.Authenticate? {
        AuthenticateRequest(a.request, a.answer, a.storeOk);
      } else if a.End? {
        EndRequest(a.request, a.storeOk);
      } else if a.HandlerSignIn? || a.HandlerSignOut? || a.HandlerPut? || a.HandlerRemove? {
        HandleRequest(a);
      } else {
        OutsideRequests(a);
      }
    }

    /** One action is one step of a run. */
    method Perform(a: Action)
      requires Valid() && Allowed(View(), a)
      modifies this, requests
      ensures Valid() && View() == Next(old(View()), a)
      ensures forall i :: 0 <= i < |requests| ==> requests[i] in old(requests) || fresh(requests[i])
    {
      Act(a);
      clock := clock + 1;
    }

    method PerformInRun(a: Action, ghost run: seq<State>, ghost initial: map<Subject, Account>) returns (ghost longer: seq<State>)
      requires Valid() && IsRun(run, initial, idleTimeout) && run[|run| - 1] == View() && Allowed(View(), a)
      modifies this, requests
      ensures Valid() && IsRun(longer, initial, idleTimeout) && longer == run + [Next(old(View()), a)] && longer[|run|] == View()
      ensures forall i :: 0 <= i < |requests| ==> requests[i] in old(requests) || fresh(requests[i])
    {
      Extended(run, initial, idleTimeout, a);
      longer := run + [Next(View(), a)];
      Perform(a);
    }

    /** Performs the action if it is allowed, and extends the run by the step. */
    method PerformIfAllowed(a: Action, ghost run: seq<State>, ghost initial: map<Subject, Account>, ghost from: nat, ghost done: seq<Action>)
      returns (ghost longer: seq<State>, ghost performed: seq<Action>)
      requires Valid() && IsRun(run, initial, idleTimeout) && run[|run| - 1] == View() && Traces(run, from, done)
      modifies this, requests
      ensures Valid() && IsRun(longer, initial, idleTimeout) && run <= longer && longer[|longer| - 1] == View()
      ensures Traces(longer, from, performed)
      ensures forall i :: 0 <= i < |requests| ==> requests[i] in old(requests) || fresh(requests[i])
    {
      longer, performed := run, done;
      if Allowed(View(), a) {
        longer := PerformInRun(a, run, initial);
        performed := done + [a];
      }
    }

    /**
     Performs actions, skipping those that are not allowed when their turn comes.  Whatever
     they are, stored pairs keep their provenance and principals are fresh.
     */
    method Execute(actions: seq<Action>, ghost run: seq<State>, ghost initial: map<Subject, Account>)
      returns (ghost longer: seq<State>, ghost performed: seq<Action>)
      requires Valid() && IsRun(run, initial, idleTimeout) && run[|run| - 1] == View()
      modifies this, requests
      ensures Valid() && IsRun(longer, initial, idleTimeout) && run <= longer && longer[|longer| - 1] == View()
      ensures Traces(longer, |run| - 1, performed)
      ensures forall t :: t in store ==> Sound(signedIn, store[t])
      ensures signedIn <= verified
      ensures forall i :: 0 <= i < |requests| ==> PrincipalOk(signedIn, requests[i].View())
    {
      longer, performed := run, [];
      for k := 0 to |actions|
        invariant Valid() && IsRun(longer, initial, idleTimeout) && run <= longer && longer[|longer| - 1] == View()
        invariant Traces(longer, |run| - 1, performed)
        invariant forall i :: 0 <= i < |requests| ==> requests[i] in old(requests) || fresh(requests[i])
      {
        longer, performed := PerformIfAllowed(actions[k], longer, initial, |run| - 1, performed);
      }
      RunKeepsInv(longer, initial, idleTimeout, |longer| - 1);
      forall i | 0 <= i < |requests| ensures PrincipalOk(signedIn, requests[i].View()) {
        assert RequestOk(signedIn, View().requests[i]);
      }
    }

    /**
     Signs a request out and goes on with any actions: unless an overlapping request could
     still save the session, it is not stored afterwards; and every other session is stored
     as before, unless it expired or a request of its own acted.
     */
    method SignOutAndExecute(r: nat, ghost t: Token, actions: seq<Action>, ghost run: seq<State>, ghost initial: map<Subject, Account>)
      returns (ghost longer: seq<State>, ghost performed: seq<Action>)
      requires Valid() && IsRun(run, initial, idleTimeout) && run[|run| - 1] == View()
      requires Allowed(View(), HandlerSignOut(r, true)) && requests[r].token == Some(t)
      modifies this, requests
      ensures Valid()
      ensures !OverlapMaySave(old(View()), r, t) ==> t !in store
      ensures run <= longer && longer[|longer| - 1] == View() && Traces(longer, |run|, performed)
      ensures forall u :: u in old(store) && u != t && Untouched(longer, |run|, performed, |performed|, u) ==>
                SameStored(old(store), store, u)
    {
      ghost var signedOut := PerformInRun(HandlerSignOut(r, true), run, initial);
      longer, performed := Execute(actions, signedOut, initial);
      AfterSignOut(run, longer, initial, idleTimeout, r, performed, t);
    }
  }

  /** What a sign-out at the end of `run` means for the stores afterwards. */
  lemma AfterSignOut(run: seq<State>, longer: seq<State>, accounts: map<Subject, Account>, idleTimeout: bool, r: nat,
                     performed: seq<Action>, t: Token)
    requires 0 < |run| && IsRun(longer, accounts, idleTimeout) && Traces(longer, |run|, performed)
    requires Allowed(run[|run| - 1], HandlerSignOut(r, true)) && run[|run| - 1].requests[r].session.token == Some(t)
    requires run + [Next(run[|run| - 1], HandlerSignOut(r, true))] <= longer
    ensures !OverlapMaySave(run[|run| - 1], r, t) ==> t !in longer[|longer| - 1].store
    ensures forall u :: u in run[|run| - 1].store && u != t && Untouched(longer, |run|, performed, |performed|, u) ==>
              SameStored(run[|run| - 1].store, longer[|longer| - 1].store, u)
  {
    var signedOut := run + [Next(run[|run| - 1], HandlerSignOut(r, true))];
    assert longer[|run| - 1] == signedOut[|run| - 1] == run[|run| - 1] && longer[|run|] == signedOut[|run|];
    SignOutLasts(longer, accounts, idleTimeout, |run|, r, t);
    OthersAfterSignOut(longer, accounts, idleTimeout, |run|, r, performed, t);
  }

  lemma SignOutLasts(run: seq<State>, accounts: map<Subject, Account>, idleTimeout: bool, n: nat, r: nat, t: Token)
    requires IsRun(run, accounts, idleTimeout) && 0 < n < |run|
    requires Allowed(run[n - 1], HandlerSignOut(r, true)) && run[n - 1].requests[r].session.token == Some(t)
    requires run[n] == Next(run[n - 1], HandlerSignOut(r, true))
    ensures !OverlapMaySave(run[n - 1], r, t) ==> t !in run[|run| - 1].store
  {
    SignOutIsFinalIff(run, accounts, idleTimeout, n - 1, r, t);
    RestContinues(run, accounts, idleTimeout, n);
    assert run[n..][|run| - 1 - n] == run[|run| - 1];
  }

  /** After the sign-out of `t` at `n - 1`, sessions that nothing touches stay as they were. */
  lemma OthersAfterSignOut(run: seq<State>, accounts: map<Subject, Account>, idleTimeout: bool, n: nat, r: nat, performed: seq<Action>,
                           t: Token)
    requires IsRun(run, accounts, idleTimeout) && 0 < n && Traces(run, n, performed)
    requires Allowed(run[n - 1], HandlerSignOut(r, true)) && run[n - 1].requests[r].session.token == Some(t)
    requires run[n] == Next(run[n - 1], HandlerSignOut(r, true))
    ensures forall u :: u in run[n - 1].store && u != t && Untouched(run, n, performed, |performed|, u) ==>
              SameStored(run[n - 1].store, run[n + |performed|].store, u)
  {
    RunKeepsTokensIssued(run, accounts, idleTimeout, n - 1);
    forall u | u in run[n - 1].store && u != t && Untouched(run, n, performed, |performed|, u)
      ensures SameStored(run[n - 1].store, run[n + |performed|].store, u) {
      UntouchedStays(run, accounts, idleTimeout, n, performed, |performed|, u);
    }
  }

  /** The rest of a run is a continuation. */
  lemma RestContinues(run: seq<State>, accounts: map<Subject, Account>, idleTimeout: bool, n: nat)
    requires IsRun(run, accounts, idleTimeout) && n < |run|
    ensures Continues(run[n..], run[n])
  {
    forall i | 0 < i < |run[n..]| ensures Step(run[n..][i - 1], run[n..][i]) {
      assert Step(run[n + i - 1], run[n + i]);
    }
  }
}
