/**
 Server-side sessions: what the operations of `Sessions` do to one request's session data and
 to the shared store.  SessionServer performs them on objects.

 The SCS session manager is modelled by what these operations rely on: renewing and
 destroying delete the token from the store at once, everything else stays in the
 request's session data until the middleware commits it.
 */
module Sessions {
  import opened Wrappers

  type Subject = string
  type Version = string
  type Token = nat
  type Values = map<string, string>

  const SUBJECT_KEY := "outerstellar.auth.subject"
  const VERSION_KEY := "outerstellar.auth.security_version"

  datatype Identity = Identity(subject: Subject, version: Version)

  datatype Status = Unmodified | Modified | Destroyed

  datatype Session = Session(token: Option<Token>, values: Values, status: Status)

  /** The store, the next token to be generated, and the session data of one request. */
  datatype Held = Held(store: map<Token, Values>, next: Token, session: Session)

  /** What the application's PrincipalResolver returns. */
  datatype Answer = Unauthenticated | Failure | Principal(subject: Subject, version: Version)

  /** How the middleware goes on: without a principal, with one, or with an error response. */
  datatype Verdict = Anonymous | Authenticated(identity: Identity) | Rejected

  predicate IsReserved(key: string) { key == SUBJECT_KEY || key == VERSION_KEY }

  /** unicode.IsSpace. */
  predicate IsSpace(c: char) {
    || '\t' <= c <= '\r' || c == ' ' || c == '\U{85}' || c == '\U{A0}' || c == '\U{1680}' || '\U{2000}' <= c <= '\U{200A}'
    || c == '\U{2028}' || c == '\U{2029}' || c == '\U{202F}' || c == '\U{205F}' || c == '\U{3000}'
  }

  /** strings.TrimSpace leaves nothing. */
  predicate Blank(s: string) {
    forall k :: 0 <= k < |s| ==> IsSpace(s[k])
  }

  function Get(values: Values, key: string): string {
    if key in values then values[key] else ""
  }

  function Without(store: map<Token, Values>, token: Option<Token>): map<Token, Values> {
    match token
    case Some(t) => store - {t}
    case None => store
  }

  /** LoadAndSave before the handler; an idle timeout makes every loaded session be saved again. */
  function Load(store: map<Token, Values>, cookie: Option<Token>, idleTimeout: bool): Session {
    if cookie.Some? && cookie.value in store then
      Session(cookie, store[cookie.value], if idleTimeout then Modified else Unmodified)
    else
      Session(None, map[], Unmodified)
  }

  /** LoadAndSave after the handler. */
  function Save(h: Held, storeOk: bool): Held {
    if !h.session.status.Modified? || !storeOk then h
    else match h.session.token
         case Some(t) => h.(store := h.store[t := h.session.values])
         case None => h.(store := h.store[h.next := h.session.values], next := h.next + 1,
                         session := h.session.(token := Some(h.next)))
  }

  function Destroy(h: Held, storeOk: bool): Held {
    if !storeOk then h else h.(store := Without(h.store, h.session.token), session := Session(None, map[], Destroyed))
  }

  function Put(h: Held, key: string, value: string): Held {
    h.(session := h.session.(values := h.session.values[key := value], status := Modified))
  }

  function Remove(h: Held, key: string): Held {
    if key !in h.session.values then h
    else h.(session := h.session.(values := h.session.values - {key}, status := Modified))
  }

  function RenewToken(h: Held): Held {
    h.(store := Without(h.store, h.session.token), next := h.next + 1,
       session := h.session.(token := Some(h.next), status := Modified))
  }

  predicate SignInSucceeds(identity: Identity, storeOk: bool) {
    !Blank(identity.subject) && identity.version != "" && storeOk
  }

  function SignIn(h: Held, identity: Identity, storeOk: bool): Held {
    if !SignInSucceeds(identity, storeOk) then h
    else Put(Put(RenewToken(h), SUBJECT_KEY, identity.subject), VERSION_KEY, identity.version)
  }

  /** A session the middleware no longer trusts is destroyed before the handler runs. */
  function DestroyInvalid(h: Held, storeOk: bool): (Held, Verdict) {
    (Destroy(h, storeOk), if storeOk then Anonymous else Rejected)
  }

  /** The handler that `Middleware` puts in front of the application's. */
  function Resolve(h: Held, answer: Answer, storeOk: bool): (Held, Verdict) {
    var subject, version := Get(h.session.values, SUBJECT_KEY), Get(h.session.values, VERSION_KEY);
    if subject == "" then (h, Anonymous)
    else if version == "" then DestroyInvalid(h, storeOk)
    else match answer
         case Unauthenticated => DestroyInvalid(h, storeOk)
         case Failure => (h, Rejected)
         case Principal(s, v) =>
           if s == "" || s != subject then (h, Rejected)
           else if v == "" || v != version then DestroyInvalid(h, storeOk)
           else (h, Authenticated(Identity(s, v)))
  }

  /** What a verdict means for the session that was loaded. */
  lemma VerdictMeaning(h: Held, answer: Answer, storeOk: bool)
    ensures var (h', verdict) := Resolve(h, answer, storeOk);
            var subject, version := Get(h.session.values, SUBJECT_KEY), Get(h.session.values, VERSION_KEY);
            && (verdict.Authenticated? <==> subject != "" && version != "" && answer == Principal(subject, version))
            && (verdict.Authenticated? ==> verdict.identity == Identity(subject, version) && h' == h)
            && (verdict.Anonymous? ==> Get(h'.session.values, SUBJECT_KEY) == "")
            && (verdict.Anonymous? && subject != "" && h.session.token.Some? ==> h.session.token.value !in h'.store)
            && (verdict.Rejected? ==> h' == h)
            && (h'.store == h.store || (h.session.token.Some? && h'.store == h.store - {h.session.token.value}))
            && (storeOk ==> (verdict.Rejected? <==> subject != "" && version != ""
                                                    && (answer.Failure? || (answer.Principal? && answer.subject != subject))))
  {
  }

  const SPACES := "\t\n\U{0B}\U{0C}\r \U{85}\U{A0}\U{1680}\U{2000}\U{2001}\U{2002}\U{2003}\U{2004}\U{2005}\U{2006}\U{2007}\U{2008}\U{2009}\U{200A}\U{2028}\U{2029}\U{202F}\U{205F}\U{3000}"

  lemma SpacesInFull(c: char)
    ensures IsSpace(c) <==> c in SPACES
  {
  }

  /** What sign-in refuses: a subject of spaces only, an empty version, and a failing store; then nothing changes. */
  lemma SignInRefused(h: Held, identity: Identity, storeOk: bool)
    ensures !SignInSucceeds(identity, storeOk) <==>
            (forall k :: 0 <= k < |identity.subject| ==> identity.subject[k] in SPACES) || identity.version == "" || !storeOk
    ensures !SignInSucceeds(identity, storeOk) <==> SignIn(h, identity, storeOk) == h
  {
    forall c ensures IsSpace(c) <==> c in SPACES {
      SpacesInFull(c);
    }
    if SignInSucceeds(identity, storeOk) {
      assert SignIn(h, identity, storeOk).next == h.next + 1;
    }
  }

  /**
   A request that only reads a session, which somebody else deletes meanwhile, stores it again
   exactly when sessions have an idle timeout.
   */
  lemma ReaderRestores(store: map<Token, Values>, next: Token, t: Token, idleTimeout: bool)
    requires t in store
    ensures var h := Held(store - {t}, next, Load(store, Some(t), idleTimeout));
            Save(h, true).store == if idleTimeout then store else store - {t}
  {
    assert (store - {t})[t := store[t]] == store;
  }

  /** The stored session of `t` is the same, or missing in both. */
  ghost predicate SameStored(store: map<Token, Values>, store': map<Token, Values>, t: Token) {
    (t in store' <==> t in store) && (t in store ==> store'[t] == store[t])
  }

  /** No operation on one session touches the stored session of another token. */
  lemma OthersStayStored(h: Held, t: Token, identity: Identity, key: string, value: string, answer: Answer, storeOk: bool)
    requires h.session.token != Some(t) && t < h.next
    ensures SameStored(h.store, Resolve(h, answer, storeOk).0.store, t)
    ensures SameStored(h.store, SignIn(h, identity, storeOk).store, t)
    ensures SameStored(h.store, Destroy(h, storeOk).store, t)
    ensures SameStored(h.store, Put(h, key, value).store, t) && SameStored(h.store, Remove(h, key).store, t)
    ensures SameStored(h.store, Save(h, storeOk).store, t)
  {
  }

  /** A value put in one request is read in the next, until it is removed. */
  lemma PutIsReadBack(h: Held, key: string, value: string, other: string, idleTimeout: bool)
    ensures var saved := Save(Put(h, key, value), true);
            var loaded := Load(saved.store, saved.session.token, idleTimeout);
            && Get(loaded.values, other) == (if other == key then value else Get(h.session.values, other))
            && var removed := Remove(Held(saved.store, saved.next, loaded), key).session.values;
               Get(removed, other) == if other == key then "" else Get(loaded.values, other)
  {
    var put := Put(h, key, value);
    var saved := Save(put, true);
    assert saved.session.token.Some? && saved.store[saved.session.token.value] == put.session.values;
  }
}
