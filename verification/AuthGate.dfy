/** Request authentication over the session table (openblade/api/routes_aml_auth.py): which
    presented credential counts, what a session that still owes MFA may do, and whose code
    a confirmation rests on. */
module AuthGate {
  import opened SessionTable
  import opened Wrappers

  /** The session cookie and bearer token of one request. */
  datatype Credentials = Credentials(cookie: Option<Token>, bearer: Option<Token>)

  datatype MfaOutcome = Unauthorized | Refused | Validated

  // ---- choosing a credential ----

  /** A lookup of `token` at `now` would return a user. */
  ghost predicate Usable(ledger: Table, token: Token, now: real, users: set<string>) {
    Alive(ledger, token, now) && ledger.sessions[token].user in users
  }

  function CookieGiven(c: Credentials): bool {
    c.cookie.Some? && c.cookie.value != ""
  }

  ghost predicate CookieWins(ledger: Table, c: Credentials, t1: real, users: set<string>) {
    CookieGiven(c) && Usable(ledger, c.cookie.value, t1, users)
  }

  /** The cookie when it is usable, and otherwise the bearer token when that is. */
  ghost function Chosen(ledger: Table, c: Credentials, t1: real, t2: real, users: set<string>): Option<Token> {
    if CookieWins(ledger, c, t1, users) then c.cookie
    else if c.bearer.Some? && Usable(ledger, c.bearer.value, t2, users) then c.bearer
    else None
  }

  /** The lookups of one selection: the bearer token is tried only when the cookie fails. */
  ghost function Selection(ledger: Table, c: Credentials, t1: real, t2: real, users: set<string>): seq<Event> {
    (if CookieGiven(c) then [Lookup(c.cookie.value, t1)] else [])
    + if c.bearer.Some? && !CookieWins(ledger, c, t1, users) then [Lookup(c.bearer.value, t2)] else []
  }

  // ---- what lookups do to the ledger ----

  /** The ledger after further events. */
  ghost function After(ledger: Table, events: seq<Event>): Table {
    if events == [] then ledger
    else LedgerStep(After(ledger, events[..|events| - 1]), events[|events| - 1])
  }

  lemma {:induction false} LedgerAfter(start: Table, before: seq<Event>, more: seq<Event>)
    ensures Ledger(start, before + more) == After(Ledger(start, before), more)
  {
    hide LedgerStep;
    if more == [] {
      assert before + more == before;
    } else {
      LedgerAfter(start, before, more[..|more| - 1]);
      assert (before + more)[..|before + more| - 1] == before + more[..|more| - 1];
    }
  }

  lemma AfterFew(ledger: Table, a: Event, b: Event)
    ensures After(ledger, [a]) == LedgerStep(ledger, a)
    ensures After(ledger, [a] + [b]) == LedgerStep(LedgerStep(ledger, a), b)
  {
    assert [a][..0] == [];
    assert ([a] + [b])[..1] == [a];
  }

  ghost predicate OnlyLookups(events: seq<Event>, from: real) {
    forall i :: 0 <= i < |events| ==> events[i].Lookup? && from <= events[i].now
  }

  /** Lookups add, remove and rename no session. */
  lemma {:induction false} LookupsKeepUsers(ledger: Table, events: seq<Event>, from: real)
    requires OnlyLookups(events, from)
    ensures var after := After(ledger, events).sessions;
      after.Keys == ledger.sessions.Keys
      && forall k :: k in after ==> after[k].user == ledger.sessions[k].user
  {
    if events != [] {
      LookupsKeepUsers(ledger, events[..|events| - 1], from);
    }
  }

  /** Lookups bring nothing dead back to life. */
  lemma {:induction false} DeadStaysDead(ledger: Table, events: seq<Event>, from: real, token: Token)
    requires OnlyLookups(events, from) && !Alive(ledger, token, from)
    ensures !Alive(After(ledger, events), token, from)
  {
    if events != [] {
      DeadStaysDead(ledger, events[..|events| - 1], from, token);
    }
  }

  /** A live session's deadline once it has been looked up at `at`. */
  function DeadlineAfter(ledger: Table, token: Token, at: real): real
    requires token in ledger.sessions
  {
    if ledger.authTtl.Some? then ledger.sessions[token].expiresAt else at + SlidingLifetime(ledger)
  }

  /** A lookup renews a live session and changes nothing else; a vain one changes nothing. */
  lemma LookupEffect(ledger: Table, token: Token, at: real)
    ensures var after := LedgerStep(ledger, Lookup(token, at));
      if Alive(ledger, token, at)
      then after == ledger.(sessions := ledger.sessions[
             token := ledger.sessions[token].(expiresAt := DeadlineAfter(ledger, token, at))])
      else after == ledger
  {
  }

  /** Trying one credential in vain changes no verdict on the other. */
  lemma FailedLookup(ledger: Table, tried: Token, t1: real, other: Token, t2: real, users: set<string>)
    requires t1 <= t2 && !Usable(ledger, tried, t1, users)
    ensures Usable(LedgerStep(ledger, Lookup(tried, t1)), other, t2, users) <==> Usable(ledger, other, t2, users)
  {
  }

  /** A token that is of no use at one moment is of none later, whatever is looked up. */
  lemma StaysUseless(
      ledger: Table, token: Token, t1: real, other: Token, at: real, later: real, users: set<string>)
    requires !Usable(ledger, token, t1, users) && t1 <= at <= later
    ensures !Usable(ledger, token, later, users)
    ensures !Usable(LedgerStep(ledger, Lookup(other, at)), token, later, users)
  {
  }

  /** The reading at which the credential that won the selection at `t1` is looked up. */
  ghost function WinningReading(
      ledger: Table, c: Credentials, t1: real, cookieAt: real, bearerAt: real, users: set<string>): real
  {
    if CookieWins(ledger, c, t1, users) then cookieAt else bearerAt
  }

  /** The ledger after a selection, by the credentials it looked up. */
  lemma SelectionTable(ledger: Table, c: Credentials, t1: real, t2: real, users: set<string>)
    ensures var after := After(ledger, Selection(ledger, c, t1, t2, users));
      var one := if CookieGiven(c) then LedgerStep(ledger, Lookup(c.cookie.value, t1)) else ledger;
      after == if c.bearer.Some? && !CookieWins(ledger, c, t1, users)
               then LedgerStep(one, Lookup(c.bearer.value, t2)) else one
  {
    hide LedgerStep, Alive;
    var cookie, bearer := if CookieGiven(c) then c.cookie.value else "", if c.bearer.Some? then c.bearer.value else "";
    AfterFew(ledger, Lookup(cookie, t1), Lookup(bearer, t2));
    AfterFew(ledger, Lookup(bearer, t2), Lookup(bearer, t2));
    assert [Lookup(cookie, t1)] + [] == [Lookup(cookie, t1)];
    assert [] + [Lookup(bearer, t2)] == [Lookup(bearer, t2)];
  }

  /** A selection renews the session it chooses. */
  lemma SelectionRenews(ledger: Table, c: Credentials, t1: real, t2: real, users: set<string>)
    requires t1 <= t2
    ensures var after := After(ledger, Selection(ledger, c, t1, t2, users));
      var chosen := Chosen(ledger, c, t1, t2, users);
      && after.authTtl == ledger.authTtl && after.timeoutMinutes == ledger.timeoutMinutes
      && (chosen.Some? ==>
            chosen.value in ledger.sessions && chosen.value in after.sessions
            && after.sessions[chosen.value] == ledger.sessions[chosen.value].(
                 expiresAt := DeadlineAfter(ledger, chosen.value, WinningReading(ledger, c, t1, t1, t2, users))))
  {
    hide LedgerStep;
    SelectionTable(ledger, c, t1, t2, users);
    var one := if CookieGiven(c) then LedgerStep(ledger, Lookup(c.cookie.value, t1)) else ledger;
    if CookieGiven(c) {
      LookupEffect(ledger, c.cookie.value, t1);
    }
    if c.bearer.Some? {
      LookupEffect(one, c.bearer.value, t2);
    }
  }

  /** A selection leaves a cookie it rejected useless. */
  lemma SelectionRejects(ledger: Table, c: Credentials, t1: real, t2: real, later: real, users: set<string>)
    requires t1 <= t2 <= later && CookieGiven(c) && !CookieWins(ledger, c, t1, users)
    ensures !Usable(After(ledger, Selection(ledger, c, t1, t2, users)), c.cookie.value, later, users)
  {
    hide LedgerStep, Alive;
    SelectionTable(ledger, c, t1, t2, users);
    var cookie, one := c.cookie.value, LedgerStep(ledger, Lookup(c.cookie.value, t1));
    StaysUseless(ledger, cookie, t1, cookie, t1, t2, users);
    StaysUseless(ledger, cookie, t1, cookie, t1, later, users);
    if c.bearer.Some? {
      StaysUseless(one, cookie, t2, c.bearer.value, t2, later, users);
    }
  }

  // ---- authenticating a request ----

  /** The lookups of one authentication: the selection, then the chosen token once more. */
  ghost function AuthLookups(
      ledger: Table, c: Credentials, t1: real, t2: real, t3: real, users: set<string>): seq<Event>
  {
    var chosen := Chosen(ledger, c, t1, t2, users);
    Selection(ledger, c, t1, t2, users) + if chosen.Some? then [Lookup(chosen.value, t3)] else []
  }

  /** The chosen token, when its session is still alive at the second lookup. */
  ghost function Authenticated(
      ledger: Table, c: Credentials, t1: real, t2: real, t3: real, users: set<string>): Option<Token>
  {
    var chosen := Chosen(ledger, c, t1, t2, users);
    if chosen.Some? && t3 < DeadlineAfter(ledger, chosen.value, WinningReading(ledger, c, t1, t1, t2, users))
    then chosen else None
  }

  ghost function Accepted(
      ledger: Table, c: Credentials, allowPending: bool,
      t1: real, t2: real, t3: real, users: set<string>): Option<Token>
  {
    var token := Authenticated(ledger, c, t1, t2, t3, users);
    if token.Some? && (allowPending || !ledger.sessions[token.value].mfaPending) then token else None
  }

  /** Authenticating renews the session once more. */
  lemma AuthenticatedRenewed(
      ledger: Table, c: Credentials, t1: real, t2: real, t3: real, users: set<string>)
    requires t1 <= t2 <= t3
    ensures var after := After(ledger, AuthLookups(ledger, c, t1, t2, t3, users));
      var token := Authenticated(ledger, c, t1, t2, t3, users);
      token.Some? ==>
        && token.value in ledger.sessions && ledger.sessions[token.value].user in users
        && token.value in after.sessions
        && after.sessions[token.value] == ledger.sessions[token.value].(
             expiresAt := DeadlineAfter(ledger, token.value, t3))
  {
    hide LedgerStep;
    var token := Authenticated(ledger, c, t1, t2, t3, users);
    if token.Some? {
      var looked := Selection(ledger, c, t1, t2, users);
      SelectionRenews(ledger, c, t1, t2, users);
      LookupEffect(After(ledger, looked), token.value, t3);
      AfterOne(ledger, looked, Lookup(token.value, t3));
    }
  }

  lemma AfterOne(ledger: Table, events: seq<Event>, e: Event)
    ensures After(ledger, events + [e]) == LedgerStep(After(ledger, events), e)
  {
    assert (events + [e])[..|events|] == events;
  }

  /** A session that `require_auth` accepts was never pending, or was confirmed since its login. */
  lemma AcceptedOwesNothing(
      start: Table, events: seq<Event>, c: Credentials, t1: real, t2: real, t3: real, users: set<string>)
    requires IsStart(start) && IsRun(events)
    ensures var token := Accepted(Ledger(start, events), c, false, t1, t2, t3, users);
      token.Some? ==> !IssuedPending(events, token.value) || ConfirmedSinceLogin(events, token.value)
  {
    hide Ledger, IsRun, IssuedPending, ConfirmedSinceLogin;
    var token := Accepted(Ledger(start, events), c, false, t1, t2, t3, users);
    if token.Some? {
      PendingMeaning(start, events, token.value);
    }
  }

  /** The token selected: the cookie when it is usable, or the bearer token when that is usable
      and no cookie was. */
  lemma ChosenExactly(ledger: Table, c: Credentials, t1: real, t2: real, users: set<string>, k: Token)
    ensures Chosen(ledger, c, t1, t2, users) == Some(k) <==>
      || (c.cookie == Some(k) && k != "" && Usable(ledger, k, t1, users))
      || (c.bearer == Some(k) && Usable(ledger, k, t2, users)
          && !(c.cookie.Some? && c.cookie.value != "" && Usable(ledger, c.cookie.value, t1, users)))
  {
  }

  /** Still alive at `t3` after a lookup at `at`, and not kept out by a pending flag. */
  ghost predicate Passes(ledger: Table, k: Token, at: real, t3: real, allowPending: bool) {
    && k in ledger.sessions
    && t3 < (if ledger.authTtl.Some? then ledger.sessions[k].expiresAt else at + 60.0 * ledger.timeoutMinutes as real)
    && (allowPending || !ledger.sessions[k].mfaPending)
  }

  /** What a request is accepted for, by its credentials and the clock alone. */
  lemma AcceptedExactly(
      ledger: Table, c: Credentials, allowPending: bool, t1: real, t2: real, t3: real, users: set<string>, k: Token)
    ensures Accepted(ledger, c, allowPending, t1, t2, t3, users) == Some(k) <==>
      || (c.cookie == Some(k) && k != "" && Usable(ledger, k, t1, users) && Passes(ledger, k, t1, t3, allowPending))
      || (c.bearer == Some(k) && Usable(ledger, k, t2, users) && Passes(ledger, k, t2, t3, allowPending)
          && !(c.cookie.Some? && c.cookie.value != "" && Usable(ledger, c.cookie.value, t1, users)))
  {
  }

  /** The request presents `k` and nothing else. */
  predicate Alone(c: Credentials, k: Token) {
    (c == Credentials(Some(k), None) && k != "") || c == Credentials(None, Some(k))
  }

  /** At one clock reading: the session lives, its user exists, it may be pending only where that is
      allowed, and the timeout does not end it as it is renewed. */
  ghost predicate Admissible(ledger: Table, k: Token, now: real, allowPending: bool, users: set<string>) {
    && k in ledger.sessions && now < ledger.sessions[k].expiresAt && ledger.sessions[k].user in users
    && (allowPending || !ledger.sessions[k].mfaPending)
    && (ledger.authTtl.Some? || ledger.timeoutMinutes > 0)
  }

  /** A request that presents one credential is accepted exactly when that one is admissible. */
  lemma AloneExactly(
      ledger: Table, c: Credentials, allowPending: bool, now: real, users: set<string>, k: Token)
    requires Alone(c, k)
    ensures Accepted(ledger, c, allowPending, now, now, now, users)
      == if Admissible(ledger, k, now, allowPending, users) then Some(k) else None
  {
    AcceptedExactly(ledger, c, allowPending, now, now, now, users, k);
  }

  method SessionToken(store: SessionStore, c: Credentials, t1: real, t2: real, users: set<string>)
      returns (token: Option<Token>)
    requires store.Valid() && NotAfter(store.events, t1) && t1 <= t2
    modifies store
    ensures store.Valid() && NotAfter(store.events, t2)
    ensures var ledger := Ledger(store.start, old(store.events));
      && token == Chosen(ledger, c, t1, t2, users)
      && store.events == old(store.events) + Selection(ledger, c, t1, t2, users)
    ensures var ledger := Ledger(store.start, old(store.events));
      forall k :: token == Some(k) <==>
        || (c.cookie == Some(k) && k != "" && Usable(ledger, k, t1, users))
        || (c.bearer == Some(k) && Usable(ledger, k, t2, users)
            && !(c.cookie.Some? && c.cookie.value != "" && Usable(ledger, c.cookie.value, t1, users)))
  {
    hide Alive, LedgerStep, Ledger, Run, IsRun, Step;
    ghost var ledger := Ledger(store.start, store.events);
    if CookieGiven(c) {
      var user := store.GetSessionUser(c.cookie.value, t1, users);
      RunLast(store.start, old(store.events), Lookup(c.cookie.value, t1));
      if user.Some? {
        return c.cookie;
      }
      if c.bearer.Some? {
        FailedLookup(ledger, c.cookie.value, t1, c.bearer.value, t2, users);
      }
    }
    token := None;
    if c.bearer.Some? {
      var user := store.GetSessionUser(c.bearer.value, t2, users);
      if user.Some? {
        token := c.bearer;
      }
    }
  }

  /** `require_auth` and, with `allowPending`, its variant for the MFA and logout routes. */
  method Authenticate(
      store: SessionStore, c: Credentials, allowPending: bool,
      t1: real, t2: real, t3: real, users: set<string>)
      returns (accepted: Option<(Token, string)>)
    requires store.Valid() && NotAfter(store.events, t1) && t1 <= t2 <= t3
    modifies store
    ensures store.Valid() && NotAfter(store.events, t3)
    ensures var ledger := Ledger(store.start, old(store.events));
      var token := Accepted(ledger, c, allowPending, t1, t2, t3, users);
      && store.events == old(store.events) + AuthLookups(ledger, c, t1, t2, t3, users)
      && accepted == if token.Some? then Some((token.value, ledger.sessions[token.value].user)) else None
    ensures t1 == t2 == t3 ==>
      forall k :: Alone(c, k) ==>
        (accepted.Some? <==> Admissible(Ledger(store.start, old(store.events)), k, t1, allowPending, users))
  {
    hide LedgerStep, Ledger, Run, IsRun, Step, ConfirmedSinceLogin, IssuedPending, Selection, After;
    ghost var before := store.events;
    ghost var ledger := Ledger(store.start, before);
    forall k | Alone(c, k)
      ensures Accepted(ledger, c, allowPending, t1, t1, t1, users).Some?
        <==> Admissible(ledger, k, t1, allowPending, users)
    {
      AloneExactly(ledger, c, allowPending, t1, users, k);
    }
    var token := SessionToken(store, c, t1, t2, users);
    ghost var middle := store.events;
    LedgerAfter(store.start, before, Selection(ledger, c, t1, t2, users));
    SelectionRenews(ledger, c, t1, t2, users);
    if token.None? {
      assert before + (Selection(ledger, c, t1, t2, users) + []) == middle;
      return None;
    }
    var user := store.GetSessionUser(token.value, t3, users);
    assert store.events == before + (Selection(ledger, c, t1, t2, users) + [Lookup(token.value, t3)]);
    if user.None? {
      return None;
    }
    var pending := store.IsSessionMfaPending(token.value);
    LedgerAfter(store.start, before, AuthLookups(ledger, c, t1, t2, t3, users));
    AuthenticatedRenewed(ledger, c, t1, t2, t3, users);
    PendingMeaning(store.start, store.events, token.value);
    if !allowPending && pending {
      return None;
    }
    accepted := Some((token.value, user.value));
  }

  // ---- confirming MFA ----

  /** One request of the run. A request that only reads its session counts as its lookups;
      `passing` are the users for whom the presented code passes. */
  datatype Request =
    | Call(event: Event)
    | Mfa(c: Credentials, users: set<string>, passing: set<string>, t1: real, t2: real, t3: real, t4: real, t5: real)

  ghost function Caller(ledger: Table, r: Request): Option<Token>
    requires r.Mfa?
  {
    Authenticated(ledger, r.c, r.t1, r.t2, r.t3, r.users)
  }

  ghost function Outcome(ledger: Table, r: Request): MfaOutcome
    requires r.Mfa?
  {
    var caller := Caller(ledger, r);
    if caller.None? then Unauthorized
    else if ledger.sessions[caller.value].user in r.passing then Validated
    else Refused
  }

  /** The ledger once the route has authenticated its caller. */
  ghost function Routed(ledger: Table, r: Request): Table
    requires r.Mfa?
  {
    After(ledger, AuthLookups(ledger, r.c, r.t1, r.t2, r.t3, r.users))
  }

  /** The token the route selects anew after the code has passed. */
  ghost function Reselected(ledger: Table, r: Request): Option<Token>
    requires r.Mfa?
  {
    Chosen(Routed(ledger, r), r.c, r.t4, r.t5, r.users)
  }

  ghost function Confirmed(ledger: Table, r: Request): Option<Token>
    requires r.Mfa?
  {
    if Outcome(ledger, r) == Validated then Reselected(ledger, r) else None
  }

  function OrEmpty(token: Option<Token>): Token {
    if token.Some? then token.value else ""
  }

  /** What a request does to the table. */
  ghost function Effects(ledger: Table, r: Request): seq<Event> {
    match r
    case Call(e) => [e]
    case Mfa(c, users, _, t1, t2, t3, t4, t5) =>
      AuthLookups(ledger, c, t1, t2, t3, users)
      + if Outcome(ledger, r) != Validated then []
        else Selection(Routed(ledger, r), c, t4, t5, users) + [ConfirmMfa(OrEmpty(Reselected(ledger, r)))]
  }

  predicate InOrder(r: Request) {
    r.Mfa? ==> r.t1 <= r.t2 <= r.t3 <= r.t4 <= r.t5
  }

  /** `validate_mfa`: the caller may still owe MFA, and a good code confirms whichever session
      the credentials select when they are selected anew. */
  method ValidateMfa(store: SessionStore, r: Request) returns (outcome: MfaOutcome)
    requires r.Mfa? && InOrder(r) && store.Valid() && NotAfter(store.events, r.t1)
    modifies store
    ensures store.Valid()
    ensures var ledger := Ledger(store.start, old(store.events));
      && outcome == Outcome(ledger, r)
      && store.events == old(store.events) + Effects(ledger, r)
  {
    hide LedgerStep, Ledger, Run, IsRun, Step, Selection, After, Chosen, AuthLookups, Authenticated;
    ghost var before := store.events;
    ghost var ledger := Ledger(store.start, before);
    ghost var lookups := AuthLookups(ledger, r.c, r.t1, r.t2, r.t3, r.users);
    var accepted := Authenticate(store, r.c, true, r.t1, r.t2, r.t3, r.users);
    LedgerAfter(store.start, before, lookups);
    if accepted.None? {
      assert lookups + [] == lookups;
      return Unauthorized;
    }
    if accepted.value.1 !in r.passing {
      assert lookups + [] == lookups;
      return Refused;
    }
    var token := SessionToken(store, r.c, r.t4, r.t5, r.users);
    store.ClearSessionMfaPending(if token.Some? then token.value else "");
    ghost var again := Selection(Routed(ledger, r), r.c, r.t4, r.t5, r.users);
    assert store.events == before + (lookups + (again + [ConfirmMfa(OrEmpty(token))]));
    outcome := Validated;
  }

  // ---- whose code a confirmation rests on ----

  /** The caller's session is still alive when its credential is selected anew: that reading is
      before the deadline which the authentication gave it. */
  ghost predicate Prompt(ledger: Table, r: Request)
    requires r.Mfa?
  {
    var caller := Caller(ledger, r);
    caller.Some? &&
    WinningReading(ledger, r.c, r.t1, r.t4, r.t5, r.users) < DeadlineAfter(ledger, caller.value, r.t3)
  }

  /** The session confirmed is the caller's own exactly when the request was prompt; otherwise it
      is that of the bearer token, offered beside the cookie that has since run out, or none. */
  lemma ConfirmedExactly(ledger: Table, r: Request)
    requires r.Mfa? && InOrder(r) && Outcome(ledger, r) == Validated
    ensures Confirmed(ledger, r) == Caller(ledger, r) <==> Prompt(ledger, r)
    ensures !Prompt(ledger, r) && Confirmed(ledger, r).Some? ==>
      CookieWins(ledger, r.c, r.t1, r.users) && Caller(ledger, r) == r.c.cookie
      && Confirmed(ledger, r) == r.c.bearer && r.c.bearer != r.c.cookie
  {
    hide LedgerStep, After, DeadlineAfter;
    AuthenticatedRenewed(ledger, r.c, r.t1, r.t2, r.t3, r.users);
    if CookieGiven(r.c) && !CookieWins(ledger, r.c, r.t1, r.users) {
      RejectedAgain(ledger, r);
    }
  }

  /** A cookie rejected by the first selection is rejected by the second. */
  lemma RejectedAgain(ledger: Table, r: Request)
    requires r.Mfa? && InOrder(r) && Outcome(ledger, r) == Validated
    requires CookieGiven(r.c) && !CookieWins(ledger, r.c, r.t1, r.users)
    ensures !CookieWins(Routed(ledger, r), r.c, r.t4, r.users)
  {
    hide LedgerStep, Alive;
    var looked := Selection(ledger, r.c, r.t1, r.t2, r.users);
    SelectionRejects(ledger, r.c, r.t1, r.t2, r.t2, r.users);
    AfterOne(ledger, looked, Lookup(Caller(ledger, r).value, r.t3));
    StaysUseless(After(ledger, looked), r.c.cookie.value, r.t2, Caller(ledger, r).value, r.t3, r.t4, r.users);
  }

  /** The code that passed was that of the confirmed session's user exactly when the request was
      prompt or both of its credentials belong to one user. */
  lemma UserCheckedExactly(ledger: Table, r: Request)
    requires r.Mfa? && InOrder(r) && Confirmed(ledger, r).Some?
    ensures var caller, confirmed := Caller(ledger, r).value, Confirmed(ledger, r).value;
      && confirmed in ledger.sessions && ledger.sessions[caller].user in r.passing
      && (ledger.sessions[confirmed].user == ledger.sessions[caller].user <==>
          || Prompt(ledger, r)
          || (r.c.bearer.Some? && r.c.bearer.value in ledger.sessions
              && ledger.sessions[r.c.bearer.value].user == ledger.sessions[caller].user))
  {
    hide DeadlineAfter, LedgerStep, After;
    AuthenticatedRenewed(ledger, r.c, r.t1, r.t2, r.t3, r.users);
    LookupsKeepUsers(ledger, AuthLookups(ledger, r.c, r.t1, r.t2, r.t3, r.users), r.t1);
    ConfirmedExactly(ledger, r);
  }

  // ---- runs of requests ----

  ghost function Served(start: Table, requests: seq<Request>): seq<Event> {
    if requests == [] then []
    else
      var before := Served(start, requests[..|requests| - 1]);
      before + Effects(Ledger(start, before), requests[|requests| - 1])
  }

  /** The ledger that request `i` finds. */
  ghost function Found(start: Table, requests: seq<Request>, i: nat): Table
    requires i <= |requests|
  {
    Ledger(start, Served(start, requests[..i]))
  }

  /** A flag is cleared by the MFA route alone, and the clock never runs back. */
  ghost predicate IsRequestRun(start: Table, requests: seq<Request>) {
    && IsStart(start) && IsRun(Served(start, requests))
    && forall i :: 0 <= i < |requests| ==>
         InOrder(requests[i]) && (requests[i].Call? ==> !requests[i].event.ConfirmMfa?)
  }

  /** Request `i` confirmed the session `token`. */
  ghost predicate Confirms(start: Table, requests: seq<Request>, token: Token, i: nat) {
    && i < |requests| && requests[i].Mfa?
    && Confirmed(Found(start, requests, i), requests[i]) == Some(token)
  }

  /** Request `i` was made with the session `token`, and the code of that session's user passed. */
  ghost predicate PassedOwnCode(start: Table, requests: seq<Request>, token: Token, i: nat) {
    && i < |requests| && requests[i].Mfa?
    && Caller(Found(start, requests, i), requests[i]) == Some(token)
    && Outcome(Found(start, requests, i), requests[i]) == Validated
  }

  ghost predicate WasPrompt(start: Table, requests: seq<Request>, i: nat) {
    i < |requests| && requests[i].Mfa? && Prompt(Found(start, requests, i), requests[i])
  }

  lemma {:induction false} LookupsConfirmNothing(before: seq<Event>, more: seq<Event>, from: real, token: Token)
    requires OnlyLookups(more, from)
    ensures ConfirmedSinceLogin(before + more, token) <==> ConfirmedSinceLogin(before, token)
  {
    if more == [] {
      assert before + more == before;
    } else {
      var init := more[..|more| - 1];
      LookupsConfirmNothing(before, init, from, token);
      assert (before + more)[..|before + more| - 1] == before + init;
    }
  }

  /** The lookups of an MFA request, before and after the code is checked. */
  lemma MfaLookups(ledger: Table, r: Request)
    requires r.Mfa? && InOrder(r)
    ensures OnlyLookups(AuthLookups(ledger, r.c, r.t1, r.t2, r.t3, r.users), r.t1)
    ensures OnlyLookups(Selection(Routed(ledger, r), r.c, r.t4, r.t5, r.users), r.t1)
  {
    hide CookieWins, Routed, Chosen;
  }

  /** A request leaves a session confirmed only if it was, or if this request confirms it. */
  lemma EffectsConfirm(before: seq<Event>, ledger: Table, r: Request, token: Token)
    requires InOrder(r) && token != "" && (r.Call? ==> !r.event.ConfirmMfa?)
    requires ConfirmedSinceLogin(before + Effects(ledger, r), token)
    ensures ConfirmedSinceLogin(before, token) || (r.Mfa? && Confirmed(ledger, r) == Some(token))
  {
    if r.Call? {
      assert (before + [r.event])[..|before|] == before;
    } else {
      hide Selection, AuthLookups, Routed, Reselected, ConfirmedSinceLogin, InOrder, Outcome;
      MfaLookups(ledger, r);
      var lookups := AuthLookups(ledger, r.c, r.t1, r.t2, r.t3, r.users);
      if Outcome(ledger, r) != Validated {
        assert lookups + [] == lookups;
        LookupsConfirmNothing(before, lookups, r.t1, token);
      } else {
        var all := lookups + Selection(Routed(ledger, r), r.c, r.t4, r.t5, r.users);
        var last := ConfirmMfa(OrEmpty(Reselected(ledger, r)));
        assert before + Effects(ledger, r) == before + all + [last];
        ConfirmedByLast(before + all, last, token);
        LookupsConfirmNothing(before, all, r.t1, token);
      }
    }
  }

  lemma ConfirmedByLast(before: seq<Event>, last: Event, token: Token)
    requires last.ConfirmMfa?
    ensures ConfirmedSinceLogin(before + [last], token) <==> last.token == token || ConfirmedSinceLogin(before, token)
  {
    assert (before + [last])[..|before|] == before;
  }

  /** Every confirmed session was confirmed by some request of the run. */
  lemma {:induction false} ConfirmationTraced(start: Table, requests: seq<Request>, token: Token) returns (i: nat)
    requires token != ""
    requires forall k :: 0 <= k < |requests| ==>
      InOrder(requests[k]) && (requests[k].Call? ==> !requests[k].event.ConfirmMfa?)
    requires ConfirmedSinceLogin(Served(start, requests), token)
    ensures Confirms(start, requests, token, i)
  {
    hide Effects, Confirmed, ConfirmedSinceLogin, InOrder, Ledger;
    if requests == [] {
      assert false by { NotConfirmed(token); }
    } else {
      var init, last := requests[..|requests| - 1], requests[|requests| - 1];
      var before := Served(start, init);
      EffectsConfirm(before, Ledger(start, before), last, token);
      if last.Mfa? && Confirmed(Ledger(start, before), last) == Some(token) {
        i := |init|;
      } else {
        i := ConfirmationTraced(start, init, token);
        assert init[..i] == requests[..i];
      }
    }
  }

  lemma NotConfirmed(token: Token)
    ensures !ConfirmedSinceLogin([], token)
  {
  }

  /** A request that confirmed a session had that session's own code checked exactly when it
      was prompt. */
  lemma OwnCodeExactly(start: Table, requests: seq<Request>, token: Token, i: nat)
    requires IsRequestRun(start, requests) && Confirms(start, requests, token, i)
    ensures PassedOwnCode(start, requests, token, i) <==> WasPrompt(start, requests, i)
  {
    hide Prompt, Caller, Reselected, Outcome, Ledger, Served;
    ConfirmedExactly(Found(start, requests, i), requests[i]);
  }

  /** In every run of requests, a session that was issued pending and that `require_auth` accepts
      was confirmed by an earlier MFA request; and one that confirmed it had its own code checked
      exactly when one that confirmed it was prompt. */
  lemma AcceptedAfterOwnCodeExactly(
      start: Table, requests: seq<Request>, token: Token,
      c: Credentials, t1: real, t2: real, t3: real, users: set<string>)
    requires IsRequestRun(start, requests) && token != ""
    requires Accepted(Ledger(start, Served(start, requests)), c, false, t1, t2, t3, users) == Some(token)
    requires IssuedPending(Served(start, requests), token)
    ensures exists i :: Confirms(start, requests, token, i)
    ensures (exists i :: Confirms(start, requests, token, i) && PassedOwnCode(start, requests, token, i)) <==>
      (exists i :: Confirms(start, requests, token, i) && WasPrompt(start, requests, i))
  {
    hide Accepted, Confirms, PassedOwnCode, WasPrompt, Ledger, Served, IssuedPending, ConfirmedSinceLogin;
    AcceptedOwesNothing(start, Served(start, requests), c, t1, t2, t3, users);
    var i := ConfirmationTraced(start, requests, token);
    forall k: nat | Confirms(start, requests, token, k)
      ensures PassedOwnCode(start, requests, token, k) <==> WasPrompt(start, requests, k)
    {
      OwnCodeExactly(start, requests, token, k);
    }
  }

  /** So no session that owes MFA is accepted before its own code was checked, in a run whose
      validated MFA requests were all prompt. */
  lemma AcceptedAfterOwnCode(
      start: Table, requests: seq<Request>, token: Token,
      c: Credentials, t1: real, t2: real, t3: real, users: set<string>)
    requires IsRequestRun(start, requests) && token != ""
    requires forall i :: Confirms(start, requests, token, i) ==> WasPrompt(start, requests, i)
    requires Accepted(Ledger(start, Served(start, requests)), c, false, t1, t2, t3, users) == Some(token)
    requires IssuedPending(Served(start, requests), token)
    ensures exists i :: PassedOwnCode(start, requests, token, i)
  {
    hide Accepted, Confirms, PassedOwnCode, WasPrompt, Ledger, Served, IssuedPending, IsRequestRun;
    AcceptedAfterOwnCodeExactly(start, requests, token, c, t1, t2, t3, users);
  }

  // ---- a request that is not prompt ----

  const START := Table(map[], 0, 30, Some(10.0))
  const USERS := {"alice", "bob"}
  const ALICE := Login("A", "alice", true, 5, 0.0)
  const BOB := Login("B", "bob", true, 5, 1.0)
  /** Alice's cookie beside Bob's token, with a code of Alice's; the cookie runs out at 10. */
  const LATE := Mfa(Credentials(Some("A"), Some("B")), USERS, {"alice"}, 9.0, 9.0, 9.0, 10.5, 10.5)

  function LoggedIn(): Table {
    Table(map["A" := Session("alice", 0.0, 10.0, true, 0), "B" := Session("bob", 1.0, 11.0, true, 1)],
          2, 30, Some(10.0))
  }

  const LOGINS := [ALICE, BOB]
  const BEFORE_CHECK := [Lookup("A", 9.0), Lookup("A", 9.0)]
  const AFTER_CHECK := [Lookup("A", 10.5), Lookup("B", 10.5)]

  lemma LoginsServed()
    ensures Served(START, [Call(ALICE), Call(BOB)]) == LOGINS
  {
    assert [Call(ALICE), Call(BOB)][..1] == [Call(ALICE)] && [Call(ALICE)][..0] == [];
    assert Served(START, [Call(ALICE)]) == [] + [ALICE] == [ALICE];
    assert [ALICE] + [BOB] == LOGINS;
  }

  lemma FirstLogin(t: Table, e: Event)
    requires e.Login? && e.cap == 5 && Live(t.sessions, e.now) == t.sessions && Own(t.sessions, e.user) == {}
    ensures LedgerStep(t, e).sessions
      == t.sessions[e.token := Session(e.user, e.now, e.now + Lifetime(t), e.pending, t.nextRank)]
    ensures LedgerStep(t, e).nextRank == t.nextRank + 1
    ensures LedgerStep(t, e).timeoutMinutes == t.timeoutMinutes && LedgerStep(t, e).authTtl == t.authTtl
  {
    assert Evicted(t.sessions, e.user, 5) == {};
  }

  lemma BothLoggedIn()
    ensures Ledger(START, LOGINS) == LoggedIn()
  {
    hide LedgerStep, Ledger;
    var one := LedgerStep(START, ALICE);
    FirstLogin(START, ALICE);
    FirstLogin(one, BOB);
    LedgerAfter(START, [], LOGINS);
    AfterFew(START, ALICE, BOB);
    assert [] + LOGINS == LOGINS == [ALICE] + [BOB];
    assert Ledger(START, []) == START by { LedgerNothing(START); }
  }

  lemma LedgerNothing(start: Table)
    ensures Ledger(start, []) == start
  {
  }

  lemma LateCaller()
    ensures Caller(LoggedIn(), LATE) == Some("A") && Outcome(LoggedIn(), LATE) == Validated
    ensures AuthLookups(LoggedIn(), LATE.c, 9.0, 9.0, 9.0, USERS) == BEFORE_CHECK
    ensures Routed(LoggedIn(), LATE) == LoggedIn()
  {
    AfterFew(LoggedIn(), Lookup("A", 9.0), Lookup("A", 9.0));
    LookupEffect(LoggedIn(), "A", 9.0);
    assert Selection(LoggedIn(), LATE.c, 9.0, 9.0, USERS) == [Lookup("A", 9.0)];
    assert [Lookup("A", 9.0)] + [Lookup("A", 9.0)] == BEFORE_CHECK;
    assert LedgerStep(LoggedIn(), Lookup("A", 9.0)).sessions == LoggedIn().sessions;
  }

  lemma LateConfirms()
    ensures Reselected(LoggedIn(), LATE) == Some("B")
    ensures Effects(LoggedIn(), LATE) == BEFORE_CHECK + (AFTER_CHECK + [ConfirmMfa("B")])
  {
    LateCaller();
    assert Selection(LoggedIn(), LATE.c, 10.5, 10.5, USERS) == AFTER_CHECK;
  }

  lemma LateLedger()
    ensures After(LoggedIn(), BEFORE_CHECK + (AFTER_CHECK + [ConfirmMfa("B")])).sessions
      == LoggedIn().sessions["B" := Session("bob", 1.0, 11.0, false, 1)]
    ensures After(LoggedIn(), BEFORE_CHECK + (AFTER_CHECK + [ConfirmMfa("B")])).authTtl == Some(10.0)
  {
    LateCaller();
    var t, lookups := LoggedIn(), BEFORE_CHECK + AFTER_CHECK;
    AfterOne(t, BEFORE_CHECK, Lookup("A", 10.5));
    AfterOne(t, BEFORE_CHECK + [Lookup("A", 10.5)], Lookup("B", 10.5));
    LookupEffect(t, "A", 10.5);
    LookupEffect(t, "B", 10.5);
    assert t.sessions["B" := t.sessions["B"].(expiresAt := 11.0)] == t.sessions;
    assert BEFORE_CHECK + [Lookup("A", 10.5)] + [Lookup("B", 10.5)] == lookups;
    AfterOne(t, lookups, ConfirmMfa("B"));
    assert lookups + [ConfirmMfa("B")] == BEFORE_CHECK + (AFTER_CHECK + [ConfirmMfa("B")]);
  }

  lemma LateServed()
    ensures var requests, events := [Call(ALICE), Call(BOB), LATE], LOGINS + Effects(LoggedIn(), LATE);
      && Served(START, requests) == events
      && Ledger(START, events) == After(LoggedIn(), Effects(LoggedIn(), LATE))
      && Found(START, requests, 2) == LoggedIn()
  {
    hide Effects, LedgerStep, After, Ledger;
    var requests := [Call(ALICE), Call(BOB), LATE];
    assert requests[..2] == [Call(ALICE), Call(BOB)];
    LoginsServed();
    BothLoggedIn();
    LedgerAfter(START, LOGINS, Effects(LoggedIn(), LATE));
  }

  lemma BobAccepted(ledger: Table)
    requires ledger.sessions == LoggedIn().sessions["B" := Session("bob", 1.0, 11.0, false, 1)]
    requires ledger.authTtl == Some(10.0)
    ensures Accepted(ledger, Credentials(Some("B"), None), false, 10.6, 10.6, 10.6, USERS) == Some("B")
  {
  }

  /** The code as it is: Alice's code confirms Bob's session, which `require_auth` then accepts
      although no code of Bob's was ever checked. */
  lemma LateRequestConfirmsAnother()
    ensures var requests := [Call(ALICE), Call(BOB), LATE];
      && IsRequestRun(START, requests)
      && IssuedPending(Served(START, requests), "B")
      && Accepted(Ledger(START, Served(START, requests)), Credentials(Some("B"), None), false,
                  10.6, 10.6, 10.6, USERS) == Some("B")
      && forall i :: !PassedOwnCode(START, requests, "B", i)
  {
    hide Effects, After, Ledger, Served, Caller, Outcome, Found, Accepted, LoggedIn, IsRun;
    LateServed();
    LateCaller();
    LateConfirms();
    LateLedger();
    var events := LOGINS + (BEFORE_CHECK + (AFTER_CHECK + [ConfirmMfa("B")]));
    LateRun(events);
    BobAccepted(Ledger(START, events));
    assert events[1] == BOB;
  }

  lemma LateRun(events: seq<Event>)
    requires events == LOGINS + (BEFORE_CHECK + (AFTER_CHECK + [ConfirmMfa("B")]))
    ensures IsRun(events)
  {
    hide IsRun, NotAfter;
    var looked := LOGINS + BEFORE_CHECK;
    LoginsRun();
    RunFrom(LOGINS, Lookup("A", 9.0), 1.0, 9.0);
    RunFrom(LOGINS + [Lookup("A", 9.0)], Lookup("A", 9.0), 9.0, 9.0);
    assert LOGINS + [Lookup("A", 9.0)] + [Lookup("A", 9.0)] == looked;
    RunFrom(looked, Lookup("A", 10.5), 9.0, 10.5);
    RunFrom(looked + [Lookup("A", 10.5)], Lookup("B", 10.5), 10.5, 10.5);
    assert looked + [Lookup("A", 10.5)] + [Lookup("B", 10.5)] == looked + AFTER_CHECK;
    RunFrom(looked + AFTER_CHECK, ConfirmMfa("B"), 10.5, 10.5);
    assert looked + AFTER_CHECK + [ConfirmMfa("B")] == events;
  }

  lemma LoginsRun()
    ensures IsRun(LOGINS) && NotAfter(LOGINS, 1.0)
  {
    RunFrom([], ALICE, 0.0, 0.0);
    RunFrom([ALICE], BOB, 0.0, 1.0);
    assert [] + [ALICE] == [ALICE] && [ALICE] + [BOB] == LOGINS;
  }

  lemma RunFrom(events: seq<Event>, e: Event, was: real, now: real)
    requires IsRun(events) && NotAfter(events, was) && was <= now
    requires IsTimed(e) ==> e.now == now
    requires e.Login? ==> !Issued(events, e.token)
    ensures IsRun(events + [e]) && NotAfter(events + [e], now)
  {
    assert (events + [e])[..|events|] == events;
  }
}
