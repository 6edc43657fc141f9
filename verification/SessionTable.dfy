/** The session table (openblade/api/aml_state.py): expired sessions are purged only when
    some call happens to purge, and a login evicts its user's oldest sessions above the cap.

    Two machines run over the same events. `Step` is the table as the code keeps it.
    `LedgerStep` is the reference: time never removes anything from it, a session is simply
    dead once its deadline has come; only clearing and eviction remove sessions. */
module SessionTable {
  import opened Names
  import opened Wrappers

  type Token = string

  /** `rank` is the session's place in the dictionary's insertion order, which is what breaks
      ties when sessions are sorted by creation time. */
  datatype Session = Session(user: string, createdAt: real, expiresAt: real, mfaPending: bool, rank: nat)

  type Sessions = map<Token, Session>

  /** `authTtl` is the fault profile's absolute lifetime in seconds, when one is set. */
  datatype Table = Table(sessions: Sessions, nextRank: nat, timeoutMinutes: int, authTtl: Option<real>)

  /** One call into the session functions, at one instant. */
  datatype Event =
    | Login(token: Token, user: string, pending: bool, cap: int, now: real)
    | Lookup(token: Token, now: real)
    | ConfirmMfa(token: Token)
    | ClearToken(token: Token)
    | ClearUser(user: string)
    | ClearAll
    | Purge(now: real)
    | SetTimeout(minutes: int, now: real)
    | SetAuthTtl(ttl: Option<real>)

  // ---- the pieces of a step ----

  function SlidingLifetime(t: Table): real {
    60.0 * t.timeoutMinutes as real
  }

  function Lifetime(t: Table): real {
    if t.authTtl.Some? then t.authTtl.value else SlidingLifetime(t)
  }

  function Live(m: Sessions, now: real): Sessions {
    map k | k in m && m[k].expiresAt > now :: m[k]
  }

  predicate Older(a: Session, b: Session) {
    a.createdAt < b.createdAt || (a.createdAt == b.createdAt && a.rank < b.rank)
  }

  function Own(m: Sessions, user: string): set<Token> {
    set k | k in m && m[k].user == user
  }

  function OlderAmong(m: Sessions, group: set<Token>, k: Token): set<Token>
    requires group <= m.Keys && k in m
  {
    set o | o in group && Older(m[o], m[k])
  }

  /** The members of `group` with fewer than `n` older members: its `n` oldest. */
  function Oldest(m: Sessions, group: set<Token>, n: int): set<Token>
    requires group <= m.Keys
  {
    set k | k in group && |OlderAmong(m, group, k)| < n
  }

  /** The sessions a login of `user` pushes out, given the sessions alive at that moment. */
  function Evicted(m: Sessions, user: string, cap: int): set<Token> {
    Oldest(m, Own(m, user), |Own(m, user)| - cap + 1)
  }

  function Confirmed(m: Sessions, token: Token): Sessions {
    if token in m then m[token := m[token].(mfaPending := false)] else m
  }

  function WithoutUser(m: Sessions, user: string): Sessions {
    map k | k in m && m[k].user != user :: m[k]
  }

  function Issue(t: Table, m: Sessions, e: Event): Table
    requires e.Login?
  {
    var session := Session(e.user, e.now, e.now + Lifetime(t), e.pending, t.nextRank);
    t.(sessions := m[e.token := session], nextRank := t.nextRank + 1)
  }

  function Touch(t: Table, m: Sessions, e: Event): Sessions
    requires e.Lookup?
  {
    if e.token in m && m[e.token].expiresAt > e.now && t.authTtl.None?
    then m[e.token := m[e.token].(expiresAt := e.now + SlidingLifetime(t))]
    else m
  }

  // ---- the two machines ----

  function Step(t: Table, e: Event): Table {
    match e
    case Login(_, user, _, cap, now) =>
      var live := Live(t.sessions, now);
      Issue(t, live - Evicted(live, user, cap), e)
    case Lookup(_, now) => t.(sessions := Touch(t, Live(t.sessions, now), e))
    case ConfirmMfa(token) => t.(sessions := Confirmed(t.sessions, token))
    case ClearToken(token) => t.(sessions := t.sessions - {token})
    case ClearUser(user) => t.(sessions := WithoutUser(t.sessions, user))
    case ClearAll => t.(sessions := map[])
    case Purge(now) => t.(sessions := Live(t.sessions, now))
    case SetTimeout(minutes, now) => t.(timeoutMinutes := minutes, sessions := Live(t.sessions, now))
    case SetAuthTtl(ttl) => t.(authTtl := ttl)
  }

  function LedgerStep(t: Table, e: Event): Table {
    match e
    case Login(_, user, _, cap, now) =>
      Issue(t, t.sessions - Evicted(Live(t.sessions, now), user, cap), e)
    case Lookup(_, _) => t.(sessions := Touch(t, t.sessions, e))
    case ConfirmMfa(token) => t.(sessions := Confirmed(t.sessions, token))
    case ClearToken(token) => t.(sessions := t.sessions - {token})
    case ClearUser(user) => t.(sessions := WithoutUser(t.sessions, user))
    case ClearAll => t.(sessions := map[])
    case Purge(_) => t
    case SetTimeout(minutes, _) => t.(timeoutMinutes := minutes)
    case SetAuthTtl(ttl) => t.(authTtl := ttl)
  }

  function Run(start: Table, events: seq<Event>): Table {
    if events == [] then start else Step(Run(start, events[..|events| - 1]), events[|events| - 1])
  }

  function Ledger(start: Table, events: seq<Event>): Table {
    if events == [] then start else LedgerStep(Ledger(start, events[..|events| - 1]), events[|events| - 1])
  }

  // ---- runs ----

  predicate IsTimed(e: Event) {
    e.Login? || e.Lookup? || e.Purge? || e.SetTimeout?
  }

  /** No timed event in `events` is later than `now`. */
  ghost predicate NotAfter(events: seq<Event>, now: real) {
    forall e :: e in events && IsTimed(e) ==> e.now <= now
  }

  ghost predicate Issued(events: seq<Event>, token: Token) {
    exists e :: e in events && e.Login? && e.token == token
  }

  /** Timed events come in clock order, and every login draws a token never drawn before. */
  ghost predicate IsRun(events: seq<Event>) {
    events == [] ||
    var before, last := events[..|events| - 1], events[|events| - 1];
    && IsRun(before)
    && (IsTimed(last) ==> NotAfter(before, last.now))
    && (last.Login? ==> !Issued(before, last.token))
  }

  ghost predicate IsStart(t: Table) {
    t.sessions == map[] && t.nextRank == 0
  }

  lemma RunLast(start: Table, events: seq<Event>, e: Event)
    requires IsRun(events + [e])
    ensures IsRun(events)
    ensures IsTimed(e) ==> NotAfter(events, e.now)
    ensures e.Login? ==> !Issued(events, e.token)
    ensures Run(start, events + [e]) == Step(Run(start, events), e)
    ensures Ledger(start, events + [e]) == LedgerStep(Ledger(start, events), e)
  {
    assert (events + [e])[..|events|] == events;
  }

  // ---- refinement ----

  /** The table is the ledger less some sessions that were already dead at `clock`. */
  ghost predicate Agrees(t: Table, ledger: Table, clock: real) {
    && t.nextRank == ledger.nextRank
    && t.timeoutMinutes == ledger.timeoutMinutes
    && t.authTtl == ledger.authTtl
    && (forall k :: k in t.sessions ==> k in ledger.sessions && t.sessions[k] == ledger.sessions[k])
    && (forall k :: k in ledger.sessions && ledger.sessions[k].expiresAt > clock ==> k in t.sessions)
  }

  /** When they agree, the same sessions are alive in both from then on. */
  lemma SameLive(t: Table, ledger: Table, clock: real, now: real)
    requires Agrees(t, ledger, clock) && clock <= now
    ensures Live(t.sessions, now) == Live(ledger.sessions, now)
  {
  }

  /** The sessions of a table carry distinct insertion ranks below the next one. */
  ghost predicate Ranked(t: Table) {
    && (forall k :: k in t.sessions ==> t.sessions[k].rank < t.nextRank)
    && (forall j, k :: j in t.sessions && k in t.sessions && j != k ==> t.sessions[j].rank != t.sessions[k].rank)
  }

  ghost predicate KeysIssued(t: Table, events: seq<Event>) {
    forall k :: k in t.sessions ==> Issued(events, k)
  }

  lemma StepAgrees(t: Table, ledger: Table, clock: real, e: Event, now: real)
    requires Agrees(t, ledger, clock) && clock <= now
    requires IsTimed(e) ==> e.now == now
    requires e.Login? ==> e.token !in ledger.sessions
    ensures Agrees(Step(t, e), LedgerStep(ledger, e), now)
  {
    hide Evicted;
    if e.Login? {
      SameLive(t, ledger, clock, now);
    }
  }

  lemma LedgerStepRanked(ledger: Table, e: Event)
    requires Ranked(ledger) && (e.Login? ==> e.token !in ledger.sessions)
    ensures Ranked(LedgerStep(ledger, e))
    ensures forall k :: k in LedgerStep(ledger, e).sessions ==> k in ledger.sessions || (e.Login? && k == e.token)
  {
    hide Evicted, Lifetime, SlidingLifetime;
  }

  lemma {:induction false} LedgerFacts(start: Table, events: seq<Event>)
    requires IsStart(start) && IsRun(events)
    ensures Ranked(Ledger(start, events)) && KeysIssued(Ledger(start, events), events)
  {
    hide LedgerStep;
    if events != [] {
      var before, last := events[..|events| - 1], events[|events| - 1];
      LedgerFacts(start, before);
      LedgerStepRanked(Ledger(start, before), last);
      assert forall k :: Issued(before, k) ==> Issued(events, k);
      assert last in events;
    }
  }

  ghost function Clock(events: seq<Event>, floor: real): real {
    if events == [] then floor
    else if IsTimed(events[|events| - 1]) then events[|events| - 1].now
    else Clock(events[..|events| - 1], floor)
  }

  lemma {:induction false} ClockBounds(events: seq<Event>, floor: real)
    requires IsRun(events)
    ensures NotAfter(events, Clock(events, floor))
  {
    if events != [] {
      ClockBounds(events[..|events| - 1], floor);
      assert events == events[..|events| - 1] + [events[|events| - 1]];
    }
  }

  /** In every run the lazily purged table refines the ledger: at any time not before the
      last event both hold the same live sessions. */
  lemma {:induction false} Refinement(start: Table, events: seq<Event>, now: real)
    requires IsStart(start) && IsRun(events) && NotAfter(events, now)
    ensures Agrees(Run(start, events), Ledger(start, events), now)
    ensures Live(Run(start, events).sessions, now) == Live(Ledger(start, events).sessions, now)
  {
    if events != [] {
      var before, last := events[..|events| - 1], events[|events| - 1];
      var at := if IsTimed(last) then last.now else now;
      assert events == before + [last];
      assert IsTimed(last) ==> last in events;
      Refinement(start, before, at);
      LedgerFacts(start, before);
      StepAgrees(Run(start, before), Ledger(start, before), at, last, at);
    }
    SameLive(Run(start, events), Ledger(start, events), now, now);
  }

  // ---- who is alive ----

  /** Alive in the ledger: issued, neither cleared nor evicted, and before its deadline. */
  predicate Alive(ledger: Table, token: Token, now: real) {
    token in ledger.sessions && now < ledger.sessions[token].expiresAt
  }

  /** The deadline the history gives a token: its last touch plus the lifetime in force then.
      The login is a touch; so is each successful lookup, unless a fault lifetime is set. */
  ghost function Deadline(start: Table, events: seq<Event>, token: Token): real {
    if events == [] then 0.0
    else
      var before, last := events[..|events| - 1], events[|events| - 1];
      if last.Login? && last.token == token then
        last.now + Lifetime(Ledger(start, before))
      else if last.Lookup? && last.token == token && last.now < Deadline(start, before, token)
              && Ledger(start, before).authTtl.None? then
        last.now + SlidingLifetime(Ledger(start, before))
      else
        Deadline(start, before, token)
  }

  lemma {:induction false} DeadlineMeaning(start: Table, events: seq<Event>, token: Token)
    requires IsStart(start) && token in Ledger(start, events).sessions
    ensures Ledger(start, events).sessions[token].expiresAt == Deadline(start, events, token)
  {
    if events != [] {
      var before, last := events[..|events| - 1], events[|events| - 1];
      if !(last.Login? && last.token == token) {
        DeadlineMeaning(start, before, token);
      }
    }
  }

  /** The call `e`, coming when the ledger stands at `ledger`, takes `user`'s session away. */
  ghost predicate TakesAway(ledger: Table, e: Event, token: Token, user: string) {
    match e
    case ClearToken(cleared) => cleared == token
    case ClearUser(cleared) => cleared == user
    case ClearAll => true
    case Login(_, owner, _, cap, now) => token in Evicted(Live(ledger.sessions, now), owner, cap)
    case _ => false
  }

  /** Event `i` issued `token`, and nothing since has cleared or evicted it. */
  ghost predicate IssuedAndKept(start: Table, events: seq<Event>, token: Token, i: nat) {
    && i < |events| && events[i].Login? && events[i].token == token
    && forall j :: i < j < |events| ==> !TakesAway(Ledger(start, events[..j]), events[j], token, events[i].user)
  }

  lemma LedgerKeeps(ledger: Table, e: Event, token: Token, user: string, created: real)
    requires e.Login? ==> e.token != token
    requires token in ledger.sessions ==>
      ledger.sessions[token].user == user && ledger.sessions[token].createdAt == created
    ensures token in LedgerStep(ledger, e).sessions
      <==> token in ledger.sessions && !TakesAway(ledger, e, token, user)
    ensures var after := LedgerStep(ledger, e).sessions;
      token in after ==> after[token].user == user && after[token].createdAt == created
  {
    hide Live, Evicted;
  }

  lemma KeptStep(start: Table, before: seq<Event>, last: Event, token: Token, i: nat)
    requires i < |before|
    ensures IssuedAndKept(start, before + [last], token, i) <==>
      IssuedAndKept(start, before, token, i) && !TakesAway(Ledger(start, before), last, token, before[i].user)
  {
    hide Ledger, TakesAway;
    var events := before + [last];
    assert forall j :: 0 <= j < |before| ==> events[..j] == before[..j] && events[j] == before[j];
    assert events[..|before|] == before;
  }

  lemma {:induction false} LedgerMeaning(start: Table, events: seq<Event>, token: Token, i: nat)
    requires IsStart(start) && IsRun(events)
    requires i < |events| && events[i].Login? && events[i].token == token
    ensures token in Ledger(start, events).sessions <==> IssuedAndKept(start, events, token, i)
    ensures var ledger := Ledger(start, events).sessions;
      token in ledger ==> ledger[token].user == events[i].user && ledger[token].createdAt == events[i].now
  {
    hide LedgerStep, TakesAway, IsRun, Ledger;
    var before, last := events[..|events| - 1], events[|events| - 1];
    assert events == before + [last];
    RunLast(start, before, last);
    if i < |before| {
      assert before[i] in before && before[i] == events[i];
      LedgerMeaning(start, before, token, i);
      LedgerKeeps(Ledger(start, before), last, token, events[i].user, events[i].now);
      KeptStep(start, before, last, token, i);
    } else {
      JustIssued(Ledger(start, before), last);
    }
  }

  lemma JustIssued(ledger: Table, e: Event)
    requires e.Login?
    ensures var after := LedgerStep(ledger, e).sessions;
      e.token in after && after[e.token].user == e.user && after[e.token].createdAt == e.now
  {
  }

  /** In every run a lookup finds a live session exactly when some login issued the token,
      nothing since has cleared or evicted it, and the clock is strictly before the deadline
      its history gives it. */
  lemma LookupMeaning(start: Table, events: seq<Event>, token: Token, now: real)
    requires IsStart(start) && IsRun(events) && NotAfter(events, now)
    ensures token in Live(Run(start, events).sessions, now) <==>
      (exists i :: IssuedAndKept(start, events, token, i)) && now < Deadline(start, events, token)
  {
    hide IsRun, IssuedAndKept;
    Refinement(start, events, now);
    LedgerFacts(start, events);
    if token in Ledger(start, events).sessions {
      DeadlineMeaning(start, events, token);
      var e :| e in events && e.Login? && e.token == token;
      var i :| 0 <= i < |events| && events[i] == e;
      LedgerMeaning(start, events, token, i);
    }
    forall i: nat | IssuedAndKept(start, events, token, i)
      ensures token in Ledger(start, events).sessions
    {
      KeptIsIssued(start, events, token, i);
      LedgerMeaning(start, events, token, i);
    }
  }

  lemma KeptIsIssued(start: Table, events: seq<Event>, token: Token, i: nat)
    requires IssuedAndKept(start, events, token, i)
    ensures i < |events| && events[i].Login? && events[i].token == token
  {
  }

  // ---- how long a session lives, by the history alone ----

  /** The timeout last set, or the one at the start. */
  ghost predicate MinutesInForce(start: Table, events: seq<Event>, m: int) {
    || (m == start.timeoutMinutes && forall e :: e in events ==> !e.SetTimeout?)
    || exists i :: 0 <= i < |events| && events[i].SetTimeout? && events[i].minutes == m
                   && forall j :: i < j < |events| ==> !events[j].SetTimeout?
  }

  /** The fault lifetime last set, or the one at the start. */
  ghost predicate TtlInForce(start: Table, events: seq<Event>, ttl: Option<real>) {
    || (ttl == start.authTtl && forall e :: e in events ==> !e.SetAuthTtl?)
    || exists i :: 0 <= i < |events| && events[i].SetAuthTtl? && events[i].ttl == ttl
                   && forall j :: i < j < |events| ==> !events[j].SetAuthTtl?
  }

  lemma MinutesStep(start: Table, before: seq<Event>, last: Event, m: int)
    ensures MinutesInForce(start, before + [last], m) <==>
      if last.SetTimeout? then m == last.minutes else MinutesInForce(start, before, m)
  {
    var events := before + [last];
    assert events[|before|] == last;
    assert forall i :: 0 <= i < |before| ==> events[i] == before[i];
    assert forall e :: e in events <==> e in before || e == last;
  }

  lemma TtlStep(start: Table, before: seq<Event>, last: Event, ttl: Option<real>)
    ensures TtlInForce(start, before + [last], ttl) <==>
      if last.SetAuthTtl? then ttl == last.ttl else TtlInForce(start, before, ttl)
  {
    var events := before + [last];
    assert events[|before|] == last;
    assert forall i :: 0 <= i < |before| ==> events[i] == before[i];
    assert forall e :: e in events <==> e in before || e == last;
  }

  /** The ledger's settings are the ones last set, and they alone are in force. */
  lemma {:induction false} SettingsMeaning(start: Table, events: seq<Event>)
    ensures forall m :: MinutesInForce(start, events, m) <==> m == Ledger(start, events).timeoutMinutes
    ensures forall ttl :: TtlInForce(start, events, ttl) <==> ttl == Ledger(start, events).authTtl
  {
    if events != [] {
      hide MinutesInForce, TtlInForce;
      var before, last := events[..|events| - 1], events[|events| - 1];
      assert events == before + [last];
      SettingsMeaning(start, before);
      forall m
        ensures MinutesInForce(start, events, m) <==> m == Ledger(start, events).timeoutMinutes
      {
        MinutesStep(start, before, last, m);
      }
      forall ttl
        ensures TtlInForce(start, events, ttl) <==> ttl == Ledger(start, events).authTtl
      {
        TtlStep(start, before, last, ttl);
      }
    }
  }

  /** `e`, coming after `before`, starts the session's time anew: the login does, and so does a
      lookup that finds it live while no fault lifetime is set. */
  ghost predicate Touches(start: Table, before: seq<Event>, e: Event, token: Token) {
    || (e.Login? && e.token == token)
    || (e.Lookup? && e.token == token && TtlInForce(start, before, None)
        && token in Live(Run(start, before).sessions, e.now))
  }

  ghost predicate IsLastTouch(start: Table, events: seq<Event>, token: Token, i: nat) {
    && i < |events|
    && Touches(start, events[..i], events[i], token)
    && forall j :: i < j < |events| ==> !Touches(start, events[..j], events[j], token)
  }

  lemma LastTouchStep(start: Table, before: seq<Event>, last: Event, token: Token, i: nat)
    requires i < |before| && !Touches(start, before, last, token)
    ensures IsLastTouch(start, before + [last], token, i) <==> IsLastTouch(start, before, token, i)
  {
    hide Touches;
    var events := before + [last];
    assert forall j :: 0 <= j < |before| ==> events[..j] == before[..j] && events[j] == before[j];
    assert events[..|before|] == before;
  }

  lemma LastTouchNow(start: Table, before: seq<Event>, last: Event, token: Token)
    requires Touches(start, before, last, token)
    ensures forall i :: IsLastTouch(start, before + [last], token, i) <==> i == |before|
  {
    hide Touches;
    var events := before + [last];
    assert events[..|before|] == before && events[|before|] == last;
  }

  /** The time left after a touch: so many minutes of sixty seconds, or the fault lifetime. */
  ghost predicate EndsAt(start: Table, events: seq<Event>, i: nat, deadline: real) {
    && i < |events| && IsTimed(events[i])
    && exists m, ttl :: MinutesInForce(start, events[..i], m) && TtlInForce(start, events[..i], ttl)
                        && deadline == events[i].now + if ttl.Some? then ttl.value else 60.0 * m as real
  }

  /** One call's effect on the deadline of a session that is there afterwards. */
  lemma TouchStep(start: Table, before: seq<Event>, e: Event, token: Token)
    requires IsStart(start) && IsRun(before + [e]) && token in Ledger(start, before + [e]).sessions
    ensures var was, now := Ledger(start, before), Ledger(start, before + [e]).sessions[token].expiresAt;
      if Touches(start, before, e, token)
      then IsTimed(e)
        && now == e.now + if was.authTtl.Some? then was.authTtl.value else 60.0 * was.timeoutMinutes as real
      else token in was.sessions && now == was.sessions[token].expiresAt
  {
    hide IsRun, Run, Ledger, TtlInForce, Evicted;
    RunLast(start, before, e);
    SettingsMeaning(start, before);
    if e.Lookup? {
      Refinement(start, before, e.now);
    }
  }

  lemma EndsAtTouch(start: Table, before: seq<Event>, e: Event)
    requires IsTimed(e)
    ensures var was := Ledger(start, before);
      forall d :: EndsAt(start, before + [e], |before|, d) <==>
        d == e.now + if was.authTtl.Some? then was.authTtl.value else 60.0 * was.timeoutMinutes as real
  {
    hide MinutesInForce, TtlInForce;
    SettingsMeaning(start, before);
    var was := Ledger(start, before);
    assert (before + [e])[..|before|] == before;
    assert MinutesInForce(start, before, was.timeoutMinutes) && TtlInForce(start, before, was.authTtl);
  }

  lemma EndsAtStep(start: Table, before: seq<Event>, e: Event, i: nat)
    requires i < |before|
    ensures forall d :: EndsAt(start, before + [e], i, d) <==> EndsAt(start, before, i, d)
  {
    hide MinutesInForce, TtlInForce;
    assert (before + [e])[..i] == before[..i];
  }

  /** A session in the ledger has a last touch, and its stored deadline is what that touch gave. */
  lemma {:induction false} LastTouchDeadline(start: Table, events: seq<Event>, token: Token) returns (i: nat)
    requires IsStart(start) && IsRun(events) && token in Ledger(start, events).sessions
    ensures IsLastTouch(start, events, token, i)
    ensures forall d :: EndsAt(start, events, i, d) <==> d == Ledger(start, events).sessions[token].expiresAt
  {
    var before, last := events[..|events| - 1], events[|events| - 1];
    hide IsRun, Ledger, Touches, IsLastTouch, EndsAt;
    assert events == before + [last];
    RunLast(start, before, last);
    TouchStep(start, before, last, token);
    if Touches(start, before, last, token) {
      i := |before|;
      LastTouchNow(start, before, last, token);
      EndsAtTouch(start, before, last);
    } else {
      i := LastTouchDeadline(start, before, token);
      LastTouchStep(start, before, last, token, i) by { LastTouchInside(start, before, token, i); }
      EndsAtStep(start, before, last, i) by { LastTouchInside(start, before, token, i); }
    }
  }

  lemma LastTouchInside(start: Table, events: seq<Event>, token: Token, i: nat)
    requires IsLastTouch(start, events, token, i)
    ensures i < |events|
    ensures forall j :: IsLastTouch(start, events, token, j) ==> j == i
  {
    hide Touches;
  }

  /** In every run a session is live exactly when a login issued it, nothing since has cleared or
      evicted it, and the clock is before the end of the time that its last touch gave it: sixty
      seconds for each minute of the timeout then set, or the fault lifetime then set. */
  lemma LiveExactly(start: Table, events: seq<Event>, token: Token, now: real)
    requires IsStart(start) && IsRun(events) && NotAfter(events, now)
    ensures token in Live(Run(start, events).sessions, now) <==>
      (exists k :: IssuedAndKept(start, events, token, k))
      && exists i, d :: IsLastTouch(start, events, token, i) && EndsAt(start, events, i, d) && now < d
    ensures Alive(Ledger(start, events), token, now) <==> token in Live(Run(start, events).sessions, now)
  {
    hide IsRun, Run, IssuedAndKept, IsLastTouch, EndsAt, Deadline, Ledger;
    LookupMeaning(start, events, token, now);
    LiveMeaning(start, events, token, now);
    if exists k :: IssuedAndKept(start, events, token, k) {
      var k :| IssuedAndKept(start, events, token, k);
      KeptIsIssued(start, events, token, k);
      LedgerMeaning(start, events, token, k);
      var i := LastTouchDeadline(start, events, token);
      LastTouchInside(start, events, token, i);
      DeadlineMeaning(start, events, token);
      if token in Ledger(start, events).sessions {
        assert EndsAt(start, events, i, Ledger(start, events).sessions[token].expiresAt);
      }
    }
  }

  lemma LiveMeaning(start: Table, events: seq<Event>, token: Token, now: real)
    requires IsStart(start) && IsRun(events) && NotAfter(events, now)
    ensures var live, ledger := Live(Run(start, events).sessions, now), Ledger(start, events);
      && (token in live <==> Alive(ledger, token, now))
      && (token in live ==> token in ledger.sessions && live[token] == ledger.sessions[token]
                            && live[token].expiresAt > now)
  {
    hide Run, Ledger, IsRun;
    Refinement(start, events, now);
  }

  // ---- eviction ----

  ghost predicate DistinctRanks(m: Sessions) {
    forall j, k :: j in m && k in m && j != k ==> m[j].rank != m[k].rank
  }

  lemma {:induction false} Newest(m: Sessions, group: set<Token>) returns (x: Token)
    requires group != {} && group <= m.Keys && DistinctRanks(m)
    ensures x in group && forall o :: o in group && o != x ==> Older(m[o], m[x])
    decreases |group|
  {
    var z :| z in group;
    var rest := group - {z};
    if rest == {} {
      assert group == {z};
      return z;
    }
    var y := Newest(m, rest);
    assert y != z && m[y].rank != m[z].rank;
    x := if Older(m[z], m[y]) then y else z;
    forall o | o in group && o != x
      ensures Older(m[o], m[x])
    {
      if o != z && o != y {
        assert o in rest && Older(m[o], m[y]);
      }
    }
  }

  /** The `n` oldest members number `n`, or all of them when there are fewer. */
  lemma {:induction false} OldestCount(m: Sessions, group: set<Token>, n: int)
    requires group <= m.Keys && DistinctRanks(m)
    ensures |Oldest(m, group, n)| == if n <= 0 then 0 else if n < |group| then n else |group|
    decreases |group|
  {
    if group == {} {
      assert Oldest(m, group, n) == {};
    } else {
      var x := Newest(m, group);
      OldestCount(m, group - {x}, n);
      OldestStep(m, group, n, x);
    }
  }

  lemma OldestStep(m: Sessions, group: set<Token>, n: int, x: Token)
    requires group <= m.Keys && x in group
    requires forall o :: o in group && o != x ==> Older(m[o], m[x])
    ensures Oldest(m, group, n) == Oldest(m, group - {x}, n) + if |group| - 1 < n then {x} else {}
  {
    var rest := group - {x};
    assert OlderAmong(m, group, x) == rest;
    forall k | k in rest
      ensures OlderAmong(m, group, k) == OlderAmong(m, rest, k)
    {
      assert !Older(m[x], m[k]);
    }
  }

  /** Every member that is picked is older than every member that is not. */
  lemma OldestAreOlder(m: Sessions, group: set<Token>, n: int, k: Token, j: Token)
    requires group <= m.Keys && DistinctRanks(m)
    requires k in Oldest(m, group, n) && j in group && j !in Oldest(m, group, n)
    ensures Older(m[k], m[j])
  {
    if !Older(m[k], m[j]) {
      assert Older(m[j], m[k]);
      assert OlderAmong(m, group, j) <= OlderAmong(m, group, k);
      SubsetSize(OlderAmong(m, group, j), OlderAmong(m, group, k));
    }
  }

  lemma {:induction false} SubsetSize<T>(a: set<T>, b: set<T>)
    requires a <= b
    ensures |a| <= |b|
  {
    assert b == a + (b - a);
  }

  lemma RunDistinctRanks(start: Table, events: seq<Event>, now: real)
    requires IsStart(start) && IsRun(events) && NotAfter(events, now)
    ensures DistinctRanks(Live(Run(start, events).sessions, now))
    ensures Live(Run(start, events).sessions, now) == Live(Ledger(start, events).sessions, now)
  {
    Refinement(start, events, now);
    LedgerFacts(start, events);
  }

  lemma EvictionEffect(m: Sessions, user: string, cap: int)
    requires DistinctRanks(m) && cap >= 1
    ensures var own, evicted := Own(m, user), Evicted(m, user, cap);
      && evicted <= own
      && |evicted| == (if |own| < cap then 0 else |own| - cap + 1)
      && |own - evicted| == |own| - |evicted|
      && forall k, j :: k in evicted && j in own - evicted ==> m[k].createdAt <= m[j].createdAt
  {
    hide OlderAmong;
    var own, evicted := Own(m, user), Evicted(m, user, cap);
    OldestCount(m, own, |own| - cap + 1);
    assert own == (own - evicted) + evicted;
    forall k, j | k in evicted && j in own - evicted
      ensures m[k].createdAt <= m[j].createdAt
    {
      OldestAreOlder(m, own, |own| - cap + 1, k, j);
    }
  }

  lemma LoginShape(t: Table, e: Event, live: Sessions, evicted: set<Token>)
    requires e.Login? && live == Live(t.sessions, e.now) && evicted == Evicted(live, e.user, e.cap)
    requires evicted <= Own(live, e.user) && e.token !in live
    ensures var after := Step(t, e).sessions;
      && after.Keys == live.Keys - evicted + {e.token}
      && live.Keys - after.Keys == evicted
      && (forall k :: k in after && k != e.token ==> after[k] == live[k])
      && after[e.token].user == e.user && after[e.token].mfaPending == e.pending
      && after[e.token].createdAt == e.now
      && Own(after, e.user) == (Own(live, e.user) - evicted) + {e.token}
  {
    hide Evicted, Lifetime;
  }

  lemma FreshToken(start: Table, events: seq<Event>, e: Event)
    requires IsStart(start) && IsRun(events) && e.Login? && !Issued(events, e.token)
    ensures e.token !in Ledger(start, events).sessions
    ensures e.token !in Live(Ledger(start, events).sessions, e.now)
    ensures e.token !in Own(Live(Ledger(start, events).sessions, e.now), e.user)
  {
    LedgerFacts(start, events);
  }

  /** What a login does to the sessions that were alive when it came: it evicts only sessions
      of its own user, as many as the cap requires, each no newer than any of that user's
      that stay; it adds its own and changes nothing else. */
  ghost predicate LoginOutcome(live: Sessions, after: Sessions, e: Event, evicted: set<Token>)
    requires e.Login?
  {
    var own := set k | k in live && live[k].user == e.user;
    && after.Keys == live.Keys - evicted + {e.token}
    && (forall k :: k in after && k != e.token ==> after[k] == live[k])
    && e.token in after && after[e.token].user == e.user && after[e.token].mfaPending == e.pending
    && after[e.token].createdAt == e.now
    && evicted <= own
    && |evicted| == (if |own| < e.cap then 0 else |own| - e.cap + 1)
    && |set k | k in after && after[k].user == e.user| == (if |own| < e.cap then |own| + 1 else e.cap)
    && forall k, j :: k in evicted && j in own - evicted ==> live[k].createdAt <= live[j].createdAt
  }

  lemma OwnMeaning(m: Sessions, user: string)
    ensures Own(m, user) == set k | k in m && m[k].user == user
  {
  }

  lemma StepOutcome(t: Table, e: Event, live: Sessions)
    requires e.Login? && e.cap >= 1 && live == Live(t.sessions, e.now)
    requires DistinctRanks(live) && e.token !in live && e.token !in Own(live, e.user)
    ensures LoginOutcome(live, Step(t, e).sessions, e, Evicted(live, e.user, e.cap))
  {
    hide Evicted, Step, Live, DistinctRanks, Own;
    var evicted := Evicted(live, e.user, e.cap);
    EvictionEffect(live, e.user, e.cap);
    LoginShape(t, e, live, evicted);
    OwnMeaning(live, e.user);
    OwnMeaning(Step(t, e).sessions, e.user);
    var stay := Own(live, e.user) - evicted;
    assert e.token !in stay;
    assert |stay + {e.token}| == |stay| + 1;
  }

  /** A login always succeeds, with that outcome for the sessions alive in the ledger. */
  lemma LoginEffect(start: Table, events: seq<Event>, e: Event)
    requires IsStart(start) && IsRun(events + [e]) && e.Login? && e.cap >= 1
    ensures var live := Live(Ledger(start, events).sessions, e.now);
      LoginOutcome(live, Run(start, events + [e]).sessions, e, Evicted(live, e.user, e.cap))
  {
    hide Step, Run, Ledger, IsRun, Live, Evicted, LoginOutcome;
    RunLast(start, events, e);
    RunDistinctRanks(start, events, e.now);
    FreshToken(start, events, e);
    StepOutcome(Run(start, events), e, Live(Ledger(start, events).sessions, e.now));
  }

  const DEFAULT_MAX_SESSIONS_PER_USER := 5

  /** The cap in force: the configured number when it parsed and is positive. */
  function MaxSessionsPerUser(configured: Option<int>): int {
    if configured.Some? && configured.value >= 1 then configured.value else DEFAULT_MAX_SESSIONS_PER_USER
  }

  lemma StepOwn(t: Table, e: Event, user: string)
    requires !(e.Login? && e.user == user)
    requires e.Login? ==> e.token !in t.sessions
    ensures |Own(Step(t, e).sessions, user)| <= |Own(t.sessions, user)|
  {
    assert Own(Step(t, e).sessions, user) <= Own(t.sessions, user);
    SubsetSize(Own(Step(t, e).sessions, user), Own(t.sessions, user));
  }

  /** Under a fixed cap no user ever holds more sessions than the cap, dead ones included. */
  lemma {:induction false} CapHolds(start: Table, events: seq<Event>, configured: Option<int>, user: string)
    requires IsStart(start) && IsRun(events)
    requires forall e :: e in events && e.Login? ==> e.cap == MaxSessionsPerUser(configured)
    ensures var sessions := Run(start, events).sessions;
      |set k | k in sessions && sessions[k].user == user|
        <= if configured.Some? && configured.value >= 1 then configured.value else 5
  {
    OwnMeaning(Run(start, events).sessions, user);
    if events == [] {
      assert Own(start.sessions, user) == {};
    } else {
      var before, last := events[..|events| - 1], events[|events| - 1];
      assert events == before + [last];
      assert last in events;
      CapHolds(start, before, configured, user);
      OwnMeaning(Run(start, before).sessions, user);
      if last.Login? && last.user == user {
        LoginEffect(start, before, last);
      } else {
        if last.Login? {
          Refinement(start, before, last.now);
          LedgerFacts(start, before);
        }
        StepOwn(Run(start, before), last, user);
      }
    }
  }

  // ---- the MFA gate ----

  ghost predicate IssuedPending(events: seq<Event>, token: Token) {
    exists e :: e in events && e.Login? && e.token == token && e.pending
  }

  /** `token` was confirmed after the login that issued it. */
  ghost predicate ConfirmedSinceLogin(events: seq<Event>, token: Token) {
    events != [] &&
    var before, last := events[..|events| - 1], events[|events| - 1];
    if last.Login? && last.token == token then false
    else last == ConfirmMfa(token) || ConfirmedSinceLogin(before, token)
  }

  /** In every run a session is pending exactly when it was issued pending and its own token
      has not been confirmed since; no other event touches the flag. */
  lemma {:induction false} PendingMeaning(start: Table, events: seq<Event>, token: Token)
    requires IsStart(start) && IsRun(events) && token in Ledger(start, events).sessions
    ensures Ledger(start, events).sessions[token].mfaPending <==>
      IssuedPending(events, token) && !ConfirmedSinceLogin(events, token)
  {
    var before, last := events[..|events| - 1], events[|events| - 1];
    assert events == before + [last];
    if last.Login? && last.token == token {
      assert forall e :: e in events && e.Login? && e.token == token ==> e == last;
    } else {
      PendingMeaning(start, before, token);
      assert IssuedPending(events, token) <==> IssuedPending(before, token);
    }
  }

  // ---- the table the code keeps ----

  /** Ascending by creation, ties broken by insertion: a stable sort of the group. */
  ghost predicate SortedGroup(m: Sessions, group: set<Token>, sorted: seq<Token>) {
    && (forall k :: k in sorted <==> k in group)
    && group <= m.Keys
    && forall i, j :: 0 <= i < j < |sorted| ==> Older(m[sorted[i]], m[sorted[j]])
  }

  /** A prefix of the sorted group holds its oldest members. */
  lemma SortedPrefix(m: Sessions, group: set<Token>, sorted: seq<Token>, n: int)
    requires SortedGroup(m, group, sorted)
    ensures var stop := if n < 0 then 0 else if n < |sorted| then n else |sorted|;
      Elements(sorted[..stop]) == Oldest(m, group, n)
    ensures |sorted| == |group|
  {
    forall i | 0 <= i < |sorted|
      ensures |OlderAmong(m, group, sorted[i])| == i
    {
      PrefixIsOlder(m, group, sorted, i);
    }
    PrefixSize(m, sorted, |sorted|);
    assert sorted[..|sorted|] == sorted;
    assert Elements(sorted) == group;
  }

  lemma PrefixIsOlder(m: Sessions, group: set<Token>, sorted: seq<Token>, i: nat)
    requires SortedGroup(m, group, sorted) && i < |sorted|
    ensures |OlderAmong(m, group, sorted[i])| == i
  {
    forall o
      ensures o in OlderAmong(m, group, sorted[i]) <==> o in sorted[..i]
    {
      if o in group {
        var j :| 0 <= j < |sorted| && sorted[j] == o;
        assert j < i ==> Older(m[sorted[j]], m[sorted[i]]);
        assert i < j ==> Older(m[sorted[i]], m[sorted[j]]);
      }
    }
    assert OlderAmong(m, group, sorted[i]) == Elements(sorted[..i]);
    PrefixSize(m, sorted, i);
  }

  lemma {:induction false} PrefixSize(m: Sessions, sorted: seq<Token>, i: nat)
    requires i <= |sorted| && Elements(sorted) <= m.Keys
    requires forall a, b :: 0 <= a < b < |sorted| ==> Older(m[sorted[a]], m[sorted[b]])
    ensures |Elements(sorted[..i])| == i
  {
    if i > 0 {
      PrefixSize(m, sorted, i - 1);
      assert sorted[..i] == sorted[..i - 1] + [sorted[i - 1]];
      assert Elements(sorted[..i]) == Elements(sorted[..i - 1]) + {sorted[i - 1]};
    }
  }

  /** `sorted(own, key=created_at)`: repeatedly takes the oldest remaining session. */
  method SortByCreation(m: Sessions, group: set<Token>) returns (sorted: seq<Token>)
    requires group <= m.Keys && DistinctRanks(m)
    ensures SortedGroup(m, group, sorted)
  {
    sorted := [];
    var rest := group;
    while rest != {}
      invariant rest <= group
      invariant forall k :: k in sorted <==> k in group - rest
      invariant Elements(sorted) <= m.Keys
      invariant forall i, j :: 0 <= i < j < |sorted| ==> Older(m[sorted[i]], m[sorted[j]])
      invariant forall i, k :: 0 <= i < |sorted| && k in rest ==> Older(m[sorted[i]], m[k])
    {
      var x :| x in rest;
      var unseen := rest - {x};
      while unseen != {}
        invariant x in rest && unseen <= rest
        invariant forall k :: k in rest - unseen && k != x ==> Older(m[x], m[k])
      {
        var y :| y in unseen;
        if Older(m[y], m[x]) {
          x := y;
        }
        unseen := unseen - {y};
      }
      sorted := sorted + [x];
      rest := rest - {x};
    }
  }

  /** Pops the user's oldest sessions until one more fits under the cap. */
  method EvictOldest(live: Sessions, user: string, cap: int) returns (kept: Sessions)
    requires DistinctRanks(live)
    ensures kept == live - Evicted(live, user, cap)
  {
    hide DistinctRanks, Oldest;
    var group := Own(live, user);
    var own := SortByCreation(live, group);
    var excess := |own| - cap + 1;
    SortedPrefix(live, group, own, excess);
    kept := live;
    var i := 0;
    while i < |own| && i < excess
      invariant 0 <= i <= |own| && (i > 0 ==> i <= excess)
      invariant kept == live - Elements(own[..i])
    {
      assert own[..i + 1] == own[..i] + [own[i]];
      kept := kept - {own[i]};
      i := i + 1;
    }
  }

  class SessionStore {
    var sessions: Sessions
    var nextRank: nat
    var timeoutMinutes: int
    var authTtl: Option<real>
    ghost const start: Table
    ghost var events: seq<Event>

    ghost function Current(): Table
      reads this
    {
      Table(sessions, nextRank, timeoutMinutes, authTtl)
    }

    ghost predicate Valid()
      reads this
    {
      IsStart(start) && IsRun(events) && Current() == Run(start, events)
    }

    /** The event may come next: the clock has not run back and a login's token is new. */
    ghost predicate CanFollow(e: Event)
      reads this
    {
      (IsTimed(e) ==> NotAfter(events, e.now)) && (e.Login? ==> !Issued(events, e.token))
    }

    constructor (timeoutMinutes: int, authTtl: Option<real>)
      ensures Valid() && events == [] && start == Table(map[], 0, timeoutMinutes, authTtl)
    {
      sessions, nextRank := map[], 0;
      this.timeoutMinutes, this.authTtl := timeoutMinutes, authTtl;
      start := Table(map[], 0, timeoutMinutes, authTtl);
      events := [];
    }

    /** Records the event the fields have just been brought up to date with. */
    ghost method Record(e: Event)
      requires IsStart(start) && IsRun(events) && CanFollow(e)
      requires Current() == Step(Run(start, events), e)
      modifies this`events
      ensures Valid() && events == old(events) + [e]
    {
      var before := events;
      events := before + [e];
      assert events[..|events| - 1] == before;
    }

    method PurgeExpiredSessions(now: real)
      requires Valid() && CanFollow(Purge(now))
      modifies this
      ensures Valid() && events == old(events) + [Purge(now)]
    {
      sessions := Live(sessions, now);
      Record(Purge(now));
    }

    method CreateSession(user: string, pending: bool, cap: int, token: Token, now: real)
      requires Valid() && CanFollow(Login(token, user, pending, cap, now))
      modifies this
      ensures Valid() && events == old(events) + [Login(token, user, pending, cap, now)]
    {
      var live := Live(sessions, now);
      RunDistinctRanks(start, events, now);
      var kept := EvictOldest(live, user, cap);
      var lifetime := if authTtl.Some? then authTtl.value else 60.0 * timeoutMinutes as real;
      sessions := kept[token := Session(user, now, now + lifetime, pending, nextRank)];
      nextRank := nextRank + 1;
      Record(Login(token, user, pending, cap, now));
    }

    /** The session's user when the session is alive and `users` still has that user. */
    method GetSessionUser(token: Token, now: real, users: set<string>) returns (user: Option<string>)
      requires Valid() && CanFollow(Lookup(token, now))
      modifies this
      ensures Valid() && events == old(events) + [Lookup(token, now)]
      ensures var ledger := Ledger(start, old(events));
        user == if Alive(ledger, token, now) && ledger.sessions[token].user in users
                then Some(ledger.sessions[token].user) else None
      ensures user.Some? ==> token in sessions
    {
      hide Alive, Live, Ledger, Run, IsRun;
      LiveMeaning(start, events, token, now);
      sessions := Live(sessions, now);
      user := None;
      if token in sessions {
        var record := sessions[token];
        if authTtl.None? {
          sessions := sessions[token := record.(expiresAt := now + 60.0 * timeoutMinutes as real)];
        }
        user := if record.user in users then Some(record.user) else None;
      }
      Record(Lookup(token, now));
    }

    /** Reads the flag without purging: it is up for a stored session exactly when that was
        issued pending and its own token has not been confirmed since. */
    method IsSessionMfaPending(token: Token) returns (pending: bool)
      requires Valid()
      ensures pending <==> token in sessions && IssuedPending(events, token) && !ConfirmedSinceLogin(events, token)
    {
      pending := token in sessions && sessions[token].mfaPending;
      ClockBounds(events, 0.0);
      Refinement(start, events, Clock(events, 0.0));
      if token in sessions {
        PendingMeaning(start, events, token);
      }
    }

    method ClearSessionMfaPending(token: Token)
      requires Valid()
      modifies this
      ensures Valid() && events == old(events) + [ConfirmMfa(token)]
    {
      if token in sessions {
        sessions := sessions[token := sessions[token].(mfaPending := false)];
      }
      Record(ConfirmMfa(token));
    }

    method ClearSession(token: Token)
      requires Valid()
      modifies this
      ensures Valid() && events == old(events) + [ClearToken(token)]
    {
      sessions := sessions - {token};
      Record(ClearToken(token));
    }

    method ClearUserSessions(user: string)
      requires Valid()
      modifies this
      ensures Valid() && events == old(events) + [ClearUser(user)]
    {
      sessions := sessions - set k | k in sessions && sessions[k].user == user;
      assert sessions == WithoutUser(old(sessions), user);
      Record(ClearUser(user));
    }

    method ClearAllSessions()
      requires Valid()
      modifies this
      ensures Valid() && events == old(events) + [ClearAll]
    {
      sessions := map[];
      Record(ClearAll);
    }

    method SetSessionTimeout(minutes: int, now: real)
      requires Valid() && CanFollow(SetTimeout(minutes, now))
      modifies this
      ensures Valid() && events == old(events) + [SetTimeout(minutes, now)]
    {
      timeoutMinutes := minutes;
      sessions := Live(sessions, now);
      Record(SetTimeout(minutes, now));
    }

    /** The fault profile's lifetime comes from the environment and may change between calls. */
    method ChangeAuthTtl(ttl: Option<real>)
      requires Valid()
      modifies this
      ensures Valid() && events == old(events) + [SetAuthTtl(ttl)]
    {
      authTtl := ttl;
      Record(SetAuthTtl(ttl));
    }
  }
}
