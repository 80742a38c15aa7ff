/** Persistent sessions: creation, validation, rotation and revocation over a store with an atomic
    compare-and-swap, in any interleaving and with lost replies. */
module Sessions {
  import opened Wrappers

  datatype Session = Session(id: string, userId: string, kind: string, createdAt: int, expiresAt: int)

  const MAX_TIME: int := 8_640_000_000_000_000
  const MAX_SAFE: int := 9_007_199_254_740_991
  const MAX_TTL: int := 400 * 24 * 60 * 60

  /** Longest Max-Age a cookie can be generated with, in seconds. */
  const MAX_COOKIE_AGE: int := 34_560_000

  /** Characters `trim` removes. */
  const BLANKS: string :=
    " \t\n\U{000B}\U{000C}\r\U{00A0}\U{1680}\U{2000}\U{2001}\U{2002}\U{2003}\U{2004}\U{2005}\U{2006}"
    + "\U{2007}\U{2008}\U{2009}\U{200A}\U{2028}\U{2029}\U{202F}\U{205F}\U{3000}\U{FEFF}"

  predicate IsBlank(s: string) {
    forall c <- s :: c in BLANKS
  }

  predicate Identifier(id: string) {
    1 <= |id| <= 191 && forall c <- id :: 'A' <= c <= 'Z' || 'a' <= c <= 'z' || '0' <= c <= '9' || c == '_' || c == '-'
  }

  /** The identifiers the manager makes: the hexadecimal text of 32 bytes. */
  predicate Hex(id: string) {
    |id| == 64 && forall c <- id :: c in "0123456789abcdef"
  }

  /** They are all usable, and nothing with another sign or length is. */
  lemma HexIsIdentifier(id: string)
    ensures Hex(id) ==> Identifier(id)
    ensures id == "" || |id| > 191 || (exists c <- id :: c in " /;,=.%") ==> !Identifier(id)
    ensures 0 < |id| < 192 && (forall c <- id :: c in "AZaz09_-") ==> Identifier(id)
  {
  }

  predicate Safe(n: int) {
    -MAX_SAFE <= n <= MAX_SAFE
  }

  /** `valid`: a stored record as a session usable now. */
  function Valid(stored: Option<Session>, id: string, now: int): Option<Session> {
    if stored.None? then None
    else
      var v := stored.value;
      if v.id != id || v.kind != "auth" || IsBlank(v.userId) || !Safe(v.createdAt) || !Safe(v.expiresAt)
         || v.createdAt < 0 || v.createdAt > now || v.expiresAt <= now || v.expiresAt > MAX_TIME
         || v.expiresAt <= v.createdAt
      then None
      else Some(v)
  }

  function Record(id: string, userId: string, now: int, ttl: int): Session {
    Session(id, userId, "auth", now, now + ttl * 1000)
  }

  /** What `clock` lets through. */
  predicate ClockAllowed(now: int, ttl: int) {
    0 <= now <= MAX_TIME - ttl * 1000
  }

  /** Seconds left, rounded up. */
  function Remaining(expiresAt: int, now: int): int {
    (expiresAt - now + 999) / 1000
  }

  /** `generateCookie` accepts the age. */
  predicate CookieTakes(maxAge: int) {
    maxAge <= MAX_COOKIE_AGE
  }

  // ---------- Time ----------

  /** The clock is let through exactly when what would be created now lies in the Date range. */
  lemma ClockExactly(id: string, userId: string, now: int, ttl: int)
    requires 1 <= ttl <= MAX_TTL
    ensures ClockAllowed(now, ttl) <==>
            var s := Record(id, userId, now, ttl);
            s.createdAt >= 0 && s.expiresAt <= 8_640_000_000_000_000
  {
  }

  /** A record made at `now` is usable exactly from then until its lifetime is over. */
  lemma ValidExactlyUntilExpiry(id: string, userId: string, now: int, ttl: int, at: int)
    requires 1 <= ttl <= MAX_TTL && ClockAllowed(now, ttl) && !IsBlank(userId)
    ensures Valid(Some(Record(id, userId, now, ttl)), id, at).Some? <==> now <= at < now + ttl * 1000
  {
  }

  /** The cookie of an issued session ends at its expiry or less than a second after; with a clock that
      does not go back everything stays within the Date range. Nothing is issued exactly when the record
      expired meanwhile. */
  lemma CookieCoversSession(id: string, userId: string, now: int, ttl: int, later: int)
    requires 1 <= ttl <= MAX_TTL && ClockAllowed(now, ttl) && ClockAllowed(later, ttl) && now <= later
    ensures var s := Record(id, userId, now, ttl); var maxAge := Remaining(s.expiresAt, later);
            && s.expiresAt <= later + maxAge * 1000 < s.expiresAt + 1000
            && maxAge <= ttl && CookieTakes(maxAge) && 0 <= s.createdAt
            && s.expiresAt <= MAX_TIME && later + maxAge * 1000 <= MAX_TIME
            && (maxAge <= 0 <==> s.expiresAt <= later)
  {
    var left := now + ttl * 1000 - later;
    Ceiling(left);
    assert Remaining(now + ttl * 1000, later) == (left + 999) / 1000;
  }

  lemma Ceiling(x: int)
    ensures x <= (x + 999) / 1000 * 1000 < x + 1000
    ensures (x + 999) / 1000 <= 0 <==> x <= 0
  {
  }

  // ---------- The store and everything in flight ----------

  datatype Fault = Fine | Refused | Lost

  /** A rotation between its read and its replacement. */
  datatype Rotation = Rotation(current: Session, replacement: Session, now: int)

  /** `used`: every id ever generated or named. `lineage`: the id a session's chain of rotations began
      with. `gone`: ids replaced or revoked. `successor`: what a replaced id was replaced by. */
  datatype State = State(
    store: map<string, Session>, pending: map<nat, Rotation>,
    used: set<string>, lineage: map<string, string>, gone: set<string>, successor: map<string, string>)

  /** Lost: done, but reported as failed. Refused: not done, reported as failed. */
  datatype Event =
    | Created(session: Session, reply: Fault)
    | ReadForRotation(op: nat, id: string, now: int, newId: string, ttl: int)
    | Replaced(op: nat, reply: Fault)
    | RevokedId(id: string, reply: Fault)
    | Dropped(id: string)

  function Lookup(s: State, id: string): Option<Session> {
    if id in s.store then Some(s.store[id]) else None
  }

  function Root(s: State, id: string): string {
    if id in s.lineage then s.lineage[id] else id
  }

  /** New ids were never generated or named before, and nobody names one that is not yet stored. */
  predicate Possible(s: State, e: Event) {
    match e
    case Created(session, _) => session.id !in s.used
    case ReadForRotation(op, _, _, newId, _) => op !in s.pending && newId !in s.used
    case Replaced(op, _) => op in s.pending
    case RevokedId(id, _) => forall op <- s.pending :: s.pending[op].replacement.id != id
    case Dropped(_) => true
  }

  /** The store's contract for `replace`: the expected record is still there, unchanged and active. */
  predicate CanReplace(s: State, r: Rotation) {
    Lookup(s, r.current.id) == Some(r.current) && r.current.expiresAt > r.now && r.replacement.id !in s.store
  }

  function Step(s: State, e: Event): State
    requires Possible(s, e)
  {
    match e
    case Created(session, reply) =>
      if reply.Refused? then s.(used := s.used + {session.id})
      else s.(used := s.used + {session.id}, store := s.store[session.id := session],
              lineage := s.lineage[session.id := session.id])
    case ReadForRotation(op, id, now, newId, ttl) =>
      var current := Valid(Lookup(s, id), id, now);
      if current.None? then s
      else
        s.(used := s.used + {newId}, lineage := s.lineage[newId := Root(s, id)],
           pending := s.pending[op := Rotation(current.value, Record(newId, current.value.userId, now, ttl), now)])
    case Replaced(op, reply) =>
      var r := s.pending[op];
      if reply.Refused? || !CanReplace(s, r) then s.(pending := s.pending - {op})
      else
        s.(pending := s.pending - {op}, store := (s.store - {r.current.id})[r.replacement.id := r.replacement],
           gone := s.gone + {r.current.id}, successor := s.successor[r.current.id := r.replacement.id])
    case RevokedId(id, reply) =>
      if reply.Refused? then s.(used := s.used + {id})
      else s.(used := s.used + {id}, store := s.store - {id}, gone := s.gone + {id})
    case Dropped(id) => s.(store := s.store - {id})
  }

  const EMPTY: State := State(map[], map[], {}, map[], {}, map[])

  predicate Feasible(s: State, run: seq<Event>)
    decreases run
  {
    run == [] || (Possible(s, run[0]) && Feasible(Step(s, run[0]), run[1..]))
  }

  function Run(s: State, run: seq<Event>): State
    requires Feasible(s, run)
    decreases run
  {
    if run == [] then s else Run(Step(s, run[0]), run[1..])
  }

  // ---------- Invariants of every run ----------

  predicate StoreTracked(s: State) {
    forall id <- s.store :: s.store[id].id == id && id in s.used && id in s.lineage && id !in s.gone
  }

  /** At most one live record per lineage. */
  predicate OneLive(s: State) {
    forall a, b :: a in s.store && b in s.store && a in s.lineage && b in s.lineage && s.lineage[a] == s.lineage[b] ==>
      a == b
  }

  predicate PendingFresh(s: State) {
    forall op <- s.pending ::
      var r := s.pending[op];
      && r.replacement.id in s.used && r.replacement.id !in s.store && r.replacement.id !in s.gone
      && r.replacement.id in s.lineage && r.current.id in s.lineage
      && s.lineage[r.replacement.id] == s.lineage[r.current.id]
  }

  predicate PendingDistinct(s: State) {
    forall a, b :: a in s.pending && b in s.pending && s.pending[a].replacement.id == s.pending[b].replacement.id ==>
      a == b
  }

  predicate NamesUsed(s: State) {
    && s.gone <= s.used && s.lineage.Keys <= s.used && s.successor.Keys <= s.gone
    && (forall id <- s.lineage :: s.lineage[id] in s.used)
  }

  predicate Inv(s: State) {
    StoreTracked(s) && OneLive(s) && PendingFresh(s) && PendingDistinct(s) && NamesUsed(s)
  }

  lemma CreatedKeeps(s: State, e: Event)
    requires Inv(s) && Possible(s, e) && e.Created?
    ensures Inv(Step(s, e))
  {
    hide StoreTracked, OneLive, NamesUsed, PendingFresh, PendingDistinct, Step;
    CreatedStoreKeeps(s, e);
    CreatedPendingKeeps(s, e);
  }

  lemma CreatedStoreKeeps(s: State, e: Event)
    requires StoreTracked(s) && OneLive(s) && NamesUsed(s) && Possible(s, e) && e.Created?
    ensures StoreTracked(Step(s, e)) && OneLive(Step(s, e)) && NamesUsed(Step(s, e))
  {
    assert Step(s, e).store.Keys <= s.store.Keys + {e.session.id};
  }

  lemma CreatedPendingKeeps(s: State, e: Event)
    requires PendingFresh(s) && PendingDistinct(s) && NamesUsed(s) && Possible(s, e) && e.Created?
    ensures PendingFresh(Step(s, e)) && PendingDistinct(Step(s, e))
  {
  }

  lemma ReadKeeps(s: State, e: Event)
    requires Inv(s) && Possible(s, e) && e.ReadForRotation?
    ensures Inv(Step(s, e))
  {
    var t := Step(s, e);
    if Valid(Lookup(s, e.id), e.id, e.now).Some? {
      assert e.id in s.lineage && t.pending.Keys == s.pending.Keys + {e.op};
      assert StoreTracked(t);
      assert OneLive(t);
      assert PendingDistinct(t);
      assert PendingFresh(t);
    }
  }

  lemma ReplacedStoreKeeps(s: State, e: Event)
    requires Inv(s) && Possible(s, e) && e.Replaced? && !e.reply.Refused? && CanReplace(s, s.pending[e.op])
    ensures StoreTracked(Step(s, e)) && OneLive(Step(s, e)) && NamesUsed(Step(s, e))
  {
    var t, r := Step(s, e), s.pending[e.op];
    assert t.store.Keys == s.store.Keys - {r.current.id} + {r.replacement.id};
    assert StoreTracked(t);
    assert forall b <- s.store :: b != r.current.id ==> s.lineage[b] != s.lineage[r.current.id];
  }

  lemma ReplacedPendingKeeps(s: State, e: Event)
    requires Inv(s) && Possible(s, e) && e.Replaced? && !e.reply.Refused? && CanReplace(s, s.pending[e.op])
    ensures PendingFresh(Step(s, e)) && PendingDistinct(Step(s, e))
  {
    var t, r := Step(s, e), s.pending[e.op];
    forall op <- t.pending ensures
      && t.pending[op].replacement.id != r.replacement.id && t.pending[op].replacement.id != r.current.id
    {
    }
  }

  lemma FewerLive(s: State, t: State)
    requires OneLive(s) && t.store.Keys <= s.store.Keys && t.lineage == s.lineage
    ensures OneLive(t)
  {
  }

  lemma RevokedKeeps(s: State, e: Event)
    requires Inv(s) && Possible(s, e) && e.RevokedId?
    ensures Inv(Step(s, e))
  {
    var t := Step(s, e);
    FewerLive(s, t);
    assert StoreTracked(t) && NamesUsed(t);
    assert PendingDistinct(t);
  }

  lemma DroppedKeeps(s: State, e: Event)
    requires Inv(s) && Possible(s, e) && e.Dropped?
    ensures Inv(Step(s, e))
  {
    FewerLive(s, Step(s, e));
  }

  /** Every step of every interleaving keeps the invariant. */
  lemma StepKeeps(s: State, e: Event)
    requires Inv(s) && Possible(s, e)
    ensures Inv(Step(s, e))
  {
    match e
    case Created(_, _) => CreatedKeeps(s, e);
    case ReadForRotation(_, _, _, _, _) => ReadKeeps(s, e);
    case Replaced(op, reply) =>
      if !reply.Refused? && CanReplace(s, s.pending[op]) {
        hide StoreTracked, OneLive, NamesUsed, PendingFresh, PendingDistinct;
        ReplacedStoreKeeps(s, e);
        ReplacedPendingKeeps(s, e);
      }
    case RevokedId(_, _) => RevokedKeeps(s, e);
    case Dropped(_) => DroppedKeeps(s, e);
  }

  lemma {:induction false} RunKeeps(s: State, run: seq<Event>)
    requires Inv(s) && Feasible(s, run)
    ensures Inv(Run(s, run))
    decreases run
  {
    if run != [] {
      StepKeeps(s, run[0]);
      RunKeeps(Step(s, run[0]), run[1..]);
    }
  }

  /** Whatever the interleaving and whichever replies are lost: at most one live record per lineage. */
  lemma AtMostOneLive(run: seq<Event>, a: string, b: string)
    requires Feasible(EMPTY, run)
    ensures var s := Run(EMPTY, run);
            a in s.store && b in s.store ==>
              a in s.lineage && b in s.lineage && (s.lineage[a] == s.lineage[b] ==> a == b)
  {
    RunKeeps(EMPTY, run);
  }

  lemma {:induction false} GoneGrows(s: State, run: seq<Event>)
    requires Feasible(s, run)
    ensures s.gone <= Run(s, run).gone
    decreases run
  {
    if run != [] {
      GoneGrows(Step(s, run[0]), run[1..]);
    }
  }

  /** A replaced or revoked id never validates again, at any later point of any run and any clock reading. */
  lemma GoneForever(run: seq<Event>, more: seq<Event>, id: string, at: int)
    requires Feasible(EMPTY, run) && Feasible(Run(EMPTY, run), more) && id in Run(EMPTY, run).gone
    ensures Valid(Lookup(Run(Run(EMPTY, run), more), id), id, at) == None
  {
    RunKeeps(EMPTY, run);
    RunKeeps(Run(EMPTY, run), more);
    GoneGrows(Run(EMPTY, run), more);
  }

  lemma SuccessorKept(s: State, e: Event, id: string)
    requires Inv(s) && Possible(s, e) && id in s.successor
    ensures id in Step(s, e).successor && Step(s, e).successor[id] == s.successor[id]
  {
  }

  /** Exactly one of concurrent replacements wins: an id is replaced once, and its successor is fixed. */
  lemma {:induction false} OneSuccessor(s: State, run: seq<Event>, id: string)
    requires Inv(s) && Feasible(s, run) && id in s.successor
    ensures id in Run(s, run).successor && Run(s, run).successor[id] == s.successor[id]
    decreases run
  {
    if run != [] {
      StepKeeps(s, run[0]);
      SuccessorKept(s, run[0], id);
      OneSuccessor(Step(s, run[0]), run[1..], id);
    }
  }

  // ---------- Whose session it is ----------

  /** The user each lineage was created for: by the creations of the run that were not refused. */
  function Owners(owner: map<string, string>, run: seq<Event>): map<string, string>
    decreases run
  {
    if run == [] then owner
    else
      Owners(if run[0].Created? && !run[0].reply.Refused? then owner[run[0].session.id := run[0].session.userId]
             else owner,
             run[1..])
  }

  predicate OwnedBy(s: State, owner: map<string, string>, id: string, userId: string) {
    id in s.lineage && s.lineage[id] in owner && owner[s.lineage[id]] == userId
  }

  /** Stored sessions and both sides of pending rotations belong to the user of their lineage. */
  predicate OneUser(s: State, owner: map<string, string>) {
    && (forall id <- s.store :: OwnedBy(s, owner, id, s.store[id].userId))
    && (forall op <- s.pending ::
          var r := s.pending[op];
          OwnedBy(s, owner, r.current.id, r.current.userId)
            && OwnedBy(s, owner, r.replacement.id, r.replacement.userId))
  }

  lemma UserStep(s: State, owner: map<string, string>, e: Event)
    requires Inv(s) && Possible(s, e) && OneUser(s, owner) && owner.Keys <= s.used
    ensures OneUser(Step(s, e), Owners(owner, [e])) && Owners(owner, [e]).Keys <= Step(s, e).used
  {
    OwnersOfOne(owner, e);
    hide Owners, OneLive, PendingDistinct, PendingFresh, OneUser;
    match e
    case Created(_, _) => UserCreated(s, owner, e);
    case ReadForRotation(_, _, _, _, _) => UserRead(s, owner, e);
    case Replaced(_, _) => UserReplaced(s, owner, e);
    case RevokedId(_, _) => UserFewer(s, owner, e);
    case Dropped(_) => UserFewer(s, owner, e);
  }

  lemma OwnersOfOne(owner: map<string, string>, e: Event)
    ensures Owners(owner, [e])
            == if e.Created? && !e.reply.Refused? then owner[e.session.id := e.session.userId] else owner
  {
    var next := if e.Created? && !e.reply.Refused? then owner[e.session.id := e.session.userId] else owner;
    assert [e][1..] == [] && Owners(next, []) == next;
  }

  lemma UserFewer(s: State, owner: map<string, string>, e: Event)
    requires Possible(s, e) && OneUser(s, owner) && (e.RevokedId? || e.Dropped?)
    ensures OneUser(Step(s, e), owner)
  {
  }

  lemma UserCreated(s: State, owner: map<string, string>, e: Event)
    requires Inv(s) && Possible(s, e) && OneUser(s, owner) && owner.Keys <= s.used && e.Created?
    ensures OneUser(Step(s, e), if e.reply.Refused? then owner else owner[e.session.id := e.session.userId])
  {
    hide OneLive, PendingDistinct;
  }

  lemma UserRead(s: State, owner: map<string, string>, e: Event)
    requires Inv(s) && Possible(s, e) && OneUser(s, owner) && e.ReadForRotation?
    ensures OneUser(Step(s, e), owner)
  {
    hide OneLive, PendingDistinct;
    if Valid(Lookup(s, e.id), e.id, e.now).Some? {
      assert OwnedBy(s, owner, e.id, s.store[e.id].userId);
    }
  }

  lemma UserReplaced(s: State, owner: map<string, string>, e: Event)
    requires Inv(s) && Possible(s, e) && OneUser(s, owner) && e.Replaced?
    ensures OneUser(Step(s, e), owner)
  {
    hide OneLive, PendingDistinct;
  }

  lemma {:induction false} UserRuns(s: State, owner: map<string, string>, run: seq<Event>)
    requires Inv(s) && Feasible(s, run) && OneUser(s, owner) && owner.Keys <= s.used
    ensures OneUser(Run(s, run), Owners(owner, run))
    decreases run
  {
    if run != [] {
      StepKeeps(s, run[0]);
      UserStep(s, owner, run[0]);
      OwnersOfOne(owner, run[0]);
      UserRuns(Step(s, run[0]), Owners(owner, [run[0]]), run[1..]);
    }
  }

  /** In every interleaving all stored and pending sessions of a lineage have the user it was created for. */
  lemma UserNeverChanges(run: seq<Event>)
    requires Feasible(EMPTY, run)
    ensures OneUser(Run(EMPTY, run), Owners(map[], run))
  {
    UserRuns(EMPTY, map[], run);
  }

  lemma {:induction false} OwnerKept(s: State, owner: map<string, string>, run: seq<Event>, id: string)
    requires Feasible(s, run) && id in s.used && id in owner
    ensures id in Owners(owner, run) && Owners(owner, run)[id] == owner[id]
    decreases run
  {
    if run != [] {
      var next := if run[0].Created? && !run[0].reply.Refused? then owner[run[0].session.id := run[0].session.userId]
                  else owner;
      OwnerKept(Step(s, run[0]), next, run[1..], id);
    }
  }

  /** That is the user given with the creation. */
  lemma {:induction false} OwnerIsCreator(s: State, owner: map<string, string>, run: seq<Event>, i: nat)
    requires Feasible(s, run) && i < |run| && run[i].Created? && !run[i].reply.Refused?
    ensures var session := run[i].session;
            session.id in Owners(owner, run) && Owners(owner, run)[session.id] == session.userId
    decreases run
  {
    var next := if run[0].Created? && !run[0].reply.Refused? then owner[run[0].session.id := run[0].session.userId]
                else owner;
    if i == 0 {
      OwnerKept(Step(s, run[0]), next, run[1..], run[0].session.id);
    } else {
      OwnerIsCreator(Step(s, run[0]), next, run[1..], i - 1);
    }
  }

  /** A creation that is not refused can be validated under its id within its lifetime, and only then, and
      gives the user it was for. */
  lemma CreatedValidates(s: State, id: string, userId: string, now: int, ttl: int, reply: Fault, at: int)
    requires 1 <= ttl <= MAX_TTL && ClockAllowed(now, ttl) && !IsBlank(userId)
    requires Possible(s, Created(Record(id, userId, now, ttl), reply)) && !reply.Refused?
    ensures var v := Valid(Lookup(Step(s, Created(Record(id, userId, now, ttl), reply)), id), id, at);
            && (v.Some? <==> now <= at < now + ttl * 1000)
            && (v.Some? ==> v.value.id == id && v.value.userId == userId)
  {
    ValidExactlyUntilExpiry(id, userId, now, ttl, at);
  }

  /** A revocation removes its session and no other, unless the store refuses it. */
  lemma RevocationExactly(s: State, id: string, reply: Fault, other: string)
    requires Possible(s, RevokedId(id, reply))
    ensures var t := Step(s, RevokedId(id, reply));
            && Lookup(t, other) == (if other == id && !reply.Refused? then None else Lookup(s, other))
            && t.pending == s.pending && (!reply.Refused? ==> id in t.gone)
  {
  }

  /** A replacement that is not refused and finds the session it read puts its successor in that one's place;
      any other changes nothing in the store. */
  lemma ReplacementExactly(s: State, op: nat, reply: Fault, other: string)
    requires Possible(s, Replaced(op, reply))
    ensures var t, r := Step(s, Replaced(op, reply)), s.pending[op];
            var done := !reply.Refused? && Lookup(s, r.current.id) == Some(r.current)
                        && r.current.expiresAt > r.now && r.replacement.id !in s.store;
            && Lookup(t, other) == (if done && other == r.replacement.id then Some(r.replacement)
                                    else if done && other == r.current.id then None else Lookup(s, other))
            && (done ==> r.current.id in t.gone && r.current.id in t.successor
                         && t.successor[r.current.id] == r.replacement.id)
  {
  }

  /** A session is usable exactly if its record says so in every respect, and is then that record. */
  lemma ValidExactly(stored: Option<Session>, id: string, now: int)
    ensures Valid(stored, id, now).Some? <==>
            exists v :: stored == Some(v) && v.id == id && v.kind == "auth" && !IsBlank(v.userId)
                        && 0 <= v.createdAt <= now < v.expiresAt <= MAX_TIME
    ensures Valid(stored, id, now).Some? ==> Valid(stored, id, now) == stored
  {
    if stored.Some? { assert stored == Some(stored.value); }
  }

  // ---------- The manager ----------

  datatype Code = ConfigurationInvalid | CreateFailed | ReadFailed | RotateFailed | RevokeFailed
  datatype Reply =
    Issued(session: Session, maxAge: int) | Validated(session: Session) | Cleared | NoSession | Failed(code: Code)

  predicate Touches(e: Event, op: nat) {
    e.Replaced? && e.op == op
  }

  lemma {:induction false} PendingKept(s: State, run: seq<Event>, op: nat)
    requires Feasible(s, run) && op in s.pending && forall e <- run :: !Touches(e, op)
    ensures op in Run(s, run).pending && Run(s, run).pending[op] == s.pending[op]
    decreases run
  {
    if run != [] {
      assert !Touches(run[0], op);
      PendingKept(Step(s, run[0]), run[1..], op);
    }
  }

  /** The session was replaced by this one, whose cookie covers it to its expiry. */
  ghost predicate HandedOver(s: State, id: string, session: Session, maxAge: int, later: int) {
    && id in s.gone && id !in s.store && id in s.successor && s.successor[id] == session.id
    && Lookup(s, session.id) == Some(session)
    && session.expiresAt <= later + maxAge * 1000 < session.expiresAt + 1000
  }

  class SessionManager {
    const ttl: int
    var state: State

    ghost predicate Ready()
      reads this
    {
      Inv(state) && 1 <= ttl <= MAX_TTL
    }

    constructor (ttl: int)
      requires 1 <= ttl <= MAX_TTL
      ensures Ready() && state == EMPTY && this.ttl == ttl
    {
      this.ttl := ttl;
      state := EMPTY;
    }

    /** `now` and `later` are the two clock readings, `id` the random identifier if there is one, and
        `others` what everybody else does before the second reading. */
    method Create(userId: string, now: int, id: Option<string>, reply: Fault, others: seq<Event>, later: int)
      returns (r: Reply)
      requires Ready() && (id.Some? ==> id.value !in state.used)
      requires id.Some? ==> Feasible(Step(state, Created(Record(id.value, userId, now, ttl), reply)), others)
      modifies this`state
      ensures Ready()
      ensures r.Issued? <==> ClockAllowed(now, ttl) && !IsBlank(userId) && id.Some? && reply.Fine?
                             && ClockAllowed(later, ttl) && later < now + ttl * 1000
                             && CookieTakes(Remaining(now + ttl * 1000, later))
      ensures r.Issued? ==> r.session == Session(id.value, userId, "auth", now, now + ttl * 1000)
                            && r.session.expiresAt <= later + r.maxAge * 1000 < r.session.expiresAt + 1000
      ensures state == if ClockAllowed(now, ttl) && !IsBlank(userId) && id.Some?
                       then Run(Step(old(state), Created(Record(id.value, userId, now, ttl), reply)), others)
                         else old(state)
      ensures !r.Issued? ==> r == Failed(ConfigurationInvalid) || r == Failed(CreateFailed)
    {
      if !ClockAllowed(now, ttl) || IsBlank(userId) {
        return Failed(ConfigurationInvalid);
      }
      if id.None? {
        return Failed(CreateFailed);
      }
      var session := Record(id.value, userId, now, ttl);
      StepKeeps(state, Created(session, reply));
      state := Step(state, Created(session, reply));
      RunKeeps(state, others);
      state := Run(state, others);
      if !reply.Fine? {
        return Failed(CreateFailed);
      }
      if !ClockAllowed(later, ttl) {
        return Failed(ConfigurationInvalid);
      }
      var remaining := Remaining(session.expiresAt, later);
      Ceiling(session.expiresAt - later);
      if remaining <= 0 {
        return Failed(CreateFailed);
      }
      if !CookieTakes(remaining) {
        return Failed(ConfigurationInvalid);
      }
      r := Issued(session, remaining);
    }

    method Validate(id: string, readFails: bool, now: int) returns (r: Reply)
      ensures r.Validated? <==>
              Identifier(id) && !readFails && ClockAllowed(now, ttl) && Valid(Lookup(state, id), id, now).Some?
      ensures r.Validated? ==> Valid(Lookup(state, id), id, now) == Some(r.session)
      ensures !r.Validated? ==>
        r == if !Identifier(id) then NoSession else if readFails then Failed(ReadFailed)
             else if !ClockAllowed(now, ttl) then Failed(ConfigurationInvalid) else NoSession
    {
      if !Identifier(id) {
        return NoSession;
      }
      if readFails {
        return Failed(ReadFailed);
      }
      if !ClockAllowed(now, ttl) {
        return Failed(ConfigurationInvalid);
      }
      var session := Valid(Lookup(state, id), id, now);
      r := if session.None? then NoSession else Validated(session.value);
    }

    /** `others` is what everybody else does between the read and the replacement; the rotation wins
        exactly when the record is still the one it read. */
    method Rotate(op: nat, id: string, readFails: bool, now: int, newId: Option<string>, others: seq<Event>,
                  reply: Fault, later: int)
      returns (r: Reply)
      requires Ready() && op !in state.pending && (newId.Some? ==> newId.value !in state.used)
      requires forall e <- others :: !Touches(e, op)
      requires newId.Some? ==> Feasible(Step(state, ReadForRotation(op, id, now, newId.value, ttl)), others)
      modifies this`state
      ensures Ready()
      ensures r.Issued? ==> HandedOver(state, id, r.session, r.maxAge, later)
      ensures r.Issued? ==> newId.Some? && Valid(Lookup(old(state), id), id, now).Some?
                            && r.session == Session(newId.value,
                                                    old(state).store[id].userId, "auth", now, now + ttl * 1000)
      ensures !Identifier(id) || readFails || !ClockAllowed(now, ttl)
              || Valid(Lookup(old(state), id), id, now).None? || newId.None?
              ==> state == old(state) && !r.Issued?
      ensures Identifier(id) && !readFails && ClockAllowed(now, ttl)
              && Valid(Lookup(old(state), id), id, now).Some? && newId.Some? ==>
        var met := Run(Step(old(state), ReadForRotation(op, id, now, newId.value, ttl)), others);
        && op in met.pending && state == Step(met, Replaced(op, reply))
        && (r.Issued? <==>
            reply.Fine? && Lookup(met, id) == Lookup(old(state), id)
              && ClockAllowed(later, ttl) && later < now + ttl * 1000
                             && CookieTakes(Remaining(now + ttl * 1000, later)))
        && (r == NoSession <==> reply.Fine? && Lookup(met, id) != Lookup(old(state), id))
    {
      if !Identifier(id) {
        return NoSession;
      }
      if readFails {
        return Failed(ReadFailed);
      }
      if !ClockAllowed(now, ttl) {
        return Failed(ConfigurationInvalid);
      }
      var current := Valid(Lookup(state, id), id, now);
      if current.None? {
        return NoSession;
      }
      if newId.None? {
        return Failed(RotateFailed);
      }
      var replacement := Record(newId.value, current.value.userId, now, ttl);
      StepKeeps(state, ReadForRotation(op, id, now, newId.value, ttl));
      state := Step(state, ReadForRotation(op, id, now, newId.value, ttl));
      RunKeeps(state, others);
      PendingKept(state, others, op);
      state := Run(state, others);
      var rotation := state.pending[op];
      assert rotation == Rotation(current.value, replacement, now);
      var replaced := CanReplace(state, rotation);
      StepKeeps(state, Replaced(op, reply));
      state := Step(state, Replaced(op, reply));
      if !reply.Fine? {
        return Failed(RotateFailed);
      }
      if !replaced {
        return NoSession;
      }
      if !ClockAllowed(later, ttl) {
        return Failed(ConfigurationInvalid);
      }
      var remaining := Remaining(replacement.expiresAt, later);
      Ceiling(replacement.expiresAt - later);
      if remaining <= 0 {
        return Failed(RotateFailed);
      }
      if !CookieTakes(remaining) {
        return Failed(ConfigurationInvalid);
      }
      r := Issued(replacement, remaining);
    }

    method Revoke(id: string, reply: Fault) returns (r: Reply)
      requires Ready() && Possible(state, RevokedId(id, reply))
      modifies this`state
      ensures Ready()
      ensures r == if Identifier(id) && !reply.Fine? then Failed(RevokeFailed) else Cleared
      ensures state == if Identifier(id) then Step(old(state), RevokedId(id, reply)) else old(state)
      ensures r.Cleared? && Identifier(id) ==> id in state.gone && id !in state.store
    {
      if Identifier(id) {
        StepKeeps(state, RevokedId(id, reply));
        state := Step(state, RevokedId(id, reply));
        if !reply.Fine? {
          return Failed(RevokeFailed);
        }
      }
      r := Cleared;
    }
  }
}
