/**
 Session lifecycle of one node: the token table, the per-user index, and the table of persisted rows.

 Tokens appear hashed only. The clock is a parameter of every operation.
 */
module Sessions {
  import opened Bus
  import opened Collections

  type Hash = string

  datatype Session = Session(
    userId: string, createdAt: nat, expiresAt: nat, lastActivity: nat,
    ip: string, userAgent: string, device: string, active: bool)

  /** `index` is `user_sessions`; `rows` is the `identity_sessions` table. */
  datatype State = State(sessions: map<Hash, Session>, index: map<string, seq<Hash>>, rows: map<Hash, Session>)

  function Tokens(s: State, userId: string): seq<Hash> {
    if userId in s.index then s.index[userId] else []
  }

  predicate Live(x: Session, now: nat) {
    x.active && now <= x.expiresAt
  }

  function LiveTokens(s: State, now: nat): set<Hash> {
    set h | h in s.sessions && Live(s.sessions[h], now)
  }

  /** The strict IP binding; a blank or unknown address on either side binds nothing. */
  predicate IpBound(x: Session, ip: Option<string>) {
    match ip
    case None => true
    case Some(a) => x.ip == "" || x.ip == "unknown" || a == "" || x.ip == a
  }

  predicate Validates(s: State, h: Hash, now: nat, ip: Option<string>) {
    h in s.sessions && Live(s.sessions[h], now) && IpBound(s.sessions[h], ip)
  }

  // ----- the state after each operation

  function Deactivate(table: map<Hash, Session>, gone: seq<Hash>): map<Hash, Session> {
    map h | h in table :: if h in gone then table[h].(active := false) else table[h]
  }

  function PersistDeactivated(s: State, gone: seq<Hash>): map<Hash, Session> {
    s.rows + map h | h in s.sessions && h in gone :: s.sessions[h].(active := false)
  }

  /** The user's token list once the new token is pushed and the stale ones are pruned. */
  function PrunedTokens(s: State, now: nat, h: Hash, userId: string): seq<Hash> {
    Keeping(Tokens(s, userId) + [h], LiveTokens(s, now) + {h})
  }

  function Excess(tokens: seq<Hash>, cap: nat): nat {
    if |tokens| > cap then |tokens| - cap else 0
  }

  function Created(s: State, cap: nat, now: nat, h: Hash, session: Session): State {
    var tokens := PrunedTokens(s, now, h, session.userId);
    var n := Excess(tokens, cap);
    State(Deactivate(s.sessions, tokens[..n])[h := session],
          s.index[session.userId := tokens[n..]],
          PersistDeactivated(s, tokens[..n])[h := session])
  }

  function TokenDropped(s: State, h: Hash): State {
    if h !in s.sessions then s
    else
      var userId := s.sessions[h].userId;
      State(s.sessions - {h},
            if userId in s.index then s.index[userId := Without(s.index[userId], {h})] else s.index,
            s.rows - {h})
  }

  function Without(tokens: seq<Hash>, gone: set<Hash>): seq<Hash> {
    Keeping(tokens, Members(tokens) - gone)
  }

  function Members(tokens: seq<Hash>): set<Hash> {
    set h | h in tokens
  }

  function ActiveAmong(s: State, tokens: seq<Hash>): set<Hash> {
    set h | h in tokens && h in s.sessions && s.sessions[h].active
  }

  function UserDropped(s: State, userId: string): State {
    var gone := Members(Tokens(s, userId));
    State(s.sessions - gone, s.index - {userId}, s.rows - gone)
  }

  /** `last_activity` moves on every success but is written out at most every 30 seconds of activity. */
  function Touched(s: State, now: nat, h: Hash): State
    requires h in s.sessions
  {
    var snap := s.sessions[h].(lastActivity := now);
    var previous := s.sessions[h].lastActivity;
    State(s.sessions[h := snap], s.index,
          if now >= previous && now - previous >= 30 then s.rows[h := snap] else s.rows)
  }

  function Validated(s: State, now: nat, h: Hash, ip: Option<string>): State {
    if h !in s.sessions || !Live(s.sessions[h], now) then s
    else if !IpBound(s.sessions[h], ip) then TokenDropped(s, h)
    else Touched(s, now, h)
  }

  function Dead(s: State, now: nat): set<Hash> {
    set h | h in s.sessions && !Live(s.sessions[h], now)
  }

  function OwnedBy(s: State, tokens: set<Hash>, userId: string): set<Hash>
    requires tokens <= s.sessions.Keys
  {
    set h | h in tokens && s.sessions[h].userId == userId
  }

  function CleanedIndex(s: State, gone: set<Hash>): map<string, seq<Hash>>
    requires gone <= s.sessions.Keys
  {
    map u | u in s.index :: Without(s.index[u], OwnedBy(s, gone, u))
  }

  function CleanedUp(s: State, now: nat): State {
    var gone := Dead(s, now);
    State(s.sessions - gone,
          CleanedIndex(s, gone),
          s.rows - gone)
  }

  /** The rows that a restart loads; a session that expires right now is not one of them. */
  predicate Loadable(x: Session, now: nat) {
    x.active && now < x.expiresAt
  }

  function Owners(rows: map<Hash, Session>, order: seq<Hash>, now: nat): set<string> {
    set h | h in order && h in rows && Loadable(rows[h], now) :: rows[h].userId
  }

  function LoadedIndex(rows: map<Hash, Session>, order: seq<Hash>, now: nat): map<string, seq<Hash>> {
    map u | u in Owners(rows, order, now) ::
      LoadedList(rows, order, now, u)
  }

  function LoadedList(rows: map<Hash, Session>, order: seq<Hash>, now: nat, userId: string): seq<Hash> {
    Keeping(order, LoadableOf(rows, order, now, userId))
  }

  function LoadableOf(rows: map<Hash, Session>, order: seq<Hash>, now: nat, userId: string): set<Hash> {
    set h | h in order && h in rows && Loadable(rows[h], now) && rows[h].userId == userId
  }

  function LoadedSessions(rows: map<Hash, Session>, order: seq<Hash>, now: nat): map<Hash, Session> {
    map h | h in rows && h in order && Loadable(rows[h], now) :: rows[h]
  }

  function Loaded(rows: map<Hash, Session>, order: seq<Hash>, now: nat): State {
    State(LoadedSessions(rows, order, now), LoadedIndex(rows, order, now), rows)
  }

  /** `order` is the order in which the query returns the rows. */
  ghost predicate Enumerates(order: seq<Hash>, rows: map<Hash, Session>) {
    Distinct(order) && forall h :: h in order <==> h in rows
  }

  function Handled(s: State, event: BusEvent): State {
    match event
    case SessionInvalidateToken(h) => TokenDropped(s, h)
    case SessionInvalidateUser(userId) => UserDropped(s, userId)
    case _ => s
  }

  /** What the bus is told about a token invalidation: nothing unless the token was here. */
  function TokenEvent(s: State, h: Hash): Option<BusEvent> {
    if h in s.sessions then Some(SessionInvalidateToken(h)) else None
  }

  /** What the bus is told about a force logout: nothing unless it dropped an active session here. */
  function UserEvent(s: State, userId: string): Option<BusEvent> {
    if ActiveAmong(s, Tokens(s, userId)) != {} then Some(SessionInvalidateUser(userId)) else None
  }

  class SessionManager {
    const cap: nat
    const hash: string -> Hash
    const deviceOf: string -> string
    var sessions: map<Hash, Session>
    var userSessions: map<string, seq<Hash>>
    var rows: map<Hash, Session>

    function Contents(): State
      reads this
    {
      State(sessions, userSessions, rows)
    }

    /** `with_storage`: reload the active unexpired rows in query order. */
    constructor (maxSessions: nat, hash: string -> Hash, deviceOf: string -> string,
                 rows: map<Hash, Session>, order: seq<Hash>, now: nat)
      requires Enumerates(order, rows)
      ensures Contents() == Loaded(rows, order, now)
      ensures cap == (if maxSessions == 0 then 1 else maxSessions) && this.hash == hash && this.deviceOf == deviceOf
    {
      this.cap := if maxSessions == 0 then 1 else maxSessions;
      this.hash, this.deviceOf := hash, deviceOf;
      this.rows := rows;
      sessions, userSessions := map[], map[];
      new;
      for i := 0 to |order|
        invariant this.rows == rows && this.hash == hash && this.deviceOf == deviceOf
        invariant Contents() == Loaded(rows, order[..i], now)
      {
        var h := order[i];
        var row := this.rows[h];
        LoadOneMore(rows, order, i, now);
        if !row.active || row.expiresAt <= now {
          continue;
        }
        sessions := sessions[h := row];
        userSessions := userSessions[row.userId := Tokens(Contents(), row.userId) + [h]];
      }
      assert order[..|order|] == order;
    }

    /** Marks every evicted session inactive, in memory and in its row. */
    method Evict(toEvict: seq<Hash>)
      modifies this`sessions, this`rows
      ensures sessions == Deactivate(old(sessions), toEvict)
      ensures rows == PersistDeactivated(old(Contents()), toEvict)
    {
      ghost var s := Contents();
      for i := 0 to |toEvict|
        invariant sessions == Deactivate(s.sessions, toEvict[..i])
        invariant rows == PersistDeactivated(s, toEvict[..i])
      {
        DeactivateOneMore(s.sessions, toEvict, i);
        PersistOneMore(s, toEvict, i);
        var h := toEvict[i];
        if h in sessions {
          var snap := sessions[h].(active := false);
          sessions := sessions[h := snap];
          rows := rows[h := snap];
        }
      }
      assert toEvict[..|toEvict|] == toEvict;
    }

    method Create(userId: string, token: string, ip: string, userAgent: string, ttlSecs: nat, now: nat)
      returns (session: Session)
      modifies this`sessions, this`userSessions, this`rows
      ensures session == Session(userId, now, now + ttlSecs, now, ip, userAgent, deviceOf(userAgent), true)
      ensures Contents() == Created(old(Contents()), cap, now, hash(token), session)
    {
      var hashed := hash(token);
      var stored := Session(userId, now, now + ttlSecs, now, ip, userAgent, deviceOf(userAgent), true);
      ghost var s := Contents();
      var userTokens := PrunedTokens(Contents(), now, hashed, userId);
      ghost var pruned := userTokens;
      var toEvict: seq<Hash> := [];
      while |userTokens| > cap
        invariant toEvict + userTokens == pruned
        invariant |toEvict| <= Excess(pruned, cap)
      {
        var oldest := userTokens[0];
        userTokens := userTokens[1..];
        toEvict := toEvict + [oldest];
      }
      assert toEvict == pruned[..Excess(pruned, cap)] && userTokens == pruned[Excess(pruned, cap)..];
      userSessions := userSessions[userId := userTokens];

      Evict(toEvict);
      sessions := sessions[hashed := stored];
      rows := rows[hashed := stored];
      return stored;
    }

    method ApplyInvalidateToken(h: Hash) returns (removed: bool)
      modifies this`sessions, this`userSessions, this`rows
      ensures Contents() == TokenDropped(old(Contents()), h)
      ensures removed <==> h in old(sessions)
    {
      if h !in sessions {
        return false;
      }
      var userId := sessions[h].userId;
      if userId in userSessions {
        userSessions := userSessions[userId := Without(userSessions[userId], {h})];
      }
      rows := rows - {h};
      sessions := sessions - {h};
      return true;
    }

    method Invalidate(token: string) returns (removed: bool, event: Option<BusEvent>)
      modifies this`sessions, this`userSessions, this`rows
      ensures Contents() == TokenDropped(old(Contents()), hash(token))
      ensures removed <==> hash(token) in old(sessions)
      ensures event == TokenEvent(old(Contents()), hash(token))
    {
      var hashed := hash(token);
      removed := ApplyInvalidateToken(hashed);
      event := if removed then Some(SessionInvalidateToken(hashed)) else None;
    }

    method ValidateWithRequest(token: string, expectedIp: Option<string>, now: nat) returns (r: Option<Session>)
      modifies this`sessions, this`userSessions, this`rows
      ensures Contents() == Validated(old(Contents()), now, hash(token), expectedIp)
      ensures r.Some? <==> Validates(old(Contents()), hash(token), now, expectedIp)
      ensures r.Some? ==> r.value == old(sessions)[hash(token)].(lastActivity := now)
    {
      var hashed := hash(token);
      if hashed !in sessions {
        return None;
      }
      var session := sessions[hashed];
      if !session.active || now > session.expiresAt {
        return None;
      }
      if expectedIp.Some? {
        var ip := expectedIp.value;
        if session.ip != "" && session.ip != "unknown" && ip != "" && session.ip != ip {
          var _ := ApplyInvalidateToken(hashed);
          return None;
        }
      }
      var prevActivity := session.lastActivity;
      var snap := session.(lastActivity := now);
      sessions := sessions[hashed := snap];
      if now >= prevActivity && now - prevActivity >= 30 {
        rows := rows[hashed := snap];
      }
      return Some(snap);
    }

    method ApplyInvalidateUser(userId: string) returns (count: nat)
      modifies this`sessions, this`userSessions, this`rows
      ensures Contents() == UserDropped(old(Contents()), userId)
      ensures count == |ActiveAmong(old(Contents()), Tokens(old(Contents()), userId))|
    {
      ghost var s := Contents();
      var hashedTokens := Tokens(Contents(), userId);
      count := 0;
      for i := 0 to |hashedTokens|
        invariant sessions == s.sessions - Members(hashedTokens[..i])
        invariant rows == s.rows - Members(hashedTokens[..i])
        invariant userSessions == s.index
        invariant count == |ActiveAmong(s, hashedTokens[..i])|
      {
        var h := hashedTokens[i];
        CountOneMore(s, hashedTokens, i);
        if h in sessions && sessions[h].active {
          count := count + 1;
        }
        rows := rows - {h};
        sessions := sessions - {h};
      }
      assert hashedTokens[..|hashedTokens|] == hashedTokens;
      userSessions := userSessions - {userId};
    }

    method InvalidateAll(userId: string) returns (count: nat, event: Option<BusEvent>)
      modifies this`sessions, this`userSessions, this`rows
      ensures Contents() == UserDropped(old(Contents()), userId)
      ensures count == |ActiveAmong(old(Contents()), Tokens(old(Contents()), userId))|
      ensures event == UserEvent(old(Contents()), userId)
    {
      count := ApplyInvalidateUser(userId);
      event := if count > 0 then Some(SessionInvalidateUser(userId)) else None;
    }

    method CleanupExpired(now: nat) returns (cleaned: nat)
      modifies this`sessions, this`userSessions, this`rows
      ensures Contents() == CleanedUp(old(Contents()), now)
      ensures cleaned == |Dead(old(Contents()), now)|
    {
      ghost var s := Contents();
      var toRemove := set h | h in sessions && (now > sessions[h].expiresAt || !sessions[h].active);
      assert toRemove == Dead(s, now);
      cleaned := |toRemove|;
      var left := toRemove;
      assert toRemove - left == {};
      CleanNone(s);
      while left != {}
        invariant left <= toRemove
        invariant sessions == s.sessions - (toRemove - left)
        invariant rows == s.rows - (toRemove - left)
        invariant userSessions == CleanedIndex(s, toRemove - left)
        decreases left
      {
        var h :| h in left;
        CleanOneMore(s, toRemove - left, h);
        assert toRemove - (left - {h}) == toRemove - left + {h};
        assert s.sessions - (toRemove - left + {h}) == sessions - {h};
        assert s.rows - (toRemove - left + {h}) == rows - {h};
        var userId := sessions[h].userId;
        sessions := sessions - {h};
        rows := rows - {h};
        if userId in userSessions {
          userSessions := userSessions[userId := Without(userSessions[userId], {h})];
        }
        left := left - {h};
      }
      assert toRemove - left == toRemove;
    }

    method Handle(event: BusEvent)
      modifies this`sessions, this`userSessions, this`rows
      ensures Contents() == Handled(old(Contents()), event)
    {
      match event
      case SessionInvalidateToken(h) => var _ := ApplyInvalidateToken(h);
      case SessionInvalidateUser(userId) => var _ := ApplyInvalidateUser(userId);
      case _ =>
    }
  }

  lemma CleanNone(s: State)
    ensures CleanedIndex(s, {}) == s.index
  {
    forall u | u in s.index ensures Without(s.index[u], OwnedBy(s, {}, u)) == s.index[u] {
      KeepingAll(s.index[u], Members(s.index[u]) - OwnedBy(s, {}, u));
    }
  }

  lemma {:induction false} CleanOneMore(s: State, done: set<Hash>, h: Hash)
    requires done + {h} <= s.sessions.Keys
    ensures var u := s.sessions[h].userId;
            var before := CleanedIndex(s, done);
            CleanedIndex(s, done + {h}) == if u in before then before[u := Without(before[u], {h})] else before
  {
    forall u | u in s.index
      ensures Without(s.index[u], OwnedBy(s, done + {h}, u)) ==
              if u == s.sessions[h].userId then Without(Without(s.index[u], OwnedBy(s, done, u)), {h})
              else Without(s.index[u], OwnedBy(s, done, u))
    {
      var before := OwnedBy(s, done, u);
      WithoutTwice(s.index[u], before, {h});
      assert OwnedBy(s, done + {h}, u) == if u == s.sessions[h].userId then before + {h} else before;
    }
  }

  lemma DeactivateOneMore(table: map<Hash, Session>, gone: seq<Hash>, i: nat)
    requires i < |gone|
    ensures var h, before := gone[i], Deactivate(table, gone[..i]);
            Deactivate(table, gone[..i + 1]) ==
            if h in before then before[h := before[h].(active := false)] else before
  {
    assert gone[..i + 1] == gone[..i] + [gone[i]];
  }

  lemma PersistOneMore(s: State, gone: seq<Hash>, i: nat)
    requires i < |gone|
    ensures var h, before := gone[i], PersistDeactivated(s, gone[..i]);
            PersistDeactivated(s, gone[..i + 1]) ==
            if h in s.sessions then before[h := s.sessions[h].(active := false)] else before
  {
    assert gone[..i + 1] == gone[..i] + [gone[i]];
  }

  lemma {:induction false} CountOneMore(s: State, tokens: seq<Hash>, i: nat)
    requires i < |tokens|
    ensures Members(tokens[..i + 1]) == Members(tokens[..i]) + {tokens[i]}
    ensures var h := tokens[i];
            |ActiveAmong(s, tokens[..i + 1])| ==
            |ActiveAmong(s, tokens[..i])| +
            if h in s.sessions && s.sessions[h].active && h !in tokens[..i] then 1 else 0
  {
    var h := tokens[i];
    assert tokens[..i + 1] == tokens[..i] + [h];
    var counted, counted' := ActiveAmong(s, tokens[..i]), ActiveAmong(s, tokens[..i + 1]);
    if h in s.sessions && s.sessions[h].active && h !in tokens[..i] {
      assert counted' == counted + {h};
    } else {
      assert counted' == counted;
    }
  }

  lemma ListOneMore(rows: map<Hash, Session>, seen: seq<Hash>, h: Hash, now: nat, u: string)
    requires h in rows && h !in seen
    ensures LoadedList(rows, seen + [h], now, u) ==
            LoadedList(rows, seen, now, u) + if Loadable(rows[h], now) && rows[h].userId == u then [h] else []
  {
    KeepingSnoc(seen, h, LoadableOf(rows, seen + [h], now, u));
    KeepingSame(seen, LoadableOf(rows, seen + [h], now, u), LoadableOf(rows, seen, now, u));
  }

  lemma {:induction false} NoOwnerNoList(rows: map<Hash, Session>, seen: seq<Hash>, now: nat, u: string)
    requires u !in Owners(rows, seen, now)
    ensures LoadedList(rows, seen, now, u) == []
  {
    EmptyOrHeaded(LoadedList(rows, seen, now, u));
  }

  lemma {:induction false} LoadOneMore(rows: map<Hash, Session>, order: seq<Hash>, i: nat, now: nat)
    requires Enumerates(order, rows) && i < |order|
    ensures var h := order[i];
            var loaded := Loaded(rows, order[..i], now);
            Loaded(rows, order[..i + 1], now) ==
            if !Loadable(rows[h], now) then loaded
            else State(loaded.sessions[h := rows[h]],
                       loaded.index[rows[h].userId := Tokens(loaded, rows[h].userId) + [h]],
                       rows)
  {
    var h, seen := order[i], order[..i];
    assert order[..i + 1] == seen + [h] && h !in seen;
    IndexOneMore(rows, seen, h, now);
    SessionsOneMore(rows, seen, h, now);
    if rows[h].userId !in Owners(rows, seen, now) {
      NoOwnerNoList(rows, seen, now, rows[h].userId);
    }
  }

  lemma SessionsOneMore(rows: map<Hash, Session>, seen: seq<Hash>, h: Hash, now: nat)
    requires h in rows
    ensures LoadedSessions(rows, seen + [h], now) ==
            if Loadable(rows[h], now) then LoadedSessions(rows, seen, now)[h := rows[h]]
            else LoadedSessions(rows, seen, now)
  {
  }

  lemma IndexOneMore(rows: map<Hash, Session>, seen: seq<Hash>, h: Hash, now: nat)
    requires h in rows && h !in seen
    ensures var before := LoadedIndex(rows, seen, now);
            var owner := rows[h].userId;
            LoadedIndex(rows, seen + [h], now) ==
            if Loadable(rows[h], now) then before[owner := LoadedList(rows, seen, now, owner) + [h]] else before
  {
    var owner := rows[h].userId;
    OwnersOneMore(rows, seen, h, now);
    forall u ensures LoadedList(rows, seen + [h], now, u) ==
                     if Loadable(rows[h], now) && u == owner then LoadedList(rows, seen, now, u) + [h]
                     else LoadedList(rows, seen, now, u)
    {
      ListOneMore(rows, seen, h, now, u);
    }
  }

  lemma OwnersOneMore(rows: map<Hash, Session>, seen: seq<Hash>, h: Hash, now: nat)
    requires h in rows
    ensures Owners(rows, seen + [h], now) ==
            Owners(rows, seen, now) + if Loadable(rows[h], now) then {rows[h].userId} else {}
  {
  }

  lemma WithoutTwice(tokens: seq<Hash>, first: set<Hash>, second: set<Hash>)
    ensures Without(Without(tokens, first), second) == Without(tokens, first + second)
  {
    var all := Members(tokens);
    var kept := Members(Without(tokens, first));
    KeepingTwice(tokens, all - first, kept - second);
    KeepingSame(tokens, (all - first) * (kept - second), all - (first + second));
  }
}
