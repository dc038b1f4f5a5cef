/**
 * The table of sessions in memory and its copy in the database (src/tools/sessions_manager.cpp,
 * src/handlers/login_handler.cpp, src/handlers/root_handler.cpp VerifySession_).
 */
module Sessions {
  import opened Wrappers
  import Sets

  datatype Session = Session(id: string, path: string, idUser: int, maxAge: int)

  /** A row of the sessions table. */
  datatype Row = Row(session: Session, createdAt: int)

  /** The condition of the query that reads the sessions: NOW() < created_at + INTERVAL max_age SECOND. */
  predicate Unexpired(row: Row, now: int) {
    now < row.createdAt + row.session.maxAge
  }

  /** The memory after reading the rows: sessions that are already there are not replaced. */
  function Loaded(memory: map<string, Session>, rows: map<string, Row>, now: int): map<string, Session> {
    map id | id in memory.Keys + rows.Keys && (id in memory || Unexpired(rows[id], now))
      :: if id in memory then memory[id] else rows[id].session
  }

  /** The sessions in memory and the rows in the database. */
  datatype State = State(memory: map<string, Session>, rows: map<string, Row>)

  /** A call of the manager with the answer of the database; a restart empties the memory before it reads. */
  datatype Event =
    | Create(session: Session, now: int, saved: bool)
    | Delete(id: string, saved: bool)
    | Read(now: int, answered: bool)
    | Restart(now: int, answered: bool)

  function Apply(s: State, e: Event): State {
    match e
    case Create(session, now, saved) =>
      State(s.memory[session.id := session], if saved then s.rows[session.id := Row(session, now)] else s.rows)
    case Delete(id, saved) =>
      if id !in s.memory then s else State(s.memory - {id}, if saved then s.rows - {id} else s.rows)
    case Read(now, answered) =>
      if answered then s.(memory := Loaded(s.memory, s.rows, now)) else s
    case Restart(now, answered) =>
      State(if answered then Loaded(map[], s.rows, now) else map[], s.rows)
  }

  /** What a run of calls leads to, from empty tables on. */
  function Run(events: seq<Event>): State {
    if events == [] then State(map[], map[])
    else
      var last := |events| - 1;
      Apply(Run(events[..last]), events[last])
  }

  predicate Creates(e: Event, id: string) {
    e.Create? && e.session.id == id
  }

  /** Event i creates the session. */
  ghost predicate Born(events: seq<Event>, i: int, id: string) {
    0 <= i < |events| && Creates(events[i], id)
  }

  /** No two events create a session under the same id. */
  ghost predicate FreshIds(events: seq<Event>) {
    forall i, j, id :: Born(events, i, id) && Born(events, j, id) ==> i == j
  }

  ghost predicate NeverRepeats(ids: nat -> string) {
    forall i: nat, j: nat :: ids(i) == ids(j) ==> i == j
  }

  /** Every session was created under one of the first n ids. */
  ghost predicate DrawnIds(events: seq<Event>, ids: nat -> string, n: nat) {
    forall i, id :: Born(events, i, id) ==> exists m: nat :: m < n && ids(m) == id
  }

  /** A history stays one with fresh ids when a session is created under the id that was drawn last. */
  lemma HistoryGrows(events: seq<Event>, e: Event, ids: nat -> string, n: nat, n': nat)
    requires NeverRepeats(ids) && FreshIds(events) && DrawnIds(events, ids, n) && n <= n'
    requires e.Create? ==> n < n' && e.session.id == ids(n' - 1)
    ensures FreshIds(events + [e]) && DrawnIds(events + [e], ids, n') && Run(events + [e]) == Apply(Run(events), e)
  {
    var all := events + [e];
    assert all[..|events|] == events;
    forall i, id | Born(all, i, id)
      ensures if i < |events| then Born(events, i, id) && !Creates(e, id) else id == ids(n' - 1)
    {
      if i < |events| {
        assert Born(events, i, id);
      }
    }
  }

  class SessionsTable {
    var rows: map<string, Row>

    constructor ()
      ensures rows == map[]
    {
      rows := map[];
    }
  }

  class SessionsManager {
    var sessions: map<string, Session>
    const table: SessionsTable
    /** The generator of session ids: the n-th id that is drawn. */
    const ids: nat -> string
    var drawn: nat
    /** All calls so far. */
    ghost var history: seq<Event>

    constructor (table: SessionsTable, ids: nat -> string)
      ensures this.table == table && this.ids == ids && sessions == map[] && drawn == 0 && history == []
      ensures NeverRepeats(ids) && table.rows == map[] ==> Valid()
    {
      this.table, this.ids, sessions, drawn, history := table, ids, map[], 0, [];
    }

    /** The sessions and the rows are those of the calls so far, which created every session under an id of its own. */
    ghost predicate Valid()
      reads this, table
    {
      && NeverRepeats(ids)
      && Snapshot() == Run(history)
      && FreshIds(history) && DrawnIds(history, ids, drawn)
    }

    /** Records a call that has just been carried out. */
    ghost method Record(e: Event, before: State, n: nat)
      requires Snapshot() == Apply(before, e) && n <= drawn
      requires e.Create? ==> n < drawn && e.session.id == ids(drawn - 1)
      modifies this`history
      ensures history == old(history) + [e]
      ensures (NeverRepeats(ids) && before == Run(old(history)) && FreshIds(old(history))
               && DrawnIds(old(history), ids, n)) ==> Valid()
    {
      if NeverRepeats(ids) && before == Run(history) && FreshIds(history) && DrawnIds(history, ids, n) {
        HistoryGrows(history, e, ids, n, drawn);
      }
      history := history + [e];
    }

    ghost function Snapshot(): State
      reads this, table
    {
      State(sessions, table.rows)
    }

    predicate SessionExists(id: string)
      reads this
    {
      id in sessions
    }

    /**
     * Draws ids until one is not in memory. With a generator that never repeats, this takes at most one draw more than
     * there are sessions.
     */
    method DrawId() returns (id: string)
      requires NeverRepeats(ids)
      modifies this`drawn
      ensures old(drawn) < drawn <= old(drawn) + |sessions| + 1
      ensures id == ids(drawn - 1) && id !in sessions
      ensures forall n :: old(drawn) <= n < drawn - 1 ==> ids(n) in sessions
    {
      id := ids(drawn);
      drawn := drawn + 1;
      ghost var first := old(drawn);
      while SessionExists(id)
        invariant first < drawn <= first + |sessions| + 1 && id == ids(drawn - 1)
        invariant forall n :: first <= n < drawn - 1 ==> ids(n) in sessions
        decreases first + |sessions| + 1 - drawn
      {
        var used := Sets.Pigeonhole((k: nat) => ids(first + k), drawn - first, sessions.Keys);
        id := ids(drawn);
        drawn := drawn + 1;
      }
    }

    /** Adds a session under a new id and tries to insert it in the table; a failed insert is ignored. */
    method CreateSession(idUser: int, path: string, maxAge: int, now: int, saved: bool) returns (session: Session)
      requires NeverRepeats(ids)
      modifies this, table
      ensures old(drawn) < drawn <= old(drawn) + |old(sessions)| + 1
      ensures session == Session(ids(drawn - 1), path, idUser, maxAge)
      ensures session.id !in old(sessions) && forall n :: old(drawn) <= n < drawn - 1 ==> ids(n) in old(sessions)
      ensures Snapshot() == Apply(old(Snapshot()), Create(session, now, saved))
      ensures history == old(history) + [Create(session, now, saved)] && (old(Valid()) ==> Valid())
    {
      var id := DrawId();
      session := Session(id, path, idUser, maxAge);
      sessions := sessions[id := session];
      if saved {
        table.rows := table.rows[id := Row(session, now)];
      }
      Record(Create(session, now, saved), old(Snapshot()), old(drawn));
    }

    /** Removes the session from memory and tries to delete its row; an id that is not in memory changes nothing. */
    method DeleteSession(id: string, saved: bool)
      modifies this, table
      ensures drawn == old(drawn)
      ensures Snapshot() == Apply(old(Snapshot()), Delete(id, saved))
      ensures history == old(history) + [Delete(id, saved)] && (old(Valid()) ==> Valid())
    {
      if id !in sessions {
        Record(Delete(id, saved), old(Snapshot()), drawn);
        return;
      }
      sessions := sessions - {id};
      if saved {
        table.rows := table.rows - {id};
      }
      Record(Delete(id, saved), old(Snapshot()), drawn);
    }

    /** Reads the unexpired rows; when the query fails nothing is loaded. */
    method ReadSessions(now: int, answered: bool)
      modifies this
      ensures drawn == old(drawn)
      ensures sessions == if answered then Loaded(old(sessions), table.rows, now) else old(sessions)
      ensures forall id :: id in old(sessions) ==> id in sessions && sessions[id] == old(sessions)[id]
      ensures forall id :: id !in old(sessions) ==>
                && (id in sessions <==>
                      && answered && id in table.rows
                      && now < table.rows[id].createdAt + table.rows[id].session.maxAge)
                && (id in sessions ==> sessions[id] == table.rows[id].session)
      ensures history == old(history) + [Read(now, answered)] && (old(Valid()) ==> Valid())
    {
      if answered {
        AddRows(now);
      }
      Record(Read(now, answered), old(Snapshot()), drawn);
    }

    /** The loop over the unexpired rows; a session that is already there is not replaced. */
    method AddRows(now: int)
      modifies this`sessions
      ensures sessions == Loaded(old(sessions), table.rows, now)
    {
      var found := map id | id in table.rows && Unexpired(table.rows[id], now) :: table.rows[id];
      var left := found.Keys;
      while left != {}
        invariant left <= found.Keys
        invariant sessions.Keys == old(sessions).Keys + (found.Keys - left)
        invariant forall id :: id in sessions ==>
                    sessions[id] == if id in old(sessions) then old(sessions)[id] else found[id].session
        decreases left
      {
        var id :| id in left;
        if id !in sessions {
          sessions := sessions[id := found[id].session];
        }
        left := left - {id};
      }
    }

    /** The program ends and starts again: the memory is empty, and the sessions are read. */
    method Restart(now: int, answered: bool)
      modifies this
      ensures drawn == old(drawn)
      ensures sessions == if answered then Loaded(map[], table.rows, now) else map[]
      ensures forall id ::
                && (id in sessions <==>
                      && answered && id in table.rows
                      && now < table.rows[id].createdAt + table.rows[id].session.maxAge)
                && (id in sessions ==> sessions[id] == table.rows[id].session)
      ensures history == old(history) + [Event.Restart(now, answered)] && (old(Valid()) ==> Valid())
    {
      sessions := map[];
      if answered {
        AddRows(now);
      }
      Record(Event.Restart(now, answered), old(Snapshot()), drawn);
    }

    /** The user of the request's cookie, if it names a session in memory. */
    function VerifySession(cookie: Option<string>): Option<int>
      reads this
    {
      if cookie.Some? && cookie.value in sessions then Some(sessions[cookie.value].idUser) else None
    }

    /** The session id of the request's cookie; empty if there is none in memory. */
    function SessionOfCookie(cookie: Option<string>): string
      reads this
    {
      if cookie.Some? && cookie.value in sessions then cookie.value else ""
    }

    /** Logging in: a request with a session keeps it, a wrong user gets none, a known user gets a new one. */
    method StartSession(cookie: Option<string>, user: Option<int>, maxAge: int, now: int, saved: bool)
      returns (created: Option<Session>)
      requires NeverRepeats(ids)
      modifies this, table
      ensures created.Some? <==>
                user.Some? && (cookie.None? || cookie.value == "" || cookie.value !in old(sessions))
      ensures created.None? ==> Snapshot() == old(Snapshot())
      ensures history == old(history) + if created.Some? then [Create(created.value, now, saved)] else []
      ensures old(Valid()) ==> Valid()
      ensures created.Some? ==>
                && created.value.id !in old(sessions) && created.value.idUser == user.value
                && created.value.path == "/" && created.value.maxAge == maxAge
                && Snapshot() == Apply(old(Snapshot()), Create(created.value, now, saved))
                && VerifySession(Some(created.value.id)) == user
                && forall other :: other != created.value.id
                     ==> VerifySession(Some(other)) == old(VerifySession(Some(other)))
    {
      if SessionOfCookie(cookie) != "" || user.None? { return None; }
      var session := CreateSession(user.value, "/", maxAge, now, saved);
      created := Some(session);
    }

    /** Logging out: afterwards the cookie names no session, and every other session is as it was. */
    method EndSession(cookie: Option<string>, saved: bool)
      modifies this, table
      ensures cookie != Some("") ==> VerifySession(cookie).None?
      ensures forall other :: cookie != Some(other) ==> VerifySession(Some(other)) == old(VerifySession(Some(other)))
      ensures if cookie.Some? && cookie.value != "" && cookie.value in old(sessions)
              then Snapshot() == Apply(old(Snapshot()), Delete(cookie.value, saved))
              else Snapshot() == old(Snapshot()) && history == old(history)
      ensures old(Valid()) ==> Valid()
    {
      var id := SessionOfCookie(cookie);
      if id != "" {
        DeleteSession(id, saved);
      }
    }
  }
}
