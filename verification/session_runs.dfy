/** What holds of the session tables over every run of logins, logouts, restarts and failing database writes. */
module SessionRuns {
  import opened Sessions

  predicate Deletes(e: Event, id: string) {
    e.Delete? && e.id == id
  }

  /** An event that brings the row into memory, if it is there and not expired. */
  predicate Loads(e: Event, row: Row) {
    (e.Read? || e.Restart?) && e.answered && Unexpired(row, e.now)
  }

  /** The row that the event leaves in the table when it is saved. */
  function RowOf(e: Event): Row
    requires e.Create?
  {
    Row(e.session, e.now)
  }

  ghost predicate NoRestartAfter(events: seq<Event>, i: int) {
    forall j :: 0 <= j < |events| && i < j ==> !events[j].Restart?
  }

  ghost predicate NoDeleteAfter(events: seq<Event>, i: int, id: string) {
    forall j :: 0 <= j < |events| && i < j ==> !Deletes(events[j], id)
  }

  ghost predicate NoLoadAfter(events: seq<Event>, i: int, row: Row) {
    forall j :: 0 <= j < |events| && i < j ==> !Loads(events[j], row)
  }

  /** Its insert failed, and since then it was not deleted and nothing was restarted. */
  ghost predicate Unsaved(events: seq<Event>, id: string) {
    exists i :: Born(events, i, id) && !events[i].saved && NoRestartAfter(events, i) && NoDeleteAfter(events, i, id)
  }

  /** The event leaves the row but not the session in memory: a failed delete, or a restart that does not load it. */
  predicate Drops(e: Event, id: string, row: Row) {
    (Deletes(e, id) && !e.saved) || (e.Restart? && !Loads(e, row))
  }

  /** It was dropped, and since then no reading of the sessions has loaded it. */
  ghost predicate Dropped(events: seq<Event>, id: string) {
    exists i, j :: Born(events, i, id) && i < j < |events| && Drops(events[j], id, RowOf(events[i]))
      && NoLoadAfter(events, j, RowOf(events[i]))
  }

  // ----- One more event -----

  lemma BornSnoc(events: seq<Event>, e: Event, i: int, id: string)
    ensures Born(events + [e], i, id) <==> Born(events, i, id) || (i == |events| && Creates(e, id))
  {
  }

  lemma FreshPrefix(events: seq<Event>, e: Event)
    requires FreshIds(events + [e])
    ensures FreshIds(events)
    ensures forall i, id :: Born(events, i, id) ==> !Creates(e, id)
  {
    forall i, j, id | Born(events, i, id) && Born(events, j, id)
      ensures i == j
    {
      BornSnoc(events, e, i, id);
      BornSnoc(events, e, j, id);
    }
    forall i, id | Born(events, i, id)
      ensures !Creates(e, id)
    {
      BornSnoc(events, e, i, id);
      BornSnoc(events, e, |events|, id);
    }
  }

  /** What is in memory or in the table is what the event that created it put there. */
  ghost predicate Contents(events: seq<Event>, id: string) {
    var s := Run(events);
    && (id in s.memory ==>
          s.memory[id].id == id && exists i :: Born(events, i, id) && s.memory[id] == events[i].session)
    && (id in s.rows ==>
          exists i :: Born(events, i, id) && events[i].saved && s.rows[id] == Row(events[i].session, events[i].now))
  }

  lemma {:induction false} ContentsKept(events: seq<Event>, id: string)
    ensures Contents(events, id)
  {
    if events != [] {
      var last := |events| - 1;
      var front := events[..last];
      ContentsKept(front, id);
      var s, t := Run(front), Run(events);
      forall i | Born(front, i, id)
        ensures Born(events, i, id) && events[i] == front[i]
      {
      }
      assert Creates(events[last], id) ==> Born(events, last, id);
    }
  }

  lemma UnsavedSnoc(events: seq<Event>, e: Event, id: string)
    ensures Unsaved(events + [e], id) <==>
              && !e.Restart? && !Deletes(e, id)
              && (Unsaved(events, id) || (Creates(e, id) && !e.saved))
  {
    var all := events + [e];
    assert all[|events|] == e;
    if Unsaved(all, id) {
      var i :| Born(all, i, id) && !all[i].saved && NoRestartAfter(all, i) && NoDeleteAfter(all, i, id);
      if i < |events| {
        assert all[i] == events[i];
        assert forall j :: 0 <= j < |events| ==> all[j] == events[j];
        assert Born(events, i, id) && NoRestartAfter(events, i) && NoDeleteAfter(events, i, id);
      }
    }
    if !e.Restart? && !Deletes(e, id) {
      if Unsaved(events, id) {
        var i :| Born(events, i, id) && !events[i].saved && NoRestartAfter(events, i) && NoDeleteAfter(events, i, id);
        assert Born(all, i, id) && NoRestartAfter(all, i) && NoDeleteAfter(all, i, id);
      } else if Creates(e, id) && !e.saved {
        assert Born(all, |events|, id) && NoRestartAfter(all, |events|) && NoDeleteAfter(all, |events|, id);
      }
    }
  }

  lemma DroppedSnoc(events: seq<Event>, e: Event, id: string)
    requires FreshIds(events)
    ensures Dropped(events + [e], id) <==>
              exists i :: Born(events, i, id)
                && (Drops(e, id, RowOf(events[i])) || (Dropped(events, id) && !Loads(e, RowOf(events[i]))))
  {
    var all := events + [e];
    assert all[|events|] == e;
    assert forall j :: 0 <= j < |events| ==> all[j] == events[j];
    if Dropped(all, id) {
      var i, j :| Born(all, i, id) && i < j < |all| && Drops(all[j], id, RowOf(all[i]))
                  && NoLoadAfter(all, j, RowOf(all[i]));
      assert Born(events, i, id);
      if j < |events| {
        assert NoLoadAfter(events, j, RowOf(events[i]));
      }
    }
    if i :| Born(events, i, id)
            && (Drops(e, id, RowOf(events[i])) || (Dropped(events, id) && !Loads(e, RowOf(events[i])))) {
      assert Born(all, i, id);
      if Drops(e, id, RowOf(events[i])) {
        assert NoLoadAfter(all, |events|, RowOf(all[i]));
      } else {
        var k, j :| Born(events, k, id) && k < j < |events| && Drops(events[j], id, RowOf(events[k]))
                    && NoLoadAfter(events, j, RowOf(events[k]));
        assert Born(all, k, id) && NoLoadAfter(all, j, RowOf(all[k]));
      }
    }
  }

  // ----- Memory against the database -----

  ghost predicate UnsavedAgrees(events: seq<Event>, id: string) {
    id in Run(events).memory && id !in Run(events).rows <==> Unsaved(events, id)
  }

  ghost predicate DroppedAgrees(events: seq<Event>, id: string) {
    id in Run(events).rows ==> (id !in Run(events).memory <==> Dropped(events, id))
  }

  lemma UnsavedStep(front: seq<Event>, e: Event, id: string)
    requires FreshIds(front + [e]) && UnsavedAgrees(front, id)
    ensures UnsavedAgrees(front + [e], id)
  {
    assert (front + [e])[..|front|] == front;
    FreshPrefix(front, e);
    ContentsKept(front, id);
    UnsavedSnoc(front, e, id);
  }

  lemma DroppedStep(front: seq<Event>, e: Event, id: string)
    requires FreshIds(front + [e]) && DroppedAgrees(front, id)
    ensures DroppedAgrees(front + [e], id)
  {
    assert (front + [e])[..|front|] == front;
    FreshPrefix(front, e);
    ContentsKept(front, id);
    DroppedSnoc(front, e, id);
  }

  /**
   * In every run, a session is in memory without a row exactly when its insert failed and nothing has removed it
   * since; a row has no session in memory exactly when a failed delete or a restart dropped it and nothing has loaded
   * it since.
   */
  lemma {:induction false} MemoryAgainstRows(events: seq<Event>, id: string)
    requires FreshIds(events)
    ensures UnsavedAgrees(events, id) && DroppedAgrees(events, id)
  {
    if events != [] {
      var last := |events| - 1;
      var front, e := events[..last], events[last];
      assert events == front + [e];
      FreshPrefix(front, e);
      MemoryAgainstRows(front, id);
      UnsavedStep(front, e, id);
      DroppedStep(front, e, id);
    }
  }

  /** The same of a manager and its table, at any moment of its life. */
  lemma ManagerAgainstTable(manager: SessionsManager, id: string)
    requires manager.Valid()
    ensures id in manager.sessions && id !in manager.table.rows <==> Unsaved(manager.history, id)
    ensures id in manager.table.rows ==> (id !in manager.sessions <==> Dropped(manager.history, id))
    ensures Contents(manager.history, id)
  {
    MemoryAgainstRows(manager.history, id);
    ContentsKept(manager.history, id);
  }

  // ----- Restarts -----

  /** The database answered this event, and it does not read the sessions later than `now`. */
  predicate Healthy(e: Event, now: int) {
    match e
    case Create(_, _, saved) => saved
    case Delete(_, saved) => saved
    case Read(time, answered) => answered && time <= now
    case Restart(time, answered) => answered && time <= now
  }

  /** The session was created, has not been deleted since and has not expired. */
  ghost predicate Alive(events: seq<Event>, id: string, now: int) {
    exists i :: Born(events, i, id) && NoDeleteAfter(events, i, id)
      && now < events[i].now + events[i].session.maxAge
  }

  lemma AliveSnoc(events: seq<Event>, e: Event, id: string, now: int)
    ensures Alive(events + [e], id, now) <==>
              && !Deletes(e, id)
              && (Alive(events, id, now) || (Creates(e, id) && Unexpired(Row(e.session, e.now), now)))
  {
    var all := events + [e];
    assert all[|events|] == e;
    assert forall j :: 0 <= j < |events| ==> all[j] == events[j];
    if Alive(all, id, now) {
      var i :| Born(all, i, id) && NoDeleteAfter(all, i, id) && Unexpired(Row(all[i].session, all[i].now), now);
      if i < |events| {
        assert Born(events, i, id) && NoDeleteAfter(events, i, id);
      }
    }
    if !Deletes(e, id) {
      if Alive(events, id, now) {
        var i :| Born(events, i, id) && NoDeleteAfter(events, i, id)
                 && Unexpired(Row(events[i].session, events[i].now), now);
        assert Born(all, i, id) && NoDeleteAfter(all, i, id);
      } else if Creates(e, id) && Unexpired(Row(e.session, e.now), now) {
        assert Born(all, |events|, id) && NoDeleteAfter(all, |events|, id);
      }
    }
  }

  lemma {:induction false} AliveRows(events: seq<Event>, id: string, now: int)
    requires FreshIds(events) && forall e :: e in events ==> Healthy(e, now)
    ensures var s := Run(events);
            && (Alive(events, id, now) <==> id in s.rows && Unexpired(s.rows[id], now))
            && (id in s.rows && Unexpired(s.rows[id], now) ==> id in s.memory)
  {
    if events != [] {
      var last := |events| - 1;
      var front, e := events[..last], events[last];
      assert events == front + [e] && Healthy(e, now);
      FreshPrefix(front, e);
      AliveRows(front, id, now);
      AliveSnoc(front, e, id, now);
      ContentsKept(front, id);
    }
  }

  /** When no write failed, a restart yields exactly the sessions that were created, not deleted and not expired. */
  lemma RestartYieldsAlive(events: seq<Event>, now: int, id: string)
    requires FreshIds(events) && forall e :: e in events ==> Healthy(e, now)
    ensures var s := Run(events + [Restart(now, true)]);
            && (id in s.memory <==> Alive(events, id, now))
            && (id in s.memory ==> exists i :: Born(events, i, id) && s.memory[id] == events[i].session)
  {
    AliveRows(events, id, now);
    ContentsKept(events, id);
    assert (events + [Restart(now, true)])[..|events|] == events;
  }

  /**
   * A session that was logged out is back after a restart exactly when its row was there, the delete of it failed,
   * and it has not expired: the code ignores the failed delete.
   */
  lemma LogoutUndoneByRestart(events: seq<Event>, id: string, saved: bool, now: int)
    requires id in Run(events).memory
    ensures var before := Run(events);
            var out := Run(events + [Delete(id, saved)]);
            var back := Run(events + [Delete(id, saved)] + [Restart(now, true)]);
            && id !in out.memory
            && (id in back.memory <==>
                  && !saved && id in before.rows
                  && now < before.rows[id].createdAt + before.rows[id].session.maxAge)
  {
    assert (events + [Delete(id, saved)])[..|events|] == events;
    assert (events + [Delete(id, saved)] + [Restart(now, true)])[..|events| + 1] == events + [Delete(id, saved)];
  }

  /** A session is created and logged out, the delete of its row fails, and after a restart it is back. */
  lemma LoggedOutAndBack()
    ensures var session := Session("a", "/", 1, 10);
            var events := [Create(session, 0, true), Delete("a", false)];
            && Run(events).memory == map[]
            && Run(events + [Restart(5, true)]).memory == map["a" := session]
  {
    var session := Session("a", "/", 1, 10);
    var events := [Create(session, 0, true), Delete("a", false)];
    assert events[..1] == [Create(session, 0, true)] && events[..1][..0] == [];
    assert Run(events[..1]) == State(map["a" := session], map["a" := Row(session, 0)]);
    assert (events + [Restart(5, true)])[..2] == events;
    assert Run(events).memory == map[];
  }
}
