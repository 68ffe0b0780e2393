/** Authentication read off the history of events: which hashes both token stores accept after a
    run, said of the events alone (internal/auth/auth-manager.go:135-158). */
module TokenLaws {
  import opened Semver
  import opened Tokens
  import opened TokenStores
  import File = FileTokens
  import RedisTokens

  // ---------------------------------------------------------------- histories

  function Clock(start: int, events: seq<Event>): int
  {
    if events == [] then start
    else Clock(start, events[..|events| - 1]) + (if events[|events| - 1].Wait? then events[|events| - 1].ticks else 0)
  }

  /** Event i issues its token: the token is not revoked, expires in the future if at all, and no
      earlier token was issued with its identifier or its hash. */
  ghost predicate Issues(start: int, events: seq<Event>, i: nat)
    decreases i
  {
    && i < |events| && events[i].Issue?
    && var t := events[i].token;
    && t.revokedAt == None
    && (t.expiresAt.Some? ==> t.expiresAt.value > Clock(start, events[..i]))
    && (forall j: nat :: j < i && Issues(start, events, j) ==> events[j].token.id != t.id && events[j].token.hash != t.hash)
  }

  ghost predicate Later(events: seq<Event>, i: nat, e: Event)
  {
    exists j :: i < j < |events| && events[j] == e
  }

  /** A token with this hash was issued, was neither revoked nor deleted since, and has not
      expired at the given time. */
  ghost predicate IsGood(start: int, events: seq<Event>, hash: string, at: int)
  {
    exists i: nat :: Issues(start, events, i) && events[i].token.hash == hash && IsKept(events, i, at)
  }

  ghost predicate IsKept(events: seq<Event>, i: nat, at: int)
    requires i < |events| && events[i].Issue?
  {
    var t := events[i].token;
    && !Later(events, i, Revocation(t.id)) && !Later(events, i, Deletion(t.id))
    && (t.expiresAt == None || at <= t.expiresAt.value)
  }

  // ---------------------------------------------------------------- what a run remembers

  lemma LaterGrows(events: seq<Event>, last: Event, i: nat, e: Event)
    requires i < |events|
    ensures Later(events + [last], i, e) <==> Later(events, i, e) || last == e
  {
    var all := events + [last];
    if Later(events, i, e) {
      var j :| i < j < |events| && events[j] == e;
      assert all[j] == e;
    }
    if last == e {
      assert all[|events|] == e;
    }
  }

  lemma {:induction false} IssuesGrows(start: int, events: seq<Event>, last: Event, i: nat)
    requires i < |events|
    ensures Issues(start, events + [last], i) <==> Issues(start, events, i)
    decreases i
  {
    var all := events + [last];
    assert all[..i] == events[..i] && all[i] == events[i];
    forall j: nat | j < i
      ensures Issues(start, all, j) <==> Issues(start, events, j)
      ensures all[j] == events[j]
    {
      IssuesGrows(start, events, last, j);
    }
  }

  /** The state after a run, event by event. */
  ghost predicate Remembers(start: int, events: seq<Event>, st: State)
  {
    && st.now == Clock(start, events)
    && (forall i: nat :: Issues(start, events, i) ==> IsRemembered(events, i, st))
    && (forall id :: id in st.ever ==> exists i: nat :: Issues(start, events, i) && events[i].token.id == id)
    && (forall id :: id in st.tokens ==> id in st.ever)
  }

  ghost predicate IsRemembered(events: seq<Event>, i: nat, st: State)
    requires i < |events| && events[i].Issue?
  {
    var t := events[i].token;
    && t.id in st.ever && st.ever[t.id] == t
    && (t.id in st.tokens <==> !Later(events, i, Deletion(t.id)))
    && (t.id in st.tokens ==> SameToken(st.tokens[t.id], t) && (st.tokens[t.id].revokedAt.Some? <==> Later(events, i, Revocation(t.id))))
  }

  /** The new token of a last event is issued exactly when the specification takes it. */
  lemma IssuesLast(start: int, events: seq<Event>, t: Token, st: State)
    requires Remembers(start, events, st)
    ensures Issues(start, events + [Issue(t)], |events|) <==> IsFresh(st.ever, st.now, t)
  {
    var all := events + [Issue(t)];
    assert all[|events|] == Issue(t) && all[..|events|] == events;
    forall j: nat | j < |events|
      ensures Issues(start, all, j) <==> Issues(start, events, j)
      ensures all[j] == events[j]
    {
      IssuesGrows(start, events, Issue(t), j);
    }
    hide Later;
    if IsFresh(st.ever, st.now, t) {
      forall j: nat | j < |events| && Issues(start, all, j)
        ensures all[j].token.id != t.id && all[j].token.hash != t.hash
      {
        assert IsRemembered(events, j, st);
      }
    }
    if Issues(start, all, |events|) {
      forall id | id in st.ever
        ensures id != t.id && st.ever[id].hash != t.hash
      {
        var j: nat :| Issues(start, events, j) && events[j].token.id == id;
        assert IsRemembered(events, j, st) && Issues(start, all, j);
      }
    }
  }

  lemma OldIsRemembered(start: int, events: seq<Event>, last: Event, st: State, i: nat)
    requires Remembers(start, events, st) && Issues(start, events, i)
    ensures IsRemembered(events + [last], i, SpecStep(st, last))
  {
    var all, t := events + [last], events[i].token;
    assert all[i] == events[i] && IsRemembered(events, i, st);
    LaterGrows(events, last, i, Deletion(t.id));
    LaterGrows(events, last, i, Revocation(t.id));
    hide Later, Issues, Remembers, SpecStep;
    StepOnToken(st, last, t);
  }

  /** One event seen from a token issued before. */
  lemma StepOnToken(st: State, last: Event, t: Token)
    requires t.id in st.ever && st.ever[t.id] == t
    ensures var next := SpecStep(st, last);
            && t.id in next.ever && next.ever[t.id] == t
            && (t.id in next.tokens <==> t.id in st.tokens && last != Deletion(t.id))
            && (t.id in next.tokens ==>
                 && SameToken(next.tokens[t.id], st.tokens[t.id])
                 && (next.tokens[t.id].revokedAt.Some? <==> st.tokens[t.id].revokedAt.Some? || last == Revocation(t.id)))
  {
  }

  lemma NewIsRemembered(events: seq<Event>, t: Token, st: State)
    requires IsFresh(st.ever, st.now, t)
    ensures IsRemembered(events + [Issue(t)], |events|, SpecStep(st, Issue(t)))
  {
    hide IsFresh;
    NewIsUnrevoked(st, t);
  }

  lemma NewIsUnrevoked(st: State, t: Token)
    requires IsFresh(st.ever, st.now, t)
    ensures t.revokedAt.None?
  {
  }

  lemma StepRemembers(start: int, events: seq<Event>, last: Event, st: State)
    requires Remembers(start, events, st)
    ensures Remembers(start, events + [last], SpecStep(st, last))
  {
    var all, next := events + [last], SpecStep(st, last);
    assert all[..|events|] == events;
    forall i: nat | Issues(start, all, i)
      ensures IsRemembered(all, i, next)
    {
      if i < |events| {
        IssuesGrows(start, events, last, i);
        OldIsRemembered(start, events, last, st, i);
      } else {
        IssuesLast(start, events, last.token, st);
        NewIsRemembered(events, last.token, st);
      }
    }
    forall id | id in next.ever
      ensures exists i: nat :: Issues(start, all, i) && all[i].token.id == id
    {
      if id in st.ever {
        var i: nat :| Issues(start, events, i) && events[i].token.id == id;
        IssuesGrows(start, events, last, i);
        assert all[i].token.id == id;
      } else {
        IssuesLast(start, events, last.token, st);
        assert all[|events|].token.id == id;
      }
    }
    hide Issues, IsRemembered, IsFresh;
  }

  lemma {:induction false} RunRemembers(start: int, events: seq<Event>)
    ensures Remembers(start, events, SpecRun(State(map[], map[], start), events))
  {
    hide Remembers, SpecStep;
    if events == [] {
      NothingRemembered(start);
    } else {
      var front, last := events[..|events| - 1], events[|events| - 1];
      RunRemembers(start, front);
      StepRemembers(start, front, last, SpecRun(State(map[], map[], start), front));
      assert front + [last] == events;
    }
  }

  lemma NothingRemembered(start: int)
    ensures Remembers(start, [], State(map[], map[], start))
  {
  }

  // ---------------------------------------------------------------- what is accepted

  lemma AcceptsIff(start: int, events: seq<Event>, st: State, hash: string, at: int)
    requires Remembers(start, events, st)
    ensures Accepts(st.tokens, hash, at) <==> IsGood(start, events, hash, at)
  {
    hide Later, Issues, Remembers, IsKept, Tokens.IsValid;
    if Accepts(st.tokens, hash, at) {
      var id :| id in st.tokens && st.tokens[id].hash == hash && Tokens.IsValid(st.tokens[id], at);
      AcceptedIsGood(start, events, st, id, at);
    }
    if IsGood(start, events, hash, at) {
      var i := GoodEvent(start, events, hash, at);
      GoodIsAccepted(start, events, st, i, at);
    }
  }

  lemma GoodEvent(start: int, events: seq<Event>, hash: string, at: int) returns (i: nat)
    requires IsGood(start, events, hash, at)
    ensures i < |events| && events[i].Issue? && Issues(start, events, i) && events[i].token.hash == hash && IsKept(events, i, at)
  {
    i :| Issues(start, events, i) && events[i].token.hash == hash && IsKept(events, i, at);
  }

  lemma AcceptedIsGood(start: int, events: seq<Event>, st: State, id: string, at: int)
    requires Remembers(start, events, st) && id in st.tokens && Tokens.IsValid(st.tokens[id], at)
    ensures IsGood(start, events, st.tokens[id].hash, at)
  {
    var i: nat :| Issues(start, events, i) && events[i].token.id == id;
    assert IsRemembered(events, i, st);
    hide Later, Issues, Remembers;
    assert IsKept(events, i, at);
  }

  lemma GoodIsAccepted(start: int, events: seq<Event>, st: State, i: nat, at: int)
    requires Remembers(start, events, st) && Issues(start, events, i) && IsKept(events, i, at)
    ensures Accepts(st.tokens, events[i].token.hash, at)
  {
    assert IsRemembered(events, i, st);
    hide Later, Issues, Remembers;
  }

  /** Main result. After every run of events, at its end and at any later time, each store accepts
      a hash exactly if a token with that hash was issued, not revoked or deleted since, and has
      not expired. */
  lemma AcceptedIff(start: int, events: seq<Event>, hash: string, at: int)
    requires at >= Clock(start, events)
    ensures Accepts(FileRun(State(map[], map[], start), events).tokens, hash, at) <==> IsGood(start, events, hash, at)
    ensures RedisAccepts(RedisRun(RedisTokens.Empty(start), events).s.db, hash, at) <==> IsGood(start, events, hash, at)
  {
    RunRemembers(start, events);
    AcceptsIff(start, events, SpecRun(State(map[], map[], start), events), hash, at);
    hide IsGood, Accepts, RedisAccepts, FileRun, RedisRun, SpecRun;
    StoresAreIndistinguishable(start, events, hash, at);
  }

  /** The middleware on the file store as it is, after any run with any flush faults. */
  method DriveAndAuthenticate(store: File.FileTokenStore, events: seq<Event>, faults: seq<File.Fault>, tmp: string, start: int,
                              hash: string, at: int)
    returns (ok: bool)
    requires store.Inv() && store.byID == map[] && |faults| == |events|
    requires tmp !in store.disk.files && tmp != store.path && at >= Clock(start, events)
    modifies store, store.disk
    ensures ok <==> IsGood(start, events, hash, at)
  {
    hide IsGood, Accepts, Clock;
    DriveFile(store, events, faults, tmp, start);
    ok := store.Authenticate(hash, at);
    AcceptedIff(start, events, hash, at);
  }

  /** In particular a revocation or a deletion is final. */
  lemma TakenBackForGood(start: int, before: seq<Event>, taken: Event, after: seq<Event>, t: Token, at: int)
    requires taken == Revocation(t.id) || taken == Deletion(t.id)
    requires exists i: nat :: i < |before| && before[i] == Issue(t) && Issues(start, before, i)
    requires at >= Clock(start, before + [taken] + after)
    ensures var events := before + [taken] + after;
            && !Accepts(FileRun(State(map[], map[], start), events).tokens, t.hash, at)
            && !RedisAccepts(RedisRun(RedisTokens.Empty(start), events).s.db, t.hash, at)
  {
    hide Accepts, RedisAccepts, FileRun, RedisRun, Clock, IsGood, IsKept, Issues;
    var events := before + [taken] + after;
    AcceptedIff(start, events, t.hash, at);
    if IsGood(start, events, t.hash, at) {
      var k := GoodEvent(start, events, t.hash, at);
      var i: nat :| i < |before| && before[i] == Issue(t) && Issues(start, before, i);
      TakenIsNotKept(start, before, taken, after, i, k, at);
      assert false;
    }
  }

  lemma TakenIsNotKept(start: int, before: seq<Event>, taken: Event, after: seq<Event>, i: nat, k: nat, at: int)
    requires i < |before| && before[i].Issue? && Issues(start, before, i)
    requires taken == Revocation(before[i].token.id) || taken == Deletion(before[i].token.id)
    requires var events := before + [taken] + after;
             k < |events| && events[k].Issue? && Issues(start, events, k) && events[k].token.hash == before[i].token.hash
    ensures !IsKept(before + [taken] + after, k, at)
  {
    var events := before + [taken] + after;
    IssuesExtends(start, before, [taken] + after, i);
    assert before + ([taken] + after) == events && events[i] == before[i];
    IssuedOnce(start, events, i, k);
    assert events[|before|] == taken;
    assert Later(events, i, taken);
    hide Issues;
  }

  lemma {:induction false} IssuesExtends(start: int, events: seq<Event>, more: seq<Event>, i: nat)
    requires i < |events|
    ensures Issues(start, events + more, i) <==> Issues(start, events, i)
    decreases |more|
  {
    if more == [] {
      assert events + more == events;
    } else {
      IssuesGrows(start, events, more[0], i);
      IssuesExtends(start, events + [more[0]], more[1..], i);
      assert events + more == events + [more[0]] + more[1..];
    }
  }

  /** One hash is issued once. */
  lemma IssuedOnce(start: int, events: seq<Event>, i: nat, k: nat)
    requires Issues(start, events, i) && Issues(start, events, k) && events[i].token.hash == events[k].token.hash
    ensures i == k
  {
  }
}
