/** In what order the calls of `mutate` save and log. */
module LogOrder {
  import opened GraphPaths
  import opened MutateProtocol
  import opened Wrappers

  // ---- Turns ----

  predicate HasSaved<D>(ph: Phase<D>) {
    ph.Saved? || (ph.Leaving? && (ph.outcome == Done || ph.outcome == LogFailed))
  }

  predicate HasLogged<D>(ph: Phase<D>) { ph.Leaving? && ph.outcome == Done }

  // Each request is that of the call with the turn beside it.
  ghost predicate Matches<D>(taken: seq<Request<D>>, rs: seq<Request<D>>, turns: seq<nat>) {
    |turns| == |rs| && forall i :: 0 <= i < |rs| ==> turns[i] < |taken| && taken[turns[i]] == rs[i]
  }

  // The requests for one graph come in the order in which they got the lock, each once.
  ghost predicate InTurn<D>(rs: seq<Request<D>>, turns: seq<nat>)
    requires |turns| == |rs|
  {
    forall i, j :: 0 <= i < j < |rs| && rs[i].id == rs[j].id ==> turns[i] < turns[j]
  }

  // No request for the graph has a later turn than k.
  ghost predicate UpTo<D>(rs: seq<Request<D>>, turns: seq<nat>, id: string, k: nat)
    requires |turns| == |rs|
  {
    forall i :: 0 <= i < |rs| && rs[i].id == id ==> turns[i] <= k
  }

  // What the history says of a call that holds its lock.
  ghost predicate TurnFits<D>(s: State<D>, ph: Phase<D>)
    requires ph.Critical() && |s.saveTurns| == |s.saves| && |s.logTurns| == |s.log|
  {
    && ph.turn < |s.taken| && s.taken[ph.turn] == ph.req
    && (ph.turn in s.saveTurns <==> HasSaved(ph)) && (ph.turn in s.logTurns <==> HasLogged(ph))
    && UpTo(s.saves, s.saveTurns, ph.req.id, ph.turn) && UpTo(s.log, s.logTurns, ph.req.id, ph.turn)
  }

  ghost predicate HistoryOk<D>(s: State<D>) {
    && Matches(s.taken, s.saves, s.saveTurns) && Matches(s.taken, s.log, s.logTurns)
    && InTurn(s.saves, s.saveTurns) && InTurn(s.log, s.logTurns)
    && (forall k :: k in s.logTurns ==> k in s.saveTurns)
  }

  ghost predicate AllFit<D>(s: State<D>)
    requires |s.saveTurns| == |s.saves| && |s.logTurns| == |s.log|
  {
    forall t :: At(s, t).Critical() ==> TurnFits(s, At(s, t))
  }

  ghost predicate OwnTurns<D>(s: State<D>) {
    forall t, u :: t != u && At(s, t).Critical() && At(s, u).Critical() ==> At(s, t).turn != At(s, u).turn
  }

  ghost predicate TurnsOk<D>(s: State<D>) { HistoryOk(s) && AllFit(s) && OwnTurns(s) }

  lemma OtherGraph<D>(ids: set<string>, s: State<D>, t: nat, u: nat)
    requires LocksOk(ids, s) && At(s, t).Critical() && At(s, u).Critical() && t != u
    ensures At(s, t).req.id != At(s, u).req.id
  {
  }

  // One more request with a turn later than those of its graph.
  lemma InTurnSnoc<D>(taken: seq<Request<D>>, rs: seq<Request<D>>, turns: seq<nat>, req: Request<D>, k: nat)
    requires Matches(taken, rs, turns) && InTurn(rs, turns) && UpTo(rs, turns, req.id, k) && k !in turns
    requires k < |taken| && taken[k] == req
    ensures Matches(taken, rs + [req], turns + [k]) && InTurn(rs + [req], turns + [k])
    ensures UpTo(rs + [req], turns + [k], req.id, k)
    ensures forall id, l :: id != req.id && UpTo(rs, turns, id, l) ==> UpTo(rs + [req], turns + [k], id, l)
  {
  }

  lemma MatchesMore<D>(taken: seq<Request<D>>, rs: seq<Request<D>>, turns: seq<nat>, req: Request<D>)
    requires Matches(taken, rs, turns)
    ensures Matches(taken + [req], rs, turns) && |taken| !in turns
    ensures forall id :: UpTo(rs, turns, id, |taken|)
  {
  }

  // How a step moves the history on.
  ghost predicate Moves<D>(s: State<D>, s': State<D>, now: Phase<D>, a: Action<D>) {
    match a
    case Acquire => now.Waiting? && s' == s.(threads := s'.threads, locks := s'.locks, taken := s.taken + [now.req])
    case Save(ok) =>
      now.Applied?
      && if ok
         then s' == s.(threads := s'.threads, disk := s'.disk,
                       saves := s.saves + [now.req], saveTurns := s.saveTurns + [now.turn])
         else s' == s.(threads := s'.threads)
    case Append(ok) =>
      now.Saved?
      && if ok then s' == s.(threads := s'.threads, log := s.log + [now.req], logTurns := s.logTurns + [now.turn])
         else s' == s.(threads := s'.threads, lost := s'.lost)
    case _ => s' == s.(threads := s'.threads, locks := s'.locks)
  }

  // Where a step leaves the thread that takes it.
  ghost predicate Enters<D>(s: State<D>, now: Phase<D>, a: Action<D>, next: Phase<D>) {
    match a
    case Call(_) => next.Waiting?
    case Acquire => now.Waiting? && next.Locked? && next.req == now.req && next.turn == |s.taken|
    case Unlock => next.Idle?
    case _ =>
      && now.Critical() && next.Critical() && next.req == now.req && next.turn == now.turn
      && (HasSaved(next) <==> HasSaved(now) || (a.Save? && a.ok))
      && (HasLogged(next) <==> a.Append? && a.ok)
      && !HasLogged(now)
  }

  lemma StepShape<D>(ids: set<string>, s: State<D>, t: nat, a: Action<D>)
    requires Enabled(ids, s, t, a)
    ensures Moves(s, Do(ids, s, t, a), At(s, t), a)
    ensures Enters(s, At(s, t), a, At(Do(ids, s, t, a), t))
    ensures forall u :: u != t ==> At(Do(ids, s, t, a), u) == At(s, u)
  {
    hide ResolvePath, OnDisk;
  }

  lemma HistoryStep<D>(s: State<D>, s': State<D>, now: Phase<D>, a: Action<D>)
    requires HistoryOk(s) && Moves(s, s', now, a) && (now.Critical() ==> TurnFits(s, now))
    ensures HistoryOk(s')
  {
    hide Matches, InTurn, UpTo;
    if a.Acquire? {
      MatchesMore(s.taken, s.saves, s.saveTurns, now.req);
      MatchesMore(s.taken, s.log, s.logTurns, now.req);
    } else if a.Save? && a.ok {
      InTurnSnoc(s.taken, s.saves, s.saveTurns, now.req, now.turn);
    } else if a.Append? && a.ok {
      InTurnSnoc(s.taken, s.log, s.logTurns, now.req, now.turn);
    }
  }

  // The thread that moves.
  lemma MoverFits<D>(s: State<D>, s': State<D>, now: Phase<D>, a: Action<D>, next: Phase<D>)
    requires HistoryOk(s) && HistoryOk(s') && Moves(s, s', now, a) && Enters(s, now, a, next)
    requires (now.Critical() ==> TurnFits(s, now)) && next.Critical()
    ensures TurnFits(s', next)
  {
    hide Matches, InTurn, UpTo;
    if a.Acquire? {
      MatchesMore(s.taken, s.saves, s.saveTurns, now.req);
      MatchesMore(s.taken, s.log, s.logTurns, now.req);
    } else if a.Save? && a.ok {
      InTurnSnoc(s.taken, s.saves, s.saveTurns, now.req, now.turn);
    } else if a.Append? && a.ok {
      InTurnSnoc(s.taken, s.log, s.logTurns, now.req, now.turn);
    }
  }

  // A thread that holds the lock of another graph.
  lemma OtherFits<D>(s: State<D>, s': State<D>, now: Phase<D>, a: Action<D>, ph: Phase<D>)
    requires HistoryOk(s) && HistoryOk(s') && Moves(s, s', now, a) && ph.Critical() && TurnFits(s, ph)
    requires now.Critical() ==> TurnFits(s, now) && now.req.id != ph.req.id && now.turn != ph.turn
    ensures TurnFits(s', ph)
  {
    hide Matches, InTurn, UpTo;
    if a.Save? && a.ok {
      InTurnSnoc(s.taken, s.saves, s.saveTurns, now.req, now.turn);
    } else if a.Append? && a.ok {
      InTurnSnoc(s.taken, s.log, s.logTurns, now.req, now.turn);
    }
  }

  lemma TurnsStep<D>(ids: set<string>, s: State<D>, t: nat, a: Action<D>)
    requires LocksOk(ids, s) && TurnsOk(s) && Enabled(ids, s, t, a)
    ensures TurnsOk(Do(ids, s, t, a))
  {
    hide LocksOk, Do, Enabled, TurnFits, Moves, HistoryOk, At;
    var s' := Do(ids, s, t, a);
    StepShape(ids, s, t, a);
    HistoryStep(s, s', At(s, t), a);
    HistoryCounts(s');
    forall u | At(s', u).Critical() ensures TurnFits(s', At(s', u)) {
      if u == t {
        MoverFits(s, s', At(s, t), a, At(s', t));
      } else {
        if At(s, t).Critical() { OtherGraph(ids, s, t, u); }
        OtherFits(s, s', At(s, t), a, At(s, u));
      }
    }
    forall u | u != t && At(s', u).Critical() ensures At(s', u).turn < |s.taken| { FitsBelow(s, At(s, u)); }
  }

  lemma HistoryCounts<D>(s: State<D>)
    requires HistoryOk(s)
    ensures |s.saveTurns| == |s.saves| && |s.logTurns| == |s.log|
  {
  }

  lemma FitsBelow<D>(s: State<D>, ph: Phase<D>)
    requires ph.Critical() && HistoryOk(s) && TurnFits(s, ph)
    ensures ph.turn < |s.taken|
  {
  }

  lemma {:induction false} RunTurns<D>(ids: set<string>, s0: State<D>, evs: seq<Event<D>>)
    requires Initial(s0) && Exec(ids, s0, evs).Some?
    ensures LocksOk(ids, Exec(ids, s0, evs).value) && TurnsOk(Exec(ids, s0, evs).value)
  {
    hide LocksOk, Do, Enabled;
    if evs == [] {
      StartsOk(ids, s0);
    } else {
      hide TurnsOk;
      var n := |evs| - 1;
      var s := Exec(ids, s0, evs[..n]).value;
      RunTurns(ids, s0, evs[..n]);
      LocksStep(ids, s, evs[n].t, evs[n].a);
      TurnsStep(ids, s, evs[n].t, evs[n].a);
    }
  }

  lemma StartsOk<D>(ids: set<string>, s0: State<D>)
    requires Initial(s0)
    ensures LocksOk(ids, s0) && TurnsOk(s0)
  {
  }

  // ---- Saves and log entries follow the locks ----

  // In every run, whatever the ids: for each graph both the saves and the log entries come
  // in the order in which their calls got the lock, no call has two of either, and every
  // log entry is that of a call that saved.
  lemma HistoryFollowsLocks<D>(ids: set<string>, s0: State<D>, evs: seq<Event<D>>)
    requires Initial(s0) && Exec(ids, s0, evs).Some?
    ensures HistoryOk(Exec(ids, s0, evs).value)
  {
    hide LocksOk, HistoryOk, AllFit, OwnTurns;
    RunTurns(ids, s0, evs);
  }

  predicate Addresses<D>(req: Request<D>, p: Path) { ResolvePath(req.id) == Some(p) }

  // If no two ids in use share a file, each file holds the replay of its saved edits, and
  // these come in the order in which their calls got the lock.
  lemma SerialInLockOrder<D>(ids: set<string>, s0: State<D>, evs: seq<Event<D>>, p: Path)
    requires PathsDiffer(ids) && Initial(s0) && Exec(ids, s0, evs).Some? && p in s0.disk
    ensures var s := Exec(ids, s0, evs).value;
            && p in s.disk && Some(s.disk[p]) == Replay(Some(s0.disk[p]), SavesAt(s.saves, p))
            && Matches(s.taken, s.saves, s.saveTurns)
            && forall i, j :: 0 <= i < j < |s.saves| && Addresses(s.saves[i], p) && Addresses(s.saves[j], p) ==>
                 s.saveTurns[i] < s.saveTurns[j]
  {
    hide LocksOk, AllFit, OwnTurns, ResolvePath, Replay, SavesAt, Exec;
    RunTurns(ids, s0, evs);
    RunsAreSerial(ids, s0, evs, p);
    RunResolves(ids, s0, evs);
    var s := Exec(ids, s0, evs).value;
    forall i, j | 0 <= i < j < |s.saves| && Addresses(s.saves[i], p) && Addresses(s.saves[j], p)
      ensures s.saveTurns[i] < s.saveTurns[j]
    {
      assert s.saves[i] in s.saves && s.saves[j] in s.saves;
    }
  }

  // A call that is about to return either has applied its edit to the document it found
  // when it took the lock, or has left that document alone. It stands among the saves in
  // the first case only, and in the log only if appending worked as well.
  lemma CallsAreAtomic<D>(ids: set<string>, s0: State<D>, evs: seq<Event<D>>, t: nat)
    requires PathsDiffer(ids) && Initial(s0) && Exec(ids, s0, evs).Some?
    requires At(Exec(ids, s0, evs).value, t).Leaving?
    ensures var s := Exec(ids, s0, evs).value;
            var now := At(s, t);
            var doc := OnDisk(s, now.req.id);
            && now.turn < |s.taken| && s.taken[now.turn] == now.req
            && (if now.outcome == Done || now.outcome == LogFailed
                then now.base.Some? && doc.Some? && now.req.fn(now.base.value) == doc
                else doc == now.base)
            && (now.turn in s.saveTurns <==> now.outcome == Done || now.outcome == LogFailed)
            && (now.turn in s.logTurns <==> now.outcome == Done)
  {
    hide LocksOk, Serial, LogOk, OnDisk, ResolvePath, PathsDiffer, HistoryOk, OwnTurns, UpTo;
    RunInvariant(ids, s0, evs);
    RunTurns(ids, s0, evs);
    var s := Exec(ids, s0, evs).value;
    HistoryCounts(s);
    assert t in s.threads && DiskFits(s, s.threads[t]);
    assert TurnFits(s, At(s, t));
  }

  // ---- When the log follows the saves across graphs ----

  // Only requests for ids in use that resolve are saved or logged.
  ghost predicate Resolved<D>(ids: set<string>, s: State<D>) {
    && (forall r :: r in s.saves ==> r.id in ids && ResolvePath(r.id).Some?)
    && (forall r :: r in s.log ==> r.id in ids && ResolvePath(r.id).Some?)
    && (forall t :: t in s.threads && s.threads[t].Saved? ==> ResolvePath(s.threads[t].req.id).Some?)
  }

  lemma {:induction false} RunResolves<D>(ids: set<string>, s0: State<D>, evs: seq<Event<D>>)
    requires Initial(s0) && Exec(ids, s0, evs).Some?
    ensures LocksOk(ids, Exec(ids, s0, evs).value) && Resolved(ids, Exec(ids, s0, evs).value)
  {
    hide LocksOk, Do, Enabled, ResolvePath;
    if evs == [] {
      StartsOk(ids, s0);
    } else {
      var n := |evs| - 1;
      var s := Exec(ids, s0, evs[..n]).value;
      RunResolves(ids, s0, evs[..n]);
      LocksStep(ids, s, evs[n].t, evs[n].a);
      ResolvedStep(ids, s, evs[n].t, evs[n].a);
    }
  }

  lemma ResolvedStep<D>(ids: set<string>, s: State<D>, t: nat, a: Action<D>)
    requires LocksOk(ids, s) && Resolved(ids, s) && Enabled(ids, s, t, a)
    ensures Resolved(ids, Do(ids, s, t, a))
  {
    hide ResolvePath, CriticalHolds, HolderIsCritical;
  }

  // At most one id in use resolves to a path.
  ghost predicate OneResolves(ids: set<string>) {
    forall a, b :: a in ids && b in ids && ResolvePath(a).Some? && ResolvePath(b).Some? ==> a == b
  }

  // The whole log is a subsequence of the saves in every run, for counters as documents.
  ghost predicate AlwaysLogged(ids: set<string>) {
    forall s0: State<int>, evs :: Initial(s0) && Exec(ids, s0, evs).Some? ==>
      Subseq(Exec(ids, s0, evs).value.log, Exec(ids, s0, evs).value.saves)
  }

  lemma {:induction false} OnlyOneId<D>(rs: seq<Request<D>>, id: string)
    requires forall r :: r in rs ==> r.id == id
    ensures RequestsOf(rs, id) == rs
  {
    if rs != [] {
      var n := |rs| - 1;
      assert rs == rs[..n] + [rs[n]];
      OnlyOneId(rs[..n], id);
    }
  }

  lemma OneLog<D>(ids: set<string>, s0: State<D>, evs: seq<Event<D>>)
    requires OneResolves(ids) && Initial(s0) && Exec(ids, s0, evs).Some?
    ensures Subseq(Exec(ids, s0, evs).value.log, Exec(ids, s0, evs).value.saves)
  {
    hide ResolvePath, Exec, LocksOk;
    var s := Exec(ids, s0, evs).value;
    RunResolves(ids, s0, evs);
    if s.log != [] {
      var id := s.log[0].id;
      assert s.log[0] in s.log;
      OnlyOneId(s.log, id);
      OnlyOneId(s.saves, id);
      LogFollowsSaves(ids, s0, evs, id);
    }
  }

  lemma ThenSave<D>(ids: set<string>, s0: State<D>, evs: seq<Event<D>>, s: State<D>, t: nat)
    returns (run: seq<Event<D>>, s': State<D>)
    requires Exec(ids, s0, evs) == Some(s) && At(s, t).Applied? && ResolvePath(At(s, t).req.id).Some?
    ensures Exec(ids, s0, run) == Some(s')
    ensures var now := At(s, t);
            s' == s.(threads := s.threads[t := Saved(now.req, now.base, now.turn)],
                     disk := s.disk[ResolvePath(now.req.id).value := now.g],
                     saves := s.saves + [now.req], saveTurns := s.saveTurns + [now.turn])
  {
    run, s' := Then(ids, s0, evs, s, t, Save(true));
  }

  lemma ThenAppend<D>(ids: set<string>, s0: State<D>, evs: seq<Event<D>>, s: State<D>, t: nat)
    returns (run: seq<Event<D>>, s': State<D>)
    requires Exec(ids, s0, evs) == Some(s) && At(s, t).Saved?
    ensures Exec(ids, s0, run) == Some(s')
    ensures var now := At(s, t);
            s' == s.(threads := s.threads[t := Leaving(now.req, now.base, now.turn, Done)],
                     log := s.log + [now.req], logTurns := s.logTurns + [now.turn])
  {
    run, s' := Then(ids, s0, evs, s, t, Append(true));
  }

  lemma ExecNothing<D>(ids: set<string>, s0: State<D>)
    ensures Exec(ids, s0, []) == Some(s0)
  {
  }

  lemma SwappedIsNoSubseq<T>(x: T, y: T)
    requires x != y
    ensures !Subseq([y, x], [x, y])
  {
    assert [y, x][..1] == [y] && [x, y][..1] == [x];
    assert !Subseq([y, x], [x]);
  }

  // Two ids have two locks, and the append comes after the save: the log may disagree with
  // the save order, whether or not the ids share a file.
  lemma LogMayReorder(ids: set<string>, a: string, b: string)
    returns (s0: State<int>, run: seq<Event<int>>)
    requires a in ids && b in ids && a != b && ResolvePath(a).Some? && ResolvePath(b).Some?
    ensures Initial(s0) && Exec(ids, s0, run).Some?
    ensures !Subseq(Exec(ids, s0, run).value.log, Exec(ids, s0, run).value.saves)
  {
    hide ResolvePath, Subseq, Exec, Do, Enabled;
    var ra, rb := Request(a, Increment), Request(b, Increment);
    var s;
    s0, run, s := BothSaved(ids, a, b);
    run, s := ThenAppend(ids, s0, run, s, 2);
    assert At(s, 1).Saved? && At(s, 1).req == ra;
    run, s := ThenAppend(ids, s0, run, s, 1);
    assert s.log == [] + [rb] + [ra];
    SwappedIsNoSubseq(ra, rb);
    assert [] + [rb] + [ra] == [rb, ra] && [] + [ra] + [rb] == [ra, rb];
  }

  // Both threads have saved, the first one first, and neither has logged.
  lemma BothSaved(ids: set<string>, a: string, b: string)
    returns (s0: State<int>, run: seq<Event<int>>, s: State<int>)
    requires a in ids && b in ids && a != b && ResolvePath(a).Some? && ResolvePath(b).Some?
    ensures Initial(s0) && Exec(ids, s0, run) == Some(s)
    ensures At(s, 1).Saved? && At(s, 1).req == Request(a, Increment)
    ensures At(s, 2).Saved? && At(s, 2).req == Request(b, Increment)
    ensures s.saves == [] + [Request(a, Increment)] + [Request(b, Increment)] && s.log == []
  {
    hide ResolvePath, Exec, Do, Enabled;
    var ra, rb := Request(a, Increment), Request(b, Increment);
    s0 := State(map[ResolvePath(a).value := 0, ResolvePath(b).value := 0], map[], map[], [], [], {}, [], [], []);
    ExecNothing(ids, s0);
    run, s := StartEdit(ids, s0, [], s0, 1, ra);
    run, s := ThenSave(ids, s0, run, s, 1);
    assert At(s, 1).Saved? && At(s, 1).req == ra && s.saves == [] + [ra] && s.log == [];
    run, s := StartEdit(ids, s0, run, s, 2, rb);
    run, s := ThenSave(ids, s0, run, s, 2);
  }

  lemma LogFollowsSavesIff(ids: set<string>)
    ensures AlwaysLogged(ids) <==> OneResolves(ids)
  {
    hide ResolvePath, Subseq, Exec, Initial;
    if OneResolves(ids) {
      forall s0: State<int>, evs | Initial(s0) && Exec(ids, s0, evs).Some?
        ensures Subseq(Exec(ids, s0, evs).value.log, Exec(ids, s0, evs).value.saves)
      {
        OneLog(ids, s0, evs);
      }
    } else {
      var a, b :| a in ids && b in ids && a != b && ResolvePath(a).Some? && ResolvePath(b).Some?;
      var s0, run := LogMayReorder(ids, a, b);
    }
  }
}
