/** The write protocol of the service: many threads run `mutate`, each step by step
    (lock, load, apply, save, append to the log, unlock), in every interleaving. */
module MutateProtocol {
  import opened GraphPaths
  import opened Wrappers

  // A call of mutate: the graph id and the edit, which may fail. D is the document type.
  datatype Request<!D> = Request(id: string, fn: D -> Option<D>)

  // Why a call that holds the lock is about to return.
  datatype Outcome = Done | LoadFailed | EditFailed | SaveFailed | LogFailed

  // Where a thread is. `base` remembers the document on disk when the lock was taken
  // (None when there is no such file) and `turn` how many locks were taken before; no step
  // of the code depends on them.
  datatype Phase<!D> =
    | Idle
    | Waiting(req: Request<D>)
    | Locked(req: Request<D>, base: Option<D>, turn: nat)
    | Loaded(req: Request<D>, base: Option<D>, turn: nat, g: D)
    | Applied(req: Request<D>, base: Option<D>, turn: nat, g: D)
    | Saved(req: Request<D>, base: Option<D>, turn: nat)
    | Leaving(req: Request<D>, base: Option<D>, turn: nat, outcome: Outcome)
  {
    predicate Critical() { !Idle? && !Waiting? }
  }

  datatype Lock = Free | Held(holder: nat)

  // saves, lost, taken and the turns are history: the requests saved so far, in order; the
  // ids for which an append to the log failed; the requests in the order in which they got
  // their locks; and, for each save and each log entry, the place of its call in that order.
  datatype State<!D> = State(
    disk: map<Path, D>, locks: map<string, Lock>, threads: map<nat, Phase<D>>,
    log: seq<Request<D>>, saves: seq<Request<D>>, lost: set<string>,
    taken: seq<Request<D>>, saveTurns: seq<nat>, logTurns: seq<nat>)

  ghost function At<D>(s: State<D>, t: nat): Phase<D> {
    if t in s.threads then s.threads[t] else Idle
  }

  datatype Action<!D> =
    | Call(req: Request<D>)
    | Acquire
    | Load(ok: bool)
    | Edit
    | Save(ok: bool)
    | Append(ok: bool)
    | Unlock

  // Loading, saving and appending may fail at any time; loading must fail when the id
  // is invalid or the file is missing.
  ghost predicate Enabled<D>(ids: set<string>, s: State<D>, t: nat, a: Action<D>) {
    match a
    case Call(req) => At(s, t).Idle? && req.id in ids
    case Acquire => At(s, t).Waiting? && At(s, t).req.id in s.locks && s.locks[At(s, t).req.id].Free?
    case Load(ok) => At(s, t).Locked? && (ok ==> OnDisk(s, At(s, t).req.id).Some?)
    case Edit => At(s, t).Loaded?
    case Save(ok) => At(s, t).Applied? && (ok ==> ResolvePath(At(s, t).req.id).Some?)
    case Append(ok) => At(s, t).Saved?
    case Unlock => At(s, t).Leaving?
  }

  ghost function OnDisk<D>(s: State<D>, id: string): Option<D> {
    var p := ResolvePath(id);
    if p.Some? && p.value in s.disk then Some(s.disk[p.value]) else None
  }

  ghost function Move<D>(s: State<D>, t: nat, to: Phase<D>): State<D> {
    s.(threads := s.threads[t := to])
  }

  // One step. graphLock creates the lock of an id on its first use and never replaces it.
  ghost function Do<D>(ids: set<string>, s: State<D>, t: nat, a: Action<D>): State<D>
    requires Enabled(ids, s, t, a)
  {
    var now := At(s, t);
    match a
    case Call(req) =>
      Move(s, t, Waiting(req)).(locks := if req.id in s.locks then s.locks else s.locks[req.id := Free])
    case Acquire =>
      Move(s, t, Locked(now.req, OnDisk(s, now.req.id), |s.taken|)).(
        locks := s.locks[now.req.id := Held(t)], taken := s.taken + [now.req])
    case Load(ok) =>
      if ok then Move(s, t, Loaded(now.req, now.base, now.turn, OnDisk(s, now.req.id).value))
      else Move(s, t, Leaving(now.req, now.base, now.turn, LoadFailed))
    case Edit =>
      var r := now.req.fn(now.g);
      if r.Some? then Move(s, t, Applied(now.req, now.base, now.turn, r.value))
      else Move(s, t, Leaving(now.req, now.base, now.turn, EditFailed))
    case Save(ok) =>
      if ok then
        Move(s, t, Saved(now.req, now.base, now.turn)).(
          disk := s.disk[ResolvePath(now.req.id).value := now.g],
          saves := s.saves + [now.req], saveTurns := s.saveTurns + [now.turn])
      else Move(s, t, Leaving(now.req, now.base, now.turn, SaveFailed))
    case Append(ok) =>
      if ok then
        Move(s, t, Leaving(now.req, now.base, now.turn, Done)).(
          log := s.log + [now.req], logTurns := s.logTurns + [now.turn])
      else Move(s, t, Leaving(now.req, now.base, now.turn, LogFailed)).(lost := s.lost + {now.req.id})
    case Unlock =>
      Move(s, t, Idle).(locks := s.locks[now.req.id := Free])
  }

  datatype Event<!D> = Event(t: nat, a: Action<D>)

  // The state after a run of events, None when some event is not enabled.
  ghost function Exec<D>(ids: set<string>, s0: State<D>, evs: seq<Event<D>>): Option<State<D>> {
    if evs == [] then Some(s0)
    else
      var n := |evs| - 1;
      var s := Exec(ids, s0, evs[..n]);
      if s.Some? && Enabled(ids, s.value, evs[n].t, evs[n].a)
      then Some(Do(ids, s.value, evs[n].t, evs[n].a)) else None
  }

  ghost predicate Initial<D>(s: State<D>) {
    && s.locks == map[] && s.threads == map[] && s.log == [] && s.saves == [] && s.lost == {}
    && s.taken == [] && s.saveTurns == [] && s.logTurns == []
  }

  // The requests for the file p, in order.
  ghost function SavesAt<D>(saves: seq<Request<D>>, p: Path): seq<Request<D>> {
    if saves == [] then []
    else
      var n := |saves| - 1;
      SavesAt(saves[..n], p) + (if ResolvePath(saves[n].id) == Some(p) then [saves[n]] else [])
  }

  ghost function RequestsOf<D>(rs: seq<Request<D>>, id: string): seq<Request<D>> {
    if rs == [] then []
    else
      var n := |rs| - 1;
      RequestsOf(rs[..n], id) + (if rs[n].id == id then [rs[n]] else [])
  }

  // The edits one after another, each of which must succeed.
  ghost function Replay<D>(doc: Option<D>, rs: seq<Request<D>>): Option<D> {
    if rs == [] then doc
    else
      var n := |rs| - 1;
      var before := Replay(doc, rs[..n]);
      if before.Some? then rs[n].fn(before.value) else None
  }

  ghost predicate Subseq<T>(a: seq<T>, b: seq<T>) {
    if a == [] then true
    else if b == [] then false
    else
      var m, n := |a| - 1, |b| - 1;
      (a[m] == b[n] && Subseq(a[..m], b[..n])) || Subseq(a, b[..n])
  }

  lemma SubseqBoth<T>(a: seq<T>, b: seq<T>, x: T)
    requires Subseq(a, b)
    ensures Subseq(a + [x], b + [x]) && Subseq(a, b + [x])
  {
    assert (a + [x])[..|a|] == a && (b + [x])[..|b|] == b;
  }

  // ---- The invariant ----

  ghost predicate LocksOk<D>(ids: set<string>, s: State<D>) {
    RequestsKnown(ids, s) && CriticalHolds(s) && HolderIsCritical(s)
  }

  ghost predicate RequestsKnown<D>(ids: set<string>, s: State<D>) {
    forall t :: t in s.threads && !s.threads[t].Idle? ==> s.threads[t].req.id in ids && s.threads[t].req.id in s.locks
  }

  ghost predicate CriticalHolds<D>(s: State<D>) {
    forall t :: t in s.threads && s.threads[t].Critical() ==>
      s.threads[t].req.id in s.locks && s.locks[s.threads[t].req.id] == Held(t)
  }

  ghost predicate HolderIsCritical<D>(s: State<D>) {
    forall id :: id in s.locks && s.locks[id].Held? ==>
      At(s, s.locks[id].holder).Critical() && At(s, s.locks[id].holder).req.id == id
  }

  // What the file of a thread in its critical section holds.
  ghost predicate DiskFits<D>(s: State<D>, ph: Phase<D>)
    requires ph.Critical()
  {
    var doc := OnDisk(s, ph.req.id);
    match ph
    case Locked(_, base, _) => doc == base
    case Loaded(_, base, _, g) => doc == base == Some(g)
    case Applied(req, base, _, g) => doc == base && base.Some? && req.fn(base.value) == Some(g)
    case Saved(req, base, _) => base.Some? && doc.Some? && req.fn(base.value) == doc
    case Leaving(req, base, _, outcome) =>
      if outcome == Done || outcome == LogFailed then base.Some? && doc.Some? && req.fn(base.value) == doc
      else doc == base
  }

  ghost predicate Untouched<D>(s: State<D>) {
    forall t :: t in s.threads && s.threads[t].Critical() ==> DiskFits(s, s.threads[t])
  }

  // Every file holds the replay of its saved requests, in save order.
  ghost predicate Serial<D>(init: map<Path, D>, s: State<D>) {
    && s.disk.Keys == init.Keys
    && forall p :: p in init ==> Replay(Some(init[p]), SavesAt(s.saves, p)) == Some(s.disk[p])
  }

  // The request of id that is saved but not yet logged.
  ghost function Unlogged<D>(s: State<D>, id: string): seq<Request<D>> {
    if id in s.locks && s.locks[id].Held? && At(s, s.locks[id].holder).Saved?
    then [At(s, s.locks[id].holder).req] else []
  }

  ghost predicate EndsWith<T>(a: seq<T>, b: seq<T>) {
    |b| <= |a| && a[|a| - |b|..] == b
  }

  ghost predicate LogOk<D>(s: State<D>, id: string) {
    var logged, saved, open := RequestsOf(s.log, id), RequestsOf(s.saves, id), Unlogged(s, id);
    && EndsWith(saved, open)
    && Subseq(logged, saved[..|saved| - |open|])
    && (id !in s.lost ==> saved == logged + open)
  }

  ghost predicate Inv<D>(ids: set<string>, init: map<Path, D>, s: State<D>) {
    && LocksOk(ids, s)
    && Untouched(s)
    && Serial(init, s)
    && (forall id :: LogOk(s, id))
  }

  lemma LocksStep<D>(ids: set<string>, s: State<D>, t: nat, a: Action<D>)
    requires LocksOk(ids, s) && Enabled(ids, s, t, a)
    ensures LocksOk(ids, Do(ids, s, t, a))
  {
    hide ResolvePath, OnDisk, Do, Enabled, RequestsKnown, CriticalHolds, HolderIsCritical;
    KnownStep(ids, s, t, a);
    HoldsStep(ids, s, t, a);
    HolderStep(ids, s, t, a);
  }

  lemma KnownStep<D>(ids: set<string>, s: State<D>, t: nat, a: Action<D>)
    requires LocksOk(ids, s) && Enabled(ids, s, t, a)
    ensures RequestsKnown(ids, Do(ids, s, t, a))
  {
    hide ResolvePath, OnDisk, CriticalHolds, HolderIsCritical;
  }

  lemma HoldsStep<D>(ids: set<string>, s: State<D>, t: nat, a: Action<D>)
    requires LocksOk(ids, s) && Enabled(ids, s, t, a)
    ensures CriticalHolds(Do(ids, s, t, a))
  {
    hide ResolvePath, OnDisk;
  }

  lemma HolderStep<D>(ids: set<string>, s: State<D>, t: nat, a: Action<D>)
    requires LocksOk(ids, s) && Enabled(ids, s, t, a)
    ensures HolderIsCritical(Do(ids, s, t, a))
  {
    hide ResolvePath, OnDisk, RequestsKnown;
  }

  // Another thread in its critical section works on another file.
  lemma OthersElsewhere<D>(ids: set<string>, s: State<D>, t: nat, u: nat)
    requires LocksOk(ids, s) && PathsDiffer(ids)
    requires At(s, t).Critical() && At(s, u).Critical() && t != u
    ensures ResolvePath(At(s, t).req.id).Some? ==> ResolvePath(At(s, t).req.id) != ResolvePath(At(s, u).req.id)
  {
  }

  lemma UntouchedStep<D>(ids: set<string>, s: State<D>, t: nat, a: Action<D>)
    requires LocksOk(ids, s) && Untouched(s) && Enabled(ids, s, t, a) && PathsDiffer(ids)
    ensures Untouched(Do(ids, s, t, a))
  {
    hide LocksOk, PathsDiffer, DiskFits, Do, Enabled;
    var s' := Do(ids, s, t, a);
    forall u | u in s'.threads && s'.threads[u].Critical() ensures DiskFits(s', s'.threads[u]) {
      if u == t { MoverUntouched(ids, s, t, a); } else { OtherUntouched(ids, s, t, a, u); }
    }
  }

  lemma MoverUntouched<D>(ids: set<string>, s: State<D>, t: nat, a: Action<D>)
    requires Untouched(s) && Enabled(ids, s, t, a) && At(Do(ids, s, t, a), t).Critical()
    ensures DiskFits(Do(ids, s, t, a), At(Do(ids, s, t, a), t))
  {
    hide ResolvePath;
  }

  lemma OtherUntouched<D>(ids: set<string>, s: State<D>, t: nat, a: Action<D>, u: nat)
    requires LocksOk(ids, s) && Untouched(s) && Enabled(ids, s, t, a) && PathsDiffer(ids)
    requires u != t && At(Do(ids, s, t, a), u).Critical()
    ensures DiskFits(Do(ids, s, t, a), At(Do(ids, s, t, a), u))
  {
    hide ResolvePath, PathsDiffer, LocksOk;
    assert At(s, u) == At(Do(ids, s, t, a), u);
    if a.Save? { OthersElsewhere(ids, s, t, u); }
  }

  lemma SerialStep<D>(ids: set<string>, init: map<Path, D>, s: State<D>, t: nat, a: Action<D>)
    requires Untouched(s) && Serial(init, s) && Enabled(ids, s, t, a)
    ensures Serial(init, Do(ids, s, t, a))
  {
    hide ResolvePath, Serial;
    if a.Save? && a.ok {
      var now := At(s, t);
      assert DiskFits(s, s.threads[t]);
      SerialSave(init, s, Do(ids, s, t, a), now.req, ResolvePath(now.req.id).value, now.g);
    } else {
      SerialSame(init, s, Do(ids, s, t, a));
    }
  }

  lemma SerialSame<D>(init: map<Path, D>, s: State<D>, s': State<D>)
    requires Serial(init, s) && s'.disk == s.disk && s'.saves == s.saves
    ensures Serial(init, s')
  {
    hide Replay, SavesAt;
  }

  lemma SerialSave<D>(init: map<Path, D>, s: State<D>, s': State<D>, req: Request<D>, q: Path, g: D)
    requires Serial(init, s) && ResolvePath(req.id) == Some(q) && q in s.disk && req.fn(s.disk[q]) == Some(g)
    requires s'.disk == s.disk[q := g] && s'.saves == s.saves + [req]
    ensures Serial(init, s')
  {
    hide ResolvePath, Replay, SavesAt;
    forall p | p in init ensures Replay(Some(init[p]), SavesAt(s'.saves, p)) == Some(s'.disk[p]) {
      SavesSnoc(s.saves, req, p);
      ReplaySnoc(Some(init[p]), SavesAt(s.saves, p), req);
    }
  }

  lemma SavesSnoc<D>(saves: seq<Request<D>>, req: Request<D>, p: Path)
    ensures SavesAt(saves + [req], p) ==
            if ResolvePath(req.id) == Some(p) then SavesAt(saves, p) + [req] else SavesAt(saves, p)
  {
    assert (saves + [req])[..|saves|] == saves;
  }

  lemma ReplaySnoc<D>(doc: Option<D>, rs: seq<Request<D>>, req: Request<D>)
    requires Replay(doc, rs).Some?
    ensures Replay(doc, rs + [req]) == req.fn(Replay(doc, rs).value)
  {
    assert (rs + [req])[..|rs|] == rs;
  }

  lemma RequestsSnoc<D>(rs: seq<Request<D>>, req: Request<D>, id: string)
    ensures RequestsOf(rs + [req], id) == if req.id == id then RequestsOf(rs, id) + [req] else RequestsOf(rs, id)
  {
    assert (rs + [req])[..|rs|] == rs;
  }

  lemma SplitEnd<T>(a: seq<T>, front: seq<T>, b: seq<T>)
    requires a == front + b
    ensures EndsWith(a, b) && a[..|a| - |b|] == front
  {
  }

  // A step of another id, or one that neither saves nor logs, does not show.
  lemma LogSame<D>(s: State<D>, s': State<D>, id: string)
    requires LogOk(s, id)
    requires RequestsOf(s'.log, id) == RequestsOf(s.log, id) && RequestsOf(s'.saves, id) == RequestsOf(s.saves, id)
    requires Unlogged(s', id) == Unlogged(s, id) && (id in s.lost ==> id in s'.lost)
    ensures LogOk(s', id)
  {
    hide Subseq, RequestsOf, Unlogged;
  }

  lemma UnloggedStep<D>(ids: set<string>, s: State<D>, t: nat, a: Action<D>, id: string)
    requires LocksOk(ids, s) && Enabled(ids, s, t, a)
    ensures var now := At(s, t);
            if a.Save? && a.ok && now.req.id == id
            then Unlogged(s, id) == [] && Unlogged(Do(ids, s, t, a), id) == [now.req]
            else if a.Append? && now.req.id == id
            then Unlogged(s, id) == [now.req] && Unlogged(Do(ids, s, t, a), id) == []
            else Unlogged(Do(ids, s, t, a), id) == Unlogged(s, id)
  {
    hide ResolvePath;
  }

  lemma LogStep<D>(ids: set<string>, s: State<D>, t: nat, a: Action<D>, id: string)
    requires LocksOk(ids, s) && LogOk(s, id) && Enabled(ids, s, t, a)
    ensures LogOk(Do(ids, s, t, a), id)
  {
    hide ResolvePath, LocksOk, Unlogged, LogOk;
    var s' := Do(ids, s, t, a);
    UnloggedStep(ids, s, t, a, id);
    if a.Save? && a.ok {
      RequestsSnoc(s.saves, At(s, t).req, id);
      if At(s, t).req.id == id { LogSave(s, s', id, At(s, t).req); } else { LogSame(s, s', id); }
    } else if a.Append? {
      RequestsSnoc(s.log, At(s, t).req, id);
      if At(s, t).req.id == id { LogAppend(s, s', id, At(s, t).req, a.ok); } else { LogSame(s, s', id); }
    } else {
      LogSame(s, s', id);
    }
  }

  lemma LogSave<D>(s: State<D>, s': State<D>, id: string, req: Request<D>)
    requires LogOk(s, id) && s'.log == s.log && s'.lost == s.lost
    requires RequestsOf(s'.saves, id) == RequestsOf(s.saves, id) + [req]
    requires Unlogged(s, id) == [] && Unlogged(s', id) == [req]
    ensures LogOk(s', id)
  {
    hide Subseq, RequestsOf, Unlogged;
    var saved := RequestsOf(s.saves, id);
    assert saved[..|saved|] == saved && RequestsOf(s.log, id) + [] == RequestsOf(s.log, id);
    SplitEnd(RequestsOf(s'.saves, id), saved, [req]);
  }

  lemma LogAppend<D>(s: State<D>, s': State<D>, id: string, req: Request<D>, ok: bool)
    requires LogOk(s, id) && s'.saves == s.saves && s'.lost == (if ok then s.lost else s.lost + {id})
    requires RequestsOf(s'.log, id) == if ok then RequestsOf(s.log, id) + [req] else RequestsOf(s.log, id)
    requires Unlogged(s, id) == [req] && Unlogged(s', id) == []
    ensures LogOk(s', id)
  {
    hide RequestsOf, Unlogged, Subseq;
    LogCloses(RequestsOf(s.log, id), RequestsOf(s.saves, id), req, RequestsOf(s'.log, id), ok);
  }

  lemma LogCloses<T>(logged: seq<T>, saved: seq<T>, req: T, logged': seq<T>, ok: bool)
    requires EndsWith(saved, [req]) && Subseq(logged, saved[..|saved| - 1])
    requires logged' == if ok then logged + [req] else logged
    ensures EndsWith(saved, []) && Subseq(logged', saved[..|saved| - 0])
    ensures ok && saved == logged + [req] ==> saved == logged' + []
  {
    hide Subseq;
    var front := saved[..|saved| - 1];
    assert saved == front + [req] && saved[..|saved| - 0] == saved;
    SubseqBoth(logged, front, req);
  }

  lemma {:induction false} RunInvariant<D>(ids: set<string>, s0: State<D>, evs: seq<Event<D>>)
    requires PathsDiffer(ids) && Initial(s0) && Exec(ids, s0, evs).Some?
    ensures Inv(ids, s0.disk, Exec(ids, s0, evs).value)
  {
    hide PathsDiffer, ResolvePath;
    if evs == [] {
    } else {
      var n := |evs| - 1;
      var s := Exec(ids, s0, evs[..n]).value;
      RunInvariant(ids, s0, evs[..n]);
      InvStep(ids, s0.disk, s, evs[n].t, evs[n].a);
    }
  }

  lemma InvStep<D>(ids: set<string>, init: map<Path, D>, s: State<D>, t: nat, a: Action<D>)
    requires Inv(ids, init, s) && Enabled(ids, s, t, a) && PathsDiffer(ids)
    ensures Inv(ids, init, Do(ids, s, t, a))
  {
    hide PathsDiffer, LocksOk, Untouched, Serial, LogOk, Do, Enabled;
    LocksStep(ids, s, t, a);
    UntouchedStep(ids, s, t, a);
    SerialStep(ids, init, s, t, a);
    forall id ensures LogOk(Do(ids, s, t, a), id) { LogStep(ids, s, t, a, id); }
  }

  // ---- What every run keeps, when no two ids in use share a file ----

  // At most one thread is between taking and giving back the lock of a file.
  lemma MutualExclusion<D>(ids: set<string>, s0: State<D>, evs: seq<Event<D>>, t: nat, u: nat)
    requires PathsDiffer(ids) && Initial(s0) && Exec(ids, s0, evs).Some?
    requires var s := Exec(ids, s0, evs).value;
             && At(s, t).Critical() && At(s, u).Critical()
             && ResolvePath(At(s, t).req.id).Some? && ResolvePath(At(s, t).req.id) == ResolvePath(At(s, u).req.id)
    ensures t == u
  {
    RunInvariant(ids, s0, evs);
    if t != u { OthersElsewhere(ids, Exec(ids, s0, evs).value, t, u); }
  }

  // The files hold the sequential replay of the saved edits.
  lemma RunsAreSerial<D>(ids: set<string>, s0: State<D>, evs: seq<Event<D>>, p: Path)
    requires PathsDiffer(ids) && Initial(s0) && Exec(ids, s0, evs).Some? && p in s0.disk
    ensures var s := Exec(ids, s0, evs).value;
            p in s.disk && Some(s.disk[p]) == Replay(Some(s0.disk[p]), SavesAt(s.saves, p))
  {
    RunInvariant(ids, s0, evs);
  }

  // The log of a graph is a subsequence of its saves; they are equal once no thread is
  // between save and append, if no append failed.
  lemma LogFollowsSaves<D>(ids: set<string>, s0: State<D>, evs: seq<Event<D>>, id: string)
    requires PathsDiffer(ids) && Initial(s0) && Exec(ids, s0, evs).Some?
    ensures var s := Exec(ids, s0, evs).value;
            && Subseq(RequestsOf(s.log, id), RequestsOf(s.saves, id))
            && ((id !in s.lost && forall t :: At(s, t).Saved? ==> At(s, t).req.id != id)
                ==> RequestsOf(s.log, id) == RequestsOf(s.saves, id))
  {
    RunInvariant(ids, s0, evs);
    var s := Exec(ids, s0, evs).value;
    var logged, saved, open := RequestsOf(s.log, id), RequestsOf(s.saves, id), Unlogged(s, id);
    assert LogOk(s, id);
    assert saved == saved[..|saved| - |open|] + open;
    if open != [] {
      SubseqBoth(logged, saved[..|saved| - 1], open[0]);
    } else {
      assert saved[..|saved|] == saved && logged + [] == logged;
    }
  }

  // Some thread can always move: a thread that waits finds its lock free, or the holder
  // can go on.
  lemma NoDeadlock<D>(ids: set<string>, s0: State<D>, evs: seq<Event<D>>, t: nat) returns (u: nat, a: Action<D>)
    requires PathsDiffer(ids) && Initial(s0) && Exec(ids, s0, evs).Some?
    requires !At(Exec(ids, s0, evs).value, t).Idle?
    ensures Enabled(ids, Exec(ids, s0, evs).value, u, a) && !a.Call?
  {
    RunInvariant(ids, s0, evs);
    var s := Exec(ids, s0, evs).value;
    u := if At(s, t).Waiting? && s.locks[At(s, t).req.id].Held? then s.locks[At(s, t).req.id].holder else t;
    match At(s, u)
    case Waiting(_) => a := Acquire;
    case Locked(_, _, _) => a := Load(false);
    case Loaded(_, _, _, _) => a := Edit;
    case Applied(_, _, _, _) => a := Save(false);
    case Saved(_, _, _) => a := Append(true);
    case Leaving(_, _, _, _) => a := Unlock;
  }

  // ---- The condition is exact ----

  // Every run over these ids serialises its edits, for counters as documents.
  ghost predicate AlwaysSerial(ids: set<string>) {
    forall s0: State<int>, evs :: Initial(s0) && Exec(ids, s0, evs).Some? ==> Serial(s0.disk, Exec(ids, s0, evs).value)
  }

  function Increment(x: int): Option<int> { Some(x + 1) }

  lemma ExecSnoc<D>(ids: set<string>, s0: State<D>, evs: seq<Event<D>>, e: Event<D>)
    requires Exec(ids, s0, evs).Some? && Enabled(ids, Exec(ids, s0, evs).value, e.t, e.a)
    ensures Exec(ids, s0, evs + [e]) == Some(Do(ids, Exec(ids, s0, evs).value, e.t, e.a))
  {
    assert (evs + [e])[..|evs|] == evs;
  }

  lemma ThenLock<D>(ids: set<string>, s0: State<D>, evs: seq<Event<D>>, s: State<D>, t: nat, req: Request<D>)
    returns (run: seq<Event<D>>, s': State<D>)
    requires Exec(ids, s0, evs) == Some(s) && At(s, t).Idle? && req.id in ids
    requires req.id in s.locks ==> s.locks[req.id].Free?
    ensures Exec(ids, s0, run) == Some(s')
    ensures s' == s.(threads := s.threads[t := Locked(req, OnDisk(s, req.id), |s.taken|)],
                     locks := s.locks[req.id := Held(t)], taken := s.taken + [req])
  {
    hide OnDisk, Exec;
    run, s' := Then(ids, s0, evs, s, t, Call(req));
    assert At(s', t) == Waiting(req) && s'.locks == s.locks[req.id := Free];
    CallKeepsDisk(s, s', req.id);
    run, s' := Then(ids, s0, run, s', t, Acquire);
  }

  lemma CallKeepsDisk<D>(s: State<D>, s': State<D>, id: string)
    requires s'.disk == s.disk
    ensures OnDisk(s', id) == OnDisk(s, id)
  {
  }

  // A thread runs a call up to the point where it is about to save.
  lemma StartEdit<D>(ids: set<string>, s0: State<D>, evs: seq<Event<D>>, s: State<D>, t: nat, req: Request<D>)
    returns (run: seq<Event<D>>, s': State<D>)
    requires Exec(ids, s0, evs) == Some(s) && At(s, t).Idle? && req.id in ids
    requires req.id in s.locks ==> s.locks[req.id].Free?
    requires OnDisk(s, req.id).Some? && req.fn(OnDisk(s, req.id).value).Some?
    ensures Exec(ids, s0, run) == Some(s')
    ensures var doc := OnDisk(s, req.id);
            s' == s.(threads := s.threads[t := Applied(req, doc, |s.taken|, req.fn(doc.value).value)],
                     locks := s.locks[req.id := Held(t)], taken := s.taken + [req])
  {
    hide ResolvePath;
    run, s' := ThenLock(ids, s0, evs, s, t, req);
    run, s' := Then(ids, s0, run, s', t, Load(true));
    run, s' := Then(ids, s0, run, s', t, Edit);
  }

  lemma Then<D>(ids: set<string>, s0: State<D>, evs: seq<Event<D>>, s: State<D>, t: nat, a: Action<D>)
    returns (run: seq<Event<D>>, s': State<D>)
    requires Exec(ids, s0, evs) == Some(s) && Enabled(ids, s, t, a)
    ensures s' == Do(ids, s, t, a) && Exec(ids, s0, run) == Some(s')
  {
    ExecSnoc(ids, s0, evs, Event(t, a));
    run, s' := evs + [Event(t, a)], Do(ids, s, t, a);
  }

  // Two ids with one file have two locks: both threads load 0, and one increment is lost.
  lemma SharedFileLosesUpdate(ids: set<string>, a: string, b: string)
    requires a in ids && b in ids && a != b && ResolvePath(a).Some? && ResolvePath(a) == ResolvePath(b)
    ensures !AlwaysSerial(ids)
  {
    hide ResolvePath;
    var p := ResolvePath(a).value;
    var ra, rb := Request(a, Increment), Request(b, Increment);
    var s0: State<int> := State(map[p := 0], map[], map[], [], [], {}, [], [], []);
    var run, s := StartEdit(ids, s0, [], s0, 1, ra);
    run, s := StartEdit(ids, s0, run, s, 2, rb);
    run, s := Then(ids, s0, run, s, 1, Save(true));
    run, s := Then(ids, s0, run, s, 2, Save(true));
    assert s.disk[p] == 1 && s.saves == [] + [ra] + [rb];
    SavesSnoc([], ra, p);
    SavesSnoc([] + [ra], rb, p);
    ReplaySnoc(Some(0), [], ra);
    ReplaySnoc(Some(0), [] + [ra], rb);
    assert Replay(Some(s0.disk[p]), SavesAt(s.saves, p)) == Some(2);
  }

  // An id with a slash and the same id with an underscore lose an update in some run.
  lemma SlashLosesUpdate(ids: set<string>)
    requires "a/b" in ids && "a_b" in ids
    ensures !AlwaysSerial(ids)
  {
    hide ResolvePath, AlwaysSerial;
    SlashIsUnderscore();
    assert "a/b"[1] != "a_b"[1];
    SharedFileLosesUpdate(ids, "a/b", "a_b");
  }

  // Lost updates are impossible if and only if no two ids in use share a file.
  lemma SerialIffPathsDiffer(ids: set<string>)
    ensures AlwaysSerial(ids) <==> PathsDiffer(ids)
  {
    hide ResolvePath;
    if PathsDiffer(ids) {
      forall s0: State<int>, evs | Initial(s0) && Exec(ids, s0, evs).Some?
        ensures Serial(s0.disk, Exec(ids, s0, evs).value)
      {
        RunInvariant(ids, s0, evs);
      }
    } else {
      var a, b :| a in ids && b in ids && a != b && ResolvePath(a).Some? && ResolvePath(a) == ResolvePath(b);
      SharedFileLosesUpdate(ids, a, b);
    }
  }
}
