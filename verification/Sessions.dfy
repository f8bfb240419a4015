/** Sessions over one shared database (internal/server/server.go, internal/engine/snapshot.go and
    database.go): BEGIN clones, COMMIT compares revisions and publishes. Every operation under the
    commit lock is one step; the steps of many sessions interleave in any way. Statement execution is a
    parameter that changes nothing on error. */
module Sessions {
  import opened Sequences
  import opened Values

  type Id = nat

  const REVISIONS := 0x1_0000_0000_0000_0000

  /** Statement execution, which statements only read, and the limit on buffered writes (none when 0). */
  datatype Config<!D, !Q> = Config(exec: (D, Q) -> Option<D>, readOnly: Q -> bool, txLimit: nat)

  /** A statement that only reads leaves the database alone. */
  ghost predicate ReadsOnly<D(!new), Q(!new)>(c: Config<D, Q>) {
    forall d, q :: c.readOnly(q) ==> c.exec(d, q) == None || c.exec(d, q) == Some(d)
  }

  /** A private clone with the revision it was taken at and the writes made on it. */
  datatype Clone<D, Q> = Clone(image: D, base: nat, writes: seq<Q>)

  /** A connection: its transaction, or its atomic batch that has run but not committed. */
  datatype Session<D, Q> = Idle | InTx(tx: Clone<D, Q>) | InBatch(batch: Clone<D, Q>)

  datatype World<D, Q> = World(db: D, revision: nat, sessions: map<Id, Session<D, Q>>)

  datatype Event<Q> =
    | Begin(id: Id, allowed: bool)
    | Rollback(id: Id)
    | Commit(id: Id, persisted: bool)
    | Statement(id: Id, sql: Q)
    | StartBatch(id: Id, sqls: seq<Q>)
    | FinishBatch(id: Id, persisted: bool)

  function Of<D, Q>(w: World<D, Q>, id: Id): Session<D, Q> { if id in w.sessions then w.sessions[id] else Idle }

  function With<D, Q>(w: World<D, Q>, id: Id, s: Session<D, Q>): World<D, Q> { w.(sessions := w.sessions[id := s]) }

  function Next(revision: nat): nat { (revision + 1) % REVISIONS }

  /** CommitFrom goes through. */
  predicate Publishes<D, Q>(w: World<D, Q>, c: Clone<D, Q>, persisted: bool) { w.revision == c.base && persisted }

  function Published<D, Q>(w: World<D, Q>, c: Clone<D, Q>): World<D, Q> {
    w.(db := c.image, revision := Next(w.revision))
  }

  /** All statements in turn on a private image, or none. */
  function RunAll<D, Q>(c: Config<D, Q>, d: D, sqls: seq<Q>): Option<D> {
    if sqls == [] then Some(d)
    else match RunAll(c, d, sqls[..|sqls| - 1])
      case None => None
      case Some(e) => c.exec(e, sqls[|sqls| - 1])
  }

  function Writes<D, Q>(c: Config<D, Q>, sqls: seq<Q>): seq<Q> {
    if sqls == [] then []
    else Writes(c, sqls[..|sqls| - 1]) + if c.readOnly(sqls[|sqls| - 1]) then [] else [sqls[|sqls| - 1]]
  }

  /** A statement inside a transaction. */
  function TxStatement<D, Q>(c: Config<D, Q>, tx: Clone<D, Q>, sql: Q): Session<D, Q> {
    match c.exec(tx.image, sql)
    case None => InTx(tx)
    case Some(e) =>
      if c.readOnly(sql) then InTx(tx.(image := e))
      else if c.txLimit > 0 && |tx.writes| >= c.txLimit then Idle
      else InTx(tx.(image := e, writes := tx.writes + [sql]))
  }

  /** One step of one session. */
  function Step<D, Q>(c: Config<D, Q>, w: World<D, Q>, e: Event<Q>): World<D, Q> {
    var s := Of(w, e.id);
    match e
    case Begin(id, allowed) => if s.Idle? && allowed then With(w, id, InTx(Clone(w.db, w.revision, []))) else w
    case Rollback(id) => if s.InTx? then With(w, id, Idle) else w
    case Commit(id, persisted) =>
      if !s.InTx? then w
      else if Writes(c, s.tx.writes) == [] then With(w, id, Idle)
      else if Publishes(w, s.tx, persisted) then With(Published(w, s.tx), id, Idle)
      else w
    case Statement(id, sql) =>
      if s.InTx? then With(w, id, TxStatement(c, s.tx, sql))
      else if s.InBatch? then w
      else (match c.exec(w.db, sql)
            case None => w
            case Some(d) => if c.readOnly(sql) then w.(db := d) else w.(db := d, revision := Next(w.revision)))
    case StartBatch(id, sqls) =>
      if !s.Idle? then w
      else (match RunAll(c, w.db, sqls)
            case None => w
            case Some(d) => With(w, id, InBatch(Clone(d, w.revision, Writes(c, sqls)))))
    case FinishBatch(id, persisted) =>
      if !s.InBatch? then w
      else With(if Publishes(w, s.batch, persisted) then Published(w, s.batch) else w, id, Idle)
  }

  // --------------------------------------------------------------- history

  /** What has been published: a list of writes for each publish, in order; and how many there were when
      each open clone was taken. */
  datatype History<Q> = History(commits: seq<seq<Q>>, since: map<Id, nat>)

  /** The writes an event publishes, if it publishes. */
  function Publish<D, Q>(c: Config<D, Q>, w: World<D, Q>, e: Event<Q>): Option<seq<Q>> {
    var s := Of(w, e.id);
    match e
    case Commit(_, persisted) =>
      if s.InTx? && Writes(c, s.tx.writes) != [] && Publishes(w, s.tx, persisted) then Some(Writes(c, s.tx.writes))
      else None
    case FinishBatch(_, persisted) =>
      if s.InBatch? && Publishes(w, s.batch, persisted) then Some(s.batch.writes) else None
    case Statement(_, sql) => if s.Idle? && c.exec(w.db, sql).Some? && !c.readOnly(sql) then Some([sql]) else None
    case _ => None
  }

  /** The same event with the answer of the log put in. */
  function Answered<Q>(e: Event<Q>, ok: bool): Event<Q> {
    match e
    case Commit(id, _) => Event.Commit(id, ok)
    case FinishBatch(id, _) => Event.FinishBatch(id, ok)
    case _ => e
  }

  function Record<D, Q>(c: Config<D, Q>, w: World<D, Q>, h: History<Q>, e: Event<Q>): History<Q> {
    var commits := match Publish(c, w, e) case Some(sqls) => h.commits + [sqls] case None => h.commits;
    var clones := Of(w, e.id).Idle? && !Of(Step(c, w, e), e.id).Idle?;
    History(commits, if clones then h.since[e.id := |h.commits|] else h.since)
  }

  // ------------------------------------------------------------- invariant

  function CloneOf<D, Q>(s: Session<D, Q>): Clone<D, Q>
    requires !s.Idle?
  {
    if s.InTx? then s.tx else s.batch
  }

  /** A clone taken after `n` publishes: its image is those publishes and then its own writes. */
  ghost predicate Faithful<D, Q>(c: Config<D, Q>, d0: D, commits: seq<seq<Q>>, n: nat, clone: Clone<D, Q>) {
    && n <= |commits| && clone.base == n % REVISIONS
    && RunAll(c, d0, Flat(commits[..n]) + clone.writes) == Some(clone.image)
  }

  /** The published database is the fold of the published lists in order; the revision counts them; every
      open clone is faithful. */
  ghost predicate Inv<D, Q>(c: Config<D, Q>, d0: D, w: World<D, Q>, h: History<Q>) {
    && RunAll(c, d0, Flat(h.commits)) == Some(w.db)
    && w.revision == |h.commits| % REVISIONS
    && forall id <- w.sessions :: !w.sessions[id].Idle? ==>
      id in h.since && Faithful(c, d0, h.commits, h.since[id], CloneOf(w.sessions[id]))
  }

  lemma {:induction false} RunConcat<D, Q>(c: Config<D, Q>, d: D, a: seq<Q>, b: seq<Q>)
    ensures RunAll(c, d, a + b) == match RunAll(c, d, a) case None => None case Some(e) => RunAll(c, e, b)
    decreases |b|
  {
    if b == [] {
      assert a + b == a;
    } else {
      var n := |b| - 1;
      assert (a + b)[..|a| + n] == a + b[..n];
      RunConcat(c, d, a, b[..n]);
    }
  }

  lemma RunSnoc<D, Q>(c: Config<D, Q>, d: D, a: seq<Q>, q: Q)
    ensures RunAll(c, d, a + [q]) == match RunAll(c, d, a) case None => None case Some(e) => c.exec(e, q)
  {
    assert (a + [q])[..|a|] == a;
  }

  /** The writes of a batch alone lead to the same image. */
  lemma {:induction false} WritesEnough<D(!new), Q(!new)>(c: Config<D, Q>, d: D, sqls: seq<Q>)
    requires ReadsOnly(c) && RunAll(c, d, sqls).Some?
    ensures RunAll(c, d, Writes(c, sqls)) == RunAll(c, d, sqls)
    decreases |sqls|
  {
    if sqls != [] {
      var n := |sqls| - 1;
      WritesEnough(c, d, sqls[..n]);
      RunSnoc(c, d, Writes(c, sqls[..n]), sqls[n]);
      assert Writes(c, sqls[..n]) + [] == Writes(c, sqls[..n]);
    }
  }

  /** More publishes leave an open clone faithful to the moment it was taken. */
  lemma StillFaithful<D, Q>(c: Config<D, Q>, d0: D, commits: seq<seq<Q>>, more: seq<Q>, n: nat, clone: Clone<D, Q>)
    requires Faithful(c, d0, commits, n, clone)
    ensures Faithful(c, d0, commits + [more], n, clone)
  {
    assert (commits + [more])[..n] == commits[..n];
  }

  lemma NewClone<D, Q>(c: Config<D, Q>, d0: D, w: World<D, Q>, h: History<Q>, d: D, writes: seq<Q>)
    requires Inv(c, d0, w, h) && RunAll(c, w.db, writes) == Some(d)
    ensures Faithful(c, d0, h.commits, |h.commits|, Clone(d, w.revision, writes))
  {
    assert h.commits[..|h.commits|] == h.commits;
    RunConcat(c, d0, Flat(h.commits), writes);
  }

  /** Revisions repeat only after 2^64 publishes. */
  predicate Recent(n: nat, now: nat) { n <= now < n + REVISIONS }

  lemma SameRevision(n: nat, now: nat)
    requires Recent(n, now)
    ensures n % REVISIONS == now % REVISIONS <==> n == now
  {
  }

  /** A clone can publish exactly when the publishes since it was taken are a multiple of 2^64, so, short
      of that many, exactly when there were none. */
  lemma PublishIff<D, Q>(c: Config<D, Q>, d0: D, w: World<D, Q>, h: History<Q>, n: nat, clone: Clone<D, Q>)
    requires Inv(c, d0, w, h) && Faithful(c, d0, h.commits, n, clone)
    ensures w.revision == clone.base <==> (|h.commits| - n) % REVISIONS == 0
    ensures Recent(n, |h.commits|) ==> (w.revision == clone.base <==> n == |h.commits|)
  {
    var now := |h.commits|;
    assert (now - n) % REVISIONS == 0 <==> now % REVISIONS == n % REVISIONS by { SameRemainder(now, n); }
    if Recent(n, now) { SameRevision(n, now); }
  }

  lemma SameRemainder(a: nat, b: nat)
    requires b <= a
    ensures (a - b) % REVISIONS == 0 <==> a % REVISIONS == b % REVISIONS
  {
    var p, q := a / REVISIONS, b / REVISIONS;
    assert a == REVISIONS * p + a % REVISIONS && b == REVISIONS * q + b % REVISIONS;
  }

  // ----------------------------------------------------------------- steps

  /** Nothing published: what changed is one session, and its clone is faithful. */
  lemma QuietStep<D, Q>(c: Config<D, Q>, d0: D, w: World<D, Q>, h: History<Q>, id: Id, s: Session<D, Q>,
                        since: map<Id, nat>)
    requires Inv(c, d0, w, h) && (since == h.since || since == h.since[id := |h.commits|])
    requires !s.Idle? ==> id in since && Faithful(c, d0, h.commits, since[id], CloneOf(s))
    ensures Inv(c, d0, With(w, id, s), History(h.commits, since))
  {
    hide RunAll, Flat, Faithful;
    var after := With(w, id, s);
    forall i <- after.sessions | !after.sessions[i].Idle?
      ensures i in since && Faithful(c, d0, h.commits, since[i], CloneOf(after.sessions[i]))
    {
      if i != id { assert i in w.sessions; }
    }
  }

  /** One more list published: the new database is the old one with the list run on it. */
  lemma LoudStep<D, Q>(c: Config<D, Q>, d0: D, w: World<D, Q>, h: History<Q>, sqls: seq<Q>, d: D,
                       sessions: map<Id, Session<D, Q>>)
    requires Inv(c, d0, w, h) && RunAll(c, w.db, sqls) == Some(d)
    requires forall i <- sessions :: !sessions[i].Idle? ==> i in w.sessions && w.sessions[i] == sessions[i]
    ensures Inv(c, d0, World(d, Next(w.revision), sessions), History(h.commits + [sqls], h.since))
  {
    FlatSnoc(h.commits, sqls);
    RunConcat(c, d0, Flat(h.commits), sqls);
    hide RunAll, Flat, Faithful;
    forall i <- sessions | !sessions[i].Idle?
      ensures i in h.since && Faithful(c, d0, h.commits + [sqls], h.since[i], CloneOf(sessions[i]))
    {
      StillFaithful(c, d0, h.commits, sqls, h.since[i], CloneOf(sessions[i]));
    }
  }

  /** A clone that publishes is the published database with its writes run on it. */
  lemma PublishRuns<D, Q>(c: Config<D, Q>, d0: D, w: World<D, Q>, h: History<Q>, n: nat, clone: Clone<D, Q>)
    requires Inv(c, d0, w, h) && Faithful(c, d0, h.commits, n, clone) && Recent(n, |h.commits|)
             && w.revision == clone.base
    ensures RunAll(c, w.db, clone.writes) == Some(clone.image)
  {
    PublishIff(c, d0, w, h, n, clone);
    assert h.commits[..n] == h.commits;
    RunConcat(c, d0, Flat(h.commits), clone.writes);
  }

  lemma TxStays<D(!new), Q(!new)>(c: Config<D, Q>, d0: D, commits: seq<seq<Q>>, n: nat, tx: Clone<D, Q>, sql: Q)
    requires ReadsOnly(c) && Faithful(c, d0, commits, n, tx)
    ensures var s := TxStatement(c, tx, sql); s.Idle? || (s.InTx? && Faithful(c, d0, commits, n, s.tx))
  {
    RunSnoc(c, d0, Flat(commits[..n]) + tx.writes, sql);
    assert Flat(commits[..n]) + (tx.writes + [sql]) == Flat(commits[..n]) + tx.writes + [sql];
  }

  /** Every open clone is younger than 2^64 publishes. */
  ghost predicate Timely<D, Q>(w: World<D, Q>, h: History<Q>) {
    forall id <- w.sessions :: !w.sessions[id].Idle? && id in h.since ==> Recent(h.since[id], |h.commits|)
  }

  /** Every step of every session keeps the invariant. */
  lemma StepKeeps<D(!new), Q(!new)>(c: Config<D, Q>, d0: D, w: World<D, Q>, h: History<Q>, e: Event<Q>)
    requires ReadsOnly(c) && Inv(c, d0, w, h) && Timely(w, h)
    ensures Inv(c, d0, Step(c, w, e), Record(c, w, h, e))
  {
    hide RunAll, Flat, Faithful, Writes;
    var id, s := e.id, Of(w, e.id);
    match e
    case Begin(_, allowed) =>
      assert RunAll(c, w.db, []) == Some(w.db) by { RunNothing(c, w.db); }
      NewClone(c, d0, w, h, w.db, []);
      QuietStep(c, d0, w, h, id, InTx(Clone(w.db, w.revision, [])), h.since[id := |h.commits|]);
    case Rollback(_) =>
      QuietStep(c, d0, w, h, id, Idle, h.since);
    case Commit(_, persisted) =>
      QuietStep(c, d0, w, h, id, Idle, h.since);
      if s.InTx? && Publishes(w, s.tx, persisted) {
        PublishRuns(c, d0, w, h, h.since[id], s.tx);
        WritesEnough(c, w.db, s.tx.writes);
        LoudStep(c, d0, w, h, Writes(c, s.tx.writes), s.tx.image, w.sessions[id := Idle]);
      }
    case Statement(_, sql) =>
      if s.InTx? {
        TxStays(c, d0, h.commits, h.since[id], s.tx, sql);
        QuietStep(c, d0, w, h, id, TxStatement(c, s.tx, sql), h.since);
      } else if s.Idle? && c.exec(w.db, sql).Some? && !c.readOnly(sql) {
        RunOne(c, w.db, sql);
        LoudStep(c, d0, w, h, [sql], c.exec(w.db, sql).value, w.sessions);
      }
    case StartBatch(_, sqls) =>
      if s.Idle? && RunAll(c, w.db, sqls).Some? {
        var d := RunAll(c, w.db, sqls).value;
        WritesEnough(c, w.db, sqls);
        NewClone(c, d0, w, h, d, Writes(c, sqls));
        QuietStep(c, d0, w, h, id, InBatch(Clone(d, w.revision, Writes(c, sqls))), h.since[id := |h.commits|]);
      }
    case FinishBatch(_, persisted) =>
      QuietStep(c, d0, w, h, id, Idle, h.since);
      if s.InBatch? && Publishes(w, s.batch, persisted) {
        PublishRuns(c, d0, w, h, h.since[id], s.batch);
        LoudStep(c, d0, w, h, s.batch.writes, s.batch.image, w.sessions[id := Idle]);
      }
  }

  lemma RunNothing<D, Q>(c: Config<D, Q>, d: D)
    ensures RunAll(c, d, []) == Some(d)
  {
  }

  lemma RunOne<D, Q>(c: Config<D, Q>, d: D, sql: Q)
    ensures RunAll(c, d, [sql]) == c.exec(d, sql)
  {
    assert [sql][..0] == [];
  }

  // ------------------------------------------------------------------ runs

  function After<D, Q>(c: Config<D, Q>, w: World<D, Q>, events: seq<Event<Q>>): World<D, Q> {
    if events == [] then w else Step(c, After(c, w, events[..|events| - 1]), events[|events| - 1])
  }

  function Logged<D, Q>(c: Config<D, Q>, w: World<D, Q>, h: History<Q>, events: seq<Event<Q>>): History<Q> {
    if events == [] then h
    else Record(c, After(c, w, events[..|events| - 1]), Logged(c, w, h, events[..|events| - 1]), events[|events| - 1])
  }

  lemma RecordGrows<D, Q>(c: Config<D, Q>, w: World<D, Q>, h: History<Q>, e: Event<Q>)
    ensures h.commits <= Record(c, w, h, e).commits
  {
  }

  /** In any interleaving with fewer than 2^64 publishes, the published database is the fold of the
      published lists in publishing order, and none of their statements fails in that fold. */
  lemma {:induction false} RunKeeps<D(!new), Q(!new)>(c: Config<D, Q>, d0: D, w: World<D, Q>, h: History<Q>,
                                                      events: seq<Event<Q>>)
    requires ReadsOnly(c) && Inv(c, d0, w, h) && |Logged(c, w, h, events).commits| < REVISIONS
    ensures Inv(c, d0, After(c, w, events), Logged(c, w, h, events))
    decreases |events|
  {
    hide Step, Record, Inv, ReadsOnly;
    if events != [] {
      var n := |events| - 1;
      var w1, h1 := After(c, w, events[..n]), Logged(c, w, h, events[..n]);
      RecordGrows(c, w1, h1, events[n]);
      RunKeeps(c, d0, w, h, events[..n]);
      FewAreTimely(c, d0, w1, h1);
      StepKeeps(c, d0, w1, h1, events[n]);
    }
  }

  lemma FewAreTimely<D, Q>(c: Config<D, Q>, d0: D, w: World<D, Q>, h: History<Q>)
    requires Inv(c, d0, w, h) && |h.commits| < REVISIONS
    ensures Timely(w, h)
  {
    hide RunAll, Flat;
  }

  /** The start: nothing published, nobody connected. */
  lemma FreshStart<D, Q>(c: Config<D, Q>, d0: D)
    ensures Inv(c, d0, World(d0, 0, map[]), History([], map[]))
  {
  }

  /** A transaction that has seen a publish since its BEGIN. */
  ghost predicate Stale<D, Q>(w: World<D, Q>, h: History<Q>, id: Id) {
    Of(w, id).InTx? && id in h.since && h.since[id] < |h.commits|
  }

  /** A stale transaction publishes nothing, and stays stale until it is given up. */
  lemma StaleStep<D(!new), Q(!new)>(c: Config<D, Q>, d0: D, w: World<D, Q>, h: History<Q>, e: Event<Q>, id: Id)
    requires Inv(c, d0, w, h) && Timely(w, h) && Stale(w, h, id)
    ensures e.id == id ==> Publish(c, w, e) == None && Step(c, w, e).db == w.db
    ensures Of(Step(c, w, e), id).Idle? || Stale(Step(c, w, e), Record(c, w, h, e), id)
  {
    hide RunAll, Flat, Writes;
    var s := Of(w, id);
    PublishIff(c, d0, w, h, h.since[id], s.tx);
    RecordGrows(c, w, h, e);
  }

  /** In no continuation does a stale transaction commit: as long as it is open, nothing it asks for is
      published, and it ends without a publish or stays stale. */
  lemma {:induction false} StaleNeverCommits<D(!new), Q(!new)>(c: Config<D, Q>, d0: D, w: World<D, Q>, h: History<Q>,
                                                               events: seq<Event<Q>>, id: Id)
    requires ReadsOnly(c) && Inv(c, d0, w, h) && Stale(w, h, id) && |Logged(c, w, h, events).commits| < REVISIONS
    requires forall i :: 0 <= i < |events| ==> !Of(After(c, w, events[..i]), id).Idle?
    ensures Of(After(c, w, events), id).Idle? || Stale(After(c, w, events), Logged(c, w, h, events), id)
    ensures forall i :: 0 <= i < |events| && events[i].id == id ==>
              Publish(c, After(c, w, events[..i]), events[i]) == None
    decreases |events|
  {
    hide Step, Record, Inv, ReadsOnly, Publish;
    if events != [] {
      var n := |events| - 1;
      var first := events[..n];
      var w1, h1 := After(c, w, first), Logged(c, w, h, first);
      RecordGrows(c, w1, h1, events[n]);
      forall i | 0 <= i <= n ensures first[..i] == events[..i] {}
      StaleNeverCommits(c, d0, w, h, first, id);
      RunKeeps(c, d0, w, h, first);
      FewAreTimely(c, d0, w1, h1);
      StaleStep(c, d0, w1, h1, events[n], id);
    }
  }

  /** A transaction or batch that publishes saw no publish since it began. */
  lemma CommitSawNothing<D(!new), Q(!new)>(c: Config<D, Q>, d0: D, w: World<D, Q>, h: History<Q>, e: Event<Q>)
    requires ReadsOnly(c) && Inv(c, d0, w, h) && Timely(w, h) && Publish(c, w, e).Some? && !Of(w, e.id).Idle?
    ensures h.since[e.id] == |h.commits|
    ensures RunAll(c, w.db, Publish(c, w, e).value) == Some(Step(c, w, e).db)
  {
    hide RunAll, Flat, Writes, Faithful;
    PublishIff(c, d0, w, h, h.since[e.id], CloneOf(Of(w, e.id)));
    PublishRuns(c, d0, w, h, h.since[e.id], CloneOf(Of(w, e.id)));
    if e.Commit? { WritesEnough(c, w.db, Of(w, e.id).tx.writes); }
  }

  // ------------------------------------------------------------ the server

  /** The shared database and its connections, changed in place. */
  class Server<D(0), Q(0)> {
    var db: D
    var revision: nat
    var sessions: map<Id, Session<D, Q>>

    ghost function W(): World<D, Q>
      reads this
    {
      World(db, revision, sessions)
    }

    constructor (d: D)
      ensures W() == World(d, 0, map[])
    {
      db, revision, sessions := d, 0, map[];
    }

    static method WriteStatements(c: Config<D, Q>, sqls: seq<Q>) returns (out: seq<Q>)
      ensures out == Writes(c, sqls)
    {
      out := [];
      for i := 0 to |sqls|
        invariant out == Writes(c, sqls[..i])
      {
        assert sqls[..i + 1][..i] == sqls[..i];
        if !c.readOnly(sqls[i]) {
          out := out + [sqls[i]];
        }
      }
      assert sqls[..|sqls|] == sqls;
    }

    /** CommitFrom: refuses a stale clone, persists, then publishes. */
    method CommitFrom(clone: Clone<D, Q>, persisted: bool) returns (ok: bool)
      modifies `db, `revision
      ensures ok <==> Publishes(old(W()), clone, persisted)
      ensures W() == if ok then Published(old(W()), clone) else old(W())
    {
      if revision != clone.base {
        return false;
      }
      if !persisted {
        return false;
      }
      db := clone.image;
      revision := (revision + 1) % REVISIONS;
      return true;
    }

    method Begin(c: Config<D, Q>, id: Id, allowed: bool)
      modifies `sessions
      ensures W() == Step(c, old(W()), Event.Begin(id, allowed))
    {
      if Of(World(db, revision, sessions), id).Idle? && allowed {
        sessions := sessions[id := InTx(Clone(db, revision, []))];
      }
    }

    method Rollback(c: Config<D, Q>, id: Id)
      modifies `sessions
      ensures W() == Step(c, old(W()), Event.Rollback(id))
    {
      if id in sessions && sessions[id].InTx? {
        sessions := sessions[id := Idle];
      }
    }

    /** What COMMIT or the end of an atomic batch hands to the log, if it gets that far: CommitFrom refuses a
        stale clone before it persists. */
    method Offer(c: Config<D, Q>, e: Event<Q>) returns (offer: Option<seq<Q>>)
      requires e.Commit? || e.FinishBatch?
      ensures offer == Publish(c, W(), Answered(e, true))
    {
      if e.id !in sessions || sessions[e.id].Idle? || e.Commit? != sessions[e.id].InTx? {
        return None;
      }
      var clone := CloneOf(sessions[e.id]);
      if revision != clone.base {
        return None;
      }
      if e.FinishBatch? {
        return Some(clone.writes);
      }
      var writes := WriteStatements(c, clone.writes);
      return if |writes| == 0 then None else Some(writes);
    }

    method Commit(c: Config<D, Q>, id: Id, persisted: bool) returns (published: Option<seq<Q>>)
      modifies this
      ensures W() == Step(c, old(W()), Event.Commit(id, persisted))
      ensures published == Publish(c, old(W()), Event.Commit(id, persisted))
    {
      if id !in sessions || !sessions[id].InTx? {
        return None;
      }
      var tx := sessions[id].tx;
      var writes := WriteStatements(c, tx.writes);
      if |writes| == 0 {
        sessions := sessions[id := Idle];
        return None;
      }
      var ok := CommitFrom(tx, persisted);
      if !ok {
        return None;
      }
      sessions := sessions[id := Idle];
      return Some(writes);
    }

    method Execute(c: Config<D, Q>, id: Id, sql: Q) returns (published: Option<seq<Q>>)
      requires !Of(W(), id).InBatch?
      modifies this
      ensures W() == Step(c, old(W()), Event.Statement(id, sql))
      ensures published == Publish(c, old(W()), Event.Statement(id, sql))
    {
      if id in sessions && sessions[id].InTx? {
        var tx := sessions[id].tx;
        match c.exec(tx.image, sql) {
          case None =>
            sessions := sessions[id := InTx(tx)];
          case Some(image) =>
            if c.readOnly(sql) {
              sessions := sessions[id := InTx(tx.(image := image))];
            } else if c.txLimit > 0 && |tx.writes| >= c.txLimit {
              sessions := sessions[id := Idle];
            } else {
              sessions := sessions[id := InTx(tx.(image := image, writes := tx.writes + [sql]))];
            }
        }
        return None;
      }
      match c.exec(db, sql) {
        case None =>
          return None;
        case Some(d) =>
          db := d;
          if c.readOnly(sql) {
            return None;
          }
          revision := (revision + 1) % REVISIONS;
          return Some([sql]);
      }
    }

    /** The private part of an atomic batch: a clone, and every statement on it. */
    method StartBatch(c: Config<D, Q>, id: Id, sqls: seq<Q>)
      modifies `sessions
      ensures W() == Step(c, old(W()), Event.StartBatch(id, sqls))
    {
      if id in sessions && !sessions[id].Idle? {
        return;
      }
      var image, writes: seq<Q> := db, [];
      for i := 0 to |sqls|
        invariant RunAll(c, db, sqls[..i]) == Some(image) && writes == Writes(c, sqls[..i])
      {
        assert sqls[..i + 1][..i] == sqls[..i];
        match c.exec(image, sqls[i]) {
          case None =>
            FailsEarly(c, db, sqls, i + 1);
            return;
          case Some(d) =>
            image := d;
        }
        if !c.readOnly(sqls[i]) {
          writes := writes + [sqls[i]];
        }
      }
      assert sqls[..|sqls|] == sqls;
      sessions := sessions[id := InBatch(Clone(image, revision, writes))];
    }

    method FinishBatch(c: Config<D, Q>, id: Id, persisted: bool) returns (published: Option<seq<Q>>)
      modifies this
      ensures W() == Step(c, old(W()), Event.FinishBatch(id, persisted))
      ensures published == Publish(c, old(W()), Event.FinishBatch(id, persisted))
    {
      if id !in sessions || !sessions[id].InBatch? {
        return None;
      }
      var batch := sessions[id].batch;
      var ok := CommitFrom(batch, persisted);
      sessions := sessions[id := Idle];
      return if ok then Some(batch.writes) else None;
    }
  }

  lemma {:induction false} FailsEarly<D, Q>(c: Config<D, Q>, d: D, sqls: seq<Q>, i: nat)
    requires i <= |sqls| && RunAll(c, d, sqls[..i]) == None
    ensures RunAll(c, d, sqls) == None
    decreases |sqls|
  {
    if i < |sqls| {
      var first := sqls[..|sqls| - 1];
      assert first[..i] == sqls[..i];
      FailsEarly(c, d, first, i);
    } else {
      assert sqls[..i] == sqls;
    }
  }
}
