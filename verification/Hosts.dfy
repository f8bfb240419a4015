/** A node over the bytes of its files (internal/server/server.go, persistence.go, internal/storage/wal.go):
    it serves requests and appends to the log, stops, is compacted, and starts again. */
module Hosts {
  import opened Durability
  import opened Sequences
  import opened Sessions
  import opened Values
  import Wal

  /** The log file holds exactly these statements. */
  ghost predicate Holds(codec: Wal.Codec, file: string, log: seq<string>) {
    Wal.Small(log) && file == Wal.Encoded(codec, log)
  }

  /** A whole append adds its batch. */
  lemma AppendHolds(codec: Wal.Codec, file: string, log: seq<string>, batch: seq<string>)
    requires Holds(codec, file, log) && Wal.Small(batch)
    ensures Holds(codec, file + Wal.Encoded(codec, batch), log + batch)
  {
    hide Wal.Encoded;
    Wal.EncodedConcat(codec, log, batch);
  }

  lemma {:induction false} ReplayRuns<D>(replay: Config<D, string>, d: D, sqls: seq<string>)
    ensures var run := Wal.Played(replay.exec, d, sqls);
            (run.ok <==> RunAll(replay, d, sqls).Some?) && (run.ok ==> RunAll(replay, d, sqls) == Some(run.state))
    decreases |sqls|
  {
    if sqls != [] { ReplayRuns(replay, d, sqls[..|sqls| - 1]); }
  }

  /** Loading and replaying over the bytes of the files: it succeeds exactly when the disk recovers. */
  method Recover<D(!new)>(r: Recovery<D>, codec: Wal.Codec, snapshot: D, file: string, ghost log: seq<string>)
    returns (d: D, ok: bool)
    requires Wal.Undoes(codec) && Holds(codec, file, log)
    ensures ok <==> Recovered(r, Disk(snapshot, log)).Some?
    ensures ok ==> Recovered(r, Disk(snapshot, log)) == Some(d)
  {
    hide RunAll, Wal.Undoes, Wal.Contents, Wal.Played, Wal.LogOf;
    var image := r.load(snapshot);
    d, ok := Wal.Replay(codec, file, r.replay.exec, image);
    ReplayRuns(r.replay, image, log);
    Wal.NewReadable(codec, log);
    Wal.ReplayOfLog(codec, Wal.New(log));
  }

  /** Compact: on an error the files stay as they are. */
  method CompactFiles<D(!new)>(r: Recovery<D>, codec: Wal.Codec, snapshot: D, file: string, ghost log: seq<string>)
    returns (image: D, left: string)
    requires Wal.Undoes(codec) && Holds(codec, file, log)
    ensures image == Compacted(r, Disk(snapshot, log)).snapshot
    ensures Holds(codec, left, Compacted(r, Disk(snapshot, log)).log)
  {
    hide Recovered, Wal.Undoes, Wal.Encoded;
    Wal.NothingEncoded(codec);
    var d, ok := Recover(r, codec, snapshot, file, log);
    if ok {
      return d, "";
    }
    return snapshot, file;
  }

  // --------------------------------------------------------- serving requests

  /** What clients send: BEGIN, ROLLBACK, COMMIT and statements, alone or in a plain batch, and atomic
      batches. */
  predicate Sendable(r: Request) {
    match r
    case Single(e, _) => Command(e)
    case Many(events, _) => forall i :: 0 <= i < |events| ==> Command(events[i])
    case Atomic(_, _, _) => true
  }

  predicate Command(e: Event<string>) { !e.StartBatch? && !e.FinishBatch? }

  /** Between requests no atomic batch is under way. */
  ghost predicate Calm<D>(w: World<D, string>) { forall id <- w.sessions :: !w.sessions[id].InBatch? }

  lemma CalmStep<D>(c: Config<D, string>, w: World<D, string>, e: Event<string>)
    requires Calm(w) && Command(e)
    ensures Calm(Step(c, w, e)) && !Of(w, e.id).InBatch?
  {
    hide RunAll, Writes;
  }

  lemma CalmBatch<D>(c: Config<D, string>, w: World<D, string>, r: Request)
    requires Calm(w) && r.Atomic?
    ensures Calm(Step(c, Step(c, w, StartBatch(r.id, r.sqls)), FinishBatch(r.id, r.kept)))
  {
    hide RunAll, Writes;
  }

  /** The shared database, the open log, and the snapshot the node started from. */
  class Host<D(0)> {
    const server: Server<D, string>
    const writer: Wal.Writer
    const snapshot: D

    constructor (d: D, snapshot: D, existing: string)
      ensures fresh(server) && fresh(writer) && this.snapshot == snapshot
      ensures server.W() == World(d, 0, map[]) && writer.file == existing && !writer.closed
    {
      server := new Server<D, string>(d);
      writer := new Wal.Writer(existing);
      this.snapshot := snapshot;
    }

    /** persistStatements: one append. */
    method Persist(codec: Wal.Codec, sqls: seq<string>, fs: Wal.Written, ghost log: seq<string>) returns (ok: bool)
      requires !writer.closed
      modifies writer`file
      ensures ok <==> Accepted(sqls, fs)
      ensures CleanOne(fs) && Holds(codec, old(writer.file), log) ==>
                Holds(codec, writer.file, if ok then log + sqls else log)
    {
      hide Wal.Encoded;
      ghost var file := writer.file;
      ok := writer.Append(codec, sqls, fs);
      assert file + "" == file && log + [] == log;
      Wal.NothingEncoded(codec);
      if Holds(codec, file, log) && Wal.Small(sqls) { AppendHolds(codec, file, log, sqls); }
    }

    /** One command, and the statements it publishes. COMMIT and an atomic batch append to the log after the
        check for conflicts and publish after the append. */
    method Dispatch(c: Config<D, string>, codec: Wal.Codec, e: Event<string>, fs: Wal.Written, ghost log: seq<string>)
      returns (effect: seq<string>)
      requires !writer.closed && (e.Statement? ==> !Of(server.W(), e.id).InBatch?)
      modifies server, writer`file
      ensures var x := Resolve(c, old(server.W()), e, fs);
              server.W() == Step(c, old(server.W()), x) && effect == Effect(c, old(server.W()), x)
      ensures CleanOne(fs) && Holds(codec, old(writer.file), log) ==>
                Holds(codec, writer.file, if e.Commit? || e.FinishBatch? then log + effect else log)
    {
      hide Step, Holds;
      var published := None;
      if e.Commit? || e.FinishBatch? {
        var offer := server.Offer(c, e);
        var ok := true;
        assert log + [] == log;
        if offer.Some? {
          ok := Persist(codec, offer.value, fs, log);
        }
        if e.Commit? {
          published := server.Commit(c, e.id, ok);
        } else {
          published := server.FinishBatch(c, e.id, ok);
        }
      } else if e.Begin? {
        server.Begin(c, e.id, e.allowed);
      } else if e.Rollback? {
        server.Rollback(c, e.id);
      } else if e.Statement? {
        published := server.Execute(c, e.id, e.sql);
      } else {
        server.StartBatch(c, e.id, e.sqls);
      }
      return if published.Some? then published.value else [];
    }

    /** A plain batch: COMMITs persist at once, direct writes are kept back and persisted at the end. */
    method ServeMany(c: Config<D, string>, codec: Wal.Codec, events: seq<Event<string>>, fs: seq<Wal.Written>,
                     ghost log: seq<string>)
      requires !writer.closed && Calm(server.W()) && Sendable(Many(events, true))
      modifies server, writer`file
      ensures server.W() == Served(c, old(server.W()), Done(c, old(server.W()), Many(events, true), fs))
      ensures Calm(server.W())
      ensures Clean(fs) && Holds(codec, old(writer.file), log) ==>
                Holds(codec, writer.file,
                      log + Persisted(c, old(server.W()), Done(c, old(server.W()), Many(events, true), fs)))
    {
      hide Step, Effect, After, Early, Pending, Holds, Resolve, Calm;
      ghost var w := server.W();
      ghost var played: seq<Event<string>> := [];
      ghost var clean := Clean(fs) && Holds(codec, writer.file, log);
      var pending: seq<string> := [];
      NoFurther(c, w);
      assert log + [] == log;
      for i := 0 to |events|
        invariant played == Played(c, w, events[..i], fs) && server.W() == After(c, w, played) && Calm(server.W())
        invariant pending == Pending(c, w, played)
        invariant clean ==> Holds(codec, writer.file, log + Early(c, w, played))
      {
        ghost var x := Resolve(c, server.W(), events[i], Answer(fs, i));
        assert events[..i + 1][..i] == events[..i];
        assert x.Commit? <==> events[i].Commit? by { SameKind(c, server.W(), events[i], Answer(fs, i)); }
        Further(c, w, played, x);
        CalmResolved(c, server.W(), events[i], Answer(fs, i));
        var effect := Dispatch(c, codec, events[i], Answer(fs, i), log + Early(c, w, played));
        assert log + Early(c, w, played) + effect == log + (Early(c, w, played) + effect);
        if !events[i].Commit? {
          pending := pending + effect;
        }
        played := played + [x];
      }
      assert events[..|events|] == events;
      var ok := Persist(codec, pending, Answer(fs, |events|), log + Early(c, w, played));
      assert log + Early(c, w, played) + pending == log + (Early(c, w, played) + pending);
      assert Early(c, w, played) + [] == Early(c, w, played);
    }

    /** executeRequest in wal mode. */
    method ExecuteRequest(c: Config<D, string>, codec: Wal.Codec, r: Request, fs: seq<Wal.Written>,
                          ghost log: seq<string>)
      requires !writer.closed && Calm(server.W()) && Sendable(r)
      modifies server, writer`file
      ensures server.W() == Served(c, old(server.W()), Done(c, old(server.W()), r, fs)) && Calm(server.W())
      ensures Clean(fs) && Holds(codec, old(writer.file), log) ==>
                Holds(codec, writer.file, log + Persisted(c, old(server.W()), Done(c, old(server.W()), r, fs)))
    {
      hide Step, After, Early, Pending, Holds, Effects, Calm;
      ghost var w := server.W();
      assert log + [] == log;
      match r {
        case Many(events, _) =>
          ServeMany(c, codec, events, fs, log);
        case Single(e, _) =>
          ghost var x := Resolve(c, w, e, Answer(fs, 0));
          OneEvent(c, w, x);
          CalmResolved(c, w, e, Answer(fs, 0));
          var effect := Dispatch(c, codec, e, Answer(fs, 0), log);
          if !e.Commit? {
            var _ := Persist(codec, effect, Answer(fs, 0), log);
          }
        case Atomic(id, sqls, _) =>
          TwoEvents(c, w, Done(c, w, r, fs));
          CalmBatch(c, w, Done(c, w, r, fs));
          var _ := Dispatch(c, codec, StartBatch(id, sqls), Answer(fs, 0), log);
          var _ := Dispatch(c, codec, FinishBatch(id, true), Answer(fs, 0), log);
      }
    }
  }

  lemma SameKind<D>(c: Config<D, string>, w: World<D, string>, e: Event<string>, fs: Wal.Written)
    ensures Resolve(c, w, e, fs).Commit? <==> e.Commit?
    ensures Command(Resolve(c, w, e, fs)) <==> Command(e)
    ensures Resolve(c, w, e, fs).id == e.id
  {
  }

  lemma CalmResolved<D>(c: Config<D, string>, w: World<D, string>, e: Event<string>, fs: Wal.Written)
    requires Calm(w) && Command(e)
    ensures Calm(Step(c, w, Resolve(c, w, e, fs))) && !Of(w, e.id).InBatch?
  {
    SameKind(c, w, e, fs);
    CalmStep(c, w, Resolve(c, w, e, fs));
  }

  // ------------------------------------------------------------ whole lives

  /** The node's files and its database are those of the model. */
  ghost predicate Is<D(0)>(host: Host<D>, codec: Wal.Codec, n: Node<D>)
    reads host.server, host.writer
  {
    && host.server.W() == n.world && Calm(n.world)
    && host.snapshot == n.disk.snapshot && !host.writer.closed && Holds(codec, host.writer.file, n.disk.log)
  }

  /** Starts on these files, compacting them first if asked to. */
  method Start<D(!new, 0)>(r: Recovery<D>, codec: Wal.Codec, snapshot: D, file: string, compact: bool,
                           ghost log: seq<string>)
    returns (host: Host?<D>)
    requires Wal.Undoes(codec) && Holds(codec, file, log)
    ensures var disk := if compact then Compacted(r, Disk(snapshot, log)) else Disk(snapshot, log);
            && (host != null <==> Recovered(r, disk).Some?)
            && (host != null ==> fresh(host) && fresh(host.server) && fresh(host.writer)
                                 && Is(host, codec, Started(Recovered(r, disk).value, disk)))
  {
    hide Recovered, Compacted, Wal.Undoes, Holds;
    var image, left := snapshot, file;
    ghost var rest := log;
    if compact {
      image, left := CompactFiles(r, codec, snapshot, file, log);
      rest := Compacted(r, Disk(snapshot, log)).log;
    }
    var d, ok := Recover(r, codec, image, left, rest);
    if ok {
      return new Host<D>(d, image, left);
    }
    return null;
  }

  /** A whole life over the bytes of the files: it never fails to start, the node is always the one of the
      model, and starting once more gives exactly the database last published. */
  method Live<D(!new, 0)>(r: Recovery<D>, c: Config<D, string>, codec: Wal.Codec, first: Host<D>, ghost n: Node<D>,
                          ops: seq<Op>)
    returns (host: Host<D>, d: D, ok: bool)
    requires Wal.Undoes(codec) && ReadsOnly(c) && Extends(r.replay, c)
    requires Durable(r, c, n) && Is(first, codec, n)
    requires forall i :: 0 <= i < |ops| ==> Guarded(c, Lived(r, c, n, ops[..i]), ops[i])
    requires forall i :: 0 <= i < |ops| && ops[i].Serve? ==> Sendable(ops[i].r)
    modifies first.server, first.writer
    ensures Is(host, codec, Lived(r, c, n, ops)) && Durable(r, c, Lived(r, c, n, ops))
    ensures ok && d == host.server.db
  {
    hide Wal.Undoes, ReadsOnly, Extends, Durable, Guarded, Life, Holds, Recovered;
    host := first;
    for i := 0 to |ops|
      invariant Is(host, codec, Lived(r, c, n, ops[..i])) && Durable(r, c, Lived(r, c, n, ops[..i]))
      invariant host == first || (fresh(host.server) && fresh(host.writer))
    {
      ghost var now := Lived(r, c, n, ops[..i]);
      assert ops[..i + 1][..i] == ops[..i];
      LifeKeeps(r, c, now, ops[i]);
      host := Turn(r, c, codec, host, now, ops[i]);
    }
    assert ops[..|ops|] == ops;
    ghost var end := Lived(r, c, n, ops);
    d, ok := Recover(r, codec, host.snapshot, host.writer.file, end.disk.log);
    assert Recovers(r, end.disk, end.world.db) by { DurableRecovers(r, c, end); }
  }

  lemma DurableRecovers<D>(r: Recovery<D>, c: Config<D, string>, n: Node<D>)
    requires Durable(r, c, n)
    ensures Recovers(r, n.disk, n.world.db)
  {
  }

  /** One step of a life. */
  method Turn<D(!new, 0)>(r: Recovery<D>, c: Config<D, string>, codec: Wal.Codec, host: Host<D>, ghost n: Node<D>,
                          op: Op)
    returns (next: Host<D>)
    requires Wal.Undoes(codec) && Is(host, codec, n) && Durable(r, c, n) && Guarded(c, n, op)
    requires op.Serve? ==> Sendable(op.r)
    modifies host.server, host.writer
    ensures Is(next, codec, Life(r, c, n, op))
    ensures next == host || (fresh(next.server) && fresh(next.writer))
  {
    hide Wal.Undoes, Holds, Recovered, Compacted, Served, Persisted, Done, Logged, Inv, Calm, Orderly, Kept;
    match op {
      case Serve(sent, fs) =>
        host.ExecuteRequest(c, codec, sent, fs, n.disk.log);
        return host;
      case Restart(compact) =>
        CompactKeeps(r, n.disk, n.world.db);
        DurableRecovers(r, c, n);
        var started := Start(r, codec, host.snapshot, host.writer.file, compact, n.disk.log);
        return started;
    }
  }

  // ------------------------------------------------------- appends that fail

  /** Starting on these bytes gives this database. */
  ghost predicate FileRecovers<D>(r: Recovery<D>, codec: Wal.Codec, snapshot: D, file: string, db: D) {
    var all := Wal.Contents(codec, file);
    all.ok && Recovers(r, Disk(snapshot, all.sqls), db)
  }

  /** The first letters of the frame mark are no statement. */
  ghost predicate NotSql<D(!new)>(r: Recovery<D>) {
    forall d, n :: 0 < n < 8 ==> r.replay.exec(d, Wal.MAGIC[..n]) == None
  }

  /** What replay finds after an append of which some bytes are there: a few bytes of a first frame are no
      statement; otherwise it is the log before and the first records of the batch, at least one if it
      ends well. */
  lemma TornContents(codec: Wal.Codec, file: string, log: seq<string>, batch: seq<string>, n: nat)
    requires Wal.Undoes(codec) && Holds(codec, file, log) && Wal.Small(batch) && 0 < n <= |Wal.Encoded(codec, batch)|
    ensures var all := Wal.Contents(codec, file + Wal.Encoded(codec, batch)[..n]);
            if |file| + n < 8 then all.sqls == [Wal.MAGIC[..n]]
            else all.ok ==> exists k :: 0 < k <= |batch| && all.sqls == log + batch[..k]
  {
    hide Wal.Encoded, Wal.Undoes, Wal.Contents, Wal.Whole, Wal.OnBoundary, Wal.LogOf;
    if |file| + n < 8 {
      StubContents(codec, file, log, batch, n);
    } else {
      OneBatch(codec, log);
      Wal.ReplayOfTornBatch(codec, [log], batch, n);
      assert Wal.Torn(Wal.Encoded(codec, batch), n) == Wal.Encoded(codec, batch)[..n];
      var k := Wal.Whole(codec, Wal.New(batch), n);
      if Wal.OnBoundary(codec, Wal.New(batch), n) {
        Wal.BoundaryIff(codec, Wal.New(batch), n);
        if k == 0 { NoRecords(codec, batch); }
        assert 0 < k && Wal.Contents(codec, file + Wal.Encoded(codec, batch)[..n]).sqls == log + batch[..k];
      }
    }
  }

  lemma NoRecords(codec: Wal.Codec, batch: seq<string>)
    requires Wal.Small(batch)
    ensures Wal.AllReadable(codec, Wal.New(batch)[..0]) && Wal.LogOf(codec, Wal.New(batch)[..0]) == ""
  {
  }

  lemma OneBatch(codec: Wal.Codec, log: seq<string>)
    requires Wal.Small(log)
    ensures Wal.Appended(codec, [log]) == Wal.Encoded(codec, log) && Flat([log]) == log
  {
    hide Wal.Encoded;
    assert [log][..0] == [];
    assert "" + Wal.Encoded(codec, log) == Wal.Encoded(codec, log) && [] + log == log;
  }

  lemma StubContents(codec: Wal.Codec, file: string, log: seq<string>, batch: seq<string>, n: nat)
    requires Holds(codec, file, log) && Wal.Small(batch) && 0 < n <= |Wal.Encoded(codec, batch)| && |file| + n < 8
    ensures Wal.Contents(codec, file + Wal.Encoded(codec, batch)[..n]).sqls == [Wal.MAGIC[..n]]
  {
    hide Wal.Contents, Wal.LogOf;
    Wal.NewReadable(codec, log);
    Wal.NewReadable(codec, batch);
    Wal.NothingEncoded(codec);
    if log != [] { Wal.ReplayOfStub(codec, Wal.New(log), |file|); }
    assert log == [] && batch != [];
    assert file + Wal.Encoded(codec, batch)[..n] == Wal.Encoded(codec, batch)[..n];
    Wal.ReplayOfStub(codec, Wal.New(batch), n);
  }

  /** An append that failed has refused its COMMIT, but what it left in the file is replayed: if its
      statements make the database larger, starting gives the published database exactly when it left
      no byte. */
  lemma RefusedAppend<D(!new)>(r: Recovery<D>, codec: Wal.Codec, snapshot: D, file: string, log: seq<string>, db: D,
                               batch: seq<string>, fs: Wal.Written, size: D -> nat)
    requires Wal.Undoes(codec) && NotSql(r) && Holds(codec, file, log) && Wal.Small(batch)
    requires Recovers(r, Disk(snapshot, log), db) && Grows(r, size, batch)
    ensures var left := Wal.Taken(Wal.Encoded(codec, batch), fs);
            FileRecovers(r, codec, snapshot, file + left, db) <==> left == ""
  {
    hide Wal.Encoded, Wal.Undoes, Wal.Contents, Wal.LogOf, RunAll, Grows;
    var left := Wal.Taken(Wal.Encoded(codec, batch), fs);
    var n := |left|;
    assert left == Wal.Encoded(codec, batch)[..n];
    if n == 0 {
      assert file + left == file;
      WholeContents(codec, file, log);
    } else {
      TornContents(codec, file, log, batch, n);
      var all := Wal.Contents(codec, file + left);
      if |file| + n < 8 {
        RunOne(r.replay, r.load(snapshot), Wal.MAGIC[..n]);
      } else if all.ok {
        var k :| 0 < k <= |batch| && all.sqls == log + batch[..k];
        NotUndone(r, snapshot, log, db, batch, k, size);
      }
    }
  }

  /** Torn after any number of records, the file is a log again, with that much of a COMMIT that was
      refused. */
  lemma HalfCommit(codec: Wal.Codec, file: string, log: seq<string>, batch: seq<string>, k: nat)
    requires Holds(codec, file, log) && Wal.Small(batch) && k <= |batch|
    ensures Wal.Small(batch[..k])
    ensures Holds(codec, file + Wal.Torn(Wal.Encoded(codec, batch), |Wal.Encoded(codec, batch[..k])|), log + batch[..k])
  {
    hide Wal.Encoded;
    var first, rest := batch[..k], batch[k..];
    assert batch == first + rest;
    Wal.EncodedConcat(codec, first, rest);
    var all, head := Wal.Encoded(codec, batch), Wal.Encoded(codec, first);
    assert Wal.Torn(all, |head|) == head;
    AppendHolds(codec, file, log, first);
  }

  lemma WholeContents(codec: Wal.Codec, file: string, log: seq<string>)
    requires Wal.Undoes(codec) && Holds(codec, file, log)
    ensures Wal.Contents(codec, file) == Wal.Delivery(log, true)
  {
    hide Wal.Undoes, Wal.Contents, Wal.LogOf;
    Wal.NewReadable(codec, log);
    Wal.ReplayOfLog(codec, Wal.New(log));
  }

  lemma NotUndone<D(!new)>(r: Recovery<D>, snapshot: D, log: seq<string>, db: D, batch: seq<string>, k: nat,
                           size: D -> nat)
    requires Recovers(r, Disk(snapshot, log), db) && Grows(r, size, batch) && 0 < k <= |batch|
    ensures !Recovers(r, Disk(snapshot, log + batch[..k]), db)
  {
    hide RunAll;
    RunConcat(r.replay, r.load(snapshot), log, batch[..k]);
    assert Grows(r, size, batch[..k]) by { assert forall q :: q in batch[..k] ==> q in batch; }
    if RunAll(r.replay, db, batch[..k]).Some? { RunGrows(r, size, db, batch[..k]); }
  }
}
