/** What BEGIN, COMMIT, ROLLBACK and atomic batches (internal/server/server.go) promise a connection, whatever the
    other connections do in between. */
module Transactions {
  import opened Sequences
  import opened Sessions
  import opened Values

  /** The same for everybody. */
  ghost predicate Same<D, Q>(a: World<D, Q>, b: World<D, Q>) {
    a.db == b.db && a.revision == b.revision && forall x :: Of(a, x) == Of(b, x)
  }

  /** The same for everybody but one connection. */
  ghost predicate SameBut<D, Q>(a: World<D, Q>, b: World<D, Q>, id: Id) {
    a.db == b.db && a.revision == b.revision && forall x :: x != id ==> Of(a, x) == Of(b, x)
  }

  /** What the other connections ask for. */
  function Others<Q>(events: seq<Event<Q>>, id: Id): seq<Event<Q>> {
    if events == [] then []
    else Others(events[..|events| - 1], id) + if events[|events| - 1].id == id then [] else [events[|events| - 1]]
  }

  // --------------------------------------------------------------- one step

  /** ROLLBACK ends the transaction and touches nothing else; without a transaction it does nothing. */
  lemma RollbackEnds<D, Q>(c: Config<D, Q>, w: World<D, Q>, id: Id)
    ensures var v := Step(c, w, Rollback(id));
            && SameBut(v, w, id) && Publish(c, w, Rollback(id)) == None
            && (if Of(w, id).InTx? then Of(v, id).Idle? else v == w)
  {
  }

  /** What a connection does inside its transaction nobody else sees. */
  lemma OwnStep<D, Q>(c: Config<D, Q>, w: World<D, Q>, e: Event<Q>)
    requires Of(w, e.id).InTx? && Of(Step(c, w, e), e.id).InTx?
    ensures SameBut(Step(c, w, e), w, e.id) && Publish(c, w, e) == None
  {
    hide RunAll, Writes;
  }

  /** What a connection does depends on nothing that another one has of its own. */
  lemma OthersStep<D, Q>(c: Config<D, Q>, a: World<D, Q>, b: World<D, Q>, e: Event<Q>, id: Id)
    requires SameBut(a, b, id) && e.id != id
    ensures SameBut(Step(c, a, e), Step(c, b, e), id) && Publish(c, a, e) == Publish(c, b, e)
  {
    hide RunAll, Writes;
    assert Of(a, e.id) == Of(b, e.id);
    forall x | x != id ensures Of(Step(c, a, e), x) == Of(Step(c, b, e), x) {
      assert Of(a, x) == Of(b, x);
    }
  }

  lemma SameStep<D, Q>(c: Config<D, Q>, a: World<D, Q>, b: World<D, Q>, e: Event<Q>)
    requires Same(a, b)
    ensures Same(Step(c, a, e), Step(c, b, e)) && Publish(c, a, e) == Publish(c, b, e)
  {
    hide RunAll, Writes;
    assert Of(a, e.id) == Of(b, e.id);
    forall x ensures Of(Step(c, a, e), x) == Of(Step(c, b, e), x) {
      assert Of(a, x) == Of(b, x);
    }
  }

  // ------------------------------------------------------------ interleavings

  /** The lists that are published on the way, in order. */
  function PublishedLists<D, Q>(c: Config<D, Q>, w: World<D, Q>, events: seq<Event<Q>>): seq<seq<Q>> {
    if events == [] then []
    else
      var n := |events| - 1;
      PublishedLists(c, w, events[..n])
      + match Publish(c, After(c, w, events[..n]), events[n]) case Some(sqls) => [sqls] case None => []
  }

  lemma {:induction false} PublishedIsLogged<D, Q>(c: Config<D, Q>, w: World<D, Q>, h: History<Q>,
                                                   events: seq<Event<Q>>)
    ensures Logged(c, w, h, events).commits == h.commits + PublishedLists(c, w, events)
    decreases |events|
  {
    hide Step, Publish;
    if events != [] { PublishedIsLogged(c, w, h, events[..|events| - 1]); }
  }

  lemma {:induction false} AfterConcat<D, Q>(c: Config<D, Q>, w: World<D, Q>, a: seq<Event<Q>>, b: seq<Event<Q>>)
    ensures After(c, w, a + b) == After(c, After(c, w, a), b)
    ensures PublishedLists(c, w, a + b) == PublishedLists(c, w, a) + PublishedLists(c, After(c, w, a), b)
    decreases |b|
  {
    hide Step, Publish;
    if b == [] {
      assert a + b == a;
    } else {
      var n := |b| - 1;
      assert (a + b)[..|a| + n] == a + b[..n];
      AfterConcat(c, w, a, b[..n]);
    }
  }

  lemma {:induction false} SameRun<D, Q>(c: Config<D, Q>, a: World<D, Q>, b: World<D, Q>, events: seq<Event<Q>>)
    requires Same(a, b)
    ensures Same(After(c, a, events), After(c, b, events))
    ensures PublishedLists(c, a, events) == PublishedLists(c, b, events)
    decreases |events|
  {
    hide Step, Publish, Same;
    if events != [] {
      var n := |events| - 1;
      SameRun(c, a, b, events[..n]);
      SameStep(c, After(c, a, events[..n]), After(c, b, events[..n]), events[n]);
    }
  }

  /** The transaction of a connection stays open throughout. */
  ghost predicate Open<D, Q>(c: Config<D, Q>, w: World<D, Q>, events: seq<Event<Q>>, id: Id) {
    forall k :: 0 <= k <= |events| ==> Of(After(c, w, events[..k]), id).InTx?
  }

  lemma OpenPrefix<D, Q>(c: Config<D, Q>, w: World<D, Q>, events: seq<Event<Q>>, id: Id)
    requires Open(c, w, events, id) && events != []
    ensures var first := events[..|events| - 1];
            Open(c, w, first, id) && Of(After(c, w, first), id).InTx? && Of(After(c, w, events), id).InTx?
  {
    hide After;
    var n := |events| - 1;
    var first := events[..n];
    forall k | 0 <= k <= n ensures first[..k] == events[..k] {}
    assert events[..n + 1] == events;
  }

  /** As long as a transaction is open, everybody else has the world they would have without it. */
  lemma {:induction false} Isolated<D, Q>(c: Config<D, Q>, w: World<D, Q>, v: World<D, Q>, events: seq<Event<Q>>,
                                          id: Id)
    requires SameBut(w, v, id) && Open(c, w, events, id)
    ensures SameBut(After(c, w, events), After(c, v, Others(events, id)), id)
    ensures Of(After(c, v, Others(events, id)), id) == Of(v, id)
    ensures PublishedLists(c, w, events) == PublishedLists(c, v, Others(events, id))
    decreases |events|
  {
    hide Step, Publish, SameBut, Open;
    if events != [] {
      var n := |events| - 1;
      var first, e := events[..n], events[n];
      OpenPrefix(c, w, events, id);
      Isolated(c, w, v, first, id);
      var a, b := After(c, w, first), After(c, v, Others(first, id));
      if e.id == id {
        OwnStep(c, a, e);
        Chained(Step(c, a, e), a, b, id);
        assert Others(events, id) == Others(first, id);
      } else {
        OthersStep(c, a, b, e, id);
        UnseenByOthers(c, b, e, id);
        var more := Others(first, id) + [e];
        assert more[..|more| - 1] == Others(first, id) && Others(events, id) == more;
      }
    }
  }

  lemma Chained<D, Q>(a: World<D, Q>, b: World<D, Q>, d: World<D, Q>, id: Id)
    requires SameBut(a, b, id) && SameBut(b, d, id)
    ensures SameBut(a, d, id)
  {
  }

  lemma UnseenByOthers<D, Q>(c: Config<D, Q>, w: World<D, Q>, e: Event<Q>, id: Id)
    requires e.id != id
    ensures Of(Step(c, w, e), id) == Of(w, id)
  {
    hide RunAll, Writes;
  }

  /** A transaction that is rolled back can be left out: with and without it everybody ends up with the same
      world, the same lists are published, and so it goes on. */
  lemma RolledBack<D, Q>(c: Config<D, Q>, w: World<D, Q>, id: Id, middle: seq<Event<Q>>, after: seq<Event<Q>>)
    requires Of(w, id).Idle? && Open(c, Step(c, w, Begin(id, true)), middle, id)
    ensures var all := [Begin(id, true)] + middle + [Rollback(id)] + after;
            var rest := Others(middle, id) + after;
            Same(After(c, w, all), After(c, w, rest)) && PublishedLists(c, w, all) == PublishedLists(c, w, rest)
  {
    hide Step, Publish, Same, SameBut, Open, Others, PublishedLists;
    var begin, end, rest := [Event<Q>.Begin(id, true)], [Event<Q>.Rollback(id)], Others(middle, id);
    var w1 := Step(c, w, begin[0]);
    OneEvent(c, w, begin[0]);
    BeginIs(c, w, id);
    Isolated(c, w1, w, middle, id);
    var w2, v2 := After(c, w1, middle), After(c, w, rest);
    assert middle[..|middle|] == middle;
    assert Of(w2, id).InTx? by { OpenEnd(c, w1, middle, id); }
    RollbackEnds(c, w2, id);
    OneEvent(c, w2, end[0]);
    var w3 := Step(c, w2, end[0]);
    assert Same(w3, v2) by { Chained(w3, w2, v2, id); BothIdle(w3, v2, id); }
    SameRun(c, w3, v2, after);
    AfterConcat(c, w, begin, middle);
    AfterConcat(c, w, begin + middle, end);
    AfterConcat(c, w, begin + middle + end, after);
    AfterConcat(c, w, rest, after);
    assert [] + PublishedLists(c, w1, middle) + [] == PublishedLists(c, w1, middle);
  }

  lemma OpenEnd<D, Q>(c: Config<D, Q>, w: World<D, Q>, events: seq<Event<Q>>, id: Id)
    requires Open(c, w, events, id)
    ensures Of(After(c, w, events), id).InTx?
  {
    assert events[..|events|] == events;
  }

  lemma BothIdle<D, Q>(a: World<D, Q>, b: World<D, Q>, id: Id)
    requires SameBut(a, b, id) && Of(a, id) == Of(b, id)
    ensures Same(a, b)
  {
  }

  lemma OneEvent<D, Q>(c: Config<D, Q>, w: World<D, Q>, e: Event<Q>)
    ensures After(c, w, [e]) == Step(c, w, e)
    ensures PublishedLists(c, w, [e]) == match Publish(c, w, e) case Some(sqls) => [sqls] case None => []
  {
    hide Step, Publish;
    assert [e][..0] == [];
  }

  /** BEGIN takes a clone of what is published and touches nothing else. */
  lemma BeginIs<D, Q>(c: Config<D, Q>, w: World<D, Q>, id: Id)
    requires Of(w, id).Idle?
    ensures var v := Step(c, w, Begin(id, true));
            && SameBut(v, w, id) && Of(v, id) == InTx(Clone(w.db, w.revision, []))
            && Publish(c, w, Begin(id, true)) == None
  {
  }

  /** It is refused, and nothing happens, where a transaction is open or the database is too large. */
  lemma BeginRefused<D, Q>(c: Config<D, Q>, w: World<D, Q>, id: Id, allowed: bool)
    ensures Step(c, w, Begin(id, allowed)) == w <==> !(Of(w, id).Idle? && allowed)
  {
  }

  /** Outside a transaction a statement acts on what is published, at once: if it fails nothing happens, if it
      only reads the revision stays, and else it is the next revision and published by itself. */
  lemma DirectIs<D(!new), Q(!new)>(c: Config<D, Q>, w: World<D, Q>, id: Id, q: Q)
    requires ReadsOnly(c) && Of(w, id).Idle?
    ensures var v, e := Step(c, w, Statement(id, q)), c.exec(w.db, q);
            && (forall x :: Of(v, x) == Of(w, x)) && v.db == (if e.Some? then e.value else w.db)
            && (e.Some? && !c.readOnly(q) ==>
                  Publish(c, w, Statement(id, q)) == Some([q]) && v.revision == (w.revision + 1) % REVISIONS)
            && (e.None? || c.readOnly(q) ==> Publish(c, w, Statement(id, q)) == None && v == w)
  {
  }

  /** After the end of a transaction COMMIT and ROLLBACK do nothing until the connection asks for something
      else. */
  lemma {:induction false} NothingToCommit<D, Q>(c: Config<D, Q>, w: World<D, Q>, events: seq<Event<Q>>, id: Id, k: nat)
    requires Of(w, id).Idle? && k <= |events|
    requires forall i :: 0 <= i < |events| && events[i].id == id ==> events[i].Commit? || events[i].Rollback?
    ensures Of(After(c, w, events[..k]), id).Idle?
    ensures k < |events| && events[k].id == id ==>
              Publish(c, After(c, w, events[..k]), events[k]) == None
              && Step(c, After(c, w, events[..k]), events[k]) == After(c, w, events[..k])
    decreases k
  {
    hide RunAll, Writes;
    if k > 0 {
      NothingToCommit(c, w, events, id, k - 1);
      assert events[..k][..k - 1] == events[..k - 1];
      var v, e := After(c, w, events[..k - 1]), events[k - 1];
      if e.id != id { UnseenByOthers(c, v, e, id); }
    }
  }

  // ------------------------------------------------- what a transaction does

  /** What a connection executes. */
  function Asked<Q>(events: seq<Event<Q>>, id: Id): seq<Q> {
    if events == [] then []
    else
      var e := events[|events| - 1];
      Asked(events[..|events| - 1], id) + if e.Statement? && e.id == id then [e.sql] else []
  }

  /** The statements that succeed when executed in turn; the others are passed over. */
  function Effective<D, Q>(c: Config<D, Q>, d: D, sqls: seq<Q>): seq<Q> {
    if sqls == [] then []
    else
      var first, q := Effective(c, d, sqls[..|sqls| - 1]), sqls[|sqls| - 1];
      first + match RunAll(c, d, first + [q]) case Some(_) => [q] case None => []
  }

  lemma {:induction false} EffectiveRuns<D, Q>(c: Config<D, Q>, d: D, sqls: seq<Q>)
    ensures RunAll(c, d, Effective(c, d, sqls)).Some?
    decreases |sqls|
  {
    if sqls != [] {
      EffectiveRuns(c, d, sqls[..|sqls| - 1]);
      assert Effective(c, d, sqls[..|sqls| - 1]) + [] == Effective(c, d, sqls[..|sqls| - 1]);
    }
  }

  lemma AskedSnoc<D, Q>(c: Config<D, Q>, d: D, asked: seq<Q>, q: Q)
    ensures var run := Effective(c, d, asked);
            Effective(c, d, asked + [q]) == run + match RunAll(c, d, run + [q]) case Some(_) => [q] case None => []
  {
    assert (asked + [q])[..|asked|] == asked;
  }

  lemma WritesSnoc<D, Q>(c: Config<D, Q>, sqls: seq<Q>, q: Q)
    ensures Writes(c, sqls + [q]) == if c.readOnly(q) then Writes(c, sqls) else Writes(c, sqls) + [q]
  {
    assert (sqls + [q])[..|sqls|] == sqls;
    assert Writes(c, sqls) + [] == Writes(c, sqls);
  }

  /** The clone of an open transaction: the database at its BEGIN, with the statements of the connection that
      succeeded run on it in order, and the writes among them. */
  ghost predicate Private<D, Q>(c: Config<D, Q>, start: World<D, Q>, asked: seq<Q>, tx: Clone<D, Q>) {
    var run := Effective(c, start.db, asked);
    RunAll(c, start.db, run) == Some(tx.image) && tx.writes == Writes(c, run) && tx.base == start.revision
  }

  lemma PrivateStep<D, Q>(c: Config<D, Q>, start: World<D, Q>, asked: seq<Q>, tx: Clone<D, Q>, q: Q)
    requires Private(c, start, asked, tx) && TxStatement(c, tx, q).InTx?
    ensures Private(c, start, asked + [q], TxStatement(c, tx, q).tx)
  {
    hide Effective;
    var run := Effective(c, start.db, asked);
    AskedSnoc(c, start.db, asked, q);
    RunSnoc(c, start.db, run, q);
    hide RunAll;
    WritesSnoc(c, run, q);
    assert run + [] == run;
  }

  lemma {:induction false} PrivateIs<D, Q>(c: Config<D, Q>, w: World<D, Q>, id: Id, middle: seq<Event<Q>>)
    requires Of(w, id).Idle? && Open(c, Step(c, w, Begin(id, true)), middle, id)
    ensures var now := After(c, Step(c, w, Begin(id, true)), middle);
            Of(now, id).InTx? && Private(c, w, Asked(middle, id), Of(now, id).tx)
    decreases |middle|
  {
    hide Step, Private, Open;
    var w1 := Step(c, w, Begin(id, true));
    BeginIs(c, w, id);
    if middle == [] {
      PrivateStart(c, w);
    } else {
      var n := |middle| - 1;
      var first, e := middle[..n], middle[n];
      OpenPrefix(c, w1, middle, id);
      PrivateIs(c, w, id, first);
      var v := After(c, w1, first);
      if e.id != id {
        UnseenByOthers(c, v, e, id);
        assert Asked(first, id) + [] == Asked(first, id);
      } else if e.Statement? {
        StatementIs(c, v, e);
        PrivateStep(c, w, Asked(first, id), Of(v, id).tx, e.sql);
      } else {
        StaysAsItIs(c, v, e);
        assert Asked(first, id) + [] == Asked(first, id);
      }
    }
  }

  lemma PrivateStart<D, Q>(c: Config<D, Q>, w: World<D, Q>)
    ensures Private(c, w, [], Clone(w.db, w.revision, []))
  {
  }

  lemma StatementIs<D, Q>(c: Config<D, Q>, w: World<D, Q>, e: Event<Q>)
    requires e.Statement? && Of(w, e.id).InTx?
    ensures Of(Step(c, w, e), e.id) == TxStatement(c, Of(w, e.id).tx, e.sql)
  {
    hide TxStatement;
  }

  lemma StaysAsItIs<D, Q>(c: Config<D, Q>, w: World<D, Q>, e: Event<Q>)
    requires !e.Statement? && Of(w, e.id).InTx? && Of(Step(c, w, e), e.id).InTx?
    ensures Of(Step(c, w, e), e.id) == Of(w, e.id)
  {
    hide RunAll, Writes;
  }

  /** A whole transaction among any others: its COMMIT publishes exactly when it wrote something, nobody
      published since its BEGIN, and the log took it. Then the new database is the one at BEGIN with its
      statements run on it, and its writes are what is published. A COMMIT that finds a conflict or that
      the log refuses changes nothing and leaves the transaction open; one without writes ends it. */
  lemma TransactionIff<D(!new), Q(!new)>(c: Config<D, Q>, d0: D, w: World<D, Q>, h: History<Q>, id: Id,
                                         middle: seq<Event<Q>>, persisted: bool)
    requires ReadsOnly(c) && Inv(c, d0, w, h) && Of(w, id).Idle?
    requires Open(c, Step(c, w, Begin(id, true)), middle, id)
    requires |h.commits| + |PublishedLists(c, Step(c, w, Begin(id, true)), middle)| < REVISIONS
    ensures var now := After(c, Step(c, w, Begin(id, true)), middle);
            var run := Effective(c, w.db, Asked(middle, id));
            var quiet := PublishedLists(c, Step(c, w, Begin(id, true)), middle) == [];
            var next := Step(c, now, Commit(id, persisted));
            && (Publish(c, now, Commit(id, persisted)) ==
                if quiet && persisted && Writes(c, run) != [] then Some(Writes(c, run)) else None)
            && (quiet && persisted && Writes(c, run) != [] ==>
                now.db == w.db && Some(next.db) == RunAll(c, w.db, run) && Of(next, id).Idle?)
            && (Writes(c, run) == [] ==> SameBut(next, now, id) && Of(next, id).Idle?)
            && (Writes(c, run) != [] && !(quiet && persisted) ==> next == now)
  {
    hide Step, Private, Open, Effective, RunAll, Writes, Inv, ReadsOnly, Publish, PublishedLists;
    var w1 := Step(c, w, Begin(id, true));
    var now := After(c, w1, middle);
    var run := Effective(c, w.db, Asked(middle, id));
    PrivateIs(c, w, id, middle);
    BeginIs(c, w, id);
    QuietAfter(c, d0, w, h, Begin(id, true), middle);
    CommitIs(c, now, id, persisted);
    var tx := Of(now, id).tx;
    assert RunAll(c, w.db, run) == Some(tx.image) && tx.writes == Writes(c, run) && tx.base == w.revision by {
      PrivateParts(c, w, Asked(middle, id), tx);
    }
    assert Writes(c, tx.writes) == Writes(c, run) by { WritesTwice(c, run); }
  }

  lemma PrivateParts<D, Q>(c: Config<D, Q>, start: World<D, Q>, asked: seq<Q>, tx: Clone<D, Q>)
    requires Private(c, start, asked, tx)
    ensures var run := Effective(c, start.db, asked);
            RunAll(c, start.db, run) == Some(tx.image) && tx.writes == Writes(c, run) && tx.base == start.revision
  {
  }

  lemma {:induction false} WritesTwice<D, Q>(c: Config<D, Q>, sqls: seq<Q>)
    ensures Writes(c, Writes(c, sqls)) == Writes(c, sqls)
    decreases |sqls|
  {
    if sqls != [] {
      var first, q := sqls[..|sqls| - 1], sqls[|sqls| - 1];
      WritesTwice(c, first);
      WritesSnoc(c, Writes(c, first), q);
      assert Writes(c, first) + [] == Writes(c, first);
    }
  }

  /** COMMIT in plain terms. */
  lemma CommitIs<D, Q>(c: Config<D, Q>, w: World<D, Q>, id: Id, persisted: bool)
    requires Of(w, id).InTx?
    ensures var tx := Of(w, id).tx;
            var next := Step(c, w, Commit(id, persisted));
            var writes := Writes(c, tx.writes);
            var goes := writes != [] && w.revision == tx.base && persisted;
            && Publish(c, w, Commit(id, persisted)) == (if goes then Some(writes) else None)
            && (goes ==> next.db == tx.image && Of(next, id).Idle?)
            && (writes == [] ==> SameBut(next, w, id) && Of(next, id).Idle?)
            && (writes != [] && !goes ==> next == w)
  {
    hide Writes;
  }

  /** Inside a transaction a statement ends it exactly when, with this statement, it would have more
      writes than the limit. */
  lemma AbortIff<D, Q>(c: Config<D, Q>, start: World<D, Q>, w: World<D, Q>, asked: seq<Q>, e: Event<Q>)
    requires e.Statement? && Of(w, e.id).InTx? && Private(c, start, asked, Of(w, e.id).tx)
    requires c.txLimit > 0 ==> |Of(w, e.id).tx.writes| <= c.txLimit
    ensures Of(Step(c, w, e), e.id).Idle? <==>
            c.txLimit > 0 && |Writes(c, Effective(c, start.db, asked + [e.sql]))| > c.txLimit
    ensures SameBut(Step(c, w, e), w, e.id) && Publish(c, w, e) == None
  {
    hide Effective, RunAll, Writes, Private;
    PrivateParts(c, start, asked, Of(w, e.id).tx);
    var run := Effective(c, start.db, asked);
    AskedSnoc(c, start.db, asked, e.sql);
    RunSnoc(c, start.db, run, e.sql);
    WritesSnoc(c, run, e.sql);
    assert run + [] == run;
  }

  /** No transaction ever has more. */
  ghost predicate Limited<D, Q>(c: Config<D, Q>, w: World<D, Q>) {
    c.txLimit > 0 ==> forall id <- w.sessions :: w.sessions[id].InTx? ==> |w.sessions[id].tx.writes| <= c.txLimit
  }

  lemma {:induction false} StaysLimited<D, Q>(c: Config<D, Q>, w: World<D, Q>, events: seq<Event<Q>>)
    requires Limited(c, w)
    ensures Limited(c, After(c, w, events))
    decreases |events|
  {
    hide RunAll, Writes;
    if events != [] {
      StaysLimited(c, w, events[..|events| - 1]);
      LimitedStep(c, After(c, w, events[..|events| - 1]), events[|events| - 1]);
    }
  }

  lemma LimitedStep<D, Q>(c: Config<D, Q>, w: World<D, Q>, e: Event<Q>)
    requires Limited(c, w)
    ensures Limited(c, Step(c, w, e))
  {
    hide RunAll, Writes;
  }

  // ----------------------------------------------------------- atomic batches

  /** Inside a transaction it is refused. */
  lemma BatchRefused<D, Q>(c: Config<D, Q>, w: World<D, Q>, id: Id, sqls: seq<Q>)
    requires !Of(w, id).Idle?
    ensures Step(c, w, StartBatch(id, sqls)) == w
  {
    hide RunAll, Writes;
  }

  /** An atomic batch among any others publishes exactly when all its statements succeed, nobody published
      since it took its clone, and the log took it. Then the new database is the old one with all of them
      run on it; otherwise nothing changes. Either way it is over. */
  lemma BatchIff<D(!new), Q(!new)>(c: Config<D, Q>, d0: D, w: World<D, Q>, h: History<Q>, id: Id, sqls: seq<Q>,
                                   middle: seq<Event<Q>>, persisted: bool)
    requires ReadsOnly(c) && Inv(c, d0, w, h) && Of(w, id).Idle?
    requires forall i :: 0 <= i < |middle| ==> middle[i].id != id
    requires |h.commits| + |PublishedLists(c, Step(c, w, StartBatch(id, sqls)), middle)| < REVISIONS
    ensures var w1 := Step(c, w, StartBatch(id, sqls));
            var now := After(c, w1, middle);
            var quiet := PublishedLists(c, w1, middle) == [];
            var next := Step(c, now, FinishBatch(id, persisted));
            var goes := RunAll(c, w.db, sqls).Some? && quiet && persisted;
            && SameBut(w1, w, id) && Of(next, id).Idle? && (forall x :: x != id ==> Of(next, x) == Of(now, x))
            && Publish(c, now, FinishBatch(id, persisted)) == (if goes then Some(Writes(c, sqls)) else None)
            && (if goes then now.db == w.db && Some(next.db) == RunAll(c, w.db, sqls) else SameBut(next, now, id))
  {
    hide Step, RunAll, Writes, Inv, ReadsOnly, Publish, PublishedLists;
    var w1 := Step(c, w, StartBatch(id, sqls));
    StartIs(c, w, id, sqls);
    UnseenByAll(c, w1, middle, id);
    StillThere(c, d0, w, h, id, sqls, middle);
    FinishIs(c, After(c, w1, middle), id, persisted);
  }

  lemma StartIs<D, Q>(c: Config<D, Q>, w: World<D, Q>, id: Id, sqls: seq<Q>)
    requires Of(w, id).Idle?
    ensures var v := Step(c, w, StartBatch(id, sqls));
            && SameBut(v, w, id) && Publish(c, w, StartBatch(id, sqls)) == None
            && Of(v, id) == match RunAll(c, w.db, sqls)
                            case None => Idle
                            case Some(d) => InBatch(Clone(d, w.revision, Writes(c, sqls)))
  {
    hide RunAll, Writes;
  }

  lemma FinishIs<D, Q>(c: Config<D, Q>, w: World<D, Q>, id: Id, persisted: bool)
    requires !Of(w, id).InTx?
    ensures var s := Of(w, id);
            var next := Step(c, w, FinishBatch(id, persisted));
            var goes := s.InBatch? && w.revision == s.batch.base && persisted;
            && Of(next, id).Idle? && (forall x :: x != id ==> Of(next, x) == Of(w, x))
            && Publish(c, w, FinishBatch(id, persisted)) == (if goes then Some(s.batch.writes) else None)
            && (if goes then next.db == s.batch.image else SameBut(next, w, id))
  {
  }

  lemma {:induction false} UnseenByAll<D, Q>(c: Config<D, Q>, w: World<D, Q>, events: seq<Event<Q>>, id: Id)
    requires forall i :: 0 <= i < |events| ==> events[i].id != id
    ensures Of(After(c, w, events), id) == Of(w, id)
    decreases |events|
  {
    hide Step;
    if events != [] {
      UnseenByAll(c, w, events[..|events| - 1], id);
      UnseenByOthers(c, After(c, w, events[..|events| - 1]), events[|events| - 1], id);
    }
  }

  lemma StillThere<D(!new), Q(!new)>(c: Config<D, Q>, d0: D, w: World<D, Q>, h: History<Q>, id: Id, sqls: seq<Q>,
                                     middle: seq<Event<Q>>)
    requires ReadsOnly(c) && Inv(c, d0, w, h) && Of(w, id).Idle?
    requires |h.commits| + |PublishedLists(c, Step(c, w, StartBatch(id, sqls)), middle)| < REVISIONS
    ensures var w1 := Step(c, w, StartBatch(id, sqls));
            var now := After(c, w1, middle);
            var quiet := PublishedLists(c, w1, middle) == [];
            (quiet <==> now.revision == w.revision) && (quiet ==> now.db == w.db)
  {
    hide Step, RunAll, Writes, PublishedLists, Publish;
    StartIs(c, w, id, sqls);
    QuietAfter(c, d0, w, h, StartBatch(id, sqls), middle);
  }

  /** Nobody published since an event that published nothing itself exactly when the revision is still the
      same, and then neither has the database changed. */
  lemma QuietAfter<D(!new), Q(!new)>(c: Config<D, Q>, d0: D, w: World<D, Q>, h: History<Q>, e: Event<Q>,
                                     middle: seq<Event<Q>>)
    requires ReadsOnly(c) && Inv(c, d0, w, h) && Publish(c, w, e) == None
    requires |h.commits| + |PublishedLists(c, Step(c, w, e), middle)| < REVISIONS
    ensures var now := After(c, Step(c, w, e), middle);
            var quiet := PublishedLists(c, Step(c, w, e), middle) == [];
            (quiet <==> now.revision == w.revision) && (quiet ==> now.db == w.db)
  {
    hide RunAll, Flat, Faithful, Writes, PublishedLists, Publish, Step;
    var w1 := Step(c, w, e);
    OneEvent(c, w, e);
    AfterConcat(c, w, [e], middle);
    PublishedIsLogged(c, w, h, [e] + middle);
    assert [] + PublishedLists(c, w1, middle) == PublishedLists(c, w1, middle);
    RunKeeps(c, d0, w, h, [e] + middle);
    assert h.commits + [] == h.commits;
  }
}
