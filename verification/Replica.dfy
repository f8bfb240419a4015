/** The replicated state machine (internal/cluster/state.go): committed entries change the engine and the
    range directory in log order; each member also tracks leaders on its own. Statement execution is a
    parameter. */
module Replica {
  import opened Engines
  import opened Values
  import R = Ranges

  datatype Entry =
    | Run(sqls: seq<string>, atomic: bool, rangeID: nat, generation: nat)
    | Change(op: Option<R.Op>)
    | Unknown

  datatype State<D> = State(db: D, dir: R.Directory, index: nat)

  datatype Outcome<D> = Outcome(state: State<D>, ok: bool)

  /** Statements in turn up to the first that fails, which stays undone. */
  function RunPart<D>(exec: Exec<D>, d: D, sqls: seq<string>): (D, bool) {
    if sqls == [] then (d, true)
    else
      var (e, ok) := RunPart(exec, d, sqls[..|sqls| - 1]);
      if !ok then (e, false)
      else match exec(e, sqls[|sqls| - 1]) case None => (e, false) case Some(f) => (f, true)
  }

  /** The range an entry is fenced by is there, at the generation it names. */
  predicate Admitted(dir: R.Directory, e: Entry)
    requires e.Run?
  {
    e.rangeID == 0 ||
    (e.rangeID in dir.ranges && (e.generation == 0 || e.generation == dir.ranges[e.rangeID].generation))
  }

  function ExecEntry<D>(exec: Exec<D>, s: State<D>, e: Entry): Outcome<D>
    requires e.Run?
  {
    if !Admitted(s.dir, e) then Outcome(s, false)
    else
      var (d, ok) := RunPart(exec, s.db, e.sqls);
      Outcome(if e.atomic && !ok then s else s.(db := d), ok)
  }

  function RangeEntry<D>(s: State<D>, e: Entry): Outcome<D>
    requires e.Change?
  {
    match e.op
    case None => Outcome(s, false)
    case Some(op) => Outcome(s.(dir := R.Apply(s.dir, op)), R.FenceHolds(s.dir, op))
  }

  /** The index moves on whether or not the entry succeeds, but not for an entry of no known kind. */
  function Commit<D>(exec: Exec<D>, s: State<D>, idx: nat, e: Entry): Outcome<D> {
    match e
    case Run(_, _, _, _) => var o := ExecEntry(exec, s, e); o.(state := o.state.(index := idx))
    case Change(_) => var o := RangeEntry(s, e); o.(state := o.state.(index := idx))
    case Unknown => Outcome(s, false)
  }

  /** What happens on one member: an entry is committed, or it learns of a leader. */
  datatype Event = Committed(idx: nat, entry: Entry) | Leader(rangeID: nat, leader: string)

  function Step<D>(exec: Exec<D>, s: State<D>, e: Event): State<D> {
    match e
    case Committed(idx, entry) => Commit(exec, s, idx, entry).state
    case Leader(id, leader) => s.(dir := R.WithLeader(s.dir, id, leader))
  }

  function After<D>(exec: Exec<D>, s: State<D>, events: seq<Event>): State<D> {
    if events == [] then s else Step(exec, After(exec, s, events[..|events| - 1]), events[|events| - 1])
  }

  /** The committed entries among the events. */
  function LogOf(events: seq<Event>): seq<Event> {
    if events == [] then []
    else LogOf(events[..|events| - 1]) + if events[|events| - 1].Committed? then [events[|events| - 1]] else []
  }

  /** All statements in turn, or none. */
  function RunWhole<D>(exec: Exec<D>, d: D, sqls: seq<string>): Option<D> {
    if sqls == [] then Some(d)
    else match exec(d, sqls[0]) case None => None case Some(e) => RunWhole(exec, e, sqls[1..])
  }

  lemma {:induction false} PartIsWhole<D>(exec: Exec<D>, d: D, sqls: seq<string>)
    ensures RunWhole(exec, d, sqls) == if RunPart(exec, d, sqls).1 then Some(RunPart(exec, d, sqls).0) else None
    decreases |sqls|
  {
    if sqls != [] {
      FromFront(exec, d, sqls);
      if exec(d, sqls[0]).Some? { PartIsWhole(exec, exec(d, sqls[0]).value, sqls[1..]); }
    }
  }

  lemma {:induction false} FromFront<D>(exec: Exec<D>, d: D, sqls: seq<string>)
    requires sqls != []
    ensures RunPart(exec, d, sqls)
            == match exec(d, sqls[0]) case None => (d, false) case Some(e) => RunPart(exec, e, sqls[1..])
    decreases |sqls|
  {
    var n := |sqls| - 1;
    if n > 0 {
      FromFront(exec, d, sqls[..n]);
      assert sqls[..n][1..] == sqls[1..][..n - 1];
    } else {
      assert sqls[..n] == [] && RunPart(exec, d, sqls[..n]) == (d, true);
    }
  }

  /** How many statements succeed in turn before one fails. */
  function Passing<D>(exec: Exec<D>, d: D, sqls: seq<string>): (k: nat)
    ensures k <= |sqls|
  {
    if sqls == [] then 0
    else match exec(d, sqls[0]) case None => 0 case Some(e) => 1 + Passing(exec, e, sqls[1..])
  }

  /** Those statements, and with the next one it does not go through. */
  lemma {:induction false} PassingIs<D>(exec: Exec<D>, d: D, sqls: seq<string>)
    ensures var k := Passing(exec, d, sqls);
            && RunWhole(exec, d, sqls[..k]).Some?
            && (k < |sqls| ==> RunWhole(exec, d, sqls[..k + 1]) == None)
            && RunPart(exec, d, sqls) == (RunWhole(exec, d, sqls[..k]).value, k == |sqls|)
            && (k == |sqls| <==> RunWhole(exec, d, sqls).Some?)
    decreases |sqls|
  {
    hide RunPart;
    var k := Passing(exec, d, sqls);
    if sqls == [] {
      PartIsWhole(exec, d, sqls);
    } else {
      FromFront(exec, d, sqls);
      assert sqls[..1] == [sqls[0]] && [sqls[0]][1..] == [];
      if exec(d, sqls[0]).Some? {
        var e, rest := exec(d, sqls[0]).value, sqls[1..];
        PassingIs(exec, e, rest);
        assert sqls[..k][1..] == rest[..k - 1];
        if k < |sqls| { assert sqls[..k + 1][1..] == rest[..k]; }
      }
    }
  }

  /** What carrying out an entry comes to: an atomic one is executed whole, or not at all if a statement
      fails; of any other exactly the statements before the first that fails take effect. */
  function Carried<D>(exec: Exec<D>, s: State<D>, idx: nat, e: Entry): Outcome<D>
    requires e.Run?
  {
    PassingIs(exec, s.db, e.sqls);
    var k := Passing(exec, s.db, e.sqls);
    if e.atomic && k < |e.sqls| then Outcome(s.(index := idx), false)
    else Outcome(s.(db := RunWhole(exec, s.db, e.sqls[..k]).value, index := idx), k == |e.sqls|)
  }

  /** An entry is carried out if its fence lets it in, and otherwise changes nothing but the index. */
  lemma EntryIs<D>(exec: Exec<D>, s: State<D>, idx: nat, e: Entry)
    requires e.Run?
    ensures Commit(exec, s, idx, e) == if Admitted(s.dir, e) then Carried(exec, s, idx, e)
                                       else Outcome(s.(index := idx), false)
  {
    hide RunPart, RunWhole;
    PassingIs(exec, s.db, e.sqls);
  }

  /** An atomic entry is executed whole exactly when its fence holds and every statement succeeds, and
      otherwise changes nothing but the index. */
  lemma AtomicEntry<D>(exec: Exec<D>, s: State<D>, idx: nat, e: Entry)
    requires e.Run? && e.atomic
    ensures Commit(exec, s, idx, e) ==
            if Admitted(s.dir, e) && RunWhole(exec, s.db, e.sqls).Some?
            then Outcome(s.(db := RunWhole(exec, s.db, e.sqls).value, index := idx), true)
            else Outcome(s.(index := idx), false)
  {
    PartIsWhole(exec, s.db, e.sqls);
  }

  // ------------------------------------------------------------- agreement

  ghost predicate SameDirectory(a: R.Directory, b: R.Directory) {
    && a.assign == b.assign && a.nextID == b.nextID && a.ranges.Keys == b.ranges.Keys
    && forall id <- a.ranges :: R.SameButLeader(a.ranges[id], b.ranges[id])
  }

  ghost predicate Agree<D>(eq: (D, D) -> bool, a: State<D>, b: State<D>) {
    eq(a.db, b.db) && SameDirectory(a.dir, b.dir) && a.index == b.index
  }

  /** Every statement is safe where it is executed, up to the first that fails. */
  ghost predicate SafePart<D>(exec: Exec<D>, safe: (D, string) -> bool, d: D, sqls: seq<string>) {
    forall i :: 0 <= i < |sqls| && RunPart(exec, d, sqls[..i]).1 ==> safe(RunPart(exec, d, sqls[..i]).0, sqls[i])
  }

  lemma {:induction false} RunAgrees<D(!new)>(mine: Exec<D>, yours: Exec<D>, eq: (D, D) -> bool,
                                              safe: (D, string) -> bool, a: D, b: D, sqls: seq<string>)
    requires AgreeWhen(mine, yours, eq, safe) && eq(a, b)
    requires SafePart(mine, safe, a, sqls) && SafePart(yours, safe, b, sqls)
    ensures RunPart(mine, a, sqls).1 == RunPart(yours, b, sqls).1
            && eq(RunPart(mine, a, sqls).0, RunPart(yours, b, sqls).0)
    decreases |sqls|
  {
    if sqls != [] {
      var n := |sqls| - 1;
      var first := sqls[..n];
      forall i | 0 <= i < n ensures first[..i] == sqls[..i] && first[i] == sqls[i] {}
      RunAgrees(mine, yours, eq, safe, a, b, first);
    }
  }

  lemma PlaceAgrees(a: R.Directory, b: R.Directory, r: R.Range)
    requires SameDirectory(a, b)
    ensures SameDirectory(R.Place(a, r), R.Place(b, r))
  {
  }

  lemma {:induction false} PlaceAllAgrees(a: R.Directory, b: R.Directory, rs: seq<R.Range>)
    requires SameDirectory(a, b)
    ensures SameDirectory(R.PlaceAll(a, rs), R.PlaceAll(b, rs))
    decreases |rs|
  {
    hide SameDirectory;
    if rs != [] {
      var n := |rs| - 1;
      PlaceAllAgrees(a, b, rs[..n]);
      PlaceAgrees(R.PlaceAll(a, rs[..n]), R.PlaceAll(b, rs[..n]), rs[n]);
    }
  }

  /** Fencing looks at generations only, so members agree on what is refused. */
  lemma ChangeAgrees(a: R.Directory, b: R.Directory, op: R.Op)
    requires SameDirectory(a, b)
    ensures R.FenceHolds(a, op) == R.FenceHolds(b, op) && SameDirectory(R.Apply(a, op), R.Apply(b, op))
  {
    hide R.PlaceAll;
    var removed := R.ToSet(op.remove);
    PlaceAllAgrees(a.(ranges := a.ranges - removed), b.(ranges := b.ranges - removed), op.ranges);
  }

  ghost predicate SafeEntry<D>(exec: Exec<D>, safe: (D, string) -> bool, s: State<D>, e: Entry) {
    e.Run? && Admitted(s.dir, e) ==> SafePart(exec, safe, s.db, e.sqls)
  }

  lemma CommitAgrees<D(!new)>(mine: Exec<D>, yours: Exec<D>, eq: (D, D) -> bool, safe: (D, string) -> bool,
                              a: State<D>, b: State<D>, idx: nat, e: Entry)
    requires AgreeWhen(mine, yours, eq, safe) && Agree(eq, a, b)
    requires SafeEntry(mine, safe, a, e) && SafeEntry(yours, safe, b, e)
    ensures Commit(mine, a, idx, e).ok == Commit(yours, b, idx, e).ok
    ensures Agree(eq, Commit(mine, a, idx, e).state, Commit(yours, b, idx, e).state)
  {
    hide RunPart, R.Apply, R.FenceHolds, AgreeWhen, SafePart;
    match e
    case Run(sqls, _, _, _) =>
      if Admitted(a.dir, e) { RunAgrees(mine, yours, eq, safe, a.db, b.db, sqls); }
    case Change(op) => if op.Some? { ChangeAgrees(a.dir, b.dir, op.value); }
    case Unknown =>
  }

  lemma LeaderAgrees(a: R.Directory, b: R.Directory, id: nat, leader: string)
    requires SameDirectory(a, b)
    ensures SameDirectory(R.WithLeader(a, id, leader), b)
  {
  }

  /** Every entry is safe where it is committed. */
  ghost predicate SafeRun<D>(exec: Exec<D>, safe: (D, string) -> bool, s: State<D>, events: seq<Event>) {
    forall i :: 0 <= i < |events| && events[i].Committed? ==>
      SafeEntry(exec, safe, After(exec, s, events[..i]), events[i].entry)
  }

  lemma SafePrefix<D>(exec: Exec<D>, safe: (D, string) -> bool, s: State<D>, events: seq<Event>)
    requires SafeRun(exec, safe, s, events) && events != []
    ensures var n := |events| - 1;
            && SafeRun(exec, safe, s, events[..n])
            && (events[n].Committed? ==> SafeEntry(exec, safe, After(exec, s, events[..n]), events[n].entry))
  {
    hide After, SafeEntry;
    var n := |events| - 1;
    var first := events[..n];
    forall i | 0 <= i < n ensures first[..i] == events[..i] && first[i] == events[i] {}
  }

  lemma SafeSnoc<D>(exec: Exec<D>, safe: (D, string) -> bool, s: State<D>, events: seq<Event>, e: Event)
    requires SafeRun(exec, safe, s, events)
    requires e.Committed? ==> SafeEntry(exec, safe, After(exec, s, events), e.entry)
    ensures SafeRun(exec, safe, s, events + [e])
  {
    hide After, SafeEntry;
    var more := events + [e];
    assert more[..|events|] == events;
    forall i | 0 <= i < |events| ensures more[..i] == events[..i] && more[i] == events[i] {}
  }

  /** The same but for leaders. */
  ghost predicate SameButLeaders<D>(a: State<D>, b: State<D>) {
    a.db == b.db && SameDirectory(a.dir, b.dir) && a.index == b.index
  }

  lemma CommitSame<D>(exec: Exec<D>, a: State<D>, b: State<D>, idx: nat, e: Entry)
    requires SameButLeaders(a, b)
    ensures SameButLeaders(Commit(exec, a, idx, e).state, Commit(exec, b, idx, e).state)
  {
    hide RunPart, R.Apply, R.FenceHolds;
    if e.Change? && e.op.Some? { ChangeAgrees(a.dir, b.dir, e.op.value); }
  }

  lemma SafeSame<D>(exec: Exec<D>, safe: (D, string) -> bool, a: State<D>, b: State<D>, e: Entry)
    requires SameButLeaders(a, b) && SafeEntry(exec, safe, a, e)
    ensures SafeEntry(exec, safe, b, e)
  {
    hide SafePart;
  }

  /** Leader updates on one member can be left out. */
  lemma {:induction false} LeadersDoNotMatter<D>(exec: Exec<D>, safe: (D, string) -> bool, s: State<D>,
                                                 events: seq<Event>)
    ensures SameButLeaders(After(exec, s, events), After(exec, s, LogOf(events)))
    ensures SafeRun(exec, safe, s, events) ==> SafeRun(exec, safe, s, LogOf(events))
    decreases |events|
  {
    hide SameDirectory, Commit, R.WithLeader, SafeRun, SafeEntry;
    if events == [] {
      SameSelf(s);
    } else {
      var n := |events| - 1;
      var first, last := events[..n], events[n];
      LeadersDoNotMatter(exec, safe, s, first);
      var a, b := After(exec, s, first), After(exec, s, LogOf(first));
      if SafeRun(exec, safe, s, events) { SafePrefix(exec, safe, s, events); }
      match last
      case Committed(idx, entry) =>
        CommitSame(exec, a, b, idx, entry);
        var log := LogOf(first) + [last];
        assert log[..|log| - 1] == LogOf(first) && LogOf(events) == log;
        if SafeRun(exec, safe, s, events) {
          SafeSame(exec, safe, a, b, entry);
          SafeSnoc(exec, safe, s, LogOf(first), last);
        }
      case Leader(id, leader) =>
        LeaderAgrees(a.dir, b.dir, id, leader);
        assert LogOf(first) + [] == LogOf(first);
    }
  }

  lemma SameSelf<D>(s: State<D>)
    ensures SameButLeaders(s, s)
  {
  }

  lemma {:induction false} LogIsLog(events: seq<Event>)
    ensures forall i :: 0 <= i < |LogOf(events)| ==> LogOf(events)[i].Committed?
    decreases |events|
  {
    if events != [] { LogIsLog(events[..|events| - 1]); }
  }

  /** Two members that start alike and commit the same entries, with no leader update on either. */
  lemma {:induction false} LogsAgree<D(!new)>(mine: Exec<D>, yours: Exec<D>, eq: (D, D) -> bool,
                                              safe: (D, string) -> bool, s: State<D>, t: State<D>, log: seq<Event>)
    requires AgreeWhen(mine, yours, eq, safe) && Agree(eq, s, t)
    requires SafeRun(mine, safe, s, log) && SafeRun(yours, safe, t, log)
    requires forall i :: 0 <= i < |log| ==> log[i].Committed?
    ensures Agree(eq, After(mine, s, log), After(yours, t, log))
    decreases |log|
  {
    hide AgreeWhen, Agree, Commit, SafeRun, SafeEntry;
    if log != [] {
      var n := |log| - 1;
      var first := log[..n];
      SafePrefix(mine, safe, s, log);
      SafePrefix(yours, safe, t, log);
      assert forall i :: 0 <= i < n ==> first[i] == log[i];
      LogsAgree(mine, yours, eq, safe, s, t, first);
      CommitAgrees(mine, yours, eq, safe, After(mine, s, first), After(yours, t, first), log[n].idx, log[n].entry);
    }
  }

  lemma AgreeAcross<D>(eq: (D, D) -> bool, a: State<D>, b: State<D>, c: State<D>, d: State<D>)
    requires SameButLeaders(a, b) && Agree(eq, b, c) && SameButLeaders(d, c)
    ensures Agree(eq, a, d)
  {
  }

  /** Two members that start alike and commit the same entries, safe on each where it commits them, agree on
      the engine, the assignment, the next id, the index and every range but for its leader, however their
      leader updates fall. */
  lemma MembersAgree<D(!new)>(mine: Exec<D>, yours: Exec<D>, eq: (D, D) -> bool, safe: (D, string) -> bool,
                              s: State<D>, t: State<D>, here: seq<Event>, there: seq<Event>)
    requires AgreeWhen(mine, yours, eq, safe) && Agree(eq, s, t) && LogOf(here) == LogOf(there)
    requires SafeRun(mine, safe, s, here) && SafeRun(yours, safe, t, there)
    ensures Agree(eq, After(mine, s, here), After(yours, t, there))
  {
    hide AgreeWhen, Agree, SameButLeaders, After, LogOf, SafeRun;
    var log := LogOf(here);
    LogIsLog(here);
    LeadersDoNotMatter(mine, safe, s, here);
    LeadersDoNotMatter(yours, safe, t, there);
    LogsAgree(mine, yours, eq, safe, s, t, log);
    AgreeAcross(eq, After(mine, s, here), After(mine, s, log), After(yours, t, log), After(yours, t, there));
  }

  /** Members with the same engine and the same start agree exactly, whatever the statements. */
  lemma SameMembersAgree<D(!new)>(exec: Exec<D>, s: State<D>, here: seq<Event>, there: seq<Event>)
    requires LogOf(here) == LogOf(there)
    ensures SameButLeaders(After(exec, s, here), After(exec, s, there))
  {
    hide SameDirectory, After, LogOf;
    var any := (d: D, q: string) => true;
    LeadersDoNotMatter(exec, any, s, here);
    LeadersDoNotMatter(exec, any, s, there);
    assert SameDirectory(After(exec, s, here).dir, After(exec, s, there).dir) by {
      SameAcross(After(exec, s, here).dir, After(exec, s, LogOf(here)).dir, After(exec, s, there).dir);
    }
  }

  lemma SameAcross(a: R.Directory, b: R.Directory, c: R.Directory)
    requires SameDirectory(a, b) && SameDirectory(c, b)
    ensures SameDirectory(a, c)
  {
  }

  /** A range entry applies its operation if the fence of that holds, and the index moves on either way. */
  lemma ChangeEntry<D>(exec: Exec<D>, s: State<D>, idx: nat, op: R.Op)
    ensures var o := Commit(exec, s, idx, Change(Some(op)));
            && o.ok == R.FenceHolds(s.dir, op) && o.state.db == s.db && o.state.index == idx
            && (if o.ok then o.state.dir == R.Apply(s.dir, op) else o.state.dir == s.dir)
  {
    hide R.FenceHolds, R.PlaceAll;
  }

  /** The index of the last entry of a known kind, failed or not. */
  function LastIndex(events: seq<Event>, start: nat): nat {
    if events == [] then start
    else
      var e := events[|events| - 1];
      if e.Committed? && !e.entry.Unknown? then e.idx else LastIndex(events[..|events| - 1], start)
  }

  lemma {:induction false} IndexIs<D>(exec: Exec<D>, s: State<D>, events: seq<Event>)
    ensures After(exec, s, events).index == LastIndex(events, s.index)
    decreases |events|
  {
    hide RunPart, R.Apply, R.FenceHolds, Admitted;
    if events != [] { IndexIs(exec, s, events[..|events| - 1]); }
  }

  // ----------------------------------------------------------------- fences

  /** The range operations among the events, in order. */
  function Ops(events: seq<Event>): seq<R.Op> {
    if events == [] then []
    else
      var first, e := Ops(events[..|events| - 1]), events[|events| - 1];
      first + if e.Committed? && e.entry.Change? && e.entry.op.Some? then [e.entry.op.value] else []
  }

  /** The range operations of a member are those of a run of the log. */
  ghost predicate Tracks(events: seq<Event>, log: seq<R.LogEntry>) {
    |Ops(events)| <= |log| && forall i :: 0 <= i < |Ops(events)| ==> Ops(events)[i] == log[i].op
  }

  lemma TracksPrefix(events: seq<Event>, log: seq<R.LogEntry>)
    requires Tracks(events, log) && events != []
    ensures var first, e := events[..|events| - 1], events[|events| - 1];
            && Tracks(first, log)
            && (if e.Committed? && e.entry.Change? && e.entry.op.Some?
                then |Ops(events)| == |Ops(first)| + 1 && e.entry.op.value == log[|Ops(first)|].op
                else Ops(events) == Ops(first))
  {
    var first := events[..|events| - 1];
    assert forall i :: 0 <= i < |Ops(first)| ==> Ops(events)[i] == Ops(first)[i];
    assert Ops(first) + [] == Ops(first);
  }

  /** A member's directory is that of the log after as many operations, but for leaders. */
  lemma {:induction false} DirectoryIs<D>(exec: Exec<D>, s: State<D>, events: seq<Event>, log: seq<R.LogEntry>,
                                          states: seq<R.Directory>)
    requires R.IsRun(log, states) && SameDirectory(s.dir, states[0]) && Tracks(events, log)
    ensures SameDirectory(After(exec, s, events).dir, states[|Ops(events)|])
    decreases |events|
  {
    hide SameDirectory, R.Apply, R.FenceHolds, R.WithLeader, RunPart, Tracks, Ops, Admitted;
    if events == [] {
      NoOps();
    } else {
      var n := |events| - 1;
      var first, e := events[..n], events[n];
      TracksPrefix(events, log);
      DirectoryIs(exec, s, first, log, states);
      var a, k := After(exec, s, first), |Ops(first)|;
      TracksLength(events, log);
      if k < |log| { assert R.Commits(log[k], states, k); }
      if e.Leader? {
        LeaderAgrees(a.dir, states[k], e.rangeID, e.leader);
      } else if e.entry.Change? && e.entry.op.Some? {
        ChangeAgrees(a.dir, states[k], e.entry.op.value);
      }
    }
  }

  lemma NoOps()
    ensures Ops([]) == []
  {
  }

  lemma {:induction false} OpsGrow(events: seq<Event>, i: nat)
    requires i <= |events|
    ensures |Ops(events[..i])| <= |Ops(events)| && Ops(events[..i]) == Ops(events)[..|Ops(events[..i])|]
    decreases |events|
  {
    if i < |events| {
      var first := events[..|events| - 1];
      assert first[..i] == events[..i];
      OpsGrow(first, i);
    } else {
      assert events[..i] == events;
    }
  }

  lemma TracksStart(events: seq<Event>, log: seq<R.LogEntry>, i: nat)
    requires i <= |events| && Tracks(events, log)
    ensures Tracks(events[..i], log) && |Ops(events[..i])| <= |Ops(events)|
  {
    hide Ops;
    OpsGrow(events, i);
  }

  lemma SameRange(a: R.Directory, b: R.Directory, id: nat)
    requires SameDirectory(a, b)
    ensures id in a.ranges <==> id in b.ranges
    ensures id in a.ranges ==> a.ranges[id].generation == b.ranges[id].generation
  {
  }

  /** In every run: an entry for a range, with the generation that its sender read on this member earlier, is
      carried out exactly when no accepted operation since has removed or rewritten that range; without a
      generation, exactly when none has removed it. Otherwise nothing of it is executed. */
  lemma FencedEntry<D>(exec: Exec<D>, s: State<D>, events: seq<Event>, log: seq<R.LogEntry>,
                       states: seq<R.Directory>, i: nat, idx: nat, e: Entry)
    requires R.IsRun(log, states) && SameDirectory(s.dir, states[0]) && Tracks(events, log) && i <= |events|
    requires e.Run? && e.rangeID in After(exec, s, events[..i]).dir.ranges
    requires e.generation in {0, After(exec, s, events[..i]).dir.ranges[e.rangeID].generation}
    ensures var from, to, now := |Ops(events[..i])|, |Ops(events)|, After(exec, s, events);
            && from <= to <= |log|
            && Commit(exec, now, idx, e) ==
               if (if e.generation == 0 then R.Unremoved(log, states, from, to, e.rangeID)
                   else R.Untouched(log, states, from, to, e.rangeID))
               then Carried(exec, now, idx, e) else Outcome(now.(index := idx), false)
  {
    hide After, Ops, SameDirectory, Commit, Carried, Tracks, R.Untouched, R.Unremoved, R.IsRun;
    var id, earlier, now := e.rangeID, After(exec, s, events[..i]), After(exec, s, events);
    TracksStart(events, log, i);
    DirectoryIs(exec, s, events[..i], log, states);
    DirectoryIs(exec, s, events, log, states);
    var from, to := |Ops(events[..i])|, |Ops(events)|;
    TracksLength(events, log);
    R.RunKeeps(log, states);
    RunLength(log, states);
    SameRange(earlier.dir, states[from], id);
    SameRange(now.dir, states[to], id);
    R.RunRewrites(log, states, from, to, id);
    NotZero(states, from, id);
    EntryIs(exec, now, idx, e);
  }

  lemma TracksLength(events: seq<Event>, log: seq<R.LogEntry>)
    requires Tracks(events, log)
    ensures |Ops(events)| <= |log|
  {
  }

  lemma RunLength(log: seq<R.LogEntry>, states: seq<R.Directory>)
    requires R.IsRun(log, states)
    ensures |states| == |log| + 1
  {
  }

  lemma NotZero(states: seq<R.Directory>, k: nat, id: nat)
    requires R.AllWellFormed(states) && k < |states| && id in states[k].ranges
    ensures id != 0
  {
    hide R.Partition;
    assert R.WellFormed(states[k]);
  }

  /** An entry for no range is always carried out. */
  lemma UnfencedEntry<D>(exec: Exec<D>, s: State<D>, idx: nat, e: Entry)
    requires e.Run? && e.rangeID == 0
    ensures Commit(exec, s, idx, e) == Carried(exec, s, idx, e)
  {
    hide Carried;
    EntryIs(exec, s, idx, e);
  }

  // ------------------------------------------------------------- snapshots

  /** Ids are the map's own keys and below the counter. */
  ghost predicate Ids(d: R.Directory) {
    R.IdsMatch(d) && d.nextID >= 1 && forall id <- d.ranges :: id < d.nextID
  }

  lemma {:induction false} PlaceKeepsIds(d: R.Directory, rs: seq<R.Range>)
    requires Ids(d)
    ensures Ids(R.PlaceAll(d, rs))
    decreases |rs|
  {
    if rs != [] { PlaceKeepsIds(d, rs[..|rs| - 1]); }
  }

  lemma StepKeepsIds<D>(exec: Exec<D>, s: State<D>, e: Event)
    requires Ids(s.dir)
    ensures Ids(Step(exec, s, e).dir)
  {
    hide R.PlaceAll, RunPart;
    if e.Committed? && e.entry.Change? && e.entry.op.Some? {
      var op := e.entry.op.value;
      PlaceKeepsIds(s.dir.(ranges := s.dir.ranges - R.ToSet(op.remove)), op.ranges);
    }
  }

  lemma {:induction false} RunKeepsIds<D>(exec: Exec<D>, s: State<D>, events: seq<Event>)
    requires Ids(s.dir)
    ensures Ids(After(exec, s, events).dir)
    decreases |events|
  {
    hide Ids, Step;
    if events != [] {
      RunKeepsIds(exec, s, events[..|events| - 1]);
      StepKeepsIds(exec, After(exec, s, events[..|events| - 1]), events[|events| - 1]);
    }
  }

  /** The ranges of a directory, each once, by increasing id. */
  ghost predicate Lists(rs: seq<R.Range>, d: R.Directory) {
    && (forall i :: 0 <= i < |rs| ==> rs[i].id in d.ranges && d.ranges[rs[i].id] == rs[i])
    && (forall id <- d.ranges :: exists i :: 0 <= i < |rs| && rs[i].id == id)
    && (forall i, j :: 0 <= i < j < |rs| ==> rs[i].id < rs[j].id)
  }

  datatype Image<D> = Image(index: nat, db: D, ranges: seq<R.Range>, assign: map<string, nat>, nextID: nat)

  function FromList(rs: seq<R.Range>): map<nat, R.Range> {
    if rs == [] then map[] else FromList(rs[..|rs| - 1])[rs[|rs| - 1].id := rs[|rs| - 1]]
  }

  function MaxId(rs: seq<R.Range>): nat {
    if rs == [] then 0
    else if rs[|rs| - 1].id > MaxId(rs[..|rs| - 1]) then rs[|rs| - 1].id else MaxId(rs[..|rs| - 1])
  }

  /** restoreLocked: the counter is raised above every id and above 0. */
  function Restored(rs: seq<R.Range>, assign: map<string, nat>, nextID: nat): R.Directory {
    R.Directory(FromList(rs), assign, if nextID <= MaxId(rs) then MaxId(rs) + 1 else nextID)
  }

  lemma {:induction false} ListFacts(rs: seq<R.Range>)
    ensures forall i :: 0 <= i < |rs| ==> rs[i].id in FromList(rs)
    ensures forall id <- FromList(rs) :: exists i :: 0 <= i < |rs| && rs[i].id == id && rs[i] == FromList(rs)[id]
    decreases |rs|
  {
    if rs != [] {
      var n := |rs| - 1;
      var first := rs[..n];
      ListFacts(first);
      forall i | 0 <= i < |rs| ensures rs[i].id in FromList(rs) {
        if i < n { assert first[i] == rs[i]; }
      }
      forall id <- FromList(rs) ensures exists i :: 0 <= i < |rs| && rs[i].id == id && rs[i] == FromList(rs)[id] {
        if id == rs[n].id {
          assert rs[n].id == id;
        } else {
          var i :| 0 <= i < n && first[i].id == id && first[i] == FromList(first)[id];
          assert rs[i].id == id;
        }
      }
    }
  }

  lemma {:induction false} MaxFacts(rs: seq<R.Range>)
    ensures forall i :: 0 <= i < |rs| ==> rs[i].id <= MaxId(rs)
    ensures MaxId(rs) == 0 || exists i :: 0 <= i < |rs| && rs[i].id == MaxId(rs)
    decreases |rs|
  {
    if rs != [] {
      var n := |rs| - 1;
      var first := rs[..n];
      MaxFacts(first);
      assert forall i :: 0 <= i < n ==> rs[i] == first[i];
      if rs[n].id > MaxId(first) {
        assert rs[n].id == MaxId(rs);
      } else if MaxId(rs) != 0 {
        var i :| 0 <= i < n && first[i].id == MaxId(first);
        assert rs[i].id == MaxId(rs);
      }
    }
  }

  /** A listed directory comes back as it was. */
  lemma RestoreIs(rs: seq<R.Range>, d: R.Directory)
    requires Lists(rs, d) && Ids(d)
    ensures Restored(rs, d.assign, d.nextID) == d
  {
    hide FromList, MaxId;
    ListFacts(rs);
    MaxFacts(rs);
    var m := FromList(rs);
    assert m.Keys == d.ranges.Keys;
    assert forall id <- m :: m[id] == d.ranges[id];
  }

  lemma {:induction false} AfterConcat<D>(exec: Exec<D>, s: State<D>, a: seq<Event>, b: seq<Event>)
    ensures After(exec, s, a + b) == After(exec, After(exec, s, a), b)
    decreases |b|
  {
    hide Step;
    if b == [] {
      assert a + b == a;
    } else {
      var n := |b| - 1;
      assert (a + b)[..|a| + n] == a + b[..n];
      AfterConcat(exec, s, a, b[..n]);
    }
  }

  /** The image of a member's directory and index, with what loading its saved engine gives. */
  ghost predicate Pictures<D>(img: Image<D>, at: State<D>) {
    && img.index == at.index && Lists(img.ranges, at.dir) && img.assign == at.dir.assign
    && img.nextID == at.dir.nextID
  }

  function FromImage<D>(img: Image<D>): State<D> {
    State(img.db, Restored(img.ranges, img.assign, img.nextID), img.index)
  }

  /** A member restored from a snapshot taken anywhere, then committing the rest of the log, agrees with one
      that committed it all, if what it loaded is related to what was saved and every later entry is safe
      on both. */
  lemma SnapshotAnywhere<D(!new)>(mine: Exec<D>, yours: Exec<D>, eq: (D, D) -> bool, safe: (D, string) -> bool,
                                  s: State<D>, before: seq<Event>, rest: seq<Event>, there: seq<Event>, img: Image<D>)
    requires AgreeWhen(mine, yours, eq, safe) && Ids(s.dir) && LogOf(there) == LogOf(rest)
    requires Pictures(img, After(mine, s, before)) && eq(After(mine, s, before).db, img.db)
    requires SafeRun(mine, safe, After(mine, s, before), rest) && SafeRun(yours, safe, FromImage(img), there)
    ensures Agree(eq, After(mine, s, before + rest), After(yours, FromImage(img), there))
  {
    hide AgreeWhen, Ids, After, LogOf, Lists, Restored, SafeRun;
    var at := After(mine, s, before);
    RunKeepsIds(mine, s, before);
    RestoreIs(img.ranges, at.dir);
    MembersAgree(mine, yours, eq, safe, at, FromImage(img), rest, there);
    AfterConcat(mine, s, before, rest);
  }

  // --------------------------------------------------------------- the member

  class ReplicatedState<D(0)> {
    var db: D
    const ranges: R.RangeStore
    var index: nat

    ghost function S(): State<D>
      reads this, ranges
    {
      State(db, ranges.View(), index)
    }

    constructor (d: D)
      ensures fresh(ranges) && S() == State(d, R.EMPTY, 0)
    {
      db, index := d, 0;
      ranges := new R.RangeStore();
    }

    /** Statements of an entry, on the engine itself or, when atomic, on a clone that replaces it. */
    method ExecLocked(exec: Exec<D>, e: Entry) returns (ok: bool)
      requires e.Run?
      modifies `db
      ensures Outcome(S(), ok) == ExecEntry(exec, old(S()), e)
    {
      if e.rangeID != 0 {
        if e.rangeID !in ranges.ranges {
          return false;
        }
        if e.generation != 0 && e.generation != ranges.ranges[e.rangeID].generation {
          return false;
        }
      }
      var image := db;
      for i := 0 to |e.sqls|
        invariant RunPart(exec, old(db), e.sqls[..i]) == (image, true) && db == if e.atomic then old(db) else image
      {
        assert e.sqls[..i + 1][..i] == e.sqls[..i];
        match exec(image, e.sqls[i]) {
          case None =>
            StopsThere(exec, old(db), e.sqls, i + 1);
            return false;
          case Some(d) =>
            image := d;
            if !e.atomic {
              db := image;
            }
        }
      }
      assert e.sqls[..|e.sqls|] == e.sqls;
      db := image;
      return true;
    }

    method ApplyCommitted(exec: Exec<D>, idx: nat, e: Entry) returns (ok: bool)
      modifies this, ranges
      ensures Outcome(S(), ok) == Commit(exec, old(S()), idx, e)
    {
      hide ExecEntry, R.Apply;
      match e {
        case Run(_, _, _, _) =>
          ok := ExecLocked(exec, e);
        case Change(op) =>
          if op.None? {
            ok := false;
          } else {
            ok := ranges.ApplyOp(op.value);
          }
        case Unknown =>
          return false;
      }
      index := idx;
    }

    /** The image for a snapshot; ranges by increasing id. */
    method Snapshot() returns (img: Image<D>)
      requires Ids(S().dir)
      ensures Pictures(img, S()) && img.db == S().db
    {
      var pending, rs: seq<R.Range> := ranges.ranges.Keys, [];
      while pending != {}
        invariant pending <= ranges.ranges.Keys
        invariant forall i :: 0 <= i < |rs| ==>
                  && rs[i].id in ranges.ranges && ranges.ranges[rs[i].id] == rs[i]
                  && forall j :: j in pending ==> rs[i].id < j
        invariant forall id <- ranges.ranges :: id in pending || exists i :: 0 <= i < |rs| && rs[i].id == id
        invariant forall i, j :: 0 <= i < j < |rs| ==> rs[i].id < rs[j].id
        decreases |pending|
      {
        ghost var least := Least(pending);
        var id :| id in pending && forall j :: j in pending ==> id <= j;
        var more := rs + [ranges.ranges[id]];
        forall k <- ranges.ranges ensures k in pending - {id} || exists i :: 0 <= i < |more| && more[i].id == k {
          if k == id {
            assert more[|rs|].id == k;
          } else if k !in pending {
            var i :| 0 <= i < |rs| && rs[i].id == k;
            assert more[i].id == k;
          }
        }
        rs, pending := more, pending - {id};
      }
      return Image(index, db, rs, ranges.assign, ranges.nextID);
    }

    /** Loads an image: the directory is rebuilt range by range. */
    method Restore(img: Image<D>)
      modifies this, ranges
      ensures S() == FromImage(img)
    {
      var m: map<nat, R.Range>, max := map[], 0;
      for i := 0 to |img.ranges|
        invariant m == FromList(img.ranges[..i]) && max == MaxId(img.ranges[..i])
      {
        assert img.ranges[..i + 1][..i] == img.ranges[..i];
        m := m[img.ranges[i].id := img.ranges[i]];
        if img.ranges[i].id > max {
          max := img.ranges[i].id;
        }
      }
      assert img.ranges[..|img.ranges|] == img.ranges;
      db, index := img.db, img.index;
      ranges.ranges, ranges.assign, ranges.nextID := m, img.assign, img.nextID;
      if ranges.nextID <= max {
        ranges.nextID := max + 1;
      }
    }
  }

  lemma {:induction false} StopsThere<D>(exec: Exec<D>, d: D, sqls: seq<string>, i: nat)
    requires i <= |sqls| && !RunPart(exec, d, sqls[..i]).1
    ensures RunPart(exec, d, sqls) == RunPart(exec, d, sqls[..i])
    decreases |sqls|
  {
    if i < |sqls| {
      var first := sqls[..|sqls| - 1];
      assert first[..i] == sqls[..i];
      StopsThere(exec, d, first, i);
    } else {
      assert sqls[..i] == sqls;
    }
  }

  lemma {:induction false} Least(s: set<nat>) returns (m: nat)
    requires s != {}
    ensures m in s && forall j :: j in s ==> m <= j
    decreases |s|
  {
    var x :| x in s;
    if s == {x} {
      m := x;
    } else {
      var rest := s - {x};
      var y := Least(rest);
      m := if x < y then x else y;
      forall j | j in s ensures m <= j { assert j == x || j in rest; }
    }
  }
}
