/** The replicated range directory (internal/cluster/ranges.go and the computing
    parts of internal/cluster/node.go): post-images are computed from some earlier
    view of the directory, fenced by generations, and applied later in log order. */
module Ranges {
  import opened Lex
  import opened Values

  datatype Range = Range(id: nat, start: string, end: string, replicas: seq<string>, leader: string, generation: nat)

  /** A fully computed post-image. `base` fences it: every listed range must still
      carry the generation the proposer saw. */
  datatype Op = Op(ranges: seq<Range>, remove: seq<nat>, assign: map<string, nat>, unassign: seq<string>,
                   base: map<nat, nat>)

  datatype Directory = Directory(ranges: map<nat, Range>, assign: map<string, nat>, nextID: nat)

  const EMPTY := Directory(map[], map[], 1)

  /** An empty end key means unbounded above. */
  predicate Contains(r: Range, key: string) {
    !Less(key, r.start) && (r.end == "" || Less(key, r.end))
  }

  // ---------------------------------------------------------------- applying

  predicate FenceHolds(d: Directory, op: Op) {
    forall id <- op.base :: id in d.ranges && d.ranges[id].generation == op.base[id]
  }

  /** The id a post-image range is stored under: its own, or the next free one. */
  function PlacedID(d: Directory, r: Range): nat {
    if r.id == 0 then d.nextID else r.id
  }

  function Place(d: Directory, r: Range): Directory {
    var id := PlacedID(d, r);
    d.(ranges := d.ranges[id := r.(id := id)], nextID := if id >= d.nextID then id + 1 else d.nextID)
  }

  function PlaceAll(d: Directory, rs: seq<Range>): Directory
    decreases |rs|
  {
    if rs == [] then d else Place(PlaceAll(d, rs[..|rs| - 1]), rs[|rs| - 1])
  }

  function ToSet<T>(s: seq<T>): set<T> { set x | x in s }

  /** The directory after a committed operation; a fenced one changes nothing. */
  function Apply(d: Directory, op: Op): Directory {
    if !FenceHolds(d, op) then d
    else
      var placed := PlaceAll(d.(ranges := d.ranges - ToSet(op.remove)), op.ranges);
      placed.(assign := (placed.assign + op.assign) - ToSet(op.unassign))
  }

  /** The store that every member keeps; its maps and counter change in place. */
  class RangeStore {
    var ranges: map<nat, Range>
    var assign: map<string, nat>
    var nextID: nat

    function View(): Directory
      reads this
    {
      Directory(ranges, assign, nextID)
    }

    constructor ()
      ensures View() == EMPTY
    {
      ranges, assign, nextID := map[], map[], 1;
    }

    /** The fencing checks; the generation map is visited in any order. */
    method CheckFence(op: Op) returns (ok: bool)
      ensures ok <==> FenceHolds(View(), op)
    {
      var pending := op.base.Keys;
      while pending != {}
        invariant pending <= op.base.Keys
        invariant forall id :: id in op.base && id !in pending ==> id in ranges && ranges[id].generation == op.base[id]
        decreases |pending|
      {
        var id :| id in pending;
        if id !in ranges || ranges[id].generation != op.base[id] {
          return false;
        }
        pending := pending - {id};
      }
      return true;
    }

    method RemoveRanges(ids: seq<nat>)
      modifies `ranges
      ensures ranges == old(ranges) - ToSet(ids)
    {
      for i := 0 to |ids|
        invariant ranges == old(ranges) - ToSet(ids[..i])
      {
        ranges := ranges - {ids[i]};
        assert ToSet(ids[..i + 1]) == ToSet(ids[..i]) + {ids[i]};
      }
      assert ids[..|ids|] == ids;
    }

    method PlaceRanges(rs: seq<Range>)
      modifies `ranges, `nextID
      ensures View() == PlaceAll(old(View()), rs)
    {
      for i := 0 to |rs|
        invariant View() == PlaceAll(old(View()), rs[..i])
      {
        var r := rs[i];
        assert rs[..i + 1][..i] == rs[..i];
        if r.id == 0 {
          r := r.(id := nextID);
          nextID := nextID + 1;
        } else if r.id >= nextID {
          nextID := r.id + 1;
        }
        ranges := ranges[r.id := r];
      }
      assert rs[..|rs|] == rs;
    }

    method UnassignTables(tables: seq<string>)
      modifies `assign
      ensures assign == old(assign) - ToSet(tables)
    {
      for i := 0 to |tables|
        invariant assign == old(assign) - ToSet(tables[..i])
      {
        assign := assign - {tables[i]};
        assert ToSet(tables[..i + 1]) == ToSet(tables[..i]) + {tables[i]};
      }
      assert tables[..|tables|] == tables;
    }

    /** Applies a committed post-image verbatim when the fence holds, and nothing otherwise. */
    method ApplyOp(op: Op) returns (ok: bool)
      modifies this
      ensures ok <==> FenceHolds(old(View()), op)
      ensures View() == Apply(old(View()), op)
    {
      ok := CheckFence(op);
      if ok {
        RemoveRanges(op.remove);
        PlaceRanges(op.ranges);
        assign := assign + op.assign;
        UnassignTables(op.unassign);
      }
    }

    /** Tracks the serving leader without touching the fencing generation. */
    method SetRangeLeader(id: nat, leader: string)
      modifies this
      ensures View() == WithLeader(old(View()), id, leader)
      ensures ranges.Keys == old(ranges).Keys && assign == old(assign) && nextID == old(nextID)
      ensures forall k <- ranges :: ranges[k] == if k == id then old(ranges)[k].(leader := leader) else old(ranges)[k]
    {
      if id in ranges {
        ranges := ranges[id := ranges[id].(leader := leader)];
      }
    }

    /** The range owning `key`. Map order cannot matter once the ranges partition the keys. */
    method Lookup(key: string) returns (found: Option<Range>)
      ensures found.Some? <==> exists id :: Owns(View(), id, key)
      ensures found.Some? ==> exists id :: Owns(View(), id, key) && ranges[id] == found.value
      ensures Partition(View()) ==> found.Some? && forall id :: Owns(View(), id, key) ==> ranges[id] == found.value
    {
      var pending := ranges.Keys;
      while pending != {}
        invariant pending <= ranges.Keys
        invariant forall id :: Owns(View(), id, key) ==> id in pending
        decreases |pending|
      {
        var id :| id in pending;
        if Contains(ranges[id], key) {
          assert Owns(View(), id, key);
          return Some(ranges[id]);
        }
        pending := pending - {id};
      }
      assert !Owned(View(), key);
      return None;
    }

    /** The assigned range if it still exists, else the one with the lowest id. */
    method TableRange(table: string) returns (best: Option<Range>)
      requires IdsMatch(View())
      ensures best.None? <==> ranges == map[]
      ensures best.Some? ==> best.value.id in ranges && ranges[best.value.id] == best.value
      ensures table in assign && assign[table] in ranges ==> best == Some(ranges[assign[table]])
      ensures !(table in assign && assign[table] in ranges) && best.Some? ==> forall id <- ranges :: best.value.id <= id
    {
      if table in assign && assign[table] in ranges {
        return Some(ranges[assign[table]]);
      }
      best := None;
      var pending := ranges.Keys;
      while pending != {}
        invariant pending <= ranges.Keys
        invariant best.None? ==> pending == ranges.Keys
        invariant best.Some? ==> best.value.id in ranges && ranges[best.value.id] == best.value
        invariant best.Some? ==> forall id :: id in ranges && id !in pending ==> best.value.id <= id
        decreases |pending|
      {
        var id :| id in pending;
        if best.None? || ranges[id].id < best.value.id {
          best := Some(ranges[id]);
        }
        pending := pending - {id};
      }
    }
  }

  function WithLeader(d: Directory, id: nat, leader: string): Directory {
    if id in d.ranges then d.(ranges := d.ranges[id := d.ranges[id].(leader := leader)]) else d
  }

  // --------------------------------------------------------------- proposals

  /** The operations a node can propose, with what the caller supplies. */
  datatype Proposal =
    | Genesis(node: string)
    | Split(id: nat, key: string)
    | Move(id: nat, replicas: seq<string>)
    | Assign(assignment: map<string, nat>, fenced: set<nat>)
    | Rebalance(voters: seq<string>, leader: string)

  function GenesisOp(node: string): Op {
    Op([Range(1, "", "", [node], node, 1)], [], map[], [], map[])
  }

  /** The two children of a split; their ids are allocated when the entry is applied. */
  function LeftChild(r: Range, key: string): Range {
    r.(id := 0, end := key, generation := r.generation + 1)
  }

  function RightChild(r: Range, key: string): Range {
    r.(id := 0, start := key, generation := r.generation + 1)
  }

  function SplitOp(view: Directory, id: nat, key: string): Op
    requires id in view.ranges
  {
    var r := view.ranges[id];
    Op([LeftChild(r, key), RightChild(r, key)], [id], map[], [], map[id := r.generation])
  }

  function MovedLeader(leader: string, replicas: seq<string>): string {
    if leader !in replicas && |replicas| > 0 then replicas[0] else leader
  }

  function MoveOp(view: Directory, id: nat, replicas: seq<string>): Op
    requires id in view.ranges
  {
    var r := view.ranges[id];
    Op([r.(replicas := replicas, leader := MovedLeader(r.leader, replicas), generation := r.generation + 1)],
       [], map[], [], map[id := r.generation])
  }

  /** Tables routed to ranges, with every range of `fenced` held at the generation seen. Assigning one
      table fences its range; the entry that follows a split fences both children. */
  function AssignOp(view: Directory, assignment: map<string, nat>, fenced: set<nat>): Op
    requires fenced <= view.ranges.Keys
  {
    Op([], [], assignment, [], map id | id in fenced :: view.ranges[id].generation)
  }

  /** Multiset equality of two replica lists, as the counting loop decides it. */
  method SameStrings(a: seq<string>, b: seq<string>) returns (same: bool)
    ensures same <==> multiset(a) == multiset(b)
  {
    if |a| != |b| {
      assert |multiset(a)| == |a| && |multiset(b)| == |b|;
      return false;
    }
    var seen: multiset<string> := multiset{};
    for i := 0 to |a|
      invariant seen == multiset(a[..i])
    {
      seen := seen[a[i] := seen[a[i]] + 1];
      assert a[..i + 1] == a[..i] + [a[i]];
    }
    assert a[..|a|] == a;
    for i := 0 to |b|
      invariant seen + multiset(b[..i]) == multiset(a)
    {
      assert b == b[..i] + [b[i]] + b[i + 1..];
      if seen[b[i]] == 0 {
        assert multiset(b)[b[i]] > multiset(a)[b[i]];
        return false;
      }
      seen := seen[b[i] := seen[b[i]] - 1];
      assert b[..i + 1] == b[..i] + [b[i]];
    }
    assert b[..|b|] == b;
    assert |multiset(a)| == |seen| + |multiset(b)|;
    assert seen == multiset{};
    return true;
  }

  /** A range already serves from the voters under the right leader. */
  predicate Balanced(r: Range, voters: seq<string>, leader: string) {
    multiset(r.replicas) == multiset(voters) && r.leader == leader
  }

  function Rebalanced(r: Range, voters: seq<string>, leader: string): Range {
    r.(replicas := voters, leader := leader, generation := r.generation + 1)
  }

  /** The post-images for the unbalanced ranges among `done`, each fenced by its own generation. */
  ghost predicate RebalancesThese(view: Directory, done: set<nat>, voters: seq<string>, leader: string, op: Op) {
    && op.remove == [] && op.assign == map[] && op.unassign == []
    && (forall id :: id in op.base <==> id in done && id in view.ranges && !Balanced(view.ranges[id], voters, leader))
    && (forall id <- op.base :: op.base[id] == view.ranges[id].generation)
    && (forall i :: 0 <= i < |op.ranges| ==>
          op.ranges[i].id in op.base && op.ranges[i] == Rebalanced(view.ranges[op.ranges[i].id], voters, leader))
    && (forall id <- op.base :: exists i :: 0 <= i < |op.ranges| && op.ranges[i].id == id)
    && (forall i, j :: 0 <= i < j < |op.ranges| ==> op.ranges[i].id != op.ranges[j].id)
  }

  /** One entry that moves every unbalanced range and no other. */
  ghost predicate IsRebalance(view: Directory, voters: seq<string>, leader: string, op: Op) {
    RebalancesThese(view, view.ranges.Keys, voters, leader, op)
  }

  method RebalanceOp(view: Directory, voters: seq<string>, leader: string) returns (op: Op)
    requires IdsMatch(view)
    ensures IsRebalance(view, voters, leader, op)
  {
    op := Op([], [], map[], [], map[]);
    var pending := view.ranges.Keys;
    while pending != {}
      invariant pending <= view.ranges.Keys
      invariant RebalancesThese(view, view.ranges.Keys - pending, voters, leader, op)
      decreases |pending|
    {
      var id :| id in pending;
      var r := view.ranges[id];
      var same := SameStrings(r.replicas, voters);
      if !(same && r.leader == leader) {
        ghost var before := op;
        op := op.(ranges := op.ranges + [Rebalanced(r, voters, leader)], base := op.base[r.id := r.generation]);
        RebalanceExtends(view, view.ranges.Keys - pending, voters, leader, before, id);
      }
      pending := pending - {id};
    }
    assert view.ranges.Keys - pending == view.ranges.Keys;
  }

  lemma RebalanceExtends(view: Directory, done: set<nat>, voters: seq<string>, leader: string, op: Op, id: nat)
    requires IdsMatch(view) && RebalancesThese(view, done, voters, leader, op)
    requires id in view.ranges && id !in done && !Balanced(view.ranges[id], voters, leader)
    ensures RebalancesThese(view, done + {id}, voters, leader,
              op.(ranges := op.ranges + [Rebalanced(view.ranges[id], voters, leader)],
                  base := op.base[id := view.ranges[id].generation]))
  {
    var more := op.ranges + [Rebalanced(view.ranges[id], voters, leader)];
    assert more[|op.ranges|].id == id;
    forall k | k in op.base
      ensures exists i :: 0 <= i < |more| && more[i].id == k
    {
      var i :| 0 <= i < |op.ranges| && op.ranges[i].id == k;
      assert more[i].id == k;
    }
  }

  /** `op` is what the proposal computes from `view`. */
  ghost predicate Computes(view: Directory, p: Proposal, op: Op) {
    match p
    case Genesis(node) => view.ranges == map[] && op == GenesisOp(node)
    case Split(id, key) => id in view.ranges && op == SplitOp(view, id, key)
    case Move(id, replicas) => id in view.ranges && op == MoveOp(view, id, replicas)
    case Assign(a, fenced) => a.Values <= fenced <= view.ranges.Keys && op == AssignOp(view, a, fenced)
    case Rebalance(voters, leader) => IsRebalance(view, voters, leader, op)
  }

  /** Where the second entry of a split routes a table: the listed ones left, the parent's others right. */
  ghost predicate RoutesChildren(a: map<string, nat>, onParent: seq<string>, lower: string -> string,
                                 listed: seq<string>, left: nat, right: nat) {
    && (forall i :: 0 <= i < |listed| ==> lower(listed[i]) in a && a[lower(listed[i])] == left)
    && (forall i :: 0 <= i < |onParent| ==> lower(onParent[i]) in a)
    && (forall t <- a :: (a[t] == left && exists i :: 0 <= i < |listed| && lower(listed[i]) == t)
                         || (a[t] == right && exists i :: 0 <= i < |onParent| && lower(onParent[i]) == t))
  }

  /** The tables assigned to a range, in any order. */
  method TablesOn(assign: map<string, nat>, id: nat) returns (out: seq<string>)
    ensures forall t :: t in out <==> t in assign && assign[t] == id
  {
    out := [];
    var pending := assign.Keys;
    while pending != {}
      invariant pending <= assign.Keys && forall t :: t in out <==> t in assign && t !in pending && assign[t] == id
      decreases |pending|
    {
      var t :| t in pending;
      if assign[t] == id {
        out := out + [t];
      }
      pending := pending - {t};
    }
  }

  /** The second entry of a split. */
  method AssignChildren(view: Directory, parent: nat, left: nat, right: nat, listed: seq<string>,
                        lower: string -> string)
    returns (op: Op, ghost p: Proposal, ghost onParent: seq<string>)
    requires left in view.ranges && right in view.ranges
    ensures p.Assign? && p.fenced == {left, right} && Computes(view, p, op)
    ensures RoutesChildren(op.assign, onParent, lower, listed, left, right)
    ensures forall t :: t in onParent <==> t in view.assign && view.assign[t] == parent
  {
    hide RoutesChildren, Computes;
    var a: map<string, nat> := map[];
    NothingRouted(lower, listed, left, right);
    for i := 0 to |listed|
      invariant RoutesChildren(a, [], lower, listed[..i], left, right)
    {
      ListedMore(a, lower, listed, i, left, right);
      a := a[lower(listed[i]) := left];
    }
    assert listed[..|listed|] == listed;
    var tables := TablesOn(view.assign, parent);
    assert tables[..0] == [];
    for i := 0 to |tables|
      invariant RoutesChildren(a, tables[..i], lower, listed, left, right)
    {
      ParentMore(a, tables, i, lower, listed, left, right);
      if lower(tables[i]) !in a {
        a := a[lower(tables[i]) := right];
      }
    }
    assert tables[..|tables|] == tables;
    onParent := tables;
    p := Assign(a, {left, right});
    op := Op([], [], a, [], map[left := view.ranges[left].generation, right := view.ranges[right].generation]);
    ChildrenComputed(view, op, a, tables, lower, listed, left, right);
  }

  lemma NothingRouted(lower: string -> string, listed: seq<string>, left: nat, right: nat)
    ensures RoutesChildren(map[], [], lower, listed[..0], left, right)
  {
  }

  lemma ChildrenComputed(view: Directory, op: Op, a: map<string, nat>, onParent: seq<string>, lower: string -> string,
                         listed: seq<string>, left: nat, right: nat)
    requires left in view.ranges && right in view.ranges && RoutesChildren(a, onParent, lower, listed, left, right)
    requires op == Op([], [], a, [], map[left := view.ranges[left].generation, right := view.ranges[right].generation])
    ensures Computes(view, Assign(a, {left, right}), op)
  {
    assert a.Values <= {left, right};
    assert op == AssignOp(view, a, {left, right});
  }

  lemma ListedMore(a: map<string, nat>, lower: string -> string, listed: seq<string>, i: nat, left: nat, right: nat)
    requires i < |listed| && RoutesChildren(a, [], lower, listed[..i], left, right)
    ensures RoutesChildren(a[lower(listed[i]) := left], [], lower, listed[..i + 1], left, right)
  {
    var b, more := a[lower(listed[i]) := left], listed[..i + 1];
    forall t <- b ensures b[t] == left && exists j :: 0 <= j < |more| && lower(more[j]) == t {
      if t == lower(listed[i]) {
        assert lower(more[i]) == t;
      } else {
        var j :| 0 <= j < i && lower(listed[..i][j]) == t;
        assert lower(more[j]) == t;
      }
    }
    forall j | 0 <= j < |more| ensures lower(more[j]) in b && b[lower(more[j])] == left {
      if j < i { assert more[j] == listed[..i][j]; }
    }
  }

  lemma ParentMore(a: map<string, nat>, tables: seq<string>, i: nat, lower: string -> string, listed: seq<string>,
                   left: nat, right: nat)
    requires i < |tables| && RoutesChildren(a, tables[..i], lower, listed, left, right)
    ensures var b := if lower(tables[i]) in a then a else a[lower(tables[i]) := right];
            RoutesChildren(b, tables[..i + 1], lower, listed, left, right)
  {
    var b, more := if lower(tables[i]) in a then a else a[lower(tables[i]) := right], tables[..i + 1];
    forall t <- b
      ensures (b[t] == left && exists j :: 0 <= j < |listed| && lower(listed[j]) == t)
              || (b[t] == right && exists j :: 0 <= j < |more| && lower(more[j]) == t)
    {
      if t !in a {
        assert lower(more[i]) == t;
      } else if b[t] == right && !(exists j :: 0 <= j < |listed| && lower(listed[j]) == t) {
        var j :| 0 <= j < i && lower(tables[..i][j]) == t;
        assert lower(more[j]) == t;
      } else if j :| 0 <= j < i && lower(tables[..i][j]) == t {
        assert lower(more[j]) == t;
      }
    }
    forall j | 0 <= j < |more| ensures lower(more[j]) in b {
      if j < i { assert more[j] == tables[..i][j]; }
    }
  }

  /** Once the second entry of a split is accepted, no table is routed to the removed parent any more, and
      every other table stays where it was, if table names are kept in lower case. */
  lemma NoTableStranded(d: Directory, op: Op, parent: nat, left: nat, right: nat, onParent: seq<string>,
                        listed: seq<string>, lower: string -> string)
    requires FenceHolds(d, op) && op.unassign == [] && op.remove == [] && op.ranges == []
    requires RoutesChildren(op.assign, onParent, lower, listed, left, right) && parent != left && parent != right
    requires forall t <- d.assign :: d.assign[t] == parent ==> t in onParent
    requires forall t <- d.assign :: lower(t) == t
    ensures forall t <- Apply(d, op).assign :: Apply(d, op).assign[t] != parent
    ensures forall t <- d.assign :: d.assign[t] != parent && t !in op.assign ==> Apply(d, op).assign[t] == d.assign[t]
    ensures Apply(d, op).ranges == d.ranges
  {
    var e := Apply(d, op);
    assert d.ranges - ToSet(op.remove) == d.ranges;
    assert e.assign == (d.assign + op.assign) - {} == d.assign + op.assign;
    forall t | t in d.assign && d.assign[t] == parent ensures t in op.assign {
      var i :| 0 <= i < |onParent| && onParent[i] == t;
      assert lower(onParent[i]) in op.assign;
    }
  }

  // --------------------------------------------------------------- partition

  predicate Owns(d: Directory, id: nat, key: string) {
    id in d.ranges && Contains(d.ranges[id], key)
  }

  ghost predicate Owned(d: Directory, key: string) {
    exists id :: Owns(d, id, key)
  }

  /** Every key has exactly one owner. */
  ghost predicate Partition(d: Directory) {
    && (forall key :: Owned(d, key))
    && (forall key, a, b :: Owns(d, a, key) && Owns(d, b, key) ==> a == b)
  }

  predicate IdsMatch(d: Directory) {
    forall id <- d.ranges :: d.ranges[id].id == id
  }

  ghost predicate WellFormed(d: Directory) {
    && d.nextID >= 1
    && IdsMatch(d)
    && (forall id <- d.ranges :: 1 <= id < d.nextID)
    && (forall id <- d.ranges :: d.ranges[id].end == "" || !Less(d.ranges[id].end, d.ranges[id].start))
    && (d.ranges == map[] ==> d.nextID == 1)
    && (d.ranges != map[] ==> Partition(d))
  }

  predicate SameButLeader(r: Range, s: Range) {
    r.(leader := "") == s.(leader := "")
  }

  /** A proposer's own directory differs from a log state at most in leaders. */
  predicate ViewOf(view: Directory, d: Directory) {
    view.ranges.Keys == d.ranges.Keys && forall id <- d.ranges :: SameButLeader(view.ranges[id], d.ranges[id])
  }

  /** What the log keeps between an earlier and a later directory: ids are never reused, an id keeps
      its bounds, generations only grow, and an unchanged generation means an unchanged range. */
  ghost predicate Later(d: Directory, e: Directory) {
    && d.nextID <= e.nextID
    && (d.ranges != map[] ==> e.ranges != map[])
    && (forall id <- e.ranges :: id !in d.ranges ==> id >= d.nextID)
    && (forall id <- e.ranges :: id in d.ranges ==>
          && d.ranges[id].start == e.ranges[id].start && d.ranges[id].end == e.ranges[id].end
          && d.ranges[id].generation <= e.ranges[id].generation
          && (d.ranges[id].generation == e.ranges[id].generation ==> SameButLeader(d.ranges[id], e.ranges[id])))
  }

  lemma LaterReflexive(d: Directory)
    ensures Later(d, d)
  {
  }

  lemma LaterTransitive(a: Directory, b: Directory, c: Directory)
    requires WellFormed(a) && WellFormed(b) && Later(a, b) && Later(b, c)
    ensures Later(a, c)
  {
  }

  /** The split key lies in the parent, its ends included. */
  predicate Within(r: Range, key: string) {
    key != "" && !Less(key, r.start) && (r.end == "" || !Less(r.end, key))
  }

  /** Splitting inside the parent hands each of its keys to exactly one child. */
  lemma SplitCoversParent(r: Range, key: string, x: string)
    requires Within(r, key)
    ensures Contains(r, x) <==> Contains(LeftChild(r, key), x) || Contains(RightChild(r, key), x)
    ensures !(Contains(LeftChild(r, key), x) && Contains(RightChild(r, key), x))
  {
    AtMostTransitive(x, key, r.end);
    AtMostTransitive(r.start, key, x);
  }

  /** What an accepted split does to the map of ranges. */
  lemma SplitEffect(d: Directory, op: Op, id: nat, left: Range, right: Range)
    requires WellFormed(d) && id in d.ranges && FenceHolds(d, op)
    requires op.ranges == [left, right] && op.remove == [id] && left.id == right.id == 0
    ensures Apply(d, op).ranges ==
            (d.ranges - {id})[d.nextID := left.(id := d.nextID)][d.nextID + 1 := right.(id := d.nextID + 1)]
    ensures Apply(d, op).nextID == d.nextID + 2
  {
    var d0 := d.(ranges := d.ranges - ToSet(op.remove));
    assert ToSet(op.remove) == {id};
    assert op.ranges[..1] == [left] && [left][..0] == [];
    assert PlaceAll(d0, [left]) == Place(PlaceAll(d0, [left][..0]), left) == Place(d0, left);
    assert PlaceAll(d0, op.ranges) == Place(PlaceAll(d0, op.ranges[..1]), right);
  }

  /** Main step for splits: the pieces replace their parent in the partition exactly when the
      split key lies within it. The proposal path does not check this. */
  lemma SplitPartitionIff(d: Directory, id: nat, key: string)
    requires WellFormed(d) && id in d.ranges
    ensures Partition(Apply(d, SplitOp(d, id, key))) <==> Within(d.ranges[id], key)
  {
    var r := d.ranges[id];
    var op := SplitOp(d, id, key);
    SplitEffect(d, op, id, LeftChild(r, key), RightChild(r, key));
    if Within(r, key) {
      SplitPartition(d, op, id, r, key);
    } else {
      SplitOutside(d, op, id, key);
    }
  }

  lemma SplitPartition(d: Directory, op: Op, id: nat, r: Range, key: string)
    requires WellFormed(d) && id in d.ranges && FenceHolds(d, op)
    requires r.start == d.ranges[id].start && r.end == d.ranges[id].end && Within(r, key)
    requires op.ranges == [LeftChild(r, key), RightChild(r, key)] && op.remove == [id]
    ensures Partition(Apply(d, op))
  {
    SplitEffect(d, op, id, LeftChild(r, key), RightChild(r, key));
    var e := Apply(d, op);
    var l, m := d.nextID, d.nextID + 1;
    forall x
      ensures Owned(e, x)
    {
      SplitCoversParent(r, key, x);
      assert Owned(d, x);
      var o :| Owns(d, o, x);
      if o == id {
        assert Owns(e, l, x) || Owns(e, m, x);
      } else {
        assert Owns(e, o, x);
      }
    }
    forall x, a, b | Owns(e, a, x) && Owns(e, b, x)
      ensures a == b
    {
      SplitCoversParent(r, key, x);
      assert Owns(d, if a == l || a == m then id else a, x);
      assert Owns(d, if b == l || b == m then id else b, x);
    }
  }

  /** Outside the parent, one key ends up with two owners. */
  lemma SplitOutside(d: Directory, op: Op, id: nat, key: string)
    requires WellFormed(d) && id in d.ranges && op == SplitOp(d, id, key)
    requires !Within(d.ranges[id], key)
    ensures !Partition(Apply(d, op))
  {
    var r := d.ranges[id];
    SplitEffect(d, op, id, LeftChild(r, key), RightChild(r, key));
    var e := Apply(d, op);
    var l, m := d.nextID, d.nextID + 1;
    Irreflexive(key);
    Irreflexive(r.end);
    if key == "" {
      // The left child loses its upper bound.
      Irreflexive(r.start);
      assert Owned(d, r.start);
      var o :| Owns(d, o, r.start);
      if o == id {
        assert Owns(e, l, r.start) && Owns(e, m, r.start);
      } else {
        assert Owns(e, o, r.start) && Owns(e, l, r.start);
      }
    } else if Less(key, r.start) {
      // The right child reaches below its parent.
      assert Owned(d, key);
      var o :| Owns(d, o, key);
      AtMostTransitive(key, r.start, r.end);
      assert Owns(e, o, key) && Owns(e, m, key);
    } else {
      // The left child reaches beyond its parent.
      assert Owned(d, r.end);
      var o :| Owns(d, o, r.end);
      assert Owns(e, o, r.end) && Owns(e, l, r.end);
    }
  }

  /** A genesis entry is not fenced. It leaves a partition exactly when no other range holds a key. */
  lemma GenesisPartitionIff(d: Directory, node: string)
    requires WellFormed(d)
    ensures Partition(Apply(d, GenesisOp(node))) <==>
            forall id <- d.ranges :: id != 1 ==> d.ranges[id].start == d.ranges[id].end != ""
  {
    var op := GenesisOp(node);
    GenesisEffect(d, node);
    var e := Apply(d, op);
    assert forall key :: Owns(e, 1, key);
    if id :| id in d.ranges && id != 1 && !(d.ranges[id].start == d.ranges[id].end != "") {
      var r := d.ranges[id];
      Irreflexive(r.start);
      Trichotomy(r.start, r.end);
      assert Owns(e, id, r.start) && Owns(e, 1, r.start);
    }
    if forall id <- d.ranges :: id != 1 ==> d.ranges[id].start == d.ranges[id].end != "" {
      assert forall key, a :: Owns(e, a, key) ==> a == 1;
      forall key ensures Owned(e, key) { assert Owns(e, 1, key); }
    }
  }

  lemma GenesisEffect(d: Directory, node: string)
    requires WellFormed(d)
    ensures Apply(d, GenesisOp(node)).ranges == d.ranges[1 := Range(1, "", "", [node], node, 1)]
    ensures Apply(d, GenesisOp(node)).nextID == if d.nextID == 1 then 2 else d.nextID
  {
    var op := GenesisOp(node);
    var d0 := d.(ranges := d.ranges - ToSet(op.remove));
    assert d.ranges - ToSet(op.remove) == d.ranges;
    assert op.ranges[..0] == [];
    assert PlaceAll(d0, op.ranges) == Place(PlaceAll(d0, op.ranges[..0]), op.ranges[0]);
  }

  // -------------------------------------------------------------------- runs

  /** The precondition the proposal paths leave to their callers. */
  ghost predicate Guarded(d: Directory, view: Directory, p: Proposal) {
    match p
    case Genesis(_) => d.ranges == map[]
    case Split(id, key) => id in view.ranges ==> Within(view.ranges[id], key)
    case _ => true
  }

  /** Placing post-images of ranges that exist keeps every other range and the id counter. */
  lemma {:induction false} PlaceExisting(d: Directory, rs: seq<Range>)
    requires forall id <- d.ranges :: id < d.nextID
    requires forall i :: 0 <= i < |rs| ==> rs[i].id in d.ranges && rs[i].id != 0
    requires forall i, j :: 0 <= i < j < |rs| ==> rs[i].id != rs[j].id
    ensures PlaceAll(d, rs).nextID == d.nextID
    ensures PlaceAll(d, rs).ranges.Keys == d.ranges.Keys
    ensures forall i :: 0 <= i < |rs| ==> PlaceAll(d, rs).ranges[rs[i].id] == rs[i]
    ensures forall id <- d.ranges :: (forall i :: 0 <= i < |rs| ==> rs[i].id != id) ==>
            PlaceAll(d, rs).ranges[id] == d.ranges[id]
    decreases |rs|
  {
    if rs != [] {
      var n := |rs| - 1;
      var first := rs[..n];
      assert forall i :: 0 <= i < n ==> first[i] == rs[i];
      PlaceExisting(d, first);
      var e := PlaceAll(d, first);
      assert PlaceAll(d, rs).ranges == e.ranges[rs[n].id := rs[n]];
    }
  }

  /** Rewriting ranges in place, bounds kept, keeps the partition. */
  lemma SameBoundsKeepPartition(d: Directory, e: Directory)
    requires Partition(d) && d.ranges.Keys == e.ranges.Keys
    requires forall id <- d.ranges :: d.ranges[id].start == e.ranges[id].start && d.ranges[id].end == e.ranges[id].end
    ensures Partition(e)
  {
    assert forall id, key :: Owns(d, id, key) <==> Owns(e, id, key);
    forall key
      ensures Owned(e, key)
    {
      assert Owned(d, key);
      var id :| Owns(d, id, key);
      assert Owns(e, id, key);
    }
  }

  /** An accepted operation was computed from the current value of every range it names: a
      generation that still matches rules out a lost update. */
  lemma AcceptedIsCurrent(past: Directory, view: Directory, d: Directory, p: Proposal, op: Op)
    requires Later(past, d) && ViewOf(view, past) && Computes(view, p, op) && FenceHolds(d, op)
    ensures forall id <- op.base :: id in view.ranges && id in d.ranges && SameButLeader(view.ranges[id], d.ranges[id])
  {
  }

  /** The shape shared by moves, assignments and rebalancing: post-images of fenced ranges, bounds kept. */
  ghost predicate InPlace(d: Directory, op: Op) {
    && op.remove == []
    && (forall i :: 0 <= i < |op.ranges| ==>
          var r := op.ranges[i];
          r.id in d.ranges && r.id != 0 && r.start == d.ranges[r.id].start && r.end == d.ranges[r.id].end
          && r.generation == d.ranges[r.id].generation + 1)
    && (forall i, j :: 0 <= i < j < |op.ranges| ==> op.ranges[i].id != op.ranges[j].id)
  }

  lemma InPlaceShape(past: Directory, view: Directory, d: Directory, p: Proposal, op: Op)
    requires WellFormed(d) && Later(past, d) && ViewOf(view, past)
    requires Computes(view, p, op) && FenceHolds(d, op) && (p.Move? || p.Assign? || p.Rebalance?)
    ensures InPlace(d, op)
  {
    hide Later, RebalancesThese, FenceHolds;
    AcceptedIsCurrent(past, view, d, p, op);
    FromView(view, d, op.base.Keys);
    if p.Move? {
      MoveShape(view, d, p.id, p.replicas);
    } else if p.Rebalance? {
      RebalanceShape(view, d, p.voters, p.leader, op);
    }
  }

  /** The fenced ranges carry their own ids and the current bounds and generations. */
  ghost predicate Current(view: Directory, d: Directory, ids: set<nat>) {
    forall id :: id in ids ==>
      && id in view.ranges && id in d.ranges && id != 0 && view.ranges[id].id == id
      && view.ranges[id].start == d.ranges[id].start && view.ranges[id].end == d.ranges[id].end
      && view.ranges[id].generation == d.ranges[id].generation
  }

  lemma FromView(view: Directory, d: Directory, ids: set<nat>)
    requires WellFormed(d)
    requires forall id :: id in ids ==>
             id in view.ranges && id in d.ranges && SameButLeader(view.ranges[id], d.ranges[id])
    ensures Current(view, d, ids)
  {
    hide Partition, Less;
  }

  lemma MoveShape(view: Directory, d: Directory, id: nat, replicas: seq<string>)
    requires id in view.ranges && Current(view, d, {id})
    ensures InPlace(d, MoveOp(view, id, replicas))
  {
  }

  lemma RebalanceShape(view: Directory, d: Directory, voters: seq<string>, leader: string, op: Op)
    requires IsRebalance(view, voters, leader, op) && Current(view, d, op.base.Keys)
    ensures InPlace(d, op)
  {
    hide Balanced;
  }

  lemma InPlaceStep(d: Directory, op: Op)
    requires WellFormed(d) && FenceHolds(d, op) && InPlace(d, op)
    ensures WellFormed(Apply(d, op)) && Later(d, Apply(d, op))
  {
    hide Partition, Less, PlaceAll;
    assert d.ranges - ToSet(op.remove) == d.ranges;
    PlaceExisting(d, op.ranges);
    var e := Apply(d, op);
    forall id | id in d.ranges
      ensures e.ranges[id].start == d.ranges[id].start && e.ranges[id].end == d.ranges[id].end && e.ranges[id].id == id
      ensures e.ranges[id] == d.ranges[id] || e.ranges[id].generation == d.ranges[id].generation + 1
    {
      if i :| 0 <= i < |op.ranges| && op.ranges[i].id == id {
        assert e.ranges[id] == op.ranges[i];
      }
    }
    assert e.ranges.Keys == d.ranges.Keys;
    if d.ranges != map[] {
      SameBoundsKeepPartition(d, e);
      var id :| id in d.ranges;
      assert id in e.ranges;
    }
  }

  lemma SplitStep(d: Directory, op: Op, id: nat, r: Range, key: string)
    requires WellFormed(d) && id in d.ranges && FenceHolds(d, op)
    requires SameButLeader(r, d.ranges[id]) && Within(r, key)
    requires op.ranges == [LeftChild(r, key), RightChild(r, key)] && op.remove == [id]
    ensures WellFormed(Apply(d, op)) && Later(d, Apply(d, op))
  {
    SplitEffect(d, op, id, LeftChild(r, key), RightChild(r, key));
    SplitPartition(d, op, id, r, key);
    assert d.nextID in Apply(d, op).ranges;
  }

  /** One log entry: well-formedness is kept and the new directory is later than the old. */
  lemma StepKeeps(past: Directory, view: Directory, d: Directory, p: Proposal, op: Op)
    requires WellFormed(past) && WellFormed(d) && Later(past, d) && ViewOf(view, past)
    requires Computes(view, p, op) && Guarded(d, view, p)
    ensures WellFormed(Apply(d, op)) && Later(d, Apply(d, op))
  {
    if FenceHolds(d, op) {
      match p
      case Genesis(node) =>
        GenesisEffect(d, node);
        GenesisPartitionIff(d, node);
        assert 1 in Apply(d, op).ranges;
      case Split(id, key) =>
        AcceptedIsCurrent(past, view, d, p, op);
        assert id in op.base;
        SplitStep(d, op, id, view.ranges[id], key);
      case _ =>
        InPlaceShape(past, view, d, p, op);
        InPlaceStep(d, op);
    }
  }

  /** One committed entry: what was proposed, from which directory of the log, seen with which leaders. */
  datatype LogEntry = LogEntry(proposal: Proposal, basedOn: nat, view: Directory, op: Op)

  /** Entry `e` takes `states[i]` to `states[i + 1]`, computed from an earlier state of the log. */
  ghost predicate Commits(e: LogEntry, states: seq<Directory>, i: nat)
    requires i + 1 < |states|
  {
    && e.basedOn <= i
    && ViewOf(e.view, states[e.basedOn])
    && Computes(e.view, e.proposal, e.op)
    && Guarded(states[i], e.view, e.proposal)
    && states[i + 1] == Apply(states[i], e.op)
  }

  /** `states` is the directory after each prefix of `log`. */
  ghost predicate IsRun(log: seq<LogEntry>, states: seq<Directory>) {
    |states| == |log| + 1 && states[0] == EMPTY && forall i :: 0 <= i < |log| ==> Commits(log[i], states, i)
  }

  ghost predicate AllWellFormed(states: seq<Directory>) {
    forall i :: 0 <= i < |states| ==> WellFormed(states[i])
  }

  ghost predicate AllLater(states: seq<Directory>) {
    forall i, j :: 0 <= i <= j < |states| ==> Later(states[i], states[j])
  }

  lemma ExtendRun(states: seq<Directory>, e: LogEntry)
    requires |states| >= 2 && AllWellFormed(states[..|states| - 1]) && AllLater(states[..|states| - 1])
    requires Commits(e, states, |states| - 2)
    ensures AllWellFormed(states) && AllLater(states)
  {
    hide WellFormed, Later, Apply, Computes;
    var n := |states| - 1;
    var before, last, next := states[..n], states[n - 1], states[n];
    assert last == before[n - 1] && states[e.basedOn] == before[e.basedOn];
    assert WellFormed(last) && WellFormed(next) && Later(last, next) && Later(next, next) by {
      StepKeeps(states[e.basedOn], e.view, last, e.proposal, e.op);
      LaterReflexive(next);
    }
    forall i | 0 <= i < n
      ensures WellFormed(states[i]) && Later(states[i], next)
    {
      assert states[i] == before[i];
      LaterTransitive(states[i], last, next);
    }
    forall i, j | 0 <= i <= j < |states|
      ensures Later(states[i], states[j])
    {
      if j < n {
        assert states[i] == before[i] && states[j] == before[j];
      }
    }
  }

  /** In every run, every directory is well formed and every later one keeps the ids, bounds and
      generations of every earlier one. */
  lemma {:induction false} RunKeeps(log: seq<LogEntry>, states: seq<Directory>)
    requires IsRun(log, states)
    ensures AllWellFormed(states) && AllLater(states)
    decreases |log|
  {
    var n := |log|;
    if n > 0 {
      var earlier, seen := log[..n - 1], states[..n];
      forall i | 0 <= i < |earlier|
        ensures Commits(earlier[i], seen, i)
      {
        assert Commits(log[i], states, i);
      }
      RunKeeps(earlier, seen);
      ExtendRun(states, log[n - 1]);
    }
  }

  /** After genesis the ranges partition the whole key space for good. */
  lemma RunPartitions(log: seq<LogEntry>, states: seq<Directory>, i: nat)
    requires IsRun(log, states) && i < |states| && states[i].ranges != map[]
    ensures forall j :: i <= j < |states| ==> Partition(states[j])
  {
    RunKeeps(log, states);
    assert forall j :: i <= j < |states| ==> Later(states[i], states[j]);
  }

  // ---------------------------------------------------------------- children

  predicate Interior(r: Range, key: string) {
    Less(r.start, key) && (r.end == "" || Less(key, r.end))
  }

  /** The ranges `childrenOf` collects: those with a bound at the split key. */
  predicate Touches(r: Range, key: string) {
    r.end == key || r.start == key
  }

  ghost predicate NonEmpty(d: Directory) {
    forall id <- d.ranges :: Contains(d.ranges[id], d.ranges[id].start)
  }

  /** After a split strictly inside a range, exactly the two new ids touch the split key, so the
      second half of the operation assigns tables to the right children. */
  lemma ChildrenAreExact(d: Directory, id: nat, key: string)
    requires WellFormed(d) && NonEmpty(d) && id in d.ranges && Interior(d.ranges[id], key)
    ensures (set i | i in Apply(d, SplitOp(d, id, key)).ranges
             && Touches(Apply(d, SplitOp(d, id, key)).ranges[i], key)) == {d.nextID, d.nextID + 1}
    ensures NonEmpty(Apply(d, SplitOp(d, id, key)))
  {
    var r := d.ranges[id];
    var op := SplitOp(d, id, key);
    SplitEffect(d, op, id, LeftChild(r, key), RightChild(r, key));
    Irreflexive(r.start);
    Irreflexive(key);
    Asymmetric(r.start, key);
    forall i | i in d.ranges && i != id
      ensures !Touches(d.ranges[i], key)
    {
      var s := d.ranges[i];
      assert Owns(d, id, key);
      if s.start == key {
        assert Owns(d, i, key);
      }
      if s.end == key {
        // Both ranges would own the larger of their two starts.
        Trichotomy(r.start, s.start);
        Asymmetric(s.start, key);
        AtMostTransitive(s.start, key, r.end);
        if Less(r.start, s.start) {
          Asymmetric(r.start, s.start);
          assert Owns(d, i, s.start) && Owns(d, id, s.start);
        } else {
          AtMostTransitive(s.start, r.start, key);
          assert Owns(d, i, r.start) && Owns(d, id, r.start);
        }
      }
    }
  }

  /** Every split key lies strictly inside its range, as its proposer sees it. */
  ghost predicate SplitsInside(e: LogEntry) {
    e.proposal.Split? && e.proposal.id in e.view.ranges ==>
      Interior(e.view.ranges[e.proposal.id], e.proposal.key)
  }

  lemma InPlaceKeys(d: Directory, op: Op)
    requires WellFormed(d) && InPlace(d, op) && FenceHolds(d, op)
    ensures Apply(d, op).ranges.Keys == d.ranges.Keys
  {
    hide Partition, Less, PlaceAll;
    assert d.ranges - ToSet(op.remove) == d.ranges;
    PlaceExisting(d, op.ranges);
  }

  lemma SplitNonEmpty(d: Directory, op: Op, id: nat, r: Range, key: string)
    requires WellFormed(d) && NonEmpty(d) && id in d.ranges && FenceHolds(d, op)
    requires SameButLeader(r, d.ranges[id]) && Interior(r, key)
    requires op.ranges == [LeftChild(r, key), RightChild(r, key)] && op.remove == [id]
    ensures NonEmpty(Apply(d, op))
  {
    hide Partition, Less;
    SplitEffect(d, op, id, LeftChild(r, key), RightChild(r, key));
    Irreflexive(r.start);
    Irreflexive(key);
    Asymmetric(r.start, key);
  }

  lemma NonEmptyStep(past: Directory, view: Directory, d: Directory, p: Proposal, op: Op)
    requires WellFormed(past) && WellFormed(d) && Later(past, d) && ViewOf(view, past) && NonEmpty(d)
    requires Computes(view, p, op) && Guarded(d, view, p)
    requires p.Split? && p.id in view.ranges ==> Interior(view.ranges[p.id], p.key)
    ensures NonEmpty(Apply(d, op))
  {
    hide Partition, Less;
    if FenceHolds(d, op) {
      match p
      case Genesis(node) =>
        GenesisEffect(d, node);
        Irreflexive("");
      case Split(id, key) =>
        AcceptedIsCurrent(past, view, d, p, op);
        assert id in op.base;
        SplitNonEmpty(d, op, id, view.ranges[id], key);
      case _ =>
        InPlaceShape(past, view, d, p, op);
        InPlaceStep(d, op);
        InPlaceKeys(d, op);
    }
  }

  /** In a run whose splits are inside their ranges no range is ever empty, so `ChildrenAreExact` holds of
      every split in it. */
  lemma {:induction false} RunNonEmpty(log: seq<LogEntry>, states: seq<Directory>, n: nat)
    requires IsRun(log, states) && AllWellFormed(states) && AllLater(states) && n < |states|
    requires forall i :: 0 <= i < |log| ==> SplitsInside(log[i])
    ensures NonEmpty(states[n])
  {
    hide WellFormed, Later, Apply, Computes, NonEmpty, Interior, Guarded, ViewOf;
    if n == 0 {
      EmptyNonEmpty();
    } else {
      RunNonEmpty(log, states, n - 1);
      var e := log[n - 1];
      assert Commits(e, states, n - 1);
      NonEmptyStep(states[e.basedOn], e.view, states[n - 1], e.proposal, e.op);
    }
  }

  lemma EmptyNonEmpty()
    ensures NonEmpty(EMPTY)
  {
  }

  /** A split inside a range, anywhere in such a run, has exactly the two children that the second entry
      looks for. */
  lemma RunChildren(log: seq<LogEntry>, states: seq<Directory>, n: nat, id: nat, key: string)
    requires IsRun(log, states) && n < |states| && forall i :: 0 <= i < |log| ==> SplitsInside(log[i])
    requires id in states[n].ranges && Interior(states[n].ranges[id], key)
    ensures var d := states[n];
            var e := Apply(d, SplitOp(d, id, key));
            (set i | i in e.ranges && Touches(e.ranges[i], key)) == {d.nextID, d.nextID + 1}
  {
    hide Apply, Commits, NonEmpty, Interior, Touches, WellFormed, Later;
    RunKeeps(log, states);
    RunNonEmpty(log, states, n);
    ChildrenAreExact(states[n], id, key);
  }

  // ------------------------------------------------------------- generations

  /** The operation takes a range away or writes it anew. */
  predicate Rewrites(op: Op, id: nat) { id in op.remove || exists i :: 0 <= i < |op.ranges| && op.ranges[i].id == id }

  /** An accepted operation leaves a range as it was, generation included, exactly when it does not name it, and
      takes it away exactly when it says so. */
  lemma StepRewrites(past: Directory, view: Directory, d: Directory, p: Proposal, op: Op, id: nat)
    requires WellFormed(past) && WellFormed(d) && Later(past, d) && ViewOf(view, past)
    requires Computes(view, p, op) && Guarded(d, view, p) && id in d.ranges
    ensures var e := Apply(d, op);
            && (id in e.ranges <==> !(FenceHolds(d, op) && id in op.remove))
            && (if FenceHolds(d, op) && Rewrites(op, id)
                then id !in e.ranges || e.ranges[id].generation > d.ranges[id].generation
                else id in e.ranges && e.ranges[id] == d.ranges[id])
  {
    hide Partition, Less, Later, RebalancesThese;
    if FenceHolds(d, op) {
      if p.Split? {
        AcceptedIsCurrent(past, view, d, p, op);
        assert p.id in op.base;
        SplitRewrites(d, op, p.id, view.ranges[p.id], p.key, id);
      } else if !p.Genesis? {
        InPlaceShape(past, view, d, p, op);
        InPlaceRewrites(d, op, id);
      }
    }
  }

  lemma SplitRewrites(d: Directory, op: Op, parent: nat, r: Range, key: string, id: nat)
    requires WellFormed(d) && parent in d.ranges && FenceHolds(d, op) && id in d.ranges
    requires op.ranges == [LeftChild(r, key), RightChild(r, key)] && op.remove == [parent]
    ensures Rewrites(op, id) <==> id == parent
    ensures if id == parent then id !in Apply(d, op).ranges
            else id in Apply(d, op).ranges && Apply(d, op).ranges[id] == d.ranges[id]
  {
    hide Partition, Less;
    SplitEffect(d, op, parent, LeftChild(r, key), RightChild(r, key));
  }

  lemma InPlaceRewrites(d: Directory, op: Op, id: nat)
    requires WellFormed(d) && FenceHolds(d, op) && InPlace(d, op) && id in d.ranges
    ensures var e := Apply(d, op);
            && id in e.ranges && op.remove == []
            && (if Rewrites(op, id) then e.ranges[id].generation > d.ranges[id].generation
                else e.ranges[id] == d.ranges[id])
  {
    hide Partition, Less, PlaceAll;
    assert d.ranges - ToSet(op.remove) == d.ranges;
    PlaceExisting(d, op.ranges);
    if i :| 0 <= i < |op.ranges| && op.ranges[i].id == id {
      assert Apply(d, op).ranges[id] == op.ranges[i];
    }
  }

  /** Entry `k` of the log is accepted and names the range. */
  ghost predicate RewrittenAt(log: seq<LogEntry>, states: seq<Directory>, k: nat, id: nat)
    requires k < |log| && |states| == |log| + 1
  {
    FenceHolds(states[k], log[k].op) && Rewrites(log[k].op, id)
  }

  ghost predicate RemovedAt(log: seq<LogEntry>, states: seq<Directory>, k: nat, id: nat)
    requires k < |log| && |states| == |log| + 1
  {
    FenceHolds(states[k], log[k].op) && id in log[k].op.remove
  }

  /** No accepted entry from `i` to `j` names the range. */
  ghost predicate Untouched(log: seq<LogEntry>, states: seq<Directory>, i: nat, j: nat, id: nat)
    requires i <= j <= |log| && |states| == |log| + 1
  {
    forall k :: i <= k < j ==> !RewrittenAt(log, states, k, id)
  }

  /** None takes it away. */
  ghost predicate Unremoved(log: seq<LogEntry>, states: seq<Directory>, i: nat, j: nat, id: nat)
    requires i <= j <= |log| && |states| == |log| + 1
  {
    forall k :: i <= k < j ==> !RemovedAt(log, states, k, id)
  }

  lemma UntouchedMore(log: seq<LogEntry>, states: seq<Directory>, i: nat, j: nat, id: nat)
    requires i < j <= |log| && |states| == |log| + 1
    ensures Untouched(log, states, i, j, id) <==>
            Untouched(log, states, i, j - 1, id) && !RewrittenAt(log, states, j - 1, id)
    ensures Unremoved(log, states, i, j, id) <==>
            Unremoved(log, states, i, j - 1, id) && !RemovedAt(log, states, j - 1, id)
  {
    hide RewrittenAt, RemovedAt;
  }

  /** What one entry of a run does to a range. */
  lemma EntryRewrites(log: seq<LogEntry>, states: seq<Directory>, k: nat, id: nat)
    requires IsRun(log, states) && AllWellFormed(states) && AllLater(states) && k < |log| && id in states[k].ranges
    ensures var d, e := states[k], states[k + 1];
            && (id in e.ranges <==> !RemovedAt(log, states, k, id))
            && (if RewrittenAt(log, states, k, id)
                then id !in e.ranges || e.ranges[id].generation > d.ranges[id].generation
                else id in e.ranges && e.ranges[id] == d.ranges[id])
  {
    hide WellFormed, Apply, Computes, Guarded, ViewOf, FenceHolds, Rewrites, Later;
    var entry := log[k];
    assert Commits(entry, states, k);
    StepRewrites(states[entry.basedOn], entry.view, states[k], entry.proposal, entry.op, id);
  }

  /** In every run a range has at a later state the generation it had at an earlier one exactly when no
      accepted entry in between named it, and then it is the same range; and it is there exactly when none
      removed it. */
  lemma {:induction false} RunRewrites(log: seq<LogEntry>, states: seq<Directory>, i: nat, j: nat, id: nat)
    requires IsRun(log, states) && AllWellFormed(states) && AllLater(states) && i <= j < |states|
    requires id in states[i].ranges
    ensures id in states[j].ranges && states[j].ranges[id].generation == states[i].ranges[id].generation <==>
            Untouched(log, states, i, j, id)
    ensures Untouched(log, states, i, j, id) ==>
              id in states[j].ranges && states[j].ranges[id] == states[i].ranges[id]
    ensures id in states[j].ranges <==> Unremoved(log, states, i, j, id)
    decreases j
  {
    hide WellFormed, Commits, RewrittenAt, RemovedAt, Later;
    if i < j {
      RunRewrites(log, states, i, j - 1, id);
      UntouchedMore(log, states, i, j, id);
      hide Untouched, Unremoved;
      var d, e := states[j - 1], states[j];
      assert WellFormed(states[i]) && Later(states[i], d) && Later(d, e);
      if id in d.ranges {
        EntryRewrites(log, states, j - 1, id);
        GenerationsGrow(states[i], d, id);
      } else {
        NeverAgain(states[i], d, e, id);
      }
    }
  }

  lemma GenerationsGrow(d: Directory, e: Directory, id: nat)
    requires Later(d, e) && id in d.ranges && id in e.ranges
    ensures d.ranges[id].generation <= e.ranges[id].generation
  {
  }

  /** An id that is gone does not come back. */
  lemma NeverAgain(past: Directory, d: Directory, e: Directory, id: nat)
    requires WellFormed(past) && Later(past, d) && Later(d, e) && id in past.ranges && id !in d.ranges
    ensures id !in e.ranges
  {
    hide Partition, Less;
  }

  // ------------------------------------------------------------ what they do

  /** The ranges of `e` are those of `d` but for `id`. */
  ghost predicate OnlyChanged(d: Directory, e: Directory, id: nat) {
    && e.ranges.Keys == d.ranges.Keys && e.assign == d.assign && e.nextID == d.nextID
    && forall k <- d.ranges :: k != id ==> e.ranges[k] == d.ranges[k]
  }

  /** An accepted move gives the range the replicas asked for, a leader among them if there are any, and
      the next generation; its bounds and everything else stay. */
  lemma MoveIs(past: Directory, view: Directory, d: Directory, id: nat, replicas: seq<string>)
    requires WellFormed(past) && WellFormed(d) && Later(past, d) && ViewOf(view, past) && id in view.ranges
    requires FenceHolds(d, MoveOp(view, id, replicas))
    ensures var e := Apply(d, MoveOp(view, id, replicas));
            && id in d.ranges && OnlyChanged(d, e, id)
            && var r := e.ranges[id];
               && r.replicas == replicas && (replicas != [] ==> r.leader in replicas)
               && (view.ranges[id].leader in replicas ==> r.leader == view.ranges[id].leader)
               && r.generation == d.ranges[id].generation + 1
               && r.start == d.ranges[id].start && r.end == d.ranges[id].end && r.id == id
  {
    hide Partition, Less, PlaceAll, Later;
    var op := MoveOp(view, id, replicas);
    AcceptedIsCurrent(past, view, d, Move(id, replicas), op);
    assert id in op.base;
    FromView(view, d, {id});
    PlaceExisting(d, op.ranges);
    PlacedAssign(d, op.ranges);
    assert d.ranges - ToSet(op.remove) == d.ranges && d.(ranges := d.ranges) == d;
    assert ToSet(op.unassign) == {} && d.assign + map[] == d.assign && d.assign - {} == d.assign;
    assert op.ranges[0].id == id && Apply(d, op).ranges[op.ranges[0].id] == op.ranges[0];
  }

  /** After an accepted rebalance every range serves from the voters under the leader, or was not there when
      it was computed; bounds stay. */
  lemma RebalanceIs(past: Directory, view: Directory, d: Directory, voters: seq<string>, leader: string, op: Op,
                    id: nat)
    requires WellFormed(past) && WellFormed(d) && Later(past, d) && ViewOf(view, past)
    requires IsRebalance(view, voters, leader, op) && FenceHolds(d, op) && id in d.ranges
    ensures var e := Apply(d, op);
            && e.ranges.Keys == d.ranges.Keys
            && e.ranges[id].start == d.ranges[id].start && e.ranges[id].end == d.ranges[id].end
            && (id in view.ranges ==>
                  if multiset(view.ranges[id].replicas) == multiset(voters) && view.ranges[id].leader == leader
                  then e.ranges[id] == d.ranges[id]
                  else multiset(e.ranges[id].replicas) == multiset(voters) && e.ranges[id].leader == leader)
  {
    hide Partition, Less, PlaceAll, Later, WellFormed, RebalancesThese;
    InPlaceShape(past, view, d, Rebalance(voters, leader), op);
    InPlaceStep(d, op);
    InPlaceKeys(d, op);
    if id in op.base {
      RebalancedAt(view, view.ranges.Keys, voters, leader, op, id);
      var i :| 0 <= i < |op.ranges| && op.ranges[i].id == id
               && op.ranges[i] == Rebalanced(view.ranges[id], voters, leader);
      InPlaceAt(d, op, i);
    } else {
      NotRebalanced(view, voters, leader, op, id);
      InPlaceRewrites(d, op, id);
    }
    InPlaceBounds(d, op, id);
  }

  lemma RebalancedAt(view: Directory, done: set<nat>, voters: seq<string>, leader: string, op: Op, id: nat)
    requires RebalancesThese(view, done, voters, leader, op) && id in op.base
    ensures id in view.ranges && !Balanced(view.ranges[id], voters, leader)
    ensures exists i :: 0 <= i < |op.ranges| && op.ranges[i].id == id
                        && op.ranges[i] == Rebalanced(view.ranges[id], voters, leader)
  {
    hide Balanced;
  }

  lemma NotRebalanced(view: Directory, voters: seq<string>, leader: string, op: Op, id: nat)
    requires IsRebalance(view, voters, leader, op) && id !in op.base
    ensures !Rewrites(op, id) && (id in view.ranges ==> Balanced(view.ranges[id], voters, leader))
  {
    hide Balanced;
  }

  lemma InPlaceAt(d: Directory, op: Op, i: nat)
    requires WellFormed(d) && FenceHolds(d, op) && InPlace(d, op) && i < |op.ranges|
    ensures var e := Apply(d, op);
            op.ranges[i].id in e.ranges && e.ranges[op.ranges[i].id] == op.ranges[i]
  {
    hide Partition, Less, PlaceAll;
    assert d.ranges - ToSet(op.remove) == d.ranges;
    PlaceExisting(d, op.ranges);
  }

  lemma InPlaceBounds(d: Directory, op: Op, id: nat)
    requires Later(d, Apply(d, op)) && id in d.ranges && id in Apply(d, op).ranges
    ensures Apply(d, op).ranges[id].start == d.ranges[id].start && Apply(d, op).ranges[id].end == d.ranges[id].end
  {
    hide Apply;
  }

  /** The children of a split serve where their parent did, under its leader, with the next generation. */
  lemma ChildrenServe(d: Directory, op: Op, id: nat, r: Range, key: string)
    requires WellFormed(d) && id in d.ranges && FenceHolds(d, op) && SameButLeader(r, d.ranges[id])
    requires op.ranges == [LeftChild(r, key), RightChild(r, key)] && op.remove == [id]
    ensures var e := Apply(d, op);
            forall child :: child in {d.nextID, d.nextID + 1} ==>
              && child in e.ranges && e.ranges[child].replicas == d.ranges[id].replicas
              && e.ranges[child].leader == r.leader && e.ranges[child].generation == d.ranges[id].generation + 1
    ensures var e := Apply(d, op);
            && e.ranges[d.nextID].start == d.ranges[id].start && e.ranges[d.nextID].end == key
            && e.ranges[d.nextID + 1].start == key && e.ranges[d.nextID + 1].end == d.ranges[id].end
  {
    hide Partition, Less, PlaceAll;
    SplitEffect(d, op, id, LeftChild(r, key), RightChild(r, key));
  }

  /** What an accepted operation makes of the assignment: tables it assigns go where it says, tables it
      unassigns go nowhere, and no other table moves. */
  lemma AssignmentIs(d: Directory, op: Op, table: string)
    requires FenceHolds(d, op)
    ensures var e := Apply(d, op);
            if table in op.unassign then table !in e.assign
            else if table in op.assign then table in e.assign && e.assign[table] == op.assign[table]
            else if table in d.assign then table in e.assign && e.assign[table] == d.assign[table]
            else table !in e.assign
  {
    PlacedAssign(d.(ranges := d.ranges - ToSet(op.remove)), op.ranges);
  }

  lemma {:induction false} PlacedAssign(d: Directory, rs: seq<Range>)
    ensures PlaceAll(d, rs).assign == d.assign
    decreases |rs|
  {
    if rs != [] { PlacedAssign(d, rs[..|rs| - 1]); }
  }
}
