/**
 Consumer groups (src/catalog/tmq.c): a fixed array of groups with swap-remove, each
 with its members, the round-robin owners of its partitions, and the committed offset
 of each partition; every change is appended to a log that is replayed on open.
 */
module Tmq {
  import NameLog

  type Name = NameLog.Name

  const NPARTITIONS: nat := 4
  const NAME_MAX: nat := 64
  const MAX_MEMBERS: nat := 64
  const MAX_GROUPS: nat := 64

  datatype Status = Ok | Inval | Exists | NotFound | Full | Io

  datatype Member = Member(id: Name, joinedAt: int)

  /** `owner` and `offsets` have one entry per partition; an owner is an index into the
      members, or -1. */
  datatype Group = Group(name: Name, topic: Name, createdAt: int, members: seq<Member>,
                         owner: seq<int>, offsets: seq<int>)

  datatype Rec =
    | CreateGroup(name: Name, topic: Name, npart: int, createdAt: int)
    | DropGroup(name: Name)
    | AddMember(group: Name, id: Name, joinedAt: int)
    | DropMember(group: Name, id: Name)
    | Offset(group: Name, partition: int, seq_: int)

  // ---------------------------------------------------------------------
  // The pieces of the program

  function FindGroup(gs: seq<Group>, n: Name): (i: int)
    ensures -1 <= i < |gs| && (i >= 0 ==> gs[i].name == n)
  {
    if gs == [] then -1
    else if gs[|gs| - 1].name == n then |gs| - 1
    else FindGroup(gs[..|gs| - 1], n)
  }

  function FindMember(ms: seq<Member>, id: Name): (i: int)
    ensures -1 <= i < |ms| && (i >= 0 ==> ms[i].id == id)
  {
    if ms == [] then -1
    else if ms[|ms| - 1].id == id then |ms| - 1
    else FindMember(ms[..|ms| - 1], id)
  }

  function Turn(p: nat, n: nat): int {
    if n > 0 then p % n else -1
  }

  /** Round robin over the members; -1 when there is none. */
  function RoundRobin(npart: nat, n: nat): (owner: seq<int>)
    ensures |owner| == npart
  {
    seq(npart, p requires 0 <= p < npart => Turn(p, n))
  }

  function Rebalance(g: Group): Group {
    g.(owner := RoundRobin(|g.offsets|, |g.members|))
  }

  /** Overwrite an element with the last one and drop the last place. */
  function SwapRemove<T>(s: seq<T>, i: nat): seq<T>
    requires i < |s|
  {
    s[i := s[|s| - 1]][..|s| - 1]
  }

  function Parts(npart: int): nat {
    if 0 < npart <= NPARTITIONS then npart else NPARTITIONS
  }

  function NewGroup(name: Name, topic: Name, npart: int, createdAt: int): Group {
    Rebalance(Group(name, topic, createdAt, [], [], seq(Parts(npart), _ => 0)))
  }

  function Joined(g: Group, m: Member): Group {
    Rebalance(g.(members := g.members + [m]))
  }

  function Left(g: Group, i: nat): Group
    requires i < |g.members|
  {
    Rebalance(g.(members := SwapRemove(g.members, i)))
  }

  /** The apply functions of the replay; anything that does not fit is ignored. */
  function Apply(gs: seq<Group>, r: Rec): seq<Group> {
    match r
    case CreateGroup(n, t, np, at) =>
      if FindGroup(gs, n) >= 0 || |gs| >= MAX_GROUPS then gs else gs + [NewGroup(n, t, np, at)]
    case DropGroup(n) =>
      var i := FindGroup(gs, n);
      if i < 0 then gs else SwapRemove(gs, i)
    case AddMember(n, id, at) =>
      var i := FindGroup(gs, n);
      if i < 0 || FindMember(gs[i].members, id) >= 0 || |gs[i].members| >= MAX_MEMBERS then gs
      else gs[i := Joined(gs[i], Member(id, at))]
    case DropMember(n, id) =>
      var i := FindGroup(gs, n);
      if i < 0 then gs else
      var j := FindMember(gs[i].members, id);
      if j < 0 then gs else gs[i := Left(gs[i], j)]
    case Offset(n, p, s) =>
      var i := FindGroup(gs, n);
      if i < 0 || p < 0 || p >= |gs[i].offsets| then gs
      else gs[i := gs[i].(offsets := gs[i].offsets[p := s])]
  }

  function Replay(log: seq<Rec>): seq<Group> {
    if log == [] then [] else Apply(Replay(log[..|log| - 1]), log[|log| - 1])
  }

  lemma ReplaySnoc(log: seq<Rec>, r: Rec)
    ensures Replay(log + [r]) == Apply(Replay(log), r)
  {
    assert (log + [r])[..|log|] == log;
  }

  // ---------------------------------------------------------------------
  // What every log replays to

  ghost predicate DistinctNames(gs: seq<Group>) {
    forall i, j :: 0 <= i < j < |gs| ==> gs[i].name != gs[j].name
  }

  ghost predicate DistinctIds(ms: seq<Member>) {
    forall i, j :: 0 <= i < j < |ms| ==> ms[i].id != ms[j].id
  }

  ghost predicate GroupOk(g: Group) {
    && DistinctIds(g.members) && |g.members| <= MAX_MEMBERS
    && 1 <= |g.offsets| <= NPARTITIONS
    && g.owner == RoundRobin(|g.offsets|, |g.members|)
  }

  ghost predicate GroupsOk(gs: seq<Group>) {
    && DistinctNames(gs) && |gs| <= MAX_GROUPS
    && forall i :: 0 <= i < |gs| ==> GroupOk(gs[i])
  }

  lemma {:induction false} FoundGroup(gs: seq<Group>, n: Name)
    ensures FindGroup(gs, n) < 0 ==> forall i :: 0 <= i < |gs| ==> gs[i].name != n
  {
    if gs != [] {
      FoundGroup(gs[..|gs| - 1], n);
    }
  }

  lemma {:induction false} FoundMember(ms: seq<Member>, id: Name)
    ensures FindMember(ms, id) < 0 ==> forall i :: 0 <= i < |ms| ==> ms[i].id != id
  {
    if ms != [] {
      FoundMember(ms[..|ms| - 1], id);
    }
  }

  /** What swap-remove keeps: everything but the removed element, each where it was or moved
      from the last place. */
  lemma SwapRemoveMeans<T>(s: seq<T>, i: nat)
    requires i < |s|
    ensures |SwapRemove(s, i)| == |s| - 1
    ensures forall k :: 0 <= k < |s| - 1 ==> SwapRemove(s, i)[k] == if k == i then s[|s| - 1] else s[k]
  {
  }

  lemma JoinedOk(g: Group, m: Member)
    requires GroupOk(g) && |g.members| < MAX_MEMBERS && FindMember(g.members, m.id) < 0
    ensures GroupOk(Joined(g, m)) && Joined(g, m).members == g.members + [m]
    ensures Joined(g, m).(members := g.members, owner := g.owner) == g
  {
    FoundMember(g.members, m.id);
  }

  lemma LeftOk(g: Group, i: nat)
    requires GroupOk(g) && i < |g.members|
    ensures GroupOk(Left(g, i)) && Left(g, i).(members := g.members, owner := g.owner) == g
    ensures forall m :: m in Left(g, i).members <==> m in g.members && m.id != g.members[i].id
    ensures var n := |g.members| - 1;
            && |Left(g, i).members| == n
            && forall k :: 0 <= k < n ==> Left(g, i).members[k] == g.members[if k == i then n else k]
  {
    SwapRemoveMeans(g.members, i);
    var ms, rest := g.members, SwapRemove(g.members, i);
    forall m | m in ms && m.id != ms[i].id ensures m in rest {
      var k :| 0 <= k < |ms| && ms[k] == m;
      assert rest[if k == |ms| - 1 then i else k] == m;
    }
  }

  /** A new group has no members, unowned partitions, and offsets at zero. */
  lemma NewGroupIsEmpty(name: Name, topic: Name, npart: int, at: int)
    ensures var g := NewGroup(name, topic, npart, at);
            && g.name == name && g.topic == topic && g.createdAt == at && g.members == [] && GroupOk(g)
            && |g.offsets| == |g.owner| == (if 1 <= npart <= NPARTITIONS then npart else NPARTITIONS)
            && forall p :: 0 <= p < |g.offsets| ==> g.offsets[p] == 0 && g.owner[p] == -1
  {
  }

  lemma ChangedOk(gs: seq<Group>, i: nat, g: Group)
    requires GroupsOk(gs) && i < |gs| && GroupOk(g) && g.name == gs[i].name
    ensures GroupsOk(gs[i := g])
  {
    hide GroupOk;
  }

  lemma RemovedOk(gs: seq<Group>, i: nat)
    requires GroupsOk(gs) && i < |gs|
    ensures GroupsOk(SwapRemove(gs, i))
  {
    hide GroupOk;
    SwapRemoveMeans(gs, i);
  }

  lemma RemovedElements(gs: seq<Group>, i: nat)
    requires GroupsOk(gs) && i < |gs|
    ensures forall g :: g in SwapRemove(gs, i) <==> g in gs && g.name != gs[i].name
  {
    SwapRemoveMeans(gs, i);
    var rest := SwapRemove(gs, i);
    forall g | g in gs && g.name != gs[i].name ensures g in rest {
      var k :| 0 <= k < |gs| && gs[k] == g;
      assert rest[if k == |gs| - 1 then i else k] == g;
    }
  }

  lemma AddedOk(gs: seq<Group>, g: Group)
    requires GroupsOk(gs) && |gs| < MAX_GROUPS && GroupOk(g) && FindGroup(gs, g.name) < 0
    ensures GroupsOk(gs + [g])
  {
    hide GroupOk;
    FoundGroup(gs, g.name);
  }

  /** Any record, well-formed or not, keeps the groups in order. */
  lemma ApplyKeepsOk(gs: seq<Group>, r: Rec)
    requires GroupsOk(gs)
    ensures GroupsOk(Apply(gs, r))
  {
    var i := FindGroup(gs, if r.CreateGroup? || r.DropGroup? then r.name else r.group);
    match r
    case CreateGroup(n, t, np, at) =>
      if i < 0 && |gs| < MAX_GROUPS {
        AddedOk(gs, NewGroup(n, t, np, at));
      }
    case DropGroup(n) =>
      if i >= 0 {
        RemovedOk(gs, i);
      }
    case AddMember(n, id, at) =>
      if i >= 0 && FindMember(gs[i].members, id) < 0 && |gs[i].members| < MAX_MEMBERS {
        JoinedOk(gs[i], Member(id, at));
        ChangedOk(gs, i, Joined(gs[i], Member(id, at)));
      }
    case DropMember(n, id) =>
      if i >= 0 {
        var j := FindMember(gs[i].members, id);
        if j >= 0 {
          LeftOk(gs[i], j);
          ChangedOk(gs, i, Left(gs[i], j));
        }
      }
    case Offset(n, p, s) =>
      if i >= 0 && 0 <= p < |gs[i].offsets| {
        ChangedOk(gs, i, gs[i].(offsets := gs[i].offsets[p := s]));
      }
  }

  /** There is a group of that name. */
  ghost predicate HasGroup(gs: seq<Group>, n: Name) {
    exists i :: 0 <= i < |gs| && gs[i].name == n
  }

  /** The group of that name has a member of that id. */
  ghost predicate HasMember(gs: seq<Group>, n: Name, id: Name) {
    exists i, j :: 0 <= i < |gs| && gs[i].name == n && 0 <= j < |gs[i].members| && gs[i].members[j].id == id
  }

  /** The record fits the groups it is replayed on. */
  ghost predicate FitsIn(gs: seq<Group>, r: Rec) {
    match r
    case CreateGroup(n, _, _, _) => !HasGroup(gs, n) && |gs| < 64
    case DropGroup(n) => HasGroup(gs, n)
    case AddMember(n, id, _) => !HasMember(gs, n, id) && exists g :: g in gs && g.name == n && |g.members| < 64
    case DropMember(n, id) => HasMember(gs, n, id)
    case Offset(n, p, _) => exists g :: g in gs && g.name == n && 0 <= p < |g.offsets|
  }

  lemma GroupFound(gs: seq<Group>, n: Name)
    requires DistinctNames(gs)
    ensures HasGroup(gs, n) <==> FindGroup(gs, n) >= 0
    ensures forall i :: 0 <= i < |gs| && gs[i].name == n ==> i == FindGroup(gs, n)
  {
    FoundGroup(gs, n);
  }

  lemma MemberFound(gs: seq<Group>, n: Name, id: Name)
    requires DistinctNames(gs)
    ensures HasMember(gs, n, id) <==> FindGroup(gs, n) >= 0 && FindMember(gs[FindGroup(gs, n)].members, id) >= 0
  {
    GroupFound(gs, n);
    var i := FindGroup(gs, n);
    if i >= 0 {
      FoundMember(gs[i].members, id);
    }
  }

  /** Replay ignores exactly the records that do not fit: a group or member that is there already
      or is not there, a full table or group, a partition out of range. */
  lemma ApplyIgnores(gs: seq<Group>, r: Rec)
    requires GroupsOk(gs) && !FitsIn(gs, r)
    ensures Apply(gs, r) == gs
  {
    hide GroupOk, FindGroup, FindMember, Joined, Left, SwapRemove, NewGroup;
    var n := if r.CreateGroup? || r.DropGroup? then r.name else r.group;
    GroupFound(gs, n);
    if r.AddMember? || r.DropMember? {
      MemberFound(gs, n, r.id);
    }
  }

  /** What a record that fits does: `hs` is `gs` with one group added, removed or changed. */
  ghost predicate Takes(gs: seq<Group>, r: Rec, hs: seq<Group>) {
    match r
    case CreateGroup(n, t, np, at) =>
      && |hs| == |gs| + 1 && hs[..|gs|] == gs
      && var g := hs[|gs|];
         && g.name == n && g.topic == t && g.createdAt == at && g.members == []
         && |g.offsets| == (if 1 <= np <= 4 then np else 4) && forall p :: 0 <= p < |g.offsets| ==> g.offsets[p] == 0
    case DropGroup(n) => forall g :: g in hs <==> g in gs && g.name != n
    case AddMember(n, id, at) =>
      |hs| == |gs| &&
      exists i :: 0 <= i < |gs| && gs[i].name == n
                  && hs == gs[i := gs[i].(members := gs[i].members + [Member(id, at)], owner := hs[i].owner)]
    case DropMember(n, id) =>
      |hs| == |gs| &&
      exists i :: 0 <= i < |gs| && gs[i].name == n
                  && hs == gs[i := gs[i].(members := hs[i].members, owner := hs[i].owner)]
                  && forall m :: m in hs[i].members <==> m in gs[i].members && m.id != id
    case Offset(n, p, s) =>
      |hs| == |gs| &&
      exists i :: 0 <= i < |gs| && gs[i].name == n && 0 <= p < |gs[i].offsets|
                  && hs == gs[i := gs[i].(offsets := gs[i].offsets[p := s])]
  }

  lemma ApplyTakes(gs: seq<Group>, r: Rec)
    requires GroupsOk(gs) && FitsIn(gs, r)
    ensures Takes(gs, r, Apply(gs, r))
  {
    hide FindGroup, FindMember, SwapRemove;
    var n := if r.CreateGroup? || r.DropGroup? then r.name else r.group;
    GroupFound(gs, n);
    var i := FindGroup(gs, n);
    match r
    case CreateGroup(_, t, np, at) => NewGroupIsEmpty(n, t, np, at);
    case DropGroup(_) => RemovedElements(gs, i);
    case AddMember(_, id, at) =>
      MemberFound(gs, n, id);
      assert i >= 0 && |gs[i].members| < 64;
      JoinedOk(gs[i], Member(id, at));
    case DropMember(_, id) =>
      MemberFound(gs, n, id);
      LeftOk(gs[i], FindMember(gs[i].members, id));
    case Offset(_, _, _) =>
  }

  lemma {:induction false} ReplayOk(log: seq<Rec>)
    ensures GroupsOk(Replay(log))
  {
    if log != [] {
      ReplayOk(log[..|log| - 1]);
      ApplyKeepsOk(Replay(log[..|log| - 1]), log[|log| - 1]);
    }
  }

  // ---------------------------------------------------------------------
  // Balance

  /** How many of the first `k` partitions a member owns. */
  function Load(owner: seq<int>, k: nat, m: int): nat
    requires k <= |owner|
  {
    if k == 0 then 0 else Load(owner, k - 1, m) + if owner[k - 1] == m then 1 else 0
  }

  function Rounds(k: nat, n: nat): nat
    requires n > 0
  {
    k / n
  }

  lemma Multiple(d: int, n: nat)
    requires d != 0
    ensures d * n >= n || d * n <= -(n as int)
  {
    if d > 0 {
      assert (d - 1) * n >= 0;
    } else {
      assert (-d - 1) * n >= 0;
    }
  }

  lemma DivUnique(a: nat, n: nat, q: nat, r: nat)
    requires n > 0 && a == q * n + r && r < n
    ensures a / n == q && a % n == r
  {
    var d := a / n - q;
    assert a == a / n * n + a % n;
    assert d * n == r - a % n;
    if d != 0 {
      Multiple(d, n);
    }
  }

  lemma NextTurn(k: nat, n: nat)
    requires n > 0
    ensures Rounds(k + 1, n) == Rounds(k, n) + (if Turn(k, n) == n - 1 then 1 else 0)
    ensures Turn(k + 1, n) == if Turn(k, n) == n - 1 then 0 else Turn(k, n) + 1
    ensures 0 <= Turn(k, n) < n && Turn(0, n) == Rounds(0, n) == 0
  {
    var q, r := k / n, k % n;
    assert k == q * n + r;
    if r == n - 1 {
      assert k + 1 == (q + 1) * n;
      DivUnique(k + 1, n, q + 1, 0);
    } else {
      DivUnique(k + 1, n, q, r + 1);
    }
    DivUnique(0, n, 0, 0);
  }

  lemma {:induction false} LoadIs(npart: nat, n: nat, k: nat, m: nat)
    requires m < n && k <= npart
    ensures Load(RoundRobin(npart, n), k, m) == Rounds(k, n) + if m < Turn(k, n) then 1 else 0
  {
    hide Rounds, Turn;
    if k == 0 {
      NextTurn(0, n);
    } else {
      LoadIs(npart, n, k - 1, m);
      NextTurn(k - 1, n);
    }
  }

  /** With members present every partition has one valid owner and loads differ by at most
      one; without members no partition has an owner. */
  lemma RoundRobinBalances(npart: nat, n: nat)
    ensures n == 0 ==> forall p :: 0 <= p < npart ==> RoundRobin(npart, n)[p] == -1
    ensures n > 0 ==> forall p :: 0 <= p < npart ==> 0 <= RoundRobin(npart, n)[p] < n
    ensures n > 0 ==> forall p :: 0 <= p < npart ==> RoundRobin(npart, n)[p] == p % n
    ensures forall a, b :: 0 <= a < n && 0 <= b < n ==>
              Load(RoundRobin(npart, n), npart, a) <= Load(RoundRobin(npart, n), npart, b) + 1
  {
    forall a: nat, b: nat | a < n && b < n
      ensures Load(RoundRobin(npart, n), npart, a) <= Load(RoundRobin(npart, n), npart, b) + 1
    {
      LoadIs(npart, n, npart, a);
      LoadIs(npart, n, npart, b);
    }
  }

  // ---------------------------------------------------------------------
  // Offsets

  ghost predicate Rises(gs: seq<Group>, r: Rec) {
    r.Offset? ==>
      var i := FindGroup(gs, r.group);
      i >= 0 && 0 <= r.partition < |gs[i].offsets| ==> r.seq_ >= gs[i].offsets[r.partition]
  }

  /** Every offset record is at least what it replaces. */
  ghost predicate Ascending(log: seq<Rec>) {
    log != [] ==> Ascending(log[..|log| - 1]) && Rises(Replay(log[..|log| - 1]), log[|log| - 1])
  }

  lemma AscendingSnoc(log: seq<Rec>, r: Rec)
    requires Ascending(log) && Rises(Replay(log), r)
    ensures Ascending(log + [r])
  {
    assert (log + [r])[..|log|] == log;
  }

  /** The group's offsets, or none. */
  function OffsetsOf(gs: seq<Group>, n: Name): seq<int> {
    var i := FindGroup(gs, n);
    if i < 0 then [] else gs[i].offsets
  }

  lemma {:induction false} FindDistinct(gs: seq<Group>, i: nat)
    requires DistinctNames(gs) && i < |gs|
    ensures FindGroup(gs, gs[i].name) == i
  {
    if i < |gs| - 1 {
      FindDistinct(gs[..|gs| - 1], i);
    }
  }

  /** A record that does not drop the group leaves its offsets alone or raises one; only an
      offset record changes them at all. */
  lemma ApplyOffsets(gs: seq<Group>, r: Rec, n: Name)
    requires GroupsOk(gs) && FindGroup(gs, n) >= 0 && r != DropGroup(n)
    ensures var a, b := OffsetsOf(gs, n), OffsetsOf(Apply(gs, r), n);
            && |a| == |b| && FindGroup(Apply(gs, r), n) >= 0
            && (!r.Offset? || r.group != n ==> a == b)
            && (r.Offset? && r.group == n ==> b == if 0 <= r.partition < |a| then a[r.partition := r.seq_] else a)
            && (Rises(gs, r) ==> forall p :: 0 <= p < |a| ==> a[p] <= b[p])
  {
    var i, hs := FindGroup(gs, n), Apply(gs, r);
    ApplyKeepsOk(gs, r);
    match r
    case CreateGroup(m, _, _, _) =>
      assert hs[i] == gs[i];
      FindDistinct(hs, i);
    case DropGroup(m) =>
      var k := FindGroup(gs, m);
      if k >= 0 {
        SwapRemoveMeans(gs, k);
        var j := if i == |gs| - 1 then k else i;
        assert hs[j] == gs[i];
        FindDistinct(hs, j);
      }
    case AddMember(m, id, at) =>
      assert hs[i].name == n && hs[i].offsets == gs[i].offsets;
      FindDistinct(hs, i);
    case DropMember(m, id) =>
      assert hs[i].name == n && hs[i].offsets == gs[i].offsets;
      FindDistinct(hs, i);
    case Offset(m, p, s) =>
      assert hs[i].name == n;
      FindDistinct(hs, i);
  }

  /** Offsets never decrease while the group lives. */
  lemma {:induction false} OffsetsNeverDecrease(log: seq<Rec>, k: nat, n: Name)
    requires Ascending(log) && k <= |log| && FindGroup(Replay(log[..k]), n) >= 0
    requires forall i :: k <= i < |log| ==> log[i] != DropGroup(n)
    ensures FindGroup(Replay(log), n) >= 0
    ensures var a, b := OffsetsOf(Replay(log[..k]), n), OffsetsOf(Replay(log), n);
            |a| == |b| && forall p :: 0 <= p < |a| ==> a[p] <= b[p]
  {
    if k == |log| {
      assert log[..k] == log;
    } else {
      var init := log[..|log| - 1];
      assert init[..k] == log[..k];
      OffsetsNeverDecrease(init, k, n);
      ReplayOk(init);
      ApplyOffsets(Replay(init), log[|log| - 1], n);
    }
  }

  // ---------------------------------------------------------------------
  // The service

  /** The commit of `id` affects the partition: it owns it, or is the whole group. */
  predicate Affects(g: Group, id: Name, p: nat)
    requires p < |g.offsets|
  {
    id.text == "" || (p < |g.owner| && g.owner[p] == FindMember(g.members, id))
  }

  ghost predicate MayRise(g: Group, id: Name, s: int) {
    forall p :: 0 <= p < |g.offsets| && Affects(g, id, p) ==> s >= g.offsets[p]
  }

  /** The offsets after the first `k` partitions were committed. */
  function Committed(g: Group, id: Name, s: int, k: nat): (o: seq<int>)
    requires k <= |g.offsets|
    ensures |o| == |g.offsets|
    ensures forall p :: 0 <= p < |o| ==> o[p] == if p < k && Affects(g, id, p) then s else g.offsets[p]
  {
    if k == 0 then g.offsets
    else
      var o := Committed(g, id, s, k - 1);
      if Affects(g, id, k - 1) then o[k - 1 := s] else o
  }

  lemma {:induction false} SameFind(gs: seq<Group>, i: nat, g: Group, n: Name)
    requires i < |gs| && g.name == gs[i].name
    ensures FindGroup(gs[i := g], n) == FindGroup(gs, n)
  {
    if i < |gs| - 1 {
      assert gs[i := g][..|gs| - 1] == gs[..|gs| - 1][i := g];
      SameFind(gs[..|gs| - 1], i, g, n);
    } else {
      assert gs[i := g][..|gs| - 1] == gs[..|gs| - 1];
    }
  }

  /** The groups after the first `k` partitions of one were committed. */
  ghost function Partly(gs: seq<Group>, i: nat, id: Name, s: int, k: nat): seq<Group>
    requires i < |gs| && k <= |gs[i].offsets|
  {
    gs[i := gs[i].(offsets := Committed(gs[i], id, s, k))]
  }

  lemma CommitStarts(gs: seq<Group>, i: nat, id: Name, s: int)
    requires i < |gs|
    ensures Partly(gs, i, id, s, 0) == gs
  {
  }

  /** Committing the next partition is one offset record, if it is affected, and none else. */
  lemma CommitStep(gs: seq<Group>, i: nat, group: Name, id: Name, s: int, p: nat)
    requires i < |gs| && FindGroup(gs, group) == i && p < |gs[i].offsets| && MayRise(gs[i], id, s)
    ensures var hs, r := Partly(gs, i, id, s, p), Offset(group, p, s);
            && |hs| == |gs| && p < |hs[i].offsets|
            && if Affects(gs[i], id, p)
               then && Rises(hs, r) && Apply(hs, r) == Partly(gs, i, id, s, p + 1)
                    && hs[i := hs[i].(offsets := hs[i].offsets[p := s])] == Partly(gs, i, id, s, p + 1)
               else hs == Partly(gs, i, id, s, p + 1)
  {
    hide FindMember;
    var g := gs[i].(offsets := Committed(gs[i], id, s, p));
    SameFind(gs, i, g, group);
    assert Committed(gs[i], id, s, p + 1) == if Affects(gs[i], id, p) then g.offsets[p := s] else g.offsets;
  }

  /** The member owns the partition; no member stands for all of them. */
  ghost predicate OwnedBy(g: Group, id: Name, p: nat)
    requires p < |g.owner|
  {
    id.text == "" || (0 <= g.owner[p] < |g.members| && g.members[g.owner[p]].id == id)
  }

  /** A partition that the member owns is already past `s`. */
  ghost predicate Lowers(g: Group, id: Name, s: int) {
    |g.owner| == |g.offsets| && exists p :: 0 <= p < |g.offsets| && OwnedBy(g, id, p) && s < g.offsets[p]
  }

  lemma {:induction false} FindMemberDistinct(ms: seq<Member>, i: nat)
    requires DistinctIds(ms) && i < |ms|
    ensures FindMember(ms, ms[i].id) == i
  {
    if i < |ms| - 1 {
      FindMemberDistinct(ms[..|ms| - 1], i);
    }
  }

  /** A commit for a member that is there affects exactly the partitions it owns. */
  lemma AffectsOwned(g: Group, id: Name, p: nat)
    requires GroupOk(g) && p < |g.offsets| && (id.text == "" || FindMember(g.members, id) >= 0)
    ensures Affects(g, id, p) <==> OwnedBy(g, id, p)
  {
    if OwnedBy(g, id, p) && id.text != "" {
      FindMemberDistinct(g.members, g.owner[p]);
    }
  }

  lemma AffectsAllOwned(gs: seq<Group>, i: nat, id: Name, s: int)
    requires GroupsOk(gs) && i < |gs| && (id.text == "" || FindMember(gs[i].members, id) >= 0)
    ensures |gs[i].owner| == |gs[i].offsets|
    ensures forall p :: 0 <= p < |gs[i].offsets| ==> (Affects(gs[i], id, p) <==> OwnedBy(gs[i], id, p))
    ensures MayRise(gs[i], id, s) <==> !Lowers(gs[i], id, s)
  {
    var g := gs[i];
    forall p | 0 <= p < |g.offsets| ensures Affects(g, id, p) <==> OwnedBy(g, id, p) {
      AffectsOwned(g, id, p);
    }
    hide Affects, OwnedBy, GroupOk;
  }

  /** `hs` is `gs` with the offsets of the first `k` partitions that `id` owns in group `i` at `s`. */
  ghost predicate Raised(gs: seq<Group>, hs: seq<Group>, i: nat, id: Name, s: int, k: nat) {
    && i < |gs| && |hs| == |gs| && |gs[i].owner| == |gs[i].offsets| == |hs[i].offsets|
    && hs == gs[i := gs[i].(offsets := hs[i].offsets)]
    && forall p :: 0 <= p < |gs[i].offsets| ==>
         hs[i].offsets[p] == if p < k && OwnedBy(gs[i], id, p) then s else gs[i].offsets[p]
  }

  lemma PartlyIsRaised(gs: seq<Group>, i: nat, id: Name, s: int, k: nat)
    requires GroupsOk(gs) && i < |gs| && (id.text == "" || FindMember(gs[i].members, id) >= 0) && k <= |gs[i].offsets|
    ensures Raised(gs, Partly(gs, i, id, s, k), i, id, s, k)
  {
    hide Affects, OwnedBy, GroupOk, Committed;
    AffectsAllOwned(gs, i, id, s);
  }

  /** The check before a commit: no affected offset is above `s`. */
  method CheckRise(g: Group, id: Name, s: int) returns (ok: bool)
    ensures ok <==> MayRise(g, id, s)
  {
    for p := 0 to |g.offsets|
      invariant forall q :: 0 <= q < p && Affects(g, id, q) ==> s >= g.offsets[q]
    {
      if Affects(g, id, p) && s < g.offsets[p] {
        return false;
      }
    }
    return true;
  }

  class Service {
    var groups: seq<Group>
    var log: seq<Rec>

    /** Memory is the replay of the log, position by position. */
    ghost predicate Valid()
      reads this
    {
      groups == Replay(log) && Ascending(log)
    }

    constructor ()
      ensures Valid() && groups == [] && log == []
    {
      groups, log := [], [];
    }

    /** Open on an existing log; any log is accepted. */
    constructor Open(log: seq<Rec>)
      ensures this.log == log && groups == Replay(log) && GroupsOk(groups)
    {
      this.log := log;
      groups := [];
      new;
      for k := 0 to |log|
        invariant groups == Replay(log[..k]) && this.log == log
      {
        assert log[..k + 1][..k] == log[..k];
        groups := Apply(groups, log[k]);
      }
      assert log[..|log|] == log;
      ReplayOk(log);
    }

    /** Append a record; memory is brought up to it by the caller. */
    method Log(r: Rec)
      requires Valid() && Rises(groups, r)
      modifies this`log
      ensures log == old(log) + [r] && Ascending(log) && Replay(log) == Apply(groups, r)
    {
      hide Rises, Apply;
      AscendingSnoc(log, r);
      ReplaySnoc(log, r);
      log := log + [r];
    }

    /** Append a record and apply it as replay does. */
    method Write(r: Rec)
      requires Valid() && Rises(groups, r)
      modifies this
      ensures Valid() && log == old(log) + [r] && groups == Apply(old(groups), r)
    {
      hide Rises, Apply;
      Log(r);
      groups := Apply(groups, r);
    }

    method CreateConsumerGroup(name: Name, topic: Name, now: int) returns (rc: Status)
      requires Valid()
      modifies this
      ensures Valid()
      ensures rc == if name.text == "" || topic.text == "" then Inval
                    else if |name.text| >= 64 || |topic.text| >= 64 then Inval
                    else if FindGroup(old(groups), name) >= 0 then Exists
                    else if |old(groups)| >= 64 then Full else Ok
      ensures groups == if rc == Ok then old(groups) + [NewGroup(name, topic, 4, now)] else old(groups)
    {
      if name.text == "" || topic.text == "" || |name.text| >= NAME_MAX || |topic.text| >= NAME_MAX {
        return Inval;
      }
      if FindGroup(groups, name) >= 0 {
        return Exists;
      }
      if |groups| >= MAX_GROUPS {
        return Full;
      }
      var g := Rebalance(Group(name, topic, now, [], [], seq(NPARTITIONS, _ => 0)));
      Log(CreateGroup(g.name, g.topic, |g.offsets|, g.createdAt));
      groups := groups + [g];
      return Ok;
    }

    method DropConsumerGroup(name: Name) returns (rc: Status)
      requires Valid()
      modifies this
      ensures Valid()
      ensures rc == if FindGroup(old(groups), name) >= 0 then Ok else NotFound
      ensures rc == Ok ==> groups == SwapRemove(old(groups), FindGroup(old(groups), name))
      ensures rc == Ok ==> forall g :: g in groups <==> g in old(groups) && g.name != name
      ensures rc != Ok ==> groups == old(groups)
    {
      var i := FindGroup(groups, name);
      if i < 0 {
        return NotFound;
      }
      ReplayOk(log);
      RemovedElements(groups, i);
      Write(DropGroup(name));
      return Ok;
    }

    method Join(group: Name, id: Name, now: int) returns (rc: Status)
      requires Valid()
      modifies this
      ensures Valid()
      ensures var i := FindGroup(old(groups), group);
              && (rc == if id.text == "" || |id.text| >= 64 then Inval
                        else if i < 0 then NotFound
                        else if FindMember(old(groups)[i].members, id) >= 0 then Exists
                        else if |old(groups)[i].members| >= 64 then Full else Ok)
              && (groups == if rc == Ok then old(groups)[i := Joined(old(groups)[i], Member(id, now))] else old(groups))
    {
      if id.text == "" || |id.text| >= NAME_MAX {
        return Inval;
      }
      var i := FindGroup(groups, group);
      if i < 0 {
        return NotFound;
      }
      if FindMember(groups[i].members, id) >= 0 {
        return Exists;
      }
      if |groups[i].members| >= MAX_MEMBERS {
        return Full;
      }
      Write(AddMember(group, id, now));
      return Ok;
    }

    method Leave(group: Name, id: Name) returns (rc: Status)
      requires Valid()
      modifies this
      ensures Valid()
      ensures var i := FindGroup(old(groups), group);
              && (rc == if i >= 0 && FindMember(old(groups)[i].members, id) >= 0 then Ok else NotFound)
              && (rc != Ok ==> groups == old(groups))
              && (rc == Ok ==> groups == old(groups)[i := Left(old(groups)[i], FindMember(old(groups)[i].members, id))])
    {
      var i := FindGroup(groups, group);
      if i < 0 || FindMember(groups[i].members, id) < 0 {
        return NotFound;
      }
      Write(DropMember(group, id));
      return Ok;
    }

    method WriteOffsets(group: Name, i: nat, id: Name, s: int, room: nat) returns (rc: Status, ghost k: nat)
      requires Valid() && i < |groups| && FindGroup(groups, group) == i
      requires GroupOk(groups[i]) && MayRise(groups[i], id, s)
      modifies this
      ensures Valid() && k <= |old(groups)[i].offsets| && groups == Partly(old(groups), i, id, s, k)
      ensures old(log) <= log && |log| <= |old(log)| + room
      ensures rc == if k == |old(groups)[i].offsets| then Ok else Io
      ensures rc == Io ==> |log| == |old(log)| + room
    {
      hide Apply, Rises, FindGroup, GroupOk, MayRise, Partly, Ascending;
      ghost var gs := groups;
      var g := groups[i];
      CommitStarts(gs, i, id, s);
      var p := 0;
      var used := 0;
      while p < |g.offsets|
        invariant Valid() && p <= |g.offsets| && |groups| == |gs| && groups == Partly(gs, i, id, s, p)
        invariant old(log) <= log && |log| == |old(log)| + used && used <= room
      {
        CommitStep(gs, i, group, id, s, p);
        if Affects(g, id, p) {
          if used == room {
            return Io, p;
          }
          Log(Offset(group, p, s));
          used := used + 1;
          groups := groups[i := groups[i].(offsets := groups[i].offsets[p := s])];
        }
        p := p + 1;
      }
      return Ok, p;
    }

    /** Commit for the partitions a member owns, or for all when no member is named.  Nothing
        changes unless every affected offset may rise to `s`.  The log takes `room` more records:
        a commit cut short has raised the offsets of the first `k` partitions, in log and memory. */
    method Commit(group: Name, id: Name, s: int, room: nat) returns (rc: Status, ghost k: nat)
      requires Valid()
      modifies this
      ensures Valid()
      ensures var i := FindGroup(old(groups), group);
              && (i < 0 || (id.text != "" && FindMember(old(groups)[i].members, id) < 0) <==> rc == NotFound)
              && (rc != NotFound ==> (MayRise(old(groups)[i], id, s) <==> rc != Inval) && k <= |old(groups)[i].offsets|)
              && (rc == NotFound || rc == Inval ==> groups == old(groups) && log == old(log))
              && (rc == Ok || rc == Io ==> groups == Partly(old(groups), i, id, s, k))
              && (rc == Ok || rc == Io ==> Raised(old(groups), groups, i, id, s, k))
              && (rc == Inval <==> rc != NotFound && Lowers(old(groups)[i], id, s))
              && (rc == Ok ==> k == |old(groups)[i].offsets|)
              && (rc == Io ==> |log| == |old(log)| + room && k < |old(groups)[i].offsets|)
      ensures rc in {Ok, Inval, NotFound, Io} && old(log) <= log && |log| <= |old(log)| + room
    {
      k := 0;
      var i := FindGroup(groups, group);
      if i < 0 || (id.text != "" && FindMember(groups[i].members, id) < 0) {
        return NotFound, 0;
      }
      hide Committed, Ascending, MayRise, Partly, Raised, Lowers, FindMember;
      ReplayOk(log);
      AffectsAllOwned(groups, i, id, s);
      var ok := CheckRise(groups[i], id, s);
      if !ok {
        return Inval, 0;
      }
      rc, k := WriteOffsets(group, i, id, s, room);
      PartlyIsRaised(old(groups), i, id, s, k);
    }
  }
}
