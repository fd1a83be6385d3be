/**
 Groups and devices of the v1 catalog (src/catalog/catalog.c:735-862, 1192-1435): two
 logs, written interleaved and replayed one after the other.  Groups are a log of
 NameLog; the device log also carries last-seen updates, and a group drop writes a
 tombstone for each of its devices before its own.
 */
module GroupDevices {
  import opened Basics
  import opened BucketLog
  import opened NameLog
  import P = Probing
  import T = V1Table

  datatype Status = Ok | Inval | Exists | NotFound

  datatype Group = Group(name: Name, region: Name, retention: int, codec: Name, replicas: int,
                         tags: Name, createdAt: int, database: Name)

  datatype Device = Device(group: Name, id: Name, typ: Name, location: Name, tags: Name,
                           firstSeen: int, lastSeen: int, status: int)

  datatype DeviceRec = Add(d: Device) | Remove(group: Name, id: Name) | Touch(group: Name, id: Name, ts: int)

  /** The devices of each group that has an index entry. */
  type Index = map<Name, map<Name, Device>>

  /** What a caller sees of a group: a missing entry looks like an empty one. */
  function At(ix: Index, g: Name): map<Name, Device> {
    if g in ix then ix[g] else map[]
  }

  ghost predicate Same(ix: Index, jx: Index) {
    forall g :: At(ix, g) == At(jx, g)
  }

  function ApplyDevice(ix: Index, r: DeviceRec): Index {
    match r
    case Add(d) => ix[d.group := At(ix, d.group)[d.id := d]]
    case Remove(g, id) => if g in ix then ix[g := ix[g] - {id}] else ix
    case Touch(g, id, ts) =>
      if g in ix && id in ix[g] then ix[g := ix[g][id := ix[g][id].(lastSeen := ts)]] else ix
  }

  function ReplayDevices(ix: Index, log: seq<DeviceRec>): Index {
    if log == [] then ix else ApplyDevice(ReplayDevices(ix, log[..|log| - 1]), log[|log| - 1])
  }

  /** What replaying the group log does to the device index. */
  function ApplyEntry(ix: Index, r: Rec<Group>): Index {
    match r
    case Put(n, _) => ix[n := At(ix, n)]
    case Drop(n) => ix - {n}
  }

  lemma DevicesSnoc(ix: Index, log: seq<DeviceRec>, r: DeviceRec)
    ensures ReplayDevices(ix, log + [r]) == ApplyDevice(ReplayDevices(ix, log), r)
  {
    assert (log + [r])[..|log|] == log;
  }

  /** What an operation does to the devices of one group. */
  lemma ApplyAt(ix: Index, r: DeviceRec, g: Name)
    ensures At(ApplyDevice(ix, r), g) ==
            match r
            case Add(d) => if g == d.group then At(ix, g)[d.id := d] else At(ix, g)
            case Remove(h, id) => if g == h then At(ix, g) - {id} else At(ix, g)
            case Touch(h, id, ts) =>
              if g == h && id in At(ix, g) then At(ix, g)[id := At(ix, g)[id].(lastSeen := ts)] else At(ix, g)
  {
    var none: map<Name, Device> := map[];
    assert forall id :: none - {id} == none;
  }

  lemma SameApply(ix: Index, jx: Index, r: DeviceRec)
    requires Same(ix, jx)
    ensures Same(ApplyDevice(ix, r), ApplyDevice(jx, r))
  {
    forall g ensures At(ApplyDevice(ix, r), g) == At(ApplyDevice(jx, r), g) {
      ApplyAt(ix, r, g);
      ApplyAt(jx, r, g);
    }
  }

  /** Device replay does not depend on which empty entries the group replay left. */
  lemma {:induction false} SameReplay(ix: Index, jx: Index, log: seq<DeviceRec>)
    requires Same(ix, jx)
    ensures Same(ReplayDevices(ix, log), ReplayDevices(jx, log))
  {
    if log != [] {
      SameReplay(ix, jx, log[..|log| - 1]);
      SameApply(ReplayDevices(ix, log[..|log| - 1]), ReplayDevices(jx, log[..|log| - 1]), log[|log| - 1]);
    }
  }

  lemma GoneAt(ix: Index, g: Name)
    ensures forall h :: At(ix - {g}, h) == if h == g then map[] else At(ix, h)
  {
  }

  lemma EntrySame(ix: Index, r: Rec<Group>)
    requires r.Drop? ==> At(ix, r.name) == map[]
    ensures Same(ApplyEntry(ix, r), ix)
  {
    if r.Drop? {
      GoneAt(ix, r.name);
    }
  }

  // ---------------------------------------------------------------------
  // One log after the other

  /** A line written to one of the two logs. */
  datatype Line = OfGroups(g: Rec<Group>) | OfDevices(d: DeviceRec)

  /** Apply lines in the order they were written, whichever log they went to. */
  function Interleaved(lines: seq<Line>): (map<Name, Group>, Index) {
    if lines == [] then (map[], map[])
    else
      var (groups, ix) := Interleaved(lines[..|lines| - 1]);
      match lines[|lines| - 1]
      case OfGroups(r) => (Apply(groups, r), ApplyEntry(ix, r))
      case OfDevices(r) => (groups, ApplyDevice(ix, r))
  }

  function GroupLines(lines: seq<Line>): seq<Rec<Group>> {
    if lines == [] then []
    else
      var rest, last := GroupLines(lines[..|lines| - 1]), lines[|lines| - 1];
      if last.OfGroups? then rest + [last.g] else rest
  }

  function DeviceLines(lines: seq<Line>): seq<DeviceRec> {
    if lines == [] then []
    else
      var rest, last := DeviceLines(lines[..|lines| - 1]), lines[|lines| - 1];
      if last.OfDevices? then rest + [last.d] else rest
  }

  /** Every group drop was preceded by the tombstones of the group's devices. */
  ghost predicate Tombstoned(lines: seq<Line>) {
    lines != [] ==>
      && Tombstoned(lines[..|lines| - 1])
      && var last := lines[|lines| - 1];
         last.OfGroups? && last.g.Drop? ==> At(Interleaved(lines[..|lines| - 1]).1, last.g.name) == map[]
  }

  /** Replaying all group lines and then all device lines shows what the interleaved execution
      showed: drops, re-created groups and last-seen updates included. */
  lemma {:induction false} SplitReplay(lines: seq<Line>)
    requires Tombstoned(lines)
    ensures Interleaved(lines).0 == Replay(GroupLines(lines))
    ensures Same(Interleaved(lines).1, ReplayDevices(map[], DeviceLines(lines)))
  {
    if lines != [] {
      var init, last := lines[..|lines| - 1], lines[|lines| - 1];
      SplitReplay(init);
      var ix := Interleaved(init).1;
      match last
      case OfGroups(r) =>
        ReplaySnoc(GroupLines(init), r);
        EntrySame(ix, r);
      case OfDevices(r) =>
        DevicesSnoc(map[], DeviceLines(init), r);
        SameApply(ix, ReplayDevices(map[], DeviceLines(init)), r);
    }
  }

  /** Without its device tombstones a dropped group's device comes back when the group does. */
  lemma UntombstonedDeviceReturns(g: Group, d: Device)
    requires d.group == g.name
    ensures var lines := [OfGroups(Put(g.name, g)), OfDevices(Add(d)), OfGroups(Drop(g.name)),
                          OfGroups(Put(g.name, g))];
            && At(Interleaved(lines).1, g.name) == map[]
            && d.id in At(ReplayDevices(map[], DeviceLines(lines)), g.name)
  {
    var l1 := [OfGroups(Put(g.name, g))];
    var l2 := l1 + [OfDevices(Add(d))];
    var l3 := l2 + [OfGroups(Drop(g.name))];
    var l4 := l3 + [OfGroups(Put(g.name, g))];
    assert l4[..3] == l3 && l3[..2] == l2 && l2[..1] == l1 && l1[..0] == [];
    assert DeviceLines(l1) == DeviceLines([]) == [];
    assert DeviceLines(l4) == DeviceLines(l3) == DeviceLines(l2) == [] + [Add(d)];
    DevicesSnoc(map[], [], Add(d));
    assert [] + [Add(d)] == [Add(d)];
    assert l4 == [OfGroups(Put(g.name, g)), OfDevices(Add(d)), OfGroups(Drop(g.name)), OfGroups(Put(g.name, g))];
  }

  // ---------------------------------------------------------------------
  // What holds between calls

  ghost predicate KeyedAt(g: Name, ds: map<Name, Device>) {
    forall i :: i in ds ==> ds[i].group == g && ds[i].id == i
  }

  /** Every device is filed under its own group and id. */
  ghost predicate Keyed(ix: Index) {
    forall g :: KeyedAt(g, At(ix, g))
  }

  /** A device is seen only in a live group. */
  ghost predicate Housed(groups: map<Name, Group>, ix: Index) {
    forall g :: g !in groups ==> At(ix, g) == map[]
  }

  /** Replaying the device log alone gives what is seen in memory. */
  ghost predicate DevicesOk(ix: Index, log: seq<DeviceRec>) {
    Same(ReplayDevices(map[], log), ix)
  }

  lemma DevicesStep(ix: Index, log: seq<DeviceRec>, r: DeviceRec)
    requires DevicesOk(ix, log)
    ensures DevicesOk(ApplyDevice(ix, r), log + [r])
  {
    DevicesSnoc(map[], log, r);
    SameApply(ReplayDevices(map[], log), ix, r);
  }

  lemma SameDevicesOk(ix: Index, jx: Index, log: seq<DeviceRec>)
    requires DevicesOk(ix, log) && Same(ix, jx)
    ensures DevicesOk(jx, log)
  {
  }

  /** An index that shows the same devices is as good. */
  lemma SameKeeps(ix: Index, jx: Index, groups: map<Name, Group>, log: seq<DeviceRec>)
    requires Same(ix, jx) && DevicesOk(ix, log) && Keyed(ix) && Housed(groups, ix)
    ensures DevicesOk(jx, log) && Keyed(jx) && Housed(groups, jx)
  {
    forall g ensures At(jx, g) == At(ix, g) && KeyedAt(g, At(jx, g)) {
      assert At(ix, g) == At(jx, g);
      assert KeyedAt(g, At(ix, g));
    }
  }

  lemma ApplyKeepsKeys(groups: map<Name, Group>, ix: Index, r: DeviceRec)
    requires Keyed(ix) && Housed(groups, ix) && (r.Add? ==> r.d.group in groups)
    ensures Keyed(ApplyDevice(ix, r)) && Housed(groups, ApplyDevice(ix, r))
  {
    var none: map<Name, Device> := map[];
    assert forall id :: none - {id} == none;
    forall g ensures KeyedAt(g, At(ApplyDevice(ix, r), g)) && (g !in groups ==> At(ApplyDevice(ix, r), g) == map[]) {
      ApplyAt(ix, r, g);
      assert KeyedAt(g, At(ix, g));
    }
  }

  function Stamped(g: Group, now: int): Group {
    g.(createdAt := if g.createdAt == 0 then now else g.createdAt,
       replicas := if g.replicas <= 0 then 3 else g.replicas)
  }

  function Seen(d: Device, now: int): Device {
    d.(firstSeen := if d.firstSeen == 0 then now else d.firstSeen,
       lastSeen := if d.lastSeen == 0 then now else d.lastSeen)
  }

  function Removes(g: Name, ids: seq<Name>): seq<DeviceRec> {
    if ids == [] then [] else Removes(g, ids[..|ids| - 1]) + [Remove(g, ids[|ids| - 1])]
  }

  /** The index with some devices of one group gone. */
  function Without(ix: Index, g: Name, ids: seq<Name>): Index {
    if ids == [] then ix else ApplyDevice(Without(ix, g, ids[..|ids| - 1]), Remove(g, ids[|ids| - 1]))
  }

  lemma WithoutStep(ix: Index, g: Name, ids: seq<Name>, id: Name)
    ensures Without(ix, g, ids + [id]) == ApplyDevice(Without(ix, g, ids), Remove(g, id))
    ensures Removes(g, ids + [id]) == Removes(g, ids) + [Remove(g, id)]
  {
    assert (ids + [id])[..|ids|] == ids;
  }

  lemma {:induction false} WithoutAt(ix: Index, g: Name, ids: seq<Name>, h: Name)
    ensures At(Without(ix, g, ids), h) == if h == g then At(ix, g) - Names(ids) else At(ix, h)
  {
    if ids == [] {
      assert At(ix, g) - {} == At(ix, g);
    } else {
      var n := |ids| - 1;
      WithoutAt(ix, g, ids[..n], h);
      ApplyAt(Without(ix, g, ids[..n]), Remove(g, ids[n]), h);
    }
  }

  lemma {:induction false} NamesIn(ids: seq<Name>)
    ensures forall n :: n in Names(ids) <==> n in ids
  {
    if ids != [] {
      NamesIn(ids[..|ids| - 1]);
      assert ids == ids[..|ids| - 1] + [ids[|ids| - 1]];
    }
  }

  lemma WithoutAll(ix: Index, g: Name, ids: seq<Name>)
    requires Lists(At(ix, g), ids)
    ensures Same(Without(ix, g, ids), ix - {g})
  {
    GoneAt(ix, g);
    NamesIn(ids);
    assert At(ix, g) - Names(ids) == map[];
    forall h ensures At(Without(ix, g, ids), h) == At(ix - {g}, h) {
      WithoutAt(ix, g, ids, h);
    }
  }

  lemma {:induction false} NamesBefore(ids: seq<Name>, k: nat)
    requires NoRepeats(ids) && k < |ids|
    ensures ids[k] !in Names(ids[..k])
  {
    NoRepeatsAt(ids, k);
    NamesIn(ids[..k]);
  }

  lemma {:induction false} RemovesReplay(ix: Index, log: seq<DeviceRec>, g: Name, ids: seq<Name>)
    requires DevicesOk(ix, log)
    ensures DevicesOk(Without(ix, g, ids), log + Removes(g, ids))
  {
    if ids == [] {
      assert log + [] == log;
    } else {
      var init, id := ids[..|ids| - 1], ids[|ids| - 1];
      RemovesReplay(ix, log, g, init);
      DevicesStep(Without(ix, g, init), log + Removes(g, init), Remove(g, id));
      assert log + Removes(g, ids) == log + Removes(g, init) + [Remove(g, id)];
    }
  }

  /** A crash after `k` of the cascade's tombstones: the logs replay to a catalog in which every
      device is in a live group and only the devices logged so far are gone.  The group's own
      tombstone may follow exactly when all of them are written. */
  lemma CrashedGroupDrop(groups: map<Name, Group>, ix: Index, log: seq<DeviceRec>, name: Name, ids: seq<Name>, k: nat)
    requires DevicesOk(ix, log) && Keyed(ix) && Housed(groups, ix) && Lists(At(ix, name), ids) && k <= |ids|
    ensures var shown := ReplayDevices(map[], log + Removes(name, ids[..k]));
            && Keyed(shown) && Housed(groups, shown)
            && At(shown, name) == At(ix, name) - Names(ids[..k])
            && (forall g :: g != name ==> At(shown, g) == At(ix, g))
            && (Housed(groups - {name}, shown) <==> k == |ids|)
  {
    var part, done := Without(ix, name, ids[..k]), Names(ids[..k]);
    var shown := ReplayDevices(map[], log + Removes(name, ids[..k]));
    RemovesReplay(ix, log, name, ids[..k]);
    forall g
      ensures At(shown, g) == (if g == name then At(ix, name) - done else At(ix, g)) && KeyedAt(g, At(shown, g))
    {
      assert At(shown, g) == At(part, g);
      WithoutAt(ix, name, ids[..k], g);
      assert KeyedAt(g, At(ix, g));
    }
    if k == |ids| {
      assert ids[..k] == ids;
      NamesIn(ids);
    } else {
      NamesBefore(ids, k);
      assert ids[k] in At(shown, name);
    }
  }

  class Catalog {
    const groups: T.V1Table<Name, Group>
    var index: Index
    var groupLog: seq<Rec<Group>>
    var deviceLog: seq<DeviceRec>
    ghost var droppedGroups: set<Name>

    ghost predicate Valid()
      reads this, groups, groups.b
    {
      && groups.Valid()
      && LogOk(groups.Model(), groupLog, droppedGroups)
      && DevicesOk(index, deviceLog)
      && Keyed(index)
      && Housed(groups.Model(), index)
    }

    constructor (hash: (Name, nat) -> nat)
      ensures Valid() && fresh(groups) && fresh(groups.b) && groups.Model() == map[] && index == map[]
    {
      groups := new T.V1Table<Name, Group>(hash);
      index, groupLog, deviceLog, droppedGroups := map[], [], [], {};
    }

    /** Open on the logs of another catalog: first all of one log, then all of the other. */
    constructor Reopen(c: Catalog)
      requires c.Valid()
      ensures Valid() && fresh(groups) && fresh(groups.b)
      ensures groups.Model() == c.groups.Model() && Same(index, c.index)
      ensures groupLog == c.groupLog && deviceLog == c.deviceLog
    {
      groups := new T.V1Table<Name, Group>(c.groups.hash);
      groupLog, deviceLog, droppedGroups := c.groupLog, c.deviceLog, c.droppedGroups;
      index := map[];
      new;
      ReplayGroupLog();
      ghost var entries := index;
      ReplayDeviceLog();
      SameReplay(entries, map[], deviceLog);
    }

    method ReplayGroupLog()
      requires groups.Valid() && groups.Model() == map[] && index == map[]
      modifies this`index, groups, groups.b
      ensures groups.Valid() && (groups.b == old(groups.b) || fresh(groups.b))
      ensures groups.Model() == Replay(groupLog) && Same(index, map[])
    {
      for k := 0 to |groupLog|
        invariant groups.Valid() && (groups.b == old(groups.b) || fresh(groups.b))
        invariant groups.Model() == Replay(groupLog[..k]) && Same(index, map[])
      {
        assert groupLog[..k + 1][..k] == groupLog[..k];
        EntrySame(index, groupLog[k]);
        match groupLog[k] {
          case Put(n, g) =>
            groups.Put(n, g);
            index := index[n := At(index, n)];
          case Drop(n) =>
            var _, _ := groups.Delete(n);
            index := index - {n};
        }
      }
      assert groupLog[..|groupLog|] == groupLog;
    }

    method ReplayDeviceLog()
      modifies this`index
      ensures index == ReplayDevices(old(index), deviceLog)
    {
      for k := 0 to |deviceLog|
        invariant index == ReplayDevices(old(index), deviceLog[..k])
      {
        assert deviceLog[..k + 1][..k] == deviceLog[..k];
        index := ApplyDevice(index, deviceLog[k]);
      }
      assert deviceLog[..|deviceLog|] == deviceLog;
    }

    method GroupCreate(g: Group, now: int) returns (rc: Status)
      requires Valid()
      modifies this, groups, groups.b
      ensures Valid() && (groups.b == old(groups.b) || fresh(groups.b))
      ensures rc == if g.name.text == "" then Inval else if g.name in old(groups.Model()) then Exists else Ok
      ensures deviceLog == old(deviceLog) && Same(index, old(index))
      ensures rc != Ok ==> groups.Model() == old(groups.Model()) && groupLog == old(groupLog)
      ensures rc == Ok ==>
                var dup := g.(createdAt := if g.createdAt != 0 then g.createdAt else now,
                              replicas := if g.replicas >= 1 then g.replicas else 3);
                && groups.Model() == old(groups.Model())[g.name := dup] && At(index, g.name) == map[]
                && groupLog == old(groupLog) + [Put(g.name, dup)]
    {
      hide LogOk, P.Table, P.Contents, P.Count, DevicesOk, Keyed;
      if g.name.text == "" {
        return Inval;
      }
      var found := groups.Get(g.name);
      if found.Some? {
        return Exists;
      }
      var dup := Stamped(g, now);
      PutKeepsLogOk(groups.Model(), groupLog, droppedGroups, dup.name, dup);
      SameKeeps(index, index[dup.name := At(index, dup.name)], groups.Model()[dup.name := dup], deviceLog);
      groups.Put(dup.name, dup);
      index := index[dup.name := At(index, dup.name)];
      groupLog := groupLog + [Put(dup.name, dup)];
      return Ok;
    }

    /** One tombstone per device, in bucket order. */
    method LogRemoves(name: Name, devices: T.V1Table<Name, Device>) returns (ghost ids: seq<Name>)
      requires Valid() && devices.Valid() && devices.Model() == At(index, name)
      modifies this`deviceLog
      ensures Lists(At(index, name), ids) && deviceLog == old(deviceLog) + Removes(name, ids)
      ensures DevicesOk(index - {name}, deviceLog)
    {
      hide Listed, Lists, P.Contents, P.Mask, P.Distinct, P.Chained, P.Count, LogOk, DevicesOk, Keyed, Housed,
           ReplayDevices, Without;
      ghost var live := [];
      ids := [];
      ListedNone(devices.b[..]);
      for i := 0 to devices.b.Length
        invariant Listed(devices.b[..], i, ids, live)
        invariant deviceLog == old(deviceLog) + Removes(name, ids)
      {
        ListedStep(devices.b[..], i, ids, live);
        if devices.b[i].Entry? {
          WithoutStep(index, name, ids, devices.b[i].key);
          deviceLog := deviceLog + [Remove(name, devices.b[i].key)];
          live, ids := live + [Put(devices.b[i].key, devices.b[i].val)], ids + [devices.b[i].key];
        }
      }
      ListedAll(devices.b[..], ids, live);
      RemovesReplay(index, old(deviceLog), name, ids);
      WithoutAll(index, name, ids);
      SameDevicesOk(Without(index, name, ids), index - {name}, deviceLog);
    }

    /** Tombstones for the devices, scanning their bucket table `devices`, then one for the group. */
    method GroupDrop(name: Name, devices: T.V1Table<Name, Device>) returns (rc: Status, ghost ids: seq<Name>)
      requires Valid() && devices.Valid() && devices.Model() == At(index, name)
      modifies this, groups, groups.b
      ensures Valid() && groups.b == old(groups.b)
      ensures rc == if name in old(groups.Model()) then Ok else NotFound
      ensures groups.Model() == old(groups.Model()) - {name}
      ensures At(index, name) == map[] && forall g :: g != name ==> At(index, g) == At(old(index), g)
      ensures rc != Ok ==> groupLog == old(groupLog) && deviceLog == old(deviceLog)
      ensures rc == Ok ==> groupLog == old(groupLog) + [Drop(name)]
      ensures rc == Ok ==> Lists(At(old(index), name), ids) && deviceLog == old(deviceLog) + Removes(name, ids)
    {
      hide LogOk, P.Table, P.Contents, P.Count, DevicesOk, Lists;
      ids := [];
      var found := groups.Get(name);
      if found.None? {
        return NotFound, [];
      }
      ids := LogRemoves(name, devices);
      GoneAt(index, name);
      index := index - {name};
      DropKeepsLogOk(groups.Model(), groupLog, droppedGroups, name);
      groupLog, droppedGroups := groupLog + [Drop(name)], droppedGroups + {name};
      var _, _ := groups.Delete(name);
      rc := Ok;
    }

    /** Apply a device record in memory and to the log. */
    method Append(r: DeviceRec)
      requires Valid() && (r.Add? ==> r.d.group in groups.Model())
      modifies this`index, this`deviceLog
      ensures Valid() && index == ApplyDevice(old(index), r) && deviceLog == old(deviceLog) + [r]
    {
      hide ApplyDevice, DevicesOk, Keyed, Housed, LogOk, P.Table, P.Contents, P.Count;
      DevicesStep(index, deviceLog, r);
      ApplyKeepsKeys(groups.Model(), index, r);
      index, deviceLog := ApplyDevice(index, r), deviceLog + [r];
    }

    method DeviceCreate(d: Device, now: int) returns (rc: Status)
      requires Valid()
      modifies this
      ensures Valid() && groups.Model() == old(groups.Model()) && groupLog == old(groupLog)
      ensures rc == if d.group.text == "" || d.id.text == "" then Inval
                    else if d.group !in old(groups.Model()) then NotFound
                    else if d.id in At(old(index), d.group) then Exists else Ok
      ensures rc != Ok ==> Same(index, old(index))
      ensures rc == Ok ==>
                At(index, d.group) == At(old(index), d.group)[d.id :=
                  d.(firstSeen := if d.firstSeen != 0 then d.firstSeen else now,
                     lastSeen := if d.lastSeen != 0 then d.lastSeen else now)]
      ensures forall h :: h != d.group ==> At(index, h) == At(old(index), h)
    {
      if d.group.text == "" || d.id.text == "" {
        return Inval;
      }
      var found := groups.Get(d.group);
      if found.None? {
        return NotFound;
      }
      if d.id in At(index, d.group) {
        return Exists;
      }
      forall h { ApplyAt(index, Add(Seen(d, now)), h); }
      Append(Add(Seen(d, now)));
      return Ok;
    }

    method DeviceGet(g: Name, id: Name) returns (rc: Status, d: Device)
      ensures rc == if id in At(index, g) then Ok else NotFound
      ensures rc == Ok ==> d == At(index, g)[id]
    {
      if g in index && id in index[g] {
        return Ok, index[g][id];
      }
      return NotFound, Device(g, id, Name(""), Name(""), Name(""), 0, 0, 0);
    }

    method DeviceDrop(g: Name, id: Name) returns (rc: Status)
      requires Valid()
      modifies this
      ensures Valid() && groups.Model() == old(groups.Model()) && groupLog == old(groupLog)
      ensures rc == if id in At(old(index), g) then Ok else NotFound
      ensures At(index, g) == At(old(index), g) - {id}
      ensures forall h :: h != g ==> At(index, h) == At(old(index), h)
    {
      if id !in At(index, g) {
        return NotFound;
      }
      forall h { ApplyAt(index, Remove(g, id), h); }
      Append(Remove(g, id));
      return Ok;
    }

    method DeviceTouch(g: Name, id: Name, ts: int) returns (rc: Status)
      requires Valid()
      modifies this
      ensures Valid() && groups.Model() == old(groups.Model()) && groupLog == old(groupLog)
      ensures rc == if id in At(old(index), g) then Ok else NotFound
      ensures rc != Ok ==> Same(index, old(index))
      ensures rc == Ok ==> At(index, g) == At(old(index), g)[id := At(old(index), g)[id].(lastSeen := ts)]
      ensures forall h :: h != g ==> At(index, h) == At(old(index), h)
    {
      if id !in At(index, g) {
        return NotFound;
      }
      forall h { ApplyAt(index, Touch(g, id, ts), h); }
      Append(Touch(g, id, ts));
      return Ok;
    }

    /** Rewrite the group log from the table in its bucket order, keeping tombstones. */
    method CompactGroups()
      requires Valid()
      modifies this`groupLog
      ensures Valid()
      ensures forall n :: n !in groups.Model() ==> (HasDrop(groupLog, n) <==> HasDrop(old(groupLog), n))
      ensures exists order :: Lists(groups.Model(), order)
                              && groupLog == Compacted(groups.Model(), order, old(groupLog))
    {
      groupLog := Compact(groups, groupLog, droppedGroups);
    }
  }
}
