/** Persistence of snmpEngineBoots across restarts and crashes (section 2.2 of RFC 3414). */
module Boots {
  import opened Bytes
  import opened Usm

  const MAX_ENGINE_BOOTS := 0x7FFF_FFFF
  const MAX_ENGINE_ID_LEN := 32

  // ----- the stored record -----

  function Record(engineId: bytes, boots: u32): bytes
    requires |engineId| < TWO_32
  {
    ToBe(|engineId|, 4) + engineId + ToBe(boots, 4)
  }

  datatype Stored = Stored(engineId: bytes, boots: u32)

  /** `None` stands for a record the loader rejects. */
  function ParseRecord(data: bytes): Option<Stored>
  {
    if |data| < 4 then None else
    var length, rest := Be(data[..4]), data[4..];
    if length > MAX_ENGINE_ID_LEN || |rest| != length + 4 then None
    else
      assert Be(rest[length..]) < TWO_32 by { BeBound(rest[length..]); Pow256Values(); }
      Some(Stored(rest[..length], Be(rest[length..])))
  }

  /** Loading inverts saving exactly for engine IDs of at most 32 octets. */
  lemma RecordRoundTrip(engineId: bytes, boots: u32)
    requires |engineId| < TWO_32
    ensures ParseRecord(Record(engineId, boots)) ==
            if |engineId| <= MAX_ENGINE_ID_LEN then Some(Stored(engineId, boots)) else None
  {
    var data := Record(engineId, boots);
    Pow256Values();
    BeToBe(|engineId|, 4);
    BeToBe(boots, 4);
    assert data[..4] == ToBe(|engineId|, 4);
    var rest := data[4..];
    assert rest == engineId + ToBe(boots, 4);
    assert rest[..|engineId|] == engineId && rest[|engineId|..] == ToBe(boots, 4);
  }

  /** Four octets of length, the engine ID, four octets of boots, both numbers most significant octet first. */
  lemma RecordLayout(engineId: bytes, boots: u32)
    requires |engineId| < TWO_32
    ensures var record, n := Record(engineId, boots), |engineId|;
            |record| == n + 8 && Be(record[..4]) == n && record[4..4 + n] == engineId && Be(record[4 + n..]) == boots
  {
    Pow256Values();
    BeToBe(|engineId|, 4);
    BeToBe(boots, 4);
    var record, n := Record(engineId, boots), |engineId|;
    assert record[..4] == ToBe(n, 4) && record[4..4 + n] == engineId && record[4 + n..] == ToBe(boots, 4);
  }

  /** The loader accepts exactly the records of engine IDs of at most 32 octets. */
  lemma RecordAccepts(data: bytes)
    ensures ParseRecord(data).Some? <==> exists id, boots :: |id| <= 32 && data == Record(id, boots)
  {
    hide Record, ParseRecord;
    if ParseRecord(data).Some? {
      LoadedIsRecord(data);
    }
    forall id: bytes, boots: u32 | |id| <= 32 && data == Record(id, boots) ensures ParseRecord(data).Some? {
      RecordRoundTrip(id, boots);
    }
  }

  lemma LoadedIsRecord(data: bytes)
    requires ParseRecord(data).Some?
    ensures var s := ParseRecord(data).value;
            |s.engineId| <= 32 && data == Record(s.engineId, s.boots)
  {
    var s := ParseRecord(data).value;
    var n, tail := |s.engineId|, data[4..][|s.engineId|..];
    assert data == data[..4] + (s.engineId + tail);
    OctetsOfValue(data[..4]);
    OctetsOfValue(tail);
  }

  lemma OctetsOfValue(s: bytes)
    requires |s| == 4
    ensures ToBe(Be(s), 4) == s
  {
    BeBound(s);
    BeToBe(Be(s), 4);
    BeInjective(s, ToBe(Be(s), 4));
  }

  // ----- the file system -----

  /** A file loses nothing in a crash only once it is synced. */
  datatype File = File(content: bytes, synced: bool)

  /**
    * `path` and `tmp` are the directory entries as the running process sees them; `durable`
    * holds every entry for `path` that a crash may leave behind, the newest last.
    */
  datatype Disk = Disk(path: Option<File>, tmp: Option<File>, durable: seq<Option<File>>)

  /** The step at which a start is cut short, by an I/O error or by the process dying. */
  datatype Stop = AtLoad | AtCreate | AtWrite(written: nat) | AtSync | AtRename | AtOpenDir | AtSyncDir

  /** After a crash any durable entry may be found, unsynced contents torn, the temporary file arbitrary. */
  function Crash(d: Disk, pick: nat, torn: bytes, leftover: Option<File>): Disk
    requires pick < |d.durable|
  {
    var found := match d.durable[pick]
                 case None => None
                 case Some(file) => Some(if file.synced then file else File(torn, true));
    Disk(found, leftover, [found])
  }

  /** Temporary file, sync, rename, directory sync; stops where told to. */
  function Saved(d: Disk, engineId: bytes, boots: u32, stop: Option<Stop>): (Disk, bool)
  {
    if stop == Some(AtCreate) then (d, false)
    else if |engineId| >= TWO_32 then (d.(tmp := Some(File([], false))), false)
    else
      var record := Record(engineId, boots);
      if stop.Some? && stop.value.AtWrite? then
        var n := stop.value.written;
        (d.(tmp := Some(File(if n <= |record| then record[..n] else record, false))), false)
      else if stop == Some(AtSync) then (d.(tmp := Some(File(record, false))), false)
      else if stop == Some(AtRename) then (d.(tmp := Some(File(record, true))), false)
      else
        var entry := Some(File(record, true));
        if stop == Some(AtOpenDir) || stop == Some(AtSyncDir) then (Disk(entry, None, d.durable + [entry]), false)
        else (Disk(entry, None, [entry]), true)
  }

  datatype LoadOutcome = LoadError | Absent | Loaded(state: Stored)

  function LoadFrom(d: Disk, stop: Option<Stop>): LoadOutcome
  {
    if stop == Some(AtLoad) then LoadError
    else match d.path
         case None => Absent
         case Some(file) => match ParseRecord(file.content) case None => LoadError case Some(s) => Loaded(s)
  }

  datatype InitError = BootsAtCeiling | StoreError

  /** The counter a start would use: fresh, incremented, or reset for another engine ID. */
  function NextBoots(loaded: LoadOutcome, engineId: bytes): Result<u32, InitError>
  {
    match loaded
    case LoadError => Err(StoreError)
    case Absent => Ok(1)
    case Loaded(s) =>
      if s.engineId != engineId then Ok(1)
      else if s.boots >= MAX_ENGINE_BOOTS then Err(BootsAtCeiling)
      else Ok(s.boots + 1)
  }

  /** `initialise_engine_boots`: the disk afterwards and the value returned. */
  function Started(d: Disk, engineId: bytes, stop: Option<Stop>): (Disk, Result<u32, InitError>)
  {
    match NextBoots(LoadFrom(d, stop), engineId)
    case Err(e) => (d, Err(e))
    case Ok(boots) =>
      var (d', saved) := Saved(d, engineId, boots, stop);
      (d', if saved then Ok(boots) else Err(StoreError))
  }

  class FileEngineBootsStore {
    var disk: Disk

    constructor (disk: Disk)
      ensures this.disk == disk
    {
      this.disk := disk;
    }

    method Load(stop: Option<Stop>) returns (r: LoadOutcome)
      ensures r == LoadFrom(disk, stop)
    {
      if stop == Some(AtLoad) {
        return LoadError;
      }
      if disk.path.None? {
        return Absent;
      }
      var stored := ParseRecord(disk.path.value.content);
      r := if stored.Some? then Loaded(stored.value) else LoadError;
    }

    method Save(engineId: bytes, boots: u32, stop: Option<Stop>) returns (ok: bool)
      modifies this
      ensures (disk, ok) == Saved(old(disk), engineId, boots, stop)
    {
      if stop == Some(AtCreate) { return false; }
      disk := disk.(tmp := Some(File([], false)));
      if |engineId| >= TWO_32 { return false; }
      var content := ToBe(|engineId|, 4);
      content := content + engineId;
      content := content + ToBe(boots, 4);
      if stop.Some? && stop.value.AtWrite? {
        var written := stop.value.written;
        disk := disk.(tmp := Some(File(if written <= |content| then content[..written] else content, false)));
        return false;
      }
      disk := disk.(tmp := Some(File(content, false)));
      if stop == Some(AtSync) { return false; }
      disk := disk.(tmp := Some(disk.tmp.value.(synced := true)));
      if stop == Some(AtRename) { return false; }
      disk := Disk(disk.tmp, None, disk.durable + [disk.tmp]);
      if stop == Some(AtOpenDir) { return false; }
      if stop == Some(AtSyncDir) { return false; }
      disk := disk.(durable := [disk.path]);
      return true;
    }

    method InitialiseEngineBoots(engineId: bytes, stop: Option<Stop>) returns (r: Result<u32, InitError>)
      modifies this
      ensures (disk, r) == Started(old(disk), engineId, stop)
    {
      var stored := Load(stop);
      match stored {
        case LoadError => return Err(StoreError);
        case Absent =>
          var ok := Save(engineId, 1, stop);
          return if ok then Ok(1) else Err(StoreError);
        case Loaded(state) =>
          if state.engineId == engineId {
            if state.boots >= MAX_ENGINE_BOOTS {
              return Err(BootsAtCeiling);
            }
            var newBoots := state.boots + 1;
            var ok := Save(engineId, newBoots, stop);
            return if ok then Ok(newBoots) else Err(StoreError);
          }
          var ok := Save(engineId, 1, stop);
          return if ok then Ok(1) else Err(StoreError);
      }
    }
  }

  /**
    * An undisturbed start: over this engine's record it counts one up, exactly below 2^31 - 1; over no
    * record or another engine's it starts at 1; and what it returns is what the next start will find.
    */
  lemma UndisturbedStart(d: Disk, engineId: bytes, other: bytes, b: u32, synced: bool)
    requires |engineId| <= 32 && |other| <= 32 && other != engineId
    ensures d.path == Some(File(Record(engineId, b), synced)) ==>
              Started(d, engineId, None).1 == (if b < 0x7FFF_FFFF then Ok(b + 1) else Err(BootsAtCeiling))
    ensures d.path.None? || d.path == Some(File(Record(other, b), synced)) ==> Started(d, engineId, None).1 == Ok(1)
    ensures var (d', r) := Started(d, engineId, None);
            if r.Ok? then d'.path == Some(File(Record(engineId, r.value), true)) && d'.durable == [d'.path] else d' == d
  {
    hide Record, ParseRecord;
    RecordRoundTrip(engineId, b);
    RecordRoundTrip(other, b);
  }

  // ----- runs of starts and crashes -----

  datatype Action =
    | Start(engineId: bytes, stop: Option<Stop>)
    | PowerLoss(pick: nat, torn: bytes, leftover: Option<File>)

  /** A power loss that names no durable entry leaves the disk as it is. */
  function Act(d: Disk, a: Action): (Disk, Option<u32>)
  {
    match a
    case PowerLoss(pick, torn, leftover) => (if pick < |d.durable| then Crash(d, pick, torn, leftover) else d, None)
    case Start(engineId, stop) =>
      var (d', r) := Started(d, engineId, stop);
      (d', match r case Ok(v) => Some(v) case Err(_) => None)
  }

  /** The values returned Ok, in order. */
  function OkValues(d: Disk, actions: seq<Action>): seq<u32>
    decreases |actions|
  {
    if actions == [] then [] else
    var (d', r) := Act(d, actions[0]);
    (match r case Some(v) => [v] case None => []) + OkValues(d', actions[1..])
  }

  /** Every entry a crash may leave is a synced file or none, the visible entry among them. */
  predicate Sound(d: Disk)
  {
    && d.path in d.durable
    && forall i :: 0 <= i < |d.durable| ==> d.durable[i].Some? ==> d.durable[i].value.synced
  }

  /** Every entry a crash may leave holds at least `last` boots for this engine. */
  predicate AtLeast(d: Disk, engineId: bytes, last: nat)
  {
    |engineId| < TWO_32 &&
    forall i :: 0 <= i < |d.durable| ==> d.durable[i].Some? && HoldsAtLeast(d.durable[i].value.content, engineId, last)
  }

  predicate HoldsAtLeast(content: bytes, engineId: bytes, last: nat)
    requires |engineId| < TWO_32
  {
    exists b: u32 :: last <= b && content == Record(engineId, b)
  }

  predicate Inv(d: Disk, engineId: bytes, last: nat) { Sound(d) && (last > 0 ==> AtLeast(d, engineId, last)) }

  predicate SameEngine(actions: seq<Action>, engineId: bytes)
  {
    forall i :: 0 <= i < |actions| ==> actions[i].Start? ==> actions[i].engineId == engineId
  }

  lemma CrashKeepsInv(d: Disk, engineId: bytes, last: nat, pick: nat, torn: bytes, leftover: Option<File>)
    requires Inv(d, engineId, last) && pick < |d.durable|
    ensures Inv(Crash(d, pick, torn, leftover), engineId, last)
  {}

  /** A start under the same engine ID either keeps the bound or returns a larger value and raises it. */
  lemma StartKeepsInv(d: Disk, engineId: bytes, last: nat, stop: Option<Stop>)
    requires Inv(d, engineId, last)
    ensures var (d', r) := Started(d, engineId, stop);
            (r.Err? ==> Inv(d', engineId, last)) &&
            (r.Ok? ==> last < r.value && 1 <= r.value <= MAX_ENGINE_BOOTS && Inv(d', engineId, r.value))
  {
    hide Record, ParseRecord;
    var boots := NextBoots(LoadFrom(d, stop), engineId);
    if boots.Ok? {
      if last > 0 {
        var i :| 0 <= i < |d.durable| && d.durable[i] == d.path;
        var content := d.path.value.content;
        assert HoldsAtLeast(content, engineId, last);
        var b: u32 :| last <= b && content == Record(engineId, b);
        RecordRoundTrip(engineId, b);
        assert boots.value == b + 1;
      }
      SaveKeepsInv(d, engineId, last, boots.value, stop);
    }
  }

  lemma SaveKeepsInv(d: Disk, engineId: bytes, last: nat, boots: u32, stop: Option<Stop>)
    requires Inv(d, engineId, last) && last < boots
    ensures var (d', saved) := Saved(d, engineId, boots, stop);
            Inv(d', engineId, last) && (saved ==> Inv(d', engineId, boots))
  {
    hide Record;
    var (d', saved) := Saved(d, engineId, boots, stop);
    if |engineId| < TWO_32 {
      var record := Record(engineId, boots);
      assert HoldsAtLeast(record, engineId, last) && HoldsAtLeast(record, engineId, boots);
    }
  }

  lemma {:induction false} OkValuesAbove(d: Disk, engineId: bytes, last: nat, actions: seq<Action>)
    requires Inv(d, engineId, last) && SameEngine(actions, engineId)
    ensures forall i :: 0 <= i < |OkValues(d, actions)| ==> last < OkValues(d, actions)[i] <= MAX_ENGINE_BOOTS
    ensures forall i, j :: 0 <= i < j < |OkValues(d, actions)| ==> OkValues(d, actions)[i] < OkValues(d, actions)[j]
    decreases |actions|
  {
    hide Started, Crash, Inv;
    if actions != [] {
      var (d', r) := Act(d, actions[0]);
      match actions[0] {
        case PowerLoss(pick, torn, leftover) =>
          if pick < |d.durable| { CrashKeepsInv(d, engineId, last, pick, torn, leftover); }
          assert Inv(d', engineId, last);
        case Start(id, stop) =>
          assert id == engineId;
          StartKeepsInv(d, engineId, last, stop);
          assert d' == Started(d, engineId, stop).0;
          assert r.None? ==> Inv(d', engineId, last);
          assert r.Some? ==> Inv(d', engineId, r.value);
      }
      var bound: nat := if r.Some? then r.value else last;
      OkValuesAbove(d', engineId, bound, actions[1..]);
    }
  }

  /**
    * From any sound disk, under one engine ID, whatever errors and crashes fall between the steps:
    * the values returned are strictly increasing and lie in 1 .. 2^31 - 1.
    */
  lemma BootsStrictlyIncrease(d: Disk, engineId: bytes, actions: seq<Action>)
    requires Sound(d) && SameEngine(actions, engineId)
    ensures var values := OkValues(d, actions);
            (forall i :: 0 <= i < |values| ==> 1 <= values[i] <= MAX_ENGINE_BOOTS) &&
            (forall i, j :: 0 <= i < j < |values| ==> values[i] < values[j])
  {
    OkValuesAbove(d, engineId, 0, actions);
  }

  function Starts(engineId: bytes, n: nat): (actions: seq<Action>)
    ensures |actions| == n && forall i :: 0 <= i < n ==> actions[i] == Start(engineId, None)
  {
    seq(n, i => Start(engineId, None))
  }

  lemma {:induction false} CountsOn(d: Disk, engineId: bytes, b: u32, n: nat)
    requires |engineId| <= 32 && b + n <= 0x7FFF_FFFF && d.path == Some(File(Record(engineId, b), true))
    ensures var values := OkValues(d, Starts(engineId, n));
            |values| == n && forall i :: 0 <= i < n ==> values[i] == b + 1 + i
    decreases n
  {
    hide Started, Record;
    if n > 0 {
      UndisturbedStart(d, engineId, OtherId(engineId), b, true);
      assert Starts(engineId, n)[1..] == Starts(engineId, n - 1);
      CountsOn(Started(d, engineId, None).0, engineId, b + 1, n - 1);
    }
  }

  /** Undisturbed starts from an empty disk return 1, 2, 3 and so on up to 2^31 - 1. */
  lemma CountsFromOne(engineId: bytes, n: nat)
    requires |engineId| <= 32 && n < 0x8000_0000
    ensures var values := OkValues(Disk(None, None, [None]), Starts(engineId, n));
            |values| == n && forall i :: 0 <= i < n ==> values[i] == i + 1
  {
    hide Started, Record;
    if n > 0 {
      var d := Disk(None, None, [None]);
      UndisturbedStart(d, engineId, OtherId(engineId), 0, true);
      assert Starts(engineId, n)[1..] == Starts(engineId, n - 1);
      CountsOn(Started(d, engineId, None).0, engineId, 1, n - 1);
    }
  }

  /** Some engine ID other than the given one. */
  function OtherId(engineId: bytes): (other: bytes)
    ensures other != engineId && |other| <= 1
  {
    if engineId == [] then [0] else []
  }

  function DiskAfter(d: Disk, actions: seq<Action>): Disk
    decreases |actions|
  {
    if actions == [] then d else DiskAfter(Act(d, actions[0]).0, actions[1..])
  }

  /** Whatever happened before, also under other engine IDs, the disk is sound again for the next start. */
  lemma {:induction false} SoundAlways(d: Disk, actions: seq<Action>)
    requires Sound(d)
    ensures Sound(DiskAfter(d, actions))
    decreases |actions|
  {
    if actions != [] {
      ActKeepsSound(d, actions[0]);
      SoundAlways(Act(d, actions[0]).0, actions[1..]);
    }
  }

  /** A file the loader rejects, or cannot read, fails the start and stays as it is. */
  lemma UnreadableRefuses(d: Disk, engineId: bytes, stop: Option<Stop>)
    requires stop == Some(AtLoad) || (d.path.Some? && ParseRecord(d.path.value.content).None?)
    ensures Started(d, engineId, stop) == (d, Err(StoreError))
  {}

  /** At the ceiling the start fails and the disk is untouched. */
  lemma CeilingRefuses(d: Disk, engineId: bytes, stop: Option<Stop>)
    requires LoadFrom(d, None).Loaded? && LoadFrom(d, None).state.engineId == engineId
    requires LoadFrom(d, None).state.boots >= MAX_ENGINE_BOOTS
    ensures Started(d, engineId, stop).0 == d && Started(d, engineId, stop).1.Err?
  {}

  // ----- several engine IDs -----

  /** A start that reached the rename: the record it made visible, and whether it went on to return Ok. */
  datatype Renamed = Renamed(engineId: bytes, boots: u32, ok: bool)

  /** Only the directory sync may still fail once the rename is done. */
  predicate PastRename(stop: Option<Stop>) { stop.None? || stop.value.AtOpenDir? || stop.value.AtSyncDir? }

  function RenamedBy(d: Disk, a: Action): Option<Renamed>
  {
    if a.PowerLoss? || !PastRename(a.stop) || |a.engineId| >= TWO_32 then None
    else match NextBoots(LoadFrom(d, a.stop), a.engineId)
         case Err(_) => None
         case Ok(boots) => Some(Renamed(a.engineId, boots, a.stop.None?))
  }

  /** The starts of a run that reached the rename, in order. */
  function Renames(d: Disk, actions: seq<Action>): seq<Renamed>
    decreases |actions|
  {
    if actions == [] then [] else
    var rest := Renames(Act(d, actions[0]).0, actions[1..]);
    match RenamedBy(d, actions[0]) case None => rest case Some(r) => [r] + rest
  }

  function OkOf(renames: seq<Renamed>): seq<u32>
  {
    if renames == [] then [] else (if renames[0].ok then [renames[0].boots] else []) + OkOf(renames[1..])
  }

  /** Without the rename a start changes nothing that is visible or durable under the final name. */
  lemma StartEffect(d: Disk, engineId: bytes, stop: Option<Stop>)
    ensures var (d', value) := Act(d, Start(engineId, stop));
            match RenamedBy(d, Start(engineId, stop))
            case None => value.None? && d'.path == d.path && d'.durable == d.durable
            case Some(r) =>
              r.engineId == engineId && value == (if r.ok then Some(r.boots) else None) &&
              d'.path == Some(File(Record(engineId, r.boots), true))
  {
    hide Record, ParseRecord;
  }

  /** The values returned Ok are those of the starts that reached the rename and did not fail after it. */
  lemma {:induction false} OkValuesAreRenames(d: Disk, actions: seq<Action>)
    ensures OkValues(d, actions) == OkOf(Renames(d, actions))
    decreases |actions|
  {
    hide Started, RenamedBy, Crash;
    if actions != [] {
      var a := actions[0];
      var d', r := Act(d, a).0, RenamedBy(d, a);
      OkValuesAreRenames(d', actions[1..]);
      if a.Start? { StartEffect(d, a.engineId, a.stop); } else { PowerLossRenamesNothing(d, a); }
      if r.Some? { assert ([r.value] + Renames(d', actions[1..]))[1..] == Renames(d', actions[1..]); }
    }
  }

  lemma PowerLossRenamesNothing(d: Disk, a: Action)
    requires a.PowerLoss?
    ensures RenamedBy(d, a).None?
  {}

  /** No engine ID comes back after another one got as far as the rename. */
  predicate Contiguous(renames: seq<Renamed>)
  {
    forall i, j, k :: 0 <= i < j < k < |renames| && renames[i].engineId == renames[k].engineId ==>
                        renames[j].engineId == renames[i].engineId
  }

  /** Under each engine ID the values made visible strictly increase. */
  predicate WrittenIncrease(renames: seq<Renamed>)
  {
    forall i, j :: 0 <= i < j < |renames| && renames[i].engineId == renames[j].engineId ==>
                     renames[i].boots < renames[j].boots
  }

  /** Under each engine ID the values returned Ok strictly increase. */
  predicate ReturnedIncrease(renames: seq<Renamed>)
  {
    forall i, j :: 0 <= i < j < |renames| && renames[i].ok && renames[j].ok ==>
                     renames[i].engineId == renames[j].engineId ==> renames[i].boots < renames[j].boots
  }

  /** Before its last start under `engineId` that reaches the rename, no other ID gets there. */
  predicate Uninterrupted(renames: seq<Renamed>, engineId: bytes)
  {
    forall j, k :: 0 <= j < k < |renames| && renames[k].engineId == engineId ==> renames[j].engineId == engineId
  }

  lemma ActKeepsInv(d: Disk, engineId: bytes, last: nat, a: Action)
    requires Inv(d, engineId, last)
    ensures var d' := Act(d, a).0;
            match RenamedBy(d, a)
            case None => Inv(d', engineId, last)
            case Some(r) => r.engineId == engineId ==> if r.ok then last < r.boots && Inv(d', engineId, r.boots)
                                                       else Inv(d', engineId, last)
  {
    hide Started, Crash, RenamedBy;
    match a {
      case PowerLoss(pick, torn, leftover) =>
        PowerLossRenamesNothing(d, a);
        if pick < |d.durable| { CrashKeepsInv(d, engineId, last, pick, torn, leftover); }
      case Start(id, stop) =>
        StartEffect(d, id, stop);
        if id == engineId {
          hide Inv;
          StartKeepsInv(d, engineId, last, stop);
          assert Act(d, a).0 == Started(d, engineId, stop).0;
        }
    }
  }

  lemma {:induction false} UninterruptedAbove(d: Disk, engineId: bytes, last: nat, actions: seq<Action>)
    requires Inv(d, engineId, last) && Uninterrupted(Renames(d, actions), engineId)
    ensures forall r :: r in Renames(d, actions) && r.engineId == engineId && r.ok ==> last < r.boots
    decreases |actions|
  {
    hide Act, RenamedBy, Inv;
    if actions != [] {
      var d', r := Act(d, actions[0]).0, RenamedBy(d, actions[0]);
      var rest, all := Renames(d', actions[1..]), Renames(d, actions);
      ActKeepsInv(d, engineId, last, actions[0]);
      if r.None? {
        UninterruptedAbove(d', engineId, last, actions[1..]);
      } else if r.value.engineId == engineId {
        assert all[1..] == rest;
        forall j, k | 0 <= j < k < |rest| && rest[k].engineId == engineId ensures rest[j].engineId == engineId {
          assert all[j + 1] == rest[j] && all[k + 1] == rest[k];
        }
        UninterruptedAbove(d', engineId, if r.value.ok then r.value.boots else last, actions[1..]);
      } else {
        forall k | 0 <= k < |all| ensures all[k].engineId != engineId { assert all[0] == r.value; }
      }
    }
  }

  /**
    * From any sound disk, over every run of starts, I/O errors and power losses: the values returned
    * Ok under one engine ID increase unless another ID reached the rename between two of its starts.
    */
  lemma {:induction false} ReturnedIncreaseIfContiguous(d: Disk, actions: seq<Action>)
    requires Sound(d) && Contiguous(Renames(d, actions))
    ensures ReturnedIncrease(Renames(d, actions))
    decreases |actions|
  {
    hide Act, RenamedBy, Inv;
    if actions != [] {
      var d', r := Act(d, actions[0]).0, RenamedBy(d, actions[0]);
      var rest, all := Renames(d', actions[1..]), Renames(d, actions);
      ActKeepsSound(d, actions[0]);
      if r.None? {
        ReturnedIncreaseIfContiguous(d', actions[1..]);
      } else {
        assert all == [r.value] + rest;
        ContiguousTail(r.value, rest);
        ReturnedIncreaseIfContiguous(d', actions[1..]);
        if r.value.ok {
          SoundIsInv(d, r.value.engineId);
          ActKeepsInv(d, r.value.engineId, 0, actions[0]);
          UninterruptedAbove(d', r.value.engineId, r.value.boots, actions[1..]);
        }
      }
    }
  }

  lemma SoundIsInv(d: Disk, engineId: bytes)
    ensures Inv(d, engineId, 0) <==> Sound(d)
  {}

  lemma ActKeepsSound(d: Disk, a: Action)
    requires Sound(d)
    ensures Sound(Act(d, a).0)
  {
    hide Started, Crash, Sound;
    match a {
      case PowerLoss(pick, torn, leftover) =>
        SoundIsInv(d, []);
        SoundIsInv(Act(d, a).0, []);
        if pick < |d.durable| { CrashKeepsInv(d, [], 0, pick, torn, leftover); }
      case Start(id, stop) =>
        StartKeepsInv(d, id, 0, stop);
        assert Act(d, a).0 == Started(d, id, stop).0;
    }
  }

  lemma ContiguousTail(r: Renamed, rest: seq<Renamed>)
    requires Contiguous([r] + rest)
    ensures Contiguous(rest) && Uninterrupted(rest, r.engineId)
  {
    var all := [r] + rest;
    assert all[1..] == rest && all[0] == r;
    forall i, j, k | 0 <= i < j < k < |rest| && rest[i].engineId == rest[k].engineId
      ensures rest[j].engineId == rest[i].engineId
    {
      assert all[i + 1] == rest[i] && all[j + 1] == rest[j] && all[k + 1] == rest[k];
    }
    forall j, k | 0 <= j < k < |rest| && rest[k].engineId == r.engineId ensures rest[j].engineId == r.engineId {
      assert all[0] == r && all[j + 1] == rest[j] && all[k + 1] == rest[k];
    }
  }

  // ----- runs without power loss -----

  predicate Powered(actions: seq<Action>) { forall i :: 0 <= i < |actions| ==> actions[i].Start? }

  predicate Follows(last: Renamed, r: Renamed)
  {
    r.boots == if r.engineId == last.engineId then last.boots + 1 else 1
  }

  /** Each value is one more than the one before it, or 1 when the engine ID changed. */
  predicate Counted(renames: seq<Renamed>)
  {
    && (forall i :: 0 <= i < |renames| ==> renames[i].boots >= 1)
    && (forall i :: 0 < i < |renames| ==> Follows(renames[i - 1], renames[i]))
  }

  /** The record the next start will find. */
  predicate Holds(d: Disk, r: Renamed)
  {
    |r.engineId| < TWO_32 && d.path == Some(File(Record(r.engineId, r.boots), true))
  }

  lemma NextFollows(d: Disk, last: Renamed, a: Action)
    requires Holds(d, last) && RenamedBy(d, a).Some?
    ensures Follows(last, RenamedBy(d, a).value)
  {
    hide Record, ParseRecord;
    RecordRoundTrip(last.engineId, last.boots);
  }

  lemma {:induction false} RenamesCounted(d: Disk, actions: seq<Action>, last: Option<Renamed>)
    requires Powered(actions) && (last.Some? ==> Holds(d, last.value))
    ensures Counted(Renames(d, actions))
    ensures last.Some? && Renames(d, actions) != [] ==> Follows(last.value, Renames(d, actions)[0])
    decreases |actions|
  {
    hide Act, Follows, Record, LoadFrom;
    if actions != [] {
      var a := actions[0];
      var d', r := Act(d, a).0, RenamedBy(d, a);
      StartEffect(d, a.engineId, a.stop);
      if r.Some? && last.Some? { NextFollows(d, last.value, a); }
      RenamesCounted(d', actions[1..], if r.Some? then r else last);
      if r.Some? { FollowedBy(r.value, Renames(d', actions[1..])); }
    }
  }

  lemma FollowedBy(r: Renamed, rest: seq<Renamed>)
    requires r.boots >= 1 && Counted(rest) && (rest != [] ==> Follows(r, rest[0]))
    ensures Counted([r] + rest)
  {
    hide Follows;
  }

  lemma {:induction false} CountedWithin(renames: seq<Renamed>, i: nat, j: nat)
    requires Counted(renames) && i <= j < |renames|
    requires forall k :: i <= k <= j ==> renames[k].engineId == renames[i].engineId
    ensures renames[j].boots == renames[i].boots + (j - i)
    decreases j - i
  {
    if i < j { CountedWithin(renames, i, j - 1); }
  }

  /** After a different ID, the first return of an earlier one starts at 1 again. */
  lemma {:induction false} FirstReturn(renames: seq<Renamed>, id: bytes, j: nat, k: nat) returns (p: nat)
    requires Counted(renames) && j < k < |renames| && renames[j].engineId != id && renames[k].engineId == id
    ensures j < p <= k && renames[p].engineId == id && renames[p].boots == 1
    decreases k - j
  {
    if renames[k - 1].engineId != id { p := k; } else { p := FirstReturn(renames, id, j, k - 1); }
  }

  /**
    * Without power loss, from any disk and whatever errors: the values written under each engine ID
    * increase exactly when no ID comes back after another one reached the rename, and so do the values
    * returned when no start fails after its rename.
    */
  lemma WrittenIncreaseIffContiguous(d: Disk, actions: seq<Action>)
    requires Powered(actions)
    ensures WrittenIncrease(Renames(d, actions)) <==> Contiguous(Renames(d, actions))
    ensures (forall r :: r in Renames(d, actions) ==> r.ok) ==>
              (ReturnedIncrease(Renames(d, actions)) <==> Contiguous(Renames(d, actions)))
  {
    AllReturned(Renames(d, actions));
    hide Renames, Counted, Contiguous, WrittenIncrease, ReturnedIncrease;
    RenamesCounted(d, actions, None);
    if Contiguous(Renames(d, actions)) {
      ContiguousIncrease(Renames(d, actions));
    } else {
      InterruptedRepeats(Renames(d, actions));
    }
  }

  lemma AllReturned(renames: seq<Renamed>)
    ensures (forall r :: r in renames ==> r.ok) ==> (ReturnedIncrease(renames) <==> WrittenIncrease(renames))
  {}

  lemma ContiguousIncrease(renames: seq<Renamed>)
    requires Counted(renames) && Contiguous(renames)
    ensures WrittenIncrease(renames)
  {
    forall i, j | 0 <= i < j < |renames| && renames[i].engineId == renames[j].engineId
      ensures renames[i].boots < renames[j].boots
    {
      CountedWithin(renames, i, j);
    }
  }

  lemma InterruptedRepeats(renames: seq<Renamed>)
    requires Counted(renames) && !Contiguous(renames)
    ensures !WrittenIncrease(renames)
  {
    var i, j, k :| 0 <= i < j < k < |renames| && renames[i].engineId == renames[k].engineId &&
                   renames[j].engineId != renames[i].engineId;
    var p := FirstReturn(renames, renames[i].engineId, j, k);
    assert renames[i].boots >= renames[p].boots;
  }

  /** An engine ID that comes back after another one restarts at 1. */
  lemma ReturningEngineIdRestarts(a: bytes, b: bytes)
    requires a != b && |a| <= MAX_ENGINE_ID_LEN && |b| <= MAX_ENGINE_ID_LEN
    ensures OkValues(Disk(None, None, [None]), [Start(a, None), Start(b, None), Start(a, None)]) == [1, 1, 1]
  {
    hide Record, ParseRecord;
    RecordRoundTrip(a, 1);
    RecordRoundTrip(b, 1);
    var first, second, third := Start(a, None), Start(b, None), Start(a, None);
    var d0 := Disk(None, None, [None]);
    var d1 := Act(d0, first).0;
    var d2 := Act(d1, second).0;
    assert [first, second, third][1..] == [second, third] && [second, third][1..] == [third] && [third][1..] == [];
    assert OkValues(d2, [third]) == [1];
    assert OkValues(d1, [second, third]) == [1, 1];
  }

  /** A power loss may take back the other ID's rename, so interrupted runs can increase all the same. */
  lemma LostRenameStillIncreases(a: bytes, b: bytes)
    requires a != b && |a| <= MAX_ENGINE_ID_LEN && |b| <= MAX_ENGINE_ID_LEN
    ensures var run := [Start(a, None), Start(b, Some(AtSyncDir)), PowerLoss(0, [], None), Start(a, None)];
            var renames := Renames(Disk(None, None, [None]), run);
            renames == [Renamed(a, 1, true), Renamed(b, 1, false), Renamed(a, 2, true)] &&
            ReturnedIncrease(renames) && !Contiguous(renames)
  {
    hide Record, ParseRecord;
    RecordRoundTrip(a, 1);
    RecordRoundTrip(b, 1);
    var first, second := Start(a, None), Start(b, Some(AtSyncDir));
    var third, fourth := PowerLoss(0, [], None), Start(a, None);
    var d0 := Disk(None, None, [None]);
    var d1 := Act(d0, first).0;
    var d2 := Act(d1, second).0;
    var d3 := Act(d2, third).0;
    assert d3.path == d1.path;
    assert Renames(d3, [fourth]) == [Renamed(a, 2, true)] by { assert [fourth][1..] == []; }
    assert Renames(d2, [third, fourth]) == [Renamed(a, 2, true)] by { assert [third, fourth][1..] == [fourth]; }
    assert Renames(d1, [second, third, fourth]) == [Renamed(b, 1, false), Renamed(a, 2, true)] by {
      assert [second, third, fourth][1..] == [third, fourth];
    }
    var run := [first, second, third, fourth];
    assert run[1..] == [second, third, fourth];
    var renames := Renames(d0, run);
    assert renames == [Renamed(a, 1, true), Renamed(b, 1, false), Renamed(a, 2, true)];
    assert renames[0].engineId == renames[2].engineId != renames[1].engineId;
  }

  // ----- the time window across restarts -----

  /**
    * A message that is timely in one boot epoch is outside the window in every later epoch of the
    * engine, at any engine time; within its epoch it is timely at most 150 seconds from its stamp.
    */
  lemma NoReplayAcrossRestarts(d: Disk, engineId: bytes, actions: seq<Action>, i: nat, j: nat,
                               msgBoots: i32, msgTime: i32, engineTime: u32, laterTime: u32)
    requires Sound(d) && SameEngine(actions, engineId)
    requires i < j < |OkValues(d, actions)|
    requires InTimeWindow(WireUnsigned(msgBoots), WireUnsigned(msgTime), OkValues(d, actions)[i], engineTime)
    ensures !InTimeWindow(WireUnsigned(msgBoots), WireUnsigned(msgTime), OkValues(d, actions)[j], laterTime)
    ensures InTimeWindow(WireUnsigned(msgBoots), WireUnsigned(msgTime), OkValues(d, actions)[i], laterTime) <==>
            -150 <= WireUnsigned(msgTime) as int - laterTime as int <= 150
  {
    BootsStrictlyIncrease(d, engineId, actions);
  }

  /** A synchronisation probe (boots 0) and a negative boots field are never timely. */
  lemma ProbeNeverTimely(d: Disk, engineId: bytes, actions: seq<Action>, i: nat,
                         msgBoots: i32, msgTime: i32, engineTime: u32)
    requires Sound(d) && SameEngine(actions, engineId) && i < |OkValues(d, actions)| && msgBoots <= 0
    ensures !InTimeWindow(WireUnsigned(msgBoots), WireUnsigned(msgTime), OkValues(d, actions)[i], engineTime)
  {
    BootsStrictlyIncrease(d, engineId, actions);
  }
}
