/** The document store the routes share, reduced to what the core uses:
    the device and session collections in insertion order, the log
    entries written so far, lookup by room, saving with the schema's
    validators and unique indexes, and the `active: false` update. */
module Store {
  import opened JsRuntime
  import opened Models

  datatype Level = Info | Warning | Error

  /** A log entry as lib/logger.ts hands it to the store. */
  datatype LogEntry = LogEntry(level: Level, message: string, sessionId: Option<string>,
                               ipAddress: Option<string>)

  /** How a save ends: stored, refused by a `required` validator, refused
      by a unique index (error code 11000), or failed in the store itself. */
  datatype SaveOutcome = Saved | ValidationFailed | DuplicateKey | StoreFailed

  predicate RoomTaken(devices: seq<Device>, room: string) {
    exists i :: 0 <= i < |devices| && devices[i].room == room
  }

  predicate IdTaken(sessions: seq<Session>, id: string) {
    exists i :: 0 <= i < |sessions| && sessions[i].id == id
  }

  predicate UniqueRooms(devices: seq<Device>) {
    forall i, j :: 0 <= i < j < |devices| ==> devices[i].room != devices[j].room
  }

  predicate UniqueIds(sessions: seq<Session>) {
    forall i, j :: 0 <= i < j < |sessions| ==> sessions[i].id != sessions[j].id
  }

  /** `Device.findOne({ room })`. */
  function FindDevice(devices: seq<Device>, room: string): (r: Option<Device>)
    ensures r.Some? <==> RoomTaken(devices, room)
    ensures r.Some? ==> r.value in devices && r.value.room == room
  {
    if devices == [] then None
    else if devices[0].room == room then Some(devices[0])
    else
      var r := FindDevice(devices[1..], room);
      assert RoomTaken(devices[1..], room) ==> RoomTaken(devices, room);
      assert RoomTaken(devices, room) ==> RoomTaken(devices[1..], room) by {
        if RoomTaken(devices, room) {
          var i :| 0 <= i < |devices| && devices[i].room == room;
          assert devices[1..][i - 1].room == room;
        }
      }
      r
  }

  /** With rooms unique, the device found is the only one with that room. */
  lemma FindDeviceUnique(devices: seq<Device>, room: string, d: Device)
    requires UniqueRooms(devices) && d in devices && d.room == room
    ensures FindDevice(devices, room) == Some(d)
  {
    var r := FindDevice(devices, room);
    var i :| 0 <= i < |devices| && devices[i] == r.value;
    var j :| 0 <= j < |devices| && devices[j] == d;
    assert i == j;
  }

  /** The order in which a save is checked: validators, then the unique
      index, then the store's own failure. */
  function DeviceSaveOutcome(devices: seq<Device>, d: Device, storeFails: bool): SaveOutcome {
    if !DeviceValid(d) then ValidationFailed
    else if RoomTaken(devices, d.room) then DuplicateKey
    else if storeFails then StoreFailed
    else Saved
  }

  function SessionSaveOutcome(sessions: seq<Session>, s: Session, storeFails: bool): SaveOutcome {
    if !SessionValid(s) then ValidationFailed
    else if IdTaken(sessions, s.id) then DuplicateKey
    else if storeFails then StoreFailed
    else Saved
  }

  /** `findByIdAndUpdate(id, { active: false })` applied to a collection:
      the session with that id becomes inactive, nothing else changes. */
  function Deactivated(sessions: seq<Session>, id: string): (r: seq<Session>)
    ensures |r| == |sessions|
    ensures forall i :: 0 <= i < |r| && sessions[i].id == id ==> r[i] == sessions[i].(active := false)
    ensures forall i :: 0 <= i < |r| && sessions[i].id != id ==> r[i] == sessions[i]
  {
    seq(|sessions|, i requires 0 <= i < |sessions| =>
      if sessions[i].id == id then sessions[i].(active := false) else sessions[i])
  }

  class Database {
    var devices: seq<Device>
    var sessions: seq<Session>
    var logs: seq<LogEntry>

    /** What the schemas and unique indexes guarantee of stored records. */
    predicate Valid()
      reads this
    {
      UniqueRooms(devices) && (forall d | d in devices :: DeviceStored(d))
      && UniqueIds(sessions) && (forall s | s in sessions :: SessionStored(s))
    }

    constructor()
      ensures Valid() && devices == [] && sessions == [] && logs == []
    {
      devices := [];
      sessions := [];
      logs := [];
    }

    /** `device.save()` for a record built by the schema (so already trimmed). */
    method SaveDevice(d: Device, storeFails: bool) returns (r: SaveOutcome)
      requires Valid()
      requires IsTrimmed(d.room) && IsTrimmed(d.deviceName) && IsTrimmed(d.ipAddress)
      modifies this
      ensures Valid()
      ensures r == DeviceSaveOutcome(old(devices), d, storeFails)
      ensures devices == (if r == Saved then old(devices) + [d] else old(devices))
      ensures sessions == old(sessions) && logs == old(logs)
    {
      r := DeviceSaveOutcome(devices, d, storeFails);
      if r == Saved {
        devices := devices + [d];
      }
    }

    /** `session.save()` for a record built by the schema. */
    method SaveSession(s: Session, storeFails: bool) returns (r: SaveOutcome)
      requires Valid()
      requires IsTrimmed(s.room) && IsTrimmed(s.mobileIp) && IsTrimmed(s.chromecastIp)
      modifies this
      ensures Valid()
      ensures r == SessionSaveOutcome(old(sessions), s, storeFails)
      ensures sessions == (if r == Saved then old(sessions) + [s] else old(sessions))
      ensures devices == old(devices) && logs == old(logs)
    {
      r := SessionSaveOutcome(sessions, s, storeFails);
      if r == Saved {
        sessions := sessions + [s];
      }
    }

    /** `Session.findByIdAndUpdate(id, { active: false })`. */
    method DeactivateSession(id: string)
      requires Valid()
      modifies this
      ensures Valid()
      ensures sessions == Deactivated(old(sessions), id)
      ensures devices == old(devices) && logs == old(logs)
    {
      sessions := Deactivated(sessions, id);
      forall s | s in sessions
        ensures SessionStored(s)
      {
        var i :| 0 <= i < |sessions| && sessions[i] == s;
        assert old(sessions)[i] in old(sessions);
      }
    }

    /** logActivity: the entry is handed to the store. */
    method Log(entry: LogEntry)
      modifies this
      ensures logs == old(logs) + [entry]
      ensures devices == old(devices) && sessions == old(sessions)
      ensures old(Valid()) ==> Valid()
    {
      logs := logs + [entry];
    }
  }
}
