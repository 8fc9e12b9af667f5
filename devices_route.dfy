/** The device endpoints (app/api/devices/route.ts): registering a
    Chromecast for a room and listing the active ones by room. */
module DevicesRoute {
  import opened JsRuntime
  import opened Utils
  import opened Models
  import opened Store
  import opened Listing

  /** The request body: unparsable, or an object whose four fields are
      absent (None) or strings. */
  datatype DeviceBody =
    | Malformed
    | Json(room: Option<string>, deviceName: Option<string>, ipAddress: Option<string>,
           macAddress: Option<string>)

  datatype DeviceResponse = DeviceCreated(device: Device) | DeviceRefused(status: nat, error: string)

  /** `!room || !deviceName || !ipAddress` is false. */
  predicate FieldsGiven(body: DeviceBody)
    requires body.Json?
  {
    Truthy(body.room) && Truthy(body.deviceName) && Truthy(body.ipAddress)
  }

  /** The response for a body whose fields are given, once the save ended
      as outcome: 201 with the record, 400 for a taken room, 500 otherwise. */
  function AddResponse(d: Device, outcome: SaveOutcome): (r: DeviceResponse)
    ensures r.DeviceCreated? <==> outcome == Saved
    ensures r.DeviceCreated? ==> r.device == d
    ensures outcome == DuplicateKey ==> r == DeviceRefused(400, "Device with this room already exists")
    ensures outcome in {ValidationFailed, StoreFailed} ==> r == DeviceRefused(500, "Failed to add device")
  {
    match outcome
    case Saved => DeviceCreated(d)
    case DuplicateKey => DeviceRefused(400, "Device with this room already exists")
    case _ => DeviceRefused(500, "Failed to add device")
  }

  /** The entry logged for a stored device, with the client's address. */
  function AddedEntry(room: string, deviceName: string, ipAddress: string, req: ClientRequest): LogEntry {
    LogEntry(Info, "Device added: Room " + room + " - " + deviceName + " (" + ipAddress + ")",
             None, Some(GetClientIp(req)))
  }

  /** The entry logged when registration fails with the error thrown. */
  function FailedEntry(thrown: string, req: ClientRequest): LogEntry {
    LogEntry(Error, "Failed to add device: " + thrown, None, Some(GetClientIp(req)))
  }

  /** What registration logs once the save ended as outcome: the new device,
      nothing for a taken room (the handler answers 400 without logging), or
      the error. */
  function RegistrationLog(outcome: SaveOutcome, room: string, deviceName: string, ipAddress: string,
                           req: ClientRequest, thrown: string): seq<LogEntry> {
    if outcome == Saved then [AddedEntry(room, deviceName, ipAddress, req)]
    else if outcome == DuplicateKey then []
    else [FailedEntry(thrown, req)]
  }

  /** POST /api/devices at time now. `saveFails` says whether the store
      fails the insert, `thrown` is the message of the error caught. */
  method Post(db: Database, body: DeviceBody, req: ClientRequest, now: int, saveFails: bool,
              thrown: string)
    returns (resp: DeviceResponse)
    requires db.Valid()
    modifies db
    ensures db.Valid()
    ensures db.sessions == old(db.sessions)
    ensures body.Malformed? ==>
      resp == DeviceRefused(500, "Failed to add device") && db.devices == old(db.devices)
      && db.logs == old(db.logs) + [FailedEntry(thrown, req)]
    ensures body.Json? && !FieldsGiven(body) ==>
      resp == DeviceRefused(400, "Room, device name, and IP address are required")
      && db.devices == old(db.devices) && db.logs == old(db.logs)
    ensures body.Json? && FieldsGiven(body) ==>
      var d := NewDevice(body.room.value, body.deviceName.value, body.ipAddress.value, body.macAddress, now);
      var outcome := DeviceSaveOutcome(old(db.devices), d, saveFails);
      resp == AddResponse(d, outcome)
      && db.devices == (if outcome == Saved then old(db.devices) + [d] else old(db.devices))
      && db.logs == old(db.logs)
           + RegistrationLog(outcome, body.room.value, body.deviceName.value, body.ipAddress.value, req, thrown)
  {
    if body.Malformed? {
      db.Log(FailedEntry(thrown, req));
      resp := DeviceRefused(500, "Failed to add device");
    } else if !Truthy(body.room) || !Truthy(body.deviceName) || !Truthy(body.ipAddress) {
      resp := DeviceRefused(400, "Room, device name, and IP address are required");
    } else {
      resp := Register(db, body.room.value, body.deviceName.value, body.ipAddress.value, body.macAddress,
                       req, now, saveFails, thrown);
    }
  }

  /** The part of POST /api/devices after the fields were found present:
      build the record, save it, log and answer by the outcome. */
  method Register(db: Database, room: string, deviceName: string, ipAddress: string,
                  macAddress: Option<string>, req: ClientRequest, now: int, saveFails: bool,
                  thrown: string)
    returns (resp: DeviceResponse)
    requires db.Valid()
    modifies db
    ensures db.Valid()
    ensures db.sessions == old(db.sessions)
    ensures var d := NewDevice(room, deviceName, ipAddress, macAddress, now);
      var outcome := DeviceSaveOutcome(old(db.devices), d, saveFails);
      resp == AddResponse(d, outcome)
      && db.devices == (if outcome == Saved then old(db.devices) + [d] else old(db.devices))
      && db.logs == old(db.logs) + RegistrationLog(outcome, room, deviceName, ipAddress, req, thrown)
  {
    var device := NewDevice(room, deviceName, ipAddress, macAddress, now);
    var outcome := db.SaveDevice(device, saveFails);
    ghost var logged := RegistrationLog(outcome, room, deviceName, ipAddress, req, thrown);
    if outcome == Saved {
      db.Log(AddedEntry(room, deviceName, ipAddress, req));
      resp := DeviceCreated(device);
      assert logged == [AddedEntry(room, deviceName, ipAddress, req)];
    } else if outcome == DuplicateKey {
      resp := DeviceRefused(400, "Device with this room already exists");
      assert logged == [];
      assert db.logs == old(db.logs) + logged;
    } else {
      db.Log(FailedEntry(thrown, req));
      resp := DeviceRefused(500, "Failed to add device");
      assert logged == [FailedEntry(thrown, req)];
    }
  }

  /** What registration does with given fields: a room that is already
      taken (after trimming) is refused with 400; otherwise a field that is
      only whitespace passes the truthiness check but fails the schema,
      which is a 500; anything else is stored. */
  lemma RegistrationOutcome(devices: seq<Device>, room: string, deviceName: string, ipAddress: string,
                            macAddress: Option<string>, now: int)
    requires room != [] && deviceName != [] && ipAddress != []
    ensures var d := NewDevice(room, deviceName, ipAddress, macAddress, now);
      var r := AddResponse(d, DeviceSaveOutcome(devices, d, false));
      (AllSpace(room) || AllSpace(deviceName) || AllSpace(ipAddress) ==> r == DeviceRefused(500, "Failed to add device"))
      && (!AllSpace(room) && !AllSpace(deviceName) && !AllSpace(ipAddress) ==>
            (r.DeviceCreated? <==> !RoomTaken(devices, Trim(room)))
            && (r.DeviceRefused? ==> r.status == 400))
  {
    var d := NewDevice(room, deviceName, ipAddress, macAddress, now);
    NewDeviceValid(room, deviceName, ipAddress, macAddress, now);
    assert d.room == Trim(room);
    SaveResponse(devices, d);
  }

  /** The response to saving d when the store itself does not fail. */
  lemma SaveResponse(devices: seq<Device>, d: Device)
    ensures var r := AddResponse(d, DeviceSaveOutcome(devices, d, false));
      (!DeviceValid(d) ==> r == DeviceRefused(500, "Failed to add device"))
      && (DeviceValid(d) ==> (r.DeviceCreated? <==> !RoomTaken(devices, d.room))
                             && (r.DeviceRefused? ==> r.status == 400))
  {
  }

  /** A registered device is stored as its schema leaves it, so the room
      it is found under afterwards is the trimmed room. */
  lemma RegisteredDeviceFound(devices: seq<Device>, room: string, deviceName: string, ipAddress: string,
                              macAddress: Option<string>, now: int)
    requires UniqueRooms(devices)
    requires var d := NewDevice(room, deviceName, ipAddress, macAddress, now);
      DeviceSaveOutcome(devices, d, false) == Saved
    ensures var d := NewDevice(room, deviceName, ipAddress, macAddress, now);
      UniqueRooms(devices + [d]) && FindDevice(devices + [d], Trim(room)) == Some(d)
  {
    var d := NewDevice(room, deviceName, ipAddress, macAddress, now);
    var all := devices + [d];
    forall i, j | 0 <= i < j < |all|
      ensures all[i].room != all[j].room
    {
      if j == |devices| {
        assert all[i] == devices[i];
      }
    }
    FindDeviceUnique(all, Trim(room), d);
  }

  // ---------------------------------------------------------------------
  // GET /api/devices
  // ---------------------------------------------------------------------

  function IsEnabled(d: Device): bool {
    d.status == Active
  }

  /** `.sort({ room: 1 })`. */
  function ByRoom(a: Device, b: Device): bool {
    LexLe(a.room, b.room)
  }

  datatype DevicesResponse = DeviceList(devices: seq<Device>) | DevicesFailed(status: nat, error: string)

  function GetDevices(devices: seq<Device>, storeFails: bool): DevicesResponse {
    if storeFails then DevicesFailed(500, "Failed to fetch devices")
    else DeviceList(SortBy(Filter(devices, IsEnabled), ByRoom))
  }

  /** GET /api/devices against the store: a failed query is logged. */
  method Get(db: Database, storeFails: bool) returns (r: DevicesResponse)
    modifies db
    ensures r == GetDevices(old(db.devices), storeFails)
    ensures db.logs == old(db.logs)
      + (if storeFails then [LogEntry(Error, "Failed to fetch devices", None, None)] else [])
    ensures db.sessions == old(db.sessions) && db.devices == old(db.devices)
  {
    if storeFails {
      db.Log(LogEntry(Error, "Failed to fetch devices", None, None));
      return DevicesFailed(500, "Failed to fetch devices");
    }
    return DeviceList(SortBy(Filter(db.devices, IsEnabled), ByRoom));
  }

  /** Room order is a total preorder on devices. */
  lemma ByRoomTotal()
    ensures TotalPreorder(ByRoom)
  {
    forall a: Device, b: Device
      ensures ByRoom(a, b) || ByRoom(b, a)
    {
      LexLeTotal(a.room, b.room);
    }
    forall a: Device, b: Device, c: Device | ByRoom(a, b) && ByRoom(b, c)
      ensures ByRoom(a, c)
    {
      LexLeTransitive(a.room, b.room, c.room);
    }
  }

  /** The listing is exactly the active devices, in ascending room order;
      with rooms unique the order is strict. */
  lemma ActiveDevicesListed(devices: seq<Device>)
    requires UniqueRooms(devices)
    ensures var r := GetDevices(devices, false).devices;
      (forall d: Device :: d in r <==> d in devices && d.status == Active)
      && (forall i, j :: 0 <= i < j < |r| ==> LexLe(r[i].room, r[j].room))
      && UniqueRooms(r)
      && |r| == Count(devices, IsEnabled)
  {
    ByRoomTotal();
    FilterSortCorrect(devices, IsEnabled, ByRoom);
    var r := GetDevices(devices, false).devices;
    DistinctRooms(r, devices);
  }

  /** A listing that holds stored devices no more often than the store
      does has unique rooms too. */
  lemma DistinctRooms(r: seq<Device>, devices: seq<Device>)
    requires UniqueRooms(devices)
    requires forall d :: d in r ==> d in devices && multiset(r)[d] == multiset(devices)[d]
    ensures UniqueRooms(r)
  {
    forall i, j | 0 <= i < j < |r|
      ensures r[i].room != r[j].room
    {
      if r[i].room == r[j].room {
        assert r[i] in r && r[j] in r;
        var a :| 0 <= a < |devices| && devices[a] == r[i];
        var b :| 0 <= b < |devices| && devices[b] == r[j];
        assert a == b;
        OccursTwice(r, i, j);
        OccursOnce(devices, a);
      }
    }
  }

  /** A value at two positions of a sequence occurs at least twice. */
  lemma OccursTwice<T>(s: seq<T>, i: nat, j: nat)
    requires i < j < |s| && s[i] == s[j]
    ensures multiset(s)[s[i]] >= 2
  {
    assert s == s[..i] + [s[i]] + s[i + 1..j] + [s[j]] + s[j + 1..];
  }

  /** In a sequence of devices with unique rooms each device occurs once. */
  lemma OccursOnce(devices: seq<Device>, a: nat)
    requires UniqueRooms(devices) && a < |devices|
    ensures multiset(devices)[devices[a]] == 1
  {
    assert devices == devices[..a] + [devices[a]] + devices[a + 1..];
    assert devices[a] !in devices[..a] by {
      forall k | 0 <= k < a ensures devices[..a][k] != devices[a] {
        assert devices[k].room != devices[a].room;
      }
    }
    assert devices[a] !in devices[a + 1..] by {
      forall k | a < k < |devices| ensures devices[k] != devices[a] {
        assert devices[k].room != devices[a].room;
      }
    }
  }
}
