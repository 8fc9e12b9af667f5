/** The session endpoints (app/api/sessions/route.ts). POST is the connect
    handler: a fixed chain of guards, each with its own refusal, then the
    pair is added to the firewall and, only if that succeeded, the session
    is saved. GET lists the active sessions, newest first. The clock, the
    session id generator and the outcomes of the firewall command and of
    the save are inputs. */
module SessionsRoute {
  import opened JsRuntime
  import opened Utils
  import opened Nftables
  import opened Models
  import opened Store
  import opened Listing

  /** SESSION_HOURS. */
  const SessionHours: nat := 2

  /** The request body as `request.json()` reads it: unparsable, or an
      object whose `room` is absent (None) or a string. */
  datatype ConnectBody = Malformed | Json(room: Option<string>)

  datatype ConnectResponse =
    | Created(id: string, room: string, deviceName: string, deviceIp: string,
              mobileIp: string, expiresAt: int)
    | Refused(status: nat, error: string, message: Option<string>)

  /** The outcome of the guard chain: go on with the device and the client
      address, or stop with a response and what is logged. */
  datatype Decision =
    | Proceed(device: Device, clientIp: string)
    | Stop(response: ConnectResponse, log: Option<LogEntry>)

  /** `!room`: absent or the empty string. */
  predicate RoomGiven(room: Option<string>) {
    room.Some? && room.value != []
  }

  /** What the guards look at: the device stored for the room (when a room
      is given), the client address, and the two subnet checks. */
  datatype Checks = Checks(found: Option<Device>, clientIp: string, clientInNetwork: bool,
                           deviceInNetwork: bool)

  /** The lookups and checks of lines 38, 43, 46 and 55. `findOne` casts
      the query value through the path's setters, so the room is looked up
      trimmed, as it was stored. */
  function ChecksFor(devices: seq<Device>, room: Option<string>, req: ClientRequest, cfg: Config): Checks {
    var found := if RoomGiven(room) then FindDevice(devices, Trim(room.value)) else None;
    var clientIp := GetClientIp(req);
    Checks(found, clientIp, ValidateIpNetwork(clientIp, cfg.mobileNetwork),
           found.Some? && ValidateIpNetwork(found.value.ipAddress, cfg.chromecastNetwork))
  }

  /** The guards of the POST handler, in order, over what the checks returned. The
      first that fails decides. */
  function Screen(room: Option<string>, c: Checks, mobileNetwork: string): (d: Decision)
    ensures d.Proceed? <==>
      RoomGiven(room) && c.found.Some? && c.clientInNetwork && c.deviceInNetwork
      && c.found.value.status == Active
    ensures d.Proceed? ==> d.device == c.found.value && d.clientIp == c.clientIp
    ensures d.Stop? ==> d.response.Refused?
  {
    if !RoomGiven(room) then
      Stop(Refused(400, "Room parameter required", None), None)
    else match c.found
      case None => Stop(Refused(404, "Room not configured", None), None)
      case Some(device) =>
        if !c.clientInNetwork then
          Stop(Refused(400, "Invalid network",
                       Some("Mobile devices must be on " + mobileNetwork + " network")),
               Some(LogEntry(Warning, "Connection attempt from invalid network: " + c.clientIp,
                             None, Some(c.clientIp))))
        else if !c.deviceInNetwork then
          Stop(Refused(500, "Configuration error",
                       Some("Chromecast device IP is not in valid network range")),
               Some(LogEntry(Error, "Device " + room.value + " has invalid Chromecast IP: "
                             + device.ipAddress, None, Some(c.clientIp))))
        else if device.status != Active then
          Stop(Refused(403, "Device inactive",
                       Some("This Chromecast device is currently disabled. Please contact an administrator.")),
               Some(LogEntry(Warning, "Device " + room.value + " is not active", None, Some(c.clientIp))))
        else Proceed(device, clientIp := c.clientIp)
  }

  /** The guard chain of the connect handler. */
  function Admit(devices: seq<Device>, room: Option<string>, req: ClientRequest, cfg: Config): Decision {
    Screen(room, ChecksFor(devices, room, req, cfg), cfg.mobileNetwork)
  }

  /** A request gets through exactly when the room is given and registered,
      the client is in the mobile network, the device of the room is in the
      Chromecast network and active; what gets through is that device and
      the client's address. */
  lemma AdmitIff(devices: seq<Device>, room: Option<string>, req: ClientRequest, cfg: Config)
    ensures Admit(devices, room, req, cfg).Proceed? <==>
      RoomGiven(room) && RoomTaken(devices, Trim(room.value))
      && ValidateIpNetwork(GetClientIp(req), cfg.mobileNetwork)
      && ValidateIpNetwork(FindDevice(devices, Trim(room.value)).value.ipAddress, cfg.chromecastNetwork)
      && FindDevice(devices, Trim(room.value)).value.status == Active
    ensures Admit(devices, room, req, cfg).Proceed? ==>
      var d := Admit(devices, room, req, cfg);
      d.device in devices && d.device.room == Trim(room.value) && d.clientIp == GetClientIp(req)
  {
  }

  /** A missing room is refused with 400 before the store is consulted,
      an unknown one with 404; neither is logged. */
  lemma RoomRefusals(room: Option<string>, c: Checks, mobileNetwork: string)
    ensures !RoomGiven(room) ==>
      Screen(room, c, mobileNetwork) == Stop(Refused(400, "Room parameter required", None), None)
    ensures (RoomGiven(room) && c.found.None?) ==>
      Screen(room, c, mobileNetwork) == Stop(Refused(404, "Room not configured", None), None)
  {
  }

  /** A known room with a client outside the mobile network is refused with
      400 and a warning naming the address; a device outside the Chromecast
      network is a configuration error (500). */
  lemma NetworkRefusals(room: Option<string>, c: Checks, mobileNetwork: string)
    requires RoomGiven(room) && c.found.Some?
    ensures !c.clientInNetwork ==>
      Screen(room, c, mobileNetwork).response
        == Refused(400, "Invalid network", Some("Mobile devices must be on " + mobileNetwork + " network"))
      && Screen(room, c, mobileNetwork).log
        == Some(LogEntry(Warning, "Connection attempt from invalid network: " + c.clientIp, None, Some(c.clientIp)))
    ensures c.clientInNetwork && !c.deviceInNetwork ==>
      Screen(room, c, mobileNetwork).response.status == 500
      && Screen(room, c, mobileNetwork).log.value.level == Error
  {
  }

  /** An inactive device that passed the network checks is refused with 403
      and a warning. */
  lemma InactiveRefused(room: Option<string>, c: Checks, mobileNetwork: string)
    requires RoomGiven(room) && c.found.Some? && c.clientInNetwork && c.deviceInNetwork
    requires c.found.value.status == Inactive
    ensures Screen(room, c, mobileNetwork).response.status == 403
    ensures Screen(room, c, mobileNetwork).log
      == Some(LogEntry(Warning, "Device " + room.value + " is not active", None, Some(c.clientIp)))
  {
  }

  /** ... and 403 is given for nothing else. */
  lemma ForbiddenOnlyIfInactive(room: Option<string>, c: Checks, mobileNetwork: string)
    requires Screen(room, c, mobileNetwork).Stop?
    requires Screen(room, c, mobileNetwork).response.status == 403
    ensures RoomGiven(room) && c.found.Some? && c.clientInNetwork && c.deviceInNetwork
    ensures c.found.value.status == Inactive
  {
    RoomRefusals(room, c, mobileNetwork);
    if RoomGiven(room) && c.found.Some? {
      NetworkRefusals(room, c, mobileNetwork);
    }
  }

  /** `Math.floor((expiresAt - createdAt) / 1000)` for the element timeout. */
  function TimeoutSeconds(createdAt: int, expiresAt: int): int {
    (expiresAt - createdAt) / MsPerSecond
  }

  /** The firewall timeout is the session length in seconds plus the whole
      seconds between the two clock readings, so it is at least two hours
      whenever the clock does not run backwards in between. */
  lemma TimeoutCoversSession(createdAt: int, now: int)
    requires createdAt <= now
    ensures TimeoutSeconds(createdAt, GetExpirationTime(now, SessionHours))
      == SessionHours * 3600 + (now - createdAt) / MsPerSecond
    ensures TimeoutSeconds(createdAt, GetExpirationTime(now, SessionHours)) >= 7200
  {
    var gap := now - createdAt;
    assert GetExpirationTime(now, SessionHours) - createdAt == 7200 * MsPerSecond + gap;
    ModUnique(7200 * MsPerSecond + gap, MsPerSecond, 7200 + gap / MsPerSecond, gap % MsPerSecond);
  }

  /** The record POST saves. */
  function SessionFor(id: string, room: string, clientIp: string, device: Device,
                      createdAt: int, expiresAt: int, userAgent: Option<string>): SessionInput {
    SessionInput(id, room, clientIp, device.ipAddress, Some(createdAt), expiresAt, Some(true),
                 Some(if userAgent.Some? then userAgent.value else ""), Some(createdAt))
  }

  /** POST /api/sessions. `createdAt` and `now` are the two clock readings
      (lines 74 and 75), `freshId` what generateSessionId returned,
      `addOutcome` how the nft command ended, `saveFails` whether the store
      failed the insert and `thrown` the message of any error caught. */
  method Post(db: Database, fw: Firewall, body: ConnectBody, req: ClientRequest,
              userAgent: Option<string>, freshId: string, createdAt: int, now: int,
              addOutcome: CommandOutcome, saveFails: bool, thrown: string)
    returns (resp: ConnectResponse)
    requires db.Valid()
    modifies db, fw
    ensures db.Valid()
    ensures db.devices == old(db.devices)
    // An unreadable body or a failed guard: nothing but a log entry changes.
    ensures body.Malformed? ==>
      resp == Refused(500, "Failed to create session", None)
      && db.logs == old(db.logs) + [LogEntry(Error, "Failed to create session: " + thrown, None,
                                             Some(GetClientIp(req)))]
      && db.sessions == old(db.sessions) && fw.pairs == old(fw.pairs) && fw.issued == old(fw.issued)
    ensures body.Json? && Admit(old(db.devices), body.room, req, fw.config).Stop? ==>
      var d := Admit(old(db.devices), body.room, req, fw.config);
      resp == d.response && db.sessions == old(db.sessions)
      && fw.pairs == old(fw.pairs) && fw.issued == old(fw.issued)
      && db.logs == old(db.logs) + (if d.log.Some? then [d.log.value] else [])
    // Past the guards: exactly one add command for (client, device).
    ensures body.Json? && Admit(old(db.devices), body.room, req, fw.config).Proceed? ==>
      var d := Admit(old(db.devices), body.room, req, fw.config);
      var expiresAt := GetExpirationTime(now, SessionHours);
      var timeout := TimeoutSeconds(createdAt, expiresAt);
      var s := NewSession(SessionFor(freshId, body.room.value, d.clientIp, d.device,
                                     createdAt, expiresAt, userAgent), createdAt);
      fw.issued == old(fw.issued) + [AddCommand(fw.config, d.clientIp, d.device.ipAddress, timeout)]
      && fw.pairs == (if addOutcome.Completed? then old(fw.pairs)[Pair(d.clientIp, d.device.ipAddress) := timeout]
                      else old(fw.pairs))
      && db.logs == old(db.logs) + [ConnectEntry(addOutcome, SessionSaveOutcome(old(db.sessions), s, saveFails),
                                                 body.room.value, freshId, d.clientIp, req, thrown)]
      && (!ClassifyStrict(addOutcome).success ==>
            resp.Refused? && resp.status == 500 && resp.error == "Authorization failed"
            && db.sessions == old(db.sessions))
      && (ClassifyStrict(addOutcome).success ==>
            if SessionSaveOutcome(old(db.sessions), s, saveFails) == Saved then
              db.sessions == old(db.sessions) + [s]
              && resp == Created(freshId, body.room.value, d.device.deviceName, d.device.ipAddress,
                                 d.clientIp, expiresAt)
            else
              db.sessions == old(db.sessions) && resp == Refused(500, "Failed to create session", None))
  {
    if body.Malformed? {
      db.Log(LogEntry(Error, "Failed to create session: " + thrown, None, Some(GetClientIp(req))));
      return Refused(500, "Failed to create session", None);
    }
    var room := body.room;
    var decision := Admit(db.devices, room, req, fw.config);
    if decision.Stop? {
      if decision.log.Some? {
        db.Log(decision.log.value);
      }
      return decision.response;
    }
    resp := Connect(db, fw, room.value, decision.device, decision.clientIp, req, userAgent, freshId,
                    createdAt, now, addOutcome, saveFails, thrown);
  }

  /** The one log entry written once past the guards: the firewall's
      refusal, the store's, or the new session. */
  function ConnectEntry(addOutcome: CommandOutcome, saved: SaveOutcome, room: string, sessionId: string,
                        clientIp: string, req: ClientRequest, thrown: string): (e: LogEntry)
    ensures e.level == Info <==> ClassifyStrict(addOutcome).success && saved == Saved
    ensures !ClassifyStrict(addOutcome).success ==> e.sessionId == Some(sessionId) && e.ipAddress == Some(clientIp)
  {
    var added := ClassifyStrict(addOutcome);
    if !added.success then
      LogEntry(Error, "Failed to authorize connection: " + added.error.value, Some(sessionId), Some(clientIp))
    else if saved != Saved then
      LogEntry(Error, "Failed to create session: " + thrown, None, Some(GetClientIp(req)))
    else
      LogEntry(Info, "New session created for room " + room, Some(sessionId), Some(clientIp))
  }

  /** The part of POST past the guards: authorize the pair in the firewall,
      then save the session. */
  method Connect(db: Database, fw: Firewall, room: string, device: Device, clientIp: string,
                 req: ClientRequest, userAgent: Option<string>, sessionId: string, createdAt: int,
                 now: int, addOutcome: CommandOutcome, saveFails: bool, thrown: string)
    returns (resp: ConnectResponse)
    requires db.Valid()
    modifies db, fw
    ensures db.Valid()
    ensures db.devices == old(db.devices)
    ensures var expiresAt := GetExpirationTime(now, SessionHours);
      var timeout := TimeoutSeconds(createdAt, expiresAt);
      fw.issued == old(fw.issued) + [AddCommand(fw.config, clientIp, device.ipAddress, timeout)]
      && fw.pairs == (if addOutcome.Completed? then old(fw.pairs)[Pair(clientIp, device.ipAddress) := timeout]
                      else old(fw.pairs))
      && (!ClassifyStrict(addOutcome).success ==>
            resp.Refused? && resp.status == 500 && resp.error == "Authorization failed"
            && db.sessions == old(db.sessions))
      && (ClassifyStrict(addOutcome).success ==>
            var s := NewSession(SessionFor(sessionId, room, clientIp, device, createdAt, expiresAt, userAgent),
                                createdAt);
            if SessionSaveOutcome(old(db.sessions), s, saveFails) == Saved then
              db.sessions == old(db.sessions) + [s]
              && resp == Created(sessionId, room, device.deviceName, device.ipAddress, clientIp, expiresAt)
            else
              db.sessions == old(db.sessions) && resp == Refused(500, "Failed to create session", None))
    ensures var expiresAt := GetExpirationTime(now, SessionHours);
      var s := NewSession(SessionFor(sessionId, room, clientIp, device, createdAt, expiresAt, userAgent),
                          createdAt);
      db.logs == old(db.logs) + [ConnectEntry(addOutcome, SessionSaveOutcome(old(db.sessions), s, saveFails),
                                              room, sessionId, clientIp, req, thrown)]
  {
    var expiresAt := GetExpirationTime(now, SessionHours);
    var timeoutSeconds := TimeoutSeconds(createdAt, expiresAt);
    var session := NewSession(SessionFor(sessionId, room, clientIp, device, createdAt, expiresAt,
                                         userAgent), createdAt);
    ghost var sessions0 := db.sessions;

    var nftResult := fw.AddPair(clientIp, device.ipAddress, timeoutSeconds, addOutcome);
    if !nftResult.success {
      var entry := LogEntry(Error, "Failed to authorize connection: " + nftResult.error.value,
                            Some(sessionId), Some(clientIp));
      assert entry == ConnectEntry(addOutcome, SessionSaveOutcome(sessions0, session, saveFails),
                                   room, sessionId, clientIp, req, thrown);
      db.Log(entry);
      resp := Refused(500, "Authorization failed",
                      Some("Failed to authorize your connection. Please try again."));
    } else {
      var saved;
      resp, saved := SaveSessionLogged(
        db, session, saveFails,
        Created(sessionId, room, device.deviceName, device.ipAddress, clientIp, expiresAt),
        LogEntry(Info, "New session created for room " + room, Some(sessionId), Some(clientIp)),
        LogEntry(Error, "Failed to create session: " + thrown, None, Some(GetClientIp(req))));
      assert saved == SessionSaveOutcome(sessions0, session, saveFails);
    }
  }

  /** Save the new session, then log its creation or the store's refusal. */
  method SaveSessionLogged(db: Database, session: Session, saveFails: bool, created: ConnectResponse,
                           createdEntry: LogEntry, failedEntry: LogEntry)
    returns (resp: ConnectResponse, saved: SaveOutcome)
    requires db.Valid()
    requires IsTrimmed(session.room) && IsTrimmed(session.mobileIp) && IsTrimmed(session.chromecastIp)
    modifies db
    ensures db.Valid() && db.devices == old(db.devices)
    ensures saved == SessionSaveOutcome(old(db.sessions), session, saveFails)
    ensures db.sessions == if saved == Saved then old(db.sessions) + [session] else old(db.sessions)
    ensures resp == if saved == Saved then created else Refused(500, "Failed to create session", None)
    ensures db.logs == old(db.logs) + [if saved == Saved then createdEntry else failedEntry]
  {
    saved := db.SaveSession(session, saveFails);
    if saved != Saved {
      db.Log(failedEntry);
      resp := Refused(500, "Failed to create session", None);
    } else {
      db.Log(createdEntry);
      resp := created;
    }
  }

  /** A session saved by POST is active, for an address in the mobile
      network and a device in the Chromecast network, and is never refused
      by the schema: only a clash of ids or a store failure can stop it. */
  lemma ConnectedSessionShape(devices: seq<Device>, room: Option<string>, req: ClientRequest,
                              cfg: Config, freshId: string, createdAt: int, now: int,
                              userAgent: Option<string>)
    requires UniqueRooms(devices) && forall d | d in devices :: DeviceStored(d)
    requires Admit(devices, room, req, cfg).Proceed?
    ensures var d := Admit(devices, room, req, cfg);
      var s := NewSession(SessionFor(freshId, room.value, d.clientIp, d.device, createdAt,
                                     GetExpirationTime(now, SessionHours), userAgent), createdAt);
      s.active && s.room == Trim(room.value) && s.room == d.device.room && s.chromecastIp == d.device.ipAddress
      && s.mobileIp == Trim(d.clientIp)
      && ValidateIpNetwork(d.clientIp, cfg.mobileNetwork)
      && ValidateIpNetwork(s.chromecastIp, cfg.chromecastNetwork)
      && (SessionValid(s) <==> freshId != [])
  {
    var d := Admit(devices, room, req, cfg);
    var input := SessionFor(freshId, room.value, d.clientIp, d.device, createdAt,
                            GetExpirationTime(now, SessionHours), userAgent);
    assert DeviceStored(d.device);
    TrimOfTrimmed(d.device.room);
    TrimOfTrimmed(d.device.ipAddress);
    AcceptedAddressNotBlank(d.clientIp, cfg.mobileNetwork);
    NewSessionValid(input, createdAt);
    TrimEmptyIff(d.device.room);
    TrimEmptyIff(d.device.ipAddress);
  }

  // ---------------------------------------------------------------------
  // GET /api/sessions
  // ---------------------------------------------------------------------

  function IsActive(s: Session): bool {
    s.active
  }

  /** `.sort({ createdAt: -1 })`: newest first. */
  function NewerFirst(a: Session, b: Session): bool {
    a.createdAt >= b.createdAt
  }

  datatype SessionsResponse = SessionList(sessions: seq<Session>) | SessionsFailed(status: nat, error: string)

  /** GET /api/sessions; `storeFails` says whether the query failed. */
  function GetSessions(sessions: seq<Session>, storeFails: bool): SessionsResponse {
    if storeFails then SessionsFailed(500, "Failed to fetch sessions")
    else SessionList(SortBy(Filter(sessions, IsActive), NewerFirst))
  }

  /** GET /api/sessions against the store: a failed query is logged. */
  method Get(db: Database, storeFails: bool) returns (r: SessionsResponse)
    modifies db
    ensures r == GetSessions(old(db.sessions), storeFails)
    ensures db.logs == old(db.logs)
      + (if storeFails then [LogEntry(Error, "Failed to fetch sessions", None, None)] else [])
    ensures db.sessions == old(db.sessions) && db.devices == old(db.devices)
  {
    if storeFails {
      db.Log(LogEntry(Error, "Failed to fetch sessions", None, None));
      return SessionsFailed(500, "Failed to fetch sessions");
    }
    return SessionList(SortBy(Filter(db.sessions, IsActive), NewerFirst));
  }

  /** The listing holds every active session, each once, and no other,
      newest first. */
  lemma ActiveSessionsListed(sessions: seq<Session>)
    ensures var r := GetSessions(sessions, false).sessions;
      (forall s: Session :: s in r <==> s in sessions && s.active)
      && (forall s: Session :: s.active ==> multiset(r)[s] == multiset(sessions)[s])
      && (forall i, j :: 0 <= i < j < |r| ==> r[i].createdAt >= r[j].createdAt)
      && |r| == Count(sessions, IsActive)
  {
    FilterSortCorrect(sessions, IsActive, NewerFirst);
  }
}
