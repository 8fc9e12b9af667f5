/** The two stored records (models/Session.ts, models/Device.ts): their
    fields, what the schema does to a value on the way in (trimming,
    upper-casing, defaults) and which records it accepts. Times are
    milliseconds since the epoch. */
module Models {
  import opened JsRuntime

  // ---------------------------------------------------------------------
  // Device
  // ---------------------------------------------------------------------

  /** The `status` enum: 'active' | 'inactive'. */
  datatype DeviceStatus = Active | Inactive

  datatype Device = Device(
    room: string, deviceName: string, ipAddress: string, macAddress: Option<string>,
    createdAt: int, status: DeviceStatus)

  /** `new Device({ room, deviceName, ipAddress, macAddress })` at time now:
      strings are trimmed, the MAC address is also upper-cased, and
      createdAt and status take their defaults. */
  function NewDevice(room: string, deviceName: string, ipAddress: string,
                     macAddress: Option<string>, now: int): (d: Device)
    ensures IsTrimmed(d.room) && IsTrimmed(d.deviceName) && IsTrimmed(d.ipAddress)
    ensures d.macAddress.Some? <==> macAddress.Some?
    ensures d.macAddress.Some? ==> IsTrimmed(d.macAddress.value)
    ensures d.macAddress.Some? ==>
      forall i :: 0 <= i < |d.macAddress.value| ==> !('a' <= d.macAddress.value[i] <= 'z')
    ensures d.createdAt == now && d.status == Active
  {
    TrimIsTrimmed(room);
    TrimIsTrimmed(deviceName);
    TrimIsTrimmed(ipAddress);
    Device(Trim(room), Trim(deviceName), Trim(ipAddress), MacSetter(macAddress), now, Active)
  }

  /** The trim and uppercase setters of macAddress, which is optional. */
  function MacSetter(mac: Option<string>): (r: Option<string>)
    ensures r.Some? <==> mac.Some?
    ensures r.Some? ==> IsTrimmed(r.value)
    ensures r.Some? ==> forall i :: 0 <= i < |r.value| ==> !('a' <= r.value[i] <= 'z')
  {
    if mac.None? then None
    else
      UpperTrimCommute(mac.value);
      TrimIsTrimmed(ToUpperCase(mac.value));
      UpperCaseFacts(Trim(mac.value));
      Some(ToUpperCase(Trim(mac.value)))
  }

  /** What the schema's `required` validators accept: the three required
      strings are non-empty once trimmed. */
  predicate DeviceValid(d: Device) {
    d.room != [] && d.deviceName != [] && d.ipAddress != []
  }

  /** A record as the store keeps it: accepted by the schema and trimmed. */
  predicate DeviceStored(d: Device) {
    DeviceValid(d) && IsTrimmed(d.room) && IsTrimmed(d.deviceName) && IsTrimmed(d.ipAddress)
  }

  /** A new device is accepted exactly when none of its three required
      fields is blank; what is accepted is stored as built. */
  lemma NewDeviceValid(room: string, deviceName: string, ipAddress: string,
                       macAddress: Option<string>, now: int)
    ensures DeviceValid(NewDevice(room, deviceName, ipAddress, macAddress, now)) <==>
      !AllSpace(room) && !AllSpace(deviceName) && !AllSpace(ipAddress)
    ensures DeviceValid(NewDevice(room, deviceName, ipAddress, macAddress, now)) ==>
      DeviceStored(NewDevice(room, deviceName, ipAddress, macAddress, now))
  {
    TrimEmptyIff(room);
    TrimEmptyIff(deviceName);
    TrimEmptyIff(ipAddress);
  }

  // ---------------------------------------------------------------------
  // Session
  // ---------------------------------------------------------------------

  datatype Session = Session(
    id: string, room: string, mobileIp: string, chromecastIp: string,
    createdAt: int, expiresAt: int, active: bool, userAgent: Option<string>,
    lastActivity: int)

  /** The fields given to `new Session({...})`; those with a schema
      default may be left out. */
  datatype SessionInput = SessionInput(
    id: string, room: string, mobileIp: string, chromecastIp: string,
    createdAt: Option<int>, expiresAt: int, active: Option<bool>,
    userAgent: Option<string>, lastActivity: Option<int>)

  /** `new Session(input)` at time now: room, addresses and user agent are
      trimmed (the id is not), createdAt and lastActivity default to now and
      active to true. */
  function NewSession(input: SessionInput, now: int): (s: Session)
    ensures s.id == input.id && s.expiresAt == input.expiresAt
    ensures IsTrimmed(s.room) && IsTrimmed(s.mobileIp) && IsTrimmed(s.chromecastIp)
    ensures s.userAgent.Some? <==> input.userAgent.Some?
    ensures s.userAgent.Some? ==> IsTrimmed(s.userAgent.value)
    ensures s.createdAt == (if input.createdAt.Some? then input.createdAt.value else now)
    ensures s.active == (input.active.None? || input.active.value)
    ensures s.lastActivity == (if input.lastActivity.Some? then input.lastActivity.value else now)
  {
    TrimIsTrimmed(input.room);
    TrimIsTrimmed(input.mobileIp);
    TrimIsTrimmed(input.chromecastIp);
    Session(
      input.id, Trim(input.room), Trim(input.mobileIp), Trim(input.chromecastIp),
      if input.createdAt.Some? then input.createdAt.value else now,
      input.expiresAt,
      input.active.None? || input.active.value,
      TrimOptional(input.userAgent),
      if input.lastActivity.Some? then input.lastActivity.value else now)
  }

  /** The trim setter of an optional string field. */
  function TrimOptional(value: Option<string>): (r: Option<string>)
    ensures r.Some? <==> value.Some?
    ensures r.Some? ==> IsTrimmed(r.value)
  {
    if value.None? then None else TrimIsTrimmed(value.value); Some(Trim(value.value))
  }

  /** What the schema's `required` validators accept. */
  predicate SessionValid(s: Session) {
    s.id != [] && s.room != [] && s.mobileIp != [] && s.chromecastIp != []
  }

  /** A record as the store keeps it: accepted by the schema and trimmed. */
  predicate SessionStored(s: Session) {
    SessionValid(s) && IsTrimmed(s.room) && IsTrimmed(s.mobileIp) && IsTrimmed(s.chromecastIp)
  }

  /** A new session is accepted exactly when its id is non-empty and its
      room and addresses are not blank. */
  lemma NewSessionValid(input: SessionInput, now: int)
    ensures SessionValid(NewSession(input, now)) <==>
      input.id != [] && !AllSpace(input.room) && !AllSpace(input.mobileIp)
      && !AllSpace(input.chromecastIp)
    ensures SessionValid(NewSession(input, now)) ==> SessionStored(NewSession(input, now))
  {
    TrimEmptyIff(input.room);
    TrimEmptyIff(input.mobileIp);
    TrimEmptyIff(input.chromecastIp);
  }

  /** An already trimmed value passes through the trim setter unchanged. */
  lemma StoredValuesKept(input: SessionInput, now: int)
    requires IsTrimmed(input.room) && IsTrimmed(input.mobileIp) && IsTrimmed(input.chromecastIp)
    ensures var s := NewSession(input, now);
      s.room == input.room && s.mobileIp == input.mobileIp && s.chromecastIp == input.chromecastIp
  {
    TrimOfTrimmed(input.room);
    TrimOfTrimmed(input.mobileIp);
    TrimOfTrimmed(input.chromecastIp);
  }
}
