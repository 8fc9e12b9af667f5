# Casting gateway: session authorization core in Dafny

This project models the part of the casting gateway that decides who may
cast to which Chromecast, and proves properties of that model.

- **Admission.** A phone asks to connect to the Chromecast of a room. The
  connect handler runs a fixed chain of guards:
  - a room is given and registered;
  - the client's address is in the mobile network;
  - the device's address is in the Chromecast network;
  - the device is active.
- **Authorization.** If every guard passes, the handler adds a
  (phone, Chromecast) element with a two-hour timeout to an nftables set. It
  records the session only if that command succeeded.
- **Expiry.** A sweep that runs every 30 seconds deletes the element of every
  active session past its expiry and marks the session inactive.
- **Around it:**
  - the device registry, with one device per room;
  - the listings and the status counts;
  - the reachability check, which combines a TCP probe, a ping and an mDNS
    query.

Modules, one per source file, in dependency order:

| file | module | models |
|---|---|---|
| js_runtime.dfy | `JsRuntime` | the JavaScript built-ins the core relies on: `trim`, `toUpperCase`, `split`, `includes`, `Number()`, `parseInt`, and 32-bit `<<`, `~`, `&` on numbers |
| utils.dfy | `Utils` | `validateIpNetwork`, `getClientIp`, `getExpirationTime`, `formatTimeRemaining` |
| nftables.dfy | `Nftables` | the settings, the `nft` command lines, the classification of command outcomes, and a `Firewall` class holding the authorized set |
| models.dfy | `Models` | the Device and Session schemas: their setters, defaults and `required` validators |
| store.dfy | `Store` | a `Database` class with the two collections, the unique indexes and the activity log |
| listing.dfy | `Listing` | `find` / `sort` / `countDocuments` as filter, insertion sort and count |
| sessions_route.dfy | `SessionsRoute` | POST and GET `/api/sessions` |
| session_cleaner.dfy | `SessionCleaner` | `cleanExpiredSessions` and its interval |
| devices_route.dfy | `DevicesRoute` | POST and GET `/api/devices` |
| status_route.dfy | `StatusRoute` | GET `/api/status` |
| reachability.dfy | `Reachability` | `promiseAny`, `tcpProbe`, `mdnsCheck`, `icmpPing`, `isChromecastReachable` |

Several things are inputs to the model rather than computed:
- the clock readings;
- the id that `generateSessionId` returns;
- the outcome of each shell command (it completes with stdout and stderr, or
  it throws);
- whether a store operation fails;
- the events a socket or the mDNS responder delivers;
- the message of any caught error.

A completed `nft` command is taken to have applied its change. A thrown one
is taken to have changed nothing.

JavaScript numbers are `Finite(v)` for integers, or `NonFinite` for NaN and
±Infinity. The bitwise operators are spelled out over `ToInt32`/`ToUint32`,
so the wrap-around of `<<`, and of a shift count taken modulo 32, is explicit.

Where the code and the design notes disagree, the model follows the code:
- The notes call the subnet check fail-closed on out-of-range octets and
  prefixes. The code checks only that there are four dot-separated parts:
  - an octet above 255 is shifted and wraps, so `256.0.0.1` is accepted for `0.0.0.1/32` (`OversizedOctetWraps`);
  - an empty octet reads as 0;
  - prefix 0, a missing prefix or a non-numeric prefix demands an exact
    match;
  - prefix 33 compares only the top bit.
- The notes say the TCP strategy succeeds when any port accepts. The code
  reports only the first port's probe (see Findings).
- The notes say the session length is exact. The code reads the clock twice.
  The firewall timeout is therefore two hours plus the whole seconds between
  the two readings.

## Model

| member | source | states |
|---|---|---|
| JsRuntime.TrimIsTrimmed | lib/utils.ts:7-12 | the result of `trim` has no whitespace at either end |
| JsRuntime.TrimIdempotent | lib/utils.ts:7-12 | trimming twice is trimming once |
| JsRuntime.TrimEmptyIff | models/Device.ts:13-28 | a value trims to the empty string exactly when it is all whitespace, which is why a blank field fails `required` |
| JsRuntime.UpperCaseFacts | models/Device.ts:29-33 | upper-casing keeps the length, leaves no lower-case letter, keeps every other character, and is idempotent |
| JsRuntime.UpperTrimCommute | models/Device.ts:29-33 | the `trim` and `uppercase` setters give the same result in either order |
| JsRuntime.SplitCount | lib/utils.ts:20-22 | `split` gives one more piece than there are separators |
| JsRuntime.SplitJoin | lib/utils.ts:20-22 | the pieces joined with the separator give back the string, and no piece contains the separator |
| JsRuntime.SplitFirst | lib/utils.ts:7 | the first piece is the prefix up to the first separator |
| JsRuntime.SplitAfterPiece | lib/utils.ts:20-22 | splitting `a + sep + b` is `[a]` followed by the pieces of `b` |
| JsRuntime.IncludesIff | lib/nftables.ts:107 | `includes` holds exactly when the text occurs at some position |
| JsRuntime.OccurrencesIn | lib/utils.ts:20 | a separator occurs exactly when it is in the string |
| JsRuntime.DecimalValue | lib/nftables.ts:82 | the decimal rendering of a number spells that number |
| JsRuntime.StringToNumberDecimal | lib/utils.ts:20 | `Number()` reads a decimal rendering back as its value |
| JsRuntime.ParseIntDecimal | lib/utils.ts:23 | `parseInt` reads a decimal rendering back as its value |
| JsRuntime.DigitPrefix | lib/utils.ts:23 | the digits `parseInt` consumes are the longest prefix of digits |
| JsRuntime.SignedInjective | lib/utils.ts:34 | the signed 32-bit view is one-to-one on 32-bit values, so comparing signed results compares the unsigned ones |
| Utils.RequiresFourParts | lib/utils.ts:20-27 | an address or network without exactly three dots is rejected |
| Utils.EmptyAddressRejected | lib/utils.ts:20-27 | the empty address is rejected for every network |
| Utils.AcceptedAddressNotBlank | lib/utils.ts:18-38 | an accepted address contains a dot, so it is not blank |
| Utils.PackQuad | lib/utils.ts:30-31 | for octets in 0..255 the packed number, read as unsigned, is the 32-bit address |
| Utils.MaskValue | lib/utils.ts:32 | the mask, read as unsigned, is 2^32 minus 2^(host bits) |
| Utils.HostBitsOfPrefix | lib/utils.ts:32 | the mask clears 32 − p low bits for p in 1..32; it clears none for prefix 0 or NaN; it clears 31 for prefix 33 |
| Utils.MaskedEqual | lib/utils.ts:34 | masking both addresses with a mask of h clear low bits gives equal results exactly when they agree after dividing by 2^h |
| Utils.PrefixMatch | lib/utils.ts:29-34 | for dotted quads, acceptance holds exactly when the addresses agree above the host bits |
| Utils.OctetWraps | lib/utils.ts:20-34 | an address whose first part reads as a + 256 is accepted for the network whose first part is a and whose other parts agree, under every prefix |
| Utils.OversizedOctetWraps | lib/utils.ts:18-38 | a written-out first octet of a + 256, such as `256.0.0.1`, is accepted for the network `a.b.c.d/n`, whatever n is |
| Utils.TopBitsMatch | lib/utils.ts:23-34 | for a prefix p in 1..32, acceptance holds exactly when the top p bits of address and network agree |
| Utils.DegeneratePrefixIsExact | lib/utils.ts:21-32 | prefix 0, a missing prefix or a non-numeric prefix accepts only the network address itself |
| Utils.OversizedPrefixWraps | lib/utils.ts:32 | prefix 33 compares only the top bit, because the shift count wraps |
| Utils.DottedQuadParts | lib/utils.ts:20 | a written-out dotted quad reads back as its four numbers |
| Utils.CidrParts | lib/utils.ts:21-23 | `network/prefix` splits back into its network and its prefix |
| Utils.Subnet24 | lib/utils.ts:18-38 | with /24, a dotted quad is accepted exactly when its first three octets equal the network's |
| Utils.Octets24 | lib/utils.ts:18-38 | for octet quads with /24, acceptance holds exactly when the first three octets equal the network's |
| Utils.MobileNetworkExample | lib/utils.ts:18-38 | 192.168.10.5 is in 192.168.10.0/24 and 192.168.99.5 is not |
| Utils.TrailingDotAccepted | lib/utils.ts:20-34 | an address with an empty last octet, such as `192.168.10.`, is accepted for its /24 network |
| Utils.GetClientIp | lib/utils.ts:3-16 | a header-derived address is trimmed; the result is never empty when no header is used |
| Utils.ClientIpPrecedence | lib/utils.ts:3-16 | the first `x-forwarded-for` entry wins, stripped of whitespace and without commas; then `x-real-ip` stripped; then the socket address; then 127.0.0.1 |
| Utils.GetExpirationTime | lib/utils.ts:67-70 | the expiry is exactly `hours` hours after the clock reading |
| Utils.TimeRemaining | lib/utils.ts:84-95 | `Expired` exactly when no time is left; otherwise minutes and seconds are below 60, and hours/minutes/seconds are the time left rounded down to the second |
| Utils.ExpiredText | lib/utils.ts:84-97 | the text is "Expired" exactly when the expiry is not in the future |
| Utils.ExpirationRoundTrip | lib/utils.ts:67-97 | measured at the same instant, an expiry set `h` hours ahead shows `h` hours, 0 minutes and 0 seconds |
| Nftables.Setting | lib/nftables.ts:6-12 | an unset or empty variable falls back to the default; otherwise the variable's value is used; with a non-empty default the setting is never empty |
| Nftables.ConfigFrom | lib/nftables.ts:6-12 | whatever the environment, no setting is empty, so every command names a table, namespace, set, networks, server address and port; a non-empty `SERVER_HOST` is used as the server address |
| Nftables.DefaultConfig | lib/nftables.ts:6-12 | with an empty environment the settings are the built-in table, namespace, set, networks, server and port |
| Nftables.InitCommands | lib/nftables.ts:20-68 | initialization issues thirteen commands, the k-th being the k-th command of the source |
| Nftables.ClassifyStrict | lib/nftables.ts:81-95 | add and list succeed exactly when the command completed with an empty stderr; a failure carries the stderr or the thrown message |
| Nftables.ClassifyDelete | lib/nftables.ts:101-115 | delete succeeds exactly when it completed and its stderr is empty or mentions "No such file or directory"; a throw always fails |
| Nftables.ThrownDeleteFails | lib/nftables.ts:107-114 | the missing-element tolerance applies to stderr only, never to a thrown message |
| Nftables.DeleteAtLeastAsLenient | lib/nftables.ts:87-111 | every outcome an add accepts, a delete accepts, with the same result |
| Nftables.FirstThrow | lib/nftables.ts:21-73 | it finds the first command that threw; every earlier one completed |
| Nftables.InitResult | lib/nftables.ts:20-74 | initialization succeeds exactly when no command threw; otherwise the first thrown message is returned; stderr is never read |
| Nftables.InitRunLength | lib/nftables.ts:21-71 | the commands run up to and including the first that throws |
| Nftables.FirstThrowAt | lib/nftables.ts:21-73 | a throw at i preceded only by completions is the first throw |
| Nftables.Firewall.Init | lib/nftables.ts:20-74 | the loop issues the commands in order and stops after the first throw; the set is unchanged; the result is `InitResult` |
| Nftables.Firewall.AddPair | lib/nftables.ts:76-95 | one add command is issued; the element with its timeout is present afterwards iff the command completed; the result is `ClassifyStrict` |
| Nftables.Firewall.DeletePair | lib/nftables.ts:97-115 | one delete command is issued; the element is absent afterwards iff the command completed; the result is `ClassifyDelete` |
| Nftables.Firewall.ListPairs | lib/nftables.ts:117-131 | the set is unchanged; one list command is issued; the result is `ClassifyStrict` |
| Nftables.AddThenDelete | lib/nftables.ts:76-115 | over the set changes that `AddPair` and `DeletePair` promise: a completed delete after an add leaves the set as it was without that element, timeouts included, whatever the add did; after a thrown delete the element has the new timeout exactly when the add completed, and every other element and its timeout is unchanged |
| Models.NewDevice | models/Device.ts:12-43 | the required strings are trimmed; the MAC address is trimmed and has no lower-case letters; createdAt is now; status is active |
| Models.MacSetter | models/Device.ts:29-33 | an optional MAC address stays absent or becomes trimmed and upper-case |
| Models.NewDeviceValid | models/Device.ts:13-28 | a new device passes `required` exactly when no required field is blank, and is then stored as built |
| Models.NewSession | models/Session.ts:15-57 | room and addresses are trimmed, the id is not; createdAt and lastActivity default to now; active defaults to true |
| Models.TrimOptional | models/Session.ts:49-52 | an optional string stays absent or becomes trimmed |
| Models.NewSessionValid | models/Session.ts:16-35 | a new session passes `required` exactly when its id is non-empty and its room and addresses are not blank |
| Models.StoredValuesKept | models/Session.ts:21-35 | values that are already trimmed are stored unchanged |
| Store.FindDevice | app/api/sessions/route.ts:38-41 | a device is found exactly when one with that room is stored, and what is found has that room |
| Store.FindDeviceUnique | models/Device.ts:13-18 | with unique rooms, lookup returns the one device of that room |
| Store.Deactivated | lib/session-cleaner.ts:21 | the session with that id becomes inactive and nothing else changes |
| Store.Database.SaveDevice | app/api/devices/route.ts:36 | the outcome is validation, then the unique room index, then a store failure; the device is appended iff saved; the invariants are kept |
| Store.Database.SaveSession | app/api/sessions/route.ts:101 | the outcome is validation, then the unique id index, then a store failure; the session is appended iff saved; the invariants are kept |
| Store.Database.DeactivateSession | lib/session-cleaner.ts:21 | the collection becomes `Deactivated`; the invariants are kept |
| Store.Database.Log | lib/logger.ts:11-26 | the entry is appended to the log and nothing else changes |
| Listing.FilterContents | app/api/sessions/route.ts:16 | a `find` keeps exactly the matching records, each as often as stored |
| Listing.CountIsFilterLength | app/api/status/route.ts:14-17 | `countDocuments` equals the length of the matching `find` |
| Listing.SortByCorrect | app/api/sessions/route.ts:16-18 | the sorted listing is a permutation of its input and is ordered by the key |
| Listing.FilterSortCorrect | app/api/devices/route.ts:10 | a filtered, sorted listing has exactly the matching records, each as often as stored, in order |
| Listing.LexLeTotal | app/api/devices/route.ts:10 | any two rooms are comparable |
| Listing.LexLeTransitive | app/api/devices/route.ts:10 | the room order is transitive |
| Listing.LexLeAntisymmetric | app/api/devices/route.ts:10 | two rooms ordered both ways are equal |
| SessionsRoute.Screen | app/api/sessions/route.ts:31-70 | the guard chain lets a request through exactly when a room is given, a device was found, both network checks passed and the device is active; what passes is the found device and the client address; every stop is a refusal |
| SessionsRoute.AdmitIff | app/api/sessions/route.ts:31-70 | the guards let the request through exactly when the room is given and registered under its trimmed value (the `trim` setter applies to the query), the client is in the mobile network, the device is in the Chromecast network and the device is active; what passes is the stored device of that room and the client address |
| SessionsRoute.RoomRefusals | app/api/sessions/route.ts:31-41 | a missing room gives 400 and an unknown room gives 404, neither logged |
| SessionsRoute.NetworkRefusals | app/api/sessions/route.ts:43-61 | a client outside the mobile network gives 400 with a warning naming the address; a device outside its network gives 500 with an error entry |
| SessionsRoute.InactiveRefused | app/api/sessions/route.ts:63-70 | an inactive device that passes the network checks gives 403 with a warning |
| SessionsRoute.ForbiddenOnlyIfInactive | app/api/sessions/route.ts:31-70 | 403 is given only for an inactive device that passed every earlier guard |
| SessionsRoute.TimeoutCoversSession | app/api/sessions/route.ts:73-76 | the element timeout is 7200 s plus the whole seconds between the two clock readings, so it is never under two hours |
| SessionsRoute.Post | app/api/sessions/route.ts:27-121 | on an unreadable body or a refusal, only the log changes, by the refusal's entry if any; past the guards, exactly one add command is issued and exactly one entry is logged; no session is saved unless the add succeeded; on success the saved session and the response describe the pair |
| SessionsRoute.ConnectEntry | app/api/sessions/route.ts:80-118 | the entry past the guards is informational exactly when the add succeeded and the session was saved; a firewall refusal is logged with the session id and client address |
| SessionsRoute.Connect | app/api/sessions/route.ts:72-120 | one add command for (client, device) with the session's timeout; the element is present iff the command completed; a failed add gives 500 "Authorization failed" and saves nothing; otherwise the session is appended iff the store saves it, and the response is the created session or 500 |
| SessionsRoute.SaveSessionLogged | app/api/sessions/route.ts:101-119 | the session is appended iff saved, with the store's outcome; the created response and entry follow a save, the 500 and the error entry follow a refusal |
| SessionsRoute.ConnectedSessionShape | app/api/sessions/route.ts:88-101 | a connect session is active, its room is the trimmed request room and equals the stored device's room, its device address is the stored device's, both addresses are in their networks, and the schema accepts it iff the id is non-empty |
| SessionsRoute.Get | app/api/sessions/route.ts:13-25 | the response is the listing or a 500; only a failure is logged |
| SessionsRoute.ActiveSessionsListed | app/api/sessions/route.ts:16-20 | the listing holds exactly the active sessions, each once per stored copy, newest first |
| SessionCleaner.ExpiredBatch | lib/session-cleaner.ts:11-14 | the batch is exactly the active sessions whose expiry is not after now |
| SessionCleaner.Sweep | lib/session-cleaner.ts:6-32 | each batch session has its pair deleted, is marked inactive and is logged, in order; a failing update ends the sweep after its delete; an uninterrupted sweep leaves no expired session active |
| SessionCleaner.CleanBatch | lib/session-cleaner.ts:16-24 | after the first n batch sessions, each in order has had its pair deleted, been marked inactive and been logged; the invariants are kept |
| SessionCleaner.SweepStep | lib/session-cleaner.ts:16-24 | one more loop iteration adds one delete command, one deactivated id and one log entry for the next batch session |
| SessionCleaner.DeactivateOneMore | lib/session-cleaner.ts:16-24 | marking one more session inactive extends the set of deactivated ids |
| SessionCleaner.SweepClearsExpired | lib/session-cleaner.ts:10-24 | after a full sweep no active session is past its expiry, every expired one is inactive, and every other session is untouched |
| SessionCleaner.PairsOnlyShrink | lib/session-cleaner.ts:16-18 | the sweep only removes elements and never changes a timeout; the element of every completed delete is gone |
| DevicesRoute.AddResponse | app/api/devices/route.ts:36-48 | 201 with the record iff saved; 400 for a taken room; 500 for a validation or store failure |
| DevicesRoute.Post | app/api/devices/route.ts:18-49 | a missing field gives 400 and changes nothing; otherwise the schema-built device is appended iff saved; success and failure are logged, a duplicate room is not |
| DevicesRoute.Register | app/api/devices/route.ts:29-48 | the schema-built device is appended iff saved; the response is `AddResponse` of the save outcome; the log gains one "Device added" entry when saved, nothing for a duplicate room, and one "Failed to add device" entry for any other failure |
| DevicesRoute.SaveResponse | app/api/devices/route.ts:36-47 | an invalid device gives 500; a valid one is created exactly when its room is free, and is otherwise refused with 400 |
| DevicesRoute.RegistrationOutcome | app/api/devices/route.ts:23-47 | a whitespace-only field passes the 400 check but fails the schema with 500; otherwise the device is stored iff its trimmed room is free, and else 400 |
| DevicesRoute.RegisteredDeviceFound | app/api/devices/route.ts:29-40 | a saved device keeps rooms unique and is found under its trimmed room |
| DevicesRoute.Get | app/api/devices/route.ts:7-16 | the response is the listing or a 500; only a failure is logged |
| DevicesRoute.ByRoomTotal | app/api/devices/route.ts:10 | room order is a total preorder on devices |
| DevicesRoute.ActiveDevicesListed | app/api/devices/route.ts:10 | the listing holds exactly the active devices, in ascending room order, with no room twice |
| DevicesRoute.DistinctRooms | models/Device.ts:13-18 | a listing that repeats no stored device has unique rooms |
| StatusRoute.Get | app/api/status/route.ts:9-36 | "running", the active-session count, the active-device count, nftables ok iff listing succeeded, the server address and the time; a store failure gives 500 before the firewall is asked |
| StatusRoute.ReportMatchesListings | app/api/status/route.ts:14-26 | the counts are the lengths of the listings; nftables is ok exactly when the list command completed with an empty stderr |
| Reachability.FirstFulfilledIsEarliest | lib/reachability.ts:13-19 | the result is the earliest fulfilled value in list order, and there is none only when every promise rejected |
| Reachability.PromiseAny | lib/reachability.ts:13-19 | the loop returns the first fulfilled value in list order, or rejects with "All promises were rejected" |
| Reachability.TcpFirstEventDecides | lib/reachability.ts:33-46 | the first socket event decides: connect gives true, timeout or error gives false, later events are ignored |
| Reachability.TcpProbe.Settle | lib/reachability.ts:35-40 | only the first call settles, destroys the socket and fixes the result |
| Reachability.TcpProbe.Handle | lib/reachability.ts:43-45 | an unsettled probe settles true on connect and false otherwise and destroys the socket; a settled one keeps its result and its socket state |
| Reachability.Probe | lib/reachability.ts:30-48 | feeding the events one by one gives the settled result |
| Reachability.Records | lib/reachability.ts:64 | the records examined are exactly the answers and the additionals |
| Reachability.MdnsTrueIff | lib/reachability.ts:50-80 | the check is true exactly when a matching response arrives before the timer; it stays pending only while nothing matched and the timer has not fired |
| Reachability.MdnsCheck.OnTimer | lib/reachability.ts:53-59 | the timer resolves false and destroys the responder unless the check already resolved, in which case nothing changes; the timer flag is never touched |
| Reachability.MdnsCheck.OnResponse | lib/reachability.ts:62-76 | the first matching response resolves true, clears the timer and destroys the responder; a non-matching or late response changes neither the result, the timer nor the responder |
| Reachability.Mdns | lib/reachability.ts:50-80 | feeding the events one by one gives the settled result |
| Reachability.FirstPortOnly | lib/reachability.ts:83-86 | as written, the TCP strategy reports the first port's probe |
| Reachability.OpenCastPortMissed | lib/reachability.ts:83-86 | as written, 8008 closed with 8009 and 8443 open is reported unreachable over TCP |
| Reachability.TcpAny | lib/reachability.ts:83-86 | the corrected TCP strategy succeeds exactly when some port accepts |
| Reachability.TcpAnyExtendsWritten | lib/reachability.ts:83-86 | the corrected strategy accepts whatever the written one accepts, and differs only when the first port is closed |
| Reachability.ReachableOnEvents | lib/reachability.ts:82-94 | from the events each strategy sees before its timeout: reachable exactly when every probe settled and port 8008's probe saw a connect first, or the ping ended without an error, or mDNS settled true |
| Reachability.ReachableWritten | lib/reachability.ts:82-94 | as written: reachable exactly when the TCP strategy settles in time with port 8008's probe true, or the ping command ends in time without an error, or mDNS matches in time |
| Reachability.Reachable | lib/reachability.ts:82-94 | corrected half of the finding: reachable exactly when some cast port accepts in time, the ping ends in time without an error, or mDNS matches in time |
| Reachability.OpenCastPortUnreachable | lib/reachability.ts:82-94 | as written, a device with 8008 closed, 8009 and 8443 open, the ping and mDNS timed out is reported unreachable; the corrected check reports it reachable |
| Reachability.ReachableExtendsWritten | lib/reachability.ts:82-94 | the corrected check reports reachable whenever the written one does, and they differ only when port 8008 is closed |
| Reachability.ReachableIsOr | lib/reachability.ts:87-93 | the result is the OR of the strategies; a timeout or failure counts as false |

## Left out

- Store connection (`connectDB`) and the asynchronous log writes are not modelled. A log entry is appended when logged, and a failed log write is invisible, as in the source.
- A thrown `Device.findOne` in the session POST handler has no input of its own. It is caught like an unreadable body, with the same 500 and error entry, which the `Malformed` path models.
- Concurrency is not modelled:
  - two requests for the same pair running at once;
  - sweeps that overlap;
  - the firewall's own timeout expiring elements.
  An element keeps the last timeout written to it.
- The timers of `setInterval`, `withTimeout` and the socket and mDNS timeouts are not modelled. What they produce is an input: a `TimerFires` or `Timeout` event, or a `Timed` outcome. `ReachableOnEvents` takes the events each strategy sees before its timeout. The `ip`, `port` and `timeoutMs` of a `TcpProbe` and the text of `PingCommand` only label the inputs; no socket or process is modelled.
- Exponent notation (`1e3`) in `Number()` is read as NaN.
- Numbers are integers. Values above 2^53, fractions and fractional `hours` are not modelled.
- `toUpperCase` and `trim` are modelled for ASCII letters and the JavaScript whitespace set. There is no other Unicode case mapping.
- `findOne({ room })` is modelled as a lookup of the trimmed room, which is what the `trim` setter of the room path makes of the query value. Other query casting, and non-string JSON values for room and the other fields, are not modelled. `populate('room')` is not modelled.
- `pingDevice`, `formatDate`, and the random and clock parts of `generateSessionId` are not modelled. The id is an input.
- Console output of the sweep and of its catch is not modelled.
- app/api/sessions/[id]/route.ts (manual termination) and the ping route are not part of this model.
- `findByIdAndUpdate(session._id, ...)` is modelled by the session's `id`, which the schema keeps unique.
- Init: requires one outcome per command. Commands after the first throw are never run, so their outcomes are ignored.
- IcmpPing: the platform switch of the ping command is only rendered as text (`PingCommand`). Whether the command exits with an error, and whether it ends before its timeout, are inputs to `ReachableWritten`.

## Findings

| source | as written | input that shows it | evidently intended | confidence | as-written member | corrected member |
|---|---|---|---|---|---|---|
| lib/reachability.ts:86 | `promiseAny` over `tcpProbe` promises that never reject returns the first port's probe result, so the TCP strategy reports port 8008 only | probe results `[false, true, true]` (8008 closed, 8009 and 8443 open) give false | the TCP strategy succeeds when any cast port accepts a connection | high; not executed | Reachability.OpenCastPortMissed | Reachability.TcpAny, Reachability.Reachable |
