/** The status endpoint (app/api/status/route.ts): counts from the store
    and whether the firewall set can be listed. */
module StatusRoute {
  import opened JsRuntime
  import opened Nftables
  import opened Models
  import opened Store
  import opened Listing

  datatype StatusResponse =
    | Report(status: string, activeSessions: nat, totalDevices: nat, nftablesOk: bool,
             serverIp: string, timestamp: int)
    | StatusFailed(httpStatus: nat, error: string)

  function SessionActive(s: Session): bool {
    s.active
  }

  function DeviceEnabled(d: Device): bool {
    d.status == Active
  }

  /** GET /api/status at time now. `storeFails` says whether a count
      throws, which happens before the firewall is asked; `listOutcome` is
      how the list command ends. */
  method Get(db: Database, fw: Firewall, now: int, storeFails: bool, listOutcome: CommandOutcome)
    returns (r: StatusResponse)
    modifies fw
    ensures fw.pairs == old(fw.pairs)
    ensures storeFails ==> r == StatusFailed(500, "Failed to get system status") && fw.issued == old(fw.issued)
    ensures !storeFails ==>
      r == Report("running", Count(db.sessions, SessionActive), Count(db.devices, DeviceEnabled),
                  ClassifyStrict(listOutcome).success, fw.config.serverIp, now)
      && fw.issued == old(fw.issued) + [ListCommand(fw.config)]
  {
    if storeFails {
      return StatusFailed(500, "Failed to get system status");
    }
    var activeSessions := Count(db.sessions, SessionActive);
    var totalDevices := Count(db.devices, DeviceEnabled);
    var nftResult := fw.ListPairs(listOutcome);
    return Report("running", activeSessions, totalDevices, nftResult.success, fw.config.serverIp, now);
  }

  /** The counts are the sizes of the two listings, and the firewall is
      reported ok exactly when the list command completed with an empty
      stderr. */
  lemma ReportMatchesListings(sessions: seq<Session>, devices: seq<Device>, listOutcome: CommandOutcome)
    ensures Count(sessions, SessionActive) == |Filter(sessions, SessionActive)|
    ensures Count(devices, DeviceEnabled) == |Filter(devices, DeviceEnabled)|
    ensures ClassifyStrict(listOutcome).success <==> listOutcome.Completed? && listOutcome.stderr == []
  {
    CountIsFilterLength(sessions, SessionActive);
    CountIsFilterLength(devices, DeviceEnabled);
  }
}
