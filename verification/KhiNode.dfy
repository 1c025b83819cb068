/** The KHI node: error callback, publishing and alarm recovery. */
module KhiNode {
  import opened Messages
  import opened ServiceCalls
  import opened KhiStatus
  import opened KhiText
  import Sys = StatusSystem

  const DISCOVER_MS := 2000

  class KhiOperationalStateNode {
    const serviceTimeoutMs: nat
    var operationalStatus: OperationalStatus
    ghost var published: seq<OperationalStatus>

    constructor (serviceTimeoutMs: nat)
      ensures operationalStatus == OperationalStatus(ENABLED, "") && published == []
      ensures operationalStatus == Sys.StatusOf(Sys.KhiRobot(Sys.Started))
      ensures this.serviceTimeoutMs == serviceTimeoutMs
    {
      this.serviceTimeoutMs := serviceTimeoutMs;
      operationalStatus := OperationalStatus(ENABLED, "");
      published := [];
    }

    method ErrorInfoCallback(msg: ErrorInfo)
      modifies this
      ensures operationalStatus == Sys.StatusOf(Sys.KhiRobot(Sys.Reported(msg)))
      ensures operationalStatus == StatusOf(Some(msg))
      ensures published == old(published) + [operationalStatus]
    {
      operationalStatus := ToOperationalStatus(Some(msg));
      var statusToPublish := operationalStatus;
      published := published + [statusToPublish];
    }

    method PublishOperationalStatus()
      modifies this`published
      ensures published == old(published) + [operationalStatus]
    {
      var statusToPublish := operationalStatus;
      published := published + [statusToPublish];
    }

    /** A successful reset writes and publishes ENABLED; any other outcome leaves the cache and
        the topic alone, and a refusal is reported with the joined messages of the service. */
    method ClearFaults(service: Behaviour, errorMsgs: seq<string>)
      returns (code: StatusCode, details: string, waitedMs: nat)
      modifies this`operationalStatus, this`published
      ensures var reply := Call(service, 2000, serviceTimeoutMs);
              && waitedMs == reply.waitedMs
              && code == (match reply.outcome
                          case NotAvailable => UNAVAILABLE
                          case TimedOut => DEADLINE_EXCEEDED
                          case Refused => INTERNAL
                          case Accepted => OK)
              && (code == INTERNAL ==> details == if AllEmpty(errorMsgs) then "unknown error"
                                                  else Join("; ", DropLeadingEmpty(errorMsgs)))
      ensures code == OK ==>
        && operationalStatus == OperationalStatus(ENABLED, "") == Sys.StatusOf(Sys.KhiRobot(Sys.ResetAcknowledged))
        && published == old(published) + [operationalStatus]
      ensures code != OK ==> unchanged(this)
    {
      var reply := Call(service, DISCOVER_MS, serviceTimeoutMs);
      waitedMs := reply.waitedMs;
      details := "";
      if reply.outcome == NotAvailable {
        return UNAVAILABLE, details, waitedMs;
      }
      if reply.outcome == TimedOut {
        return DEADLINE_EXCEEDED, details, waitedMs;
      }
      if reply.outcome == Refused {
        details := JoinNonEmpty("; ", errorMsgs);
        if details == "" {
          details := "unknown error";
        }
        return INTERNAL, details, waitedMs;
      }
      operationalStatus := OperationalStatus(ENABLED, "");
      PublishOperationalStatus();
      return OK, details, waitedMs;
    }
  }
}
