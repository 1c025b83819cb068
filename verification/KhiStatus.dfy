/** How the KHI node turns the driver's error list into an OperationalStatus. */
module KhiStatus {
  import opened Messages
  import opened KhiText

  datatype ErrorInfo = ErrorInfo(errorCodes: seq<int>, errorMsgs: seq<string>)

  /** The fault details: the joined messages, or the joined codes when there are none. */
  function Details(e: ErrorInfo): string {
    if AllEmpty(e.errorMsgs) then Join(", ", Decimals(e.errorCodes))
    else Join("; ", DropLeadingEmpty(e.errorMsgs))
  }

  function FaultText(details: string): string {
    "KHI robot error active: " + details + ". Call clear_faults to recover."
  }

  function StatusOf(e: Option<ErrorInfo>): (s: OperationalStatus)
    ensures s.state == ENABLED || s.state == FAULTED
    ensures s.state == ENABLED <==> e.None? || e.value.errorCodes == []
    ensures s.state == ENABLED ==> s.message == ""
  {
    if e.None? || e.value.errorCodes == [] then OperationalStatus(ENABLED, "")
    else OperationalStatus(FAULTED, FaultText(Details(e.value)))
  }

  method ToOperationalStatus(errorInfo: Option<ErrorInfo>) returns (status: OperationalStatus)
    ensures status == StatusOf(errorInfo)
  {
    if errorInfo.None? || |errorInfo.value.errorCodes| == 0 {
      return OperationalStatus(ENABLED, "");
    }
    var errorDetails := JoinNonEmpty("; ", errorInfo.value.errorMsgs);
    if errorDetails == "" {
      errorDetails := JoinCodes(errorInfo.value.errorCodes);
    }
    return OperationalStatus(FAULTED, FaultText(errorDetails));
  }

  /** `text` is `before`, `part` and `after`. */
  predicate Encloses(text: string, before: string, part: string, after: string) {
    text == before + part + after
  }

  /** What a fault says, in the report's own lists: the messages from the first non-empty one on,
      and only when there is none the codes. */
  lemma {:induction false} FaultMessageExactly(e: ErrorInfo)
    requires e.errorCodes != []
    ensures var s := StatusOf(Some(e));
            && s.state == FAULTED
            && (AllEmpty(e.errorMsgs) ==>
                  Encloses(s.message, "KHI robot error active: ", Join(", ", Decimals(e.errorCodes)),
                           ". Call clear_faults to recover."))
            && forall k :: 0 <= k < |e.errorMsgs| && AllEmpty(e.errorMsgs[..k]) && e.errorMsgs[k] != "" ==>
                 Encloses(s.message, "KHI robot error active: ", Join("; ", e.errorMsgs[k..]),
                          ". Call clear_faults to recover.")
  {
    forall k | 0 <= k < |e.errorMsgs| && AllEmpty(e.errorMsgs[..k]) && e.errorMsgs[k] != ""
      ensures DropLeadingEmpty(e.errorMsgs) == e.errorMsgs[k..] && !AllEmpty(e.errorMsgs)
    {
      DroppedIs(e.errorMsgs, k);
    }
  }

  /** Every fault carries details: the messages when one is non-empty, and otherwise a text
      from which the codes can be read back. */
  lemma {:induction false} FaultHasDetails(e: ErrorInfo)
    requires StatusOf(Some(e)).state == FAULTED
    ensures Details(e) != ""
    ensures AllEmpty(e.errorMsgs) ==> ParseCodes(Details(e)) == e.errorCodes
  {
    if AllEmpty(e.errorMsgs) {
      CodesRoundTrip(e.errorCodes);
      assert Decimals(e.errorCodes)[0] != "";
    } else {
      DropSnoc(e.errorMsgs, "");
      assert DropLeadingEmpty(e.errorMsgs)[0] != "";
    }
  }
}
