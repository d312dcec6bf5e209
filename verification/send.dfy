/** `send_message`: open a tab on the compose URL, check that the number is
    registered, click send, and wait for the new bubble to leave "Pending". */
module Send {
  import opened Py
  import opened TimeLabel
  import opened Polls

  /** Everything the page shows one `send_message` call: the validity
      loop's observations, whether the send button appears within the
      500 s `WebDriverWait`, the minute (`now_`) taken before waiting for the send button,
      and the delivery loop's observations. */
  datatype Scenario = Scenario(
    validity: seq<ValidityObs>,
    sendButtonShown: bool,
    start: Clock,
    delivery: seq<DeliveryObs>)

  /** What a call returns (or raises), and whether it closed the tab it
      opened. */
  datatype SendRun = SendRun(result: Run<Value>, closesTab: bool)

  /** The dispatch on `check_validity_no`'s result uses Python `==`: False
      closes the tab and returns False, "TIMEOUT" closes it and returns
      "VALIDITY_CHECK_TIMEOUT", anything else goes on to send. A send button
      that never appears raises from `WebDriverWait`. A confirmed delivery
      closes the tab and returns True; a delivery timeout returns
      "SEND_TIMEOUT" with the tab still open. */
  function SendMessage(sc: Scenario): SendRun {
    match CheckValidity(sc.validity)
    case Raised => SendRun(Raised, false)
    case Unfinished => SendRun(Unfinished, false)
    case Returned(v) =>
      if Eq(v, Bool(false)) then SendRun(Returned(Bool(false)), true)
      else if Eq(v, Str("TIMEOUT")) then SendRun(Returned(Str("VALIDITY_CHECK_TIMEOUT")), true)
      else if !sc.sendButtonShown then SendRun(Raised, false)
      else
        match AwaitDelivery(sc.start, sc.delivery)
        case Returned(Confirmed) => SendRun(Returned(Bool(true)), true)
        case Returned(TimedOut) => SendRun(Returned(Str("SEND_TIMEOUT")), false)
        case Raised => SendRun(Raised, false)
        case Unfinished => SendRun(Unfinished, false)
  }

  /** The four values `send_message` can return. */
  predicate IsSendResult(v: Value) {
    v in {Bool(true), Bool(false), Str("VALIDITY_CHECK_TIMEOUT"), Str("SEND_TIMEOUT")}
  }

  /** Each result of `send_message`, exactly when it arises: False and
      "VALIDITY_CHECK_TIMEOUT" come straight from the validity check, True
      needs a valid number, a send button and a confirmed delivery, and
      "SEND_TIMEOUT" a delivery timeout. The tab is closed on every return
      except "SEND_TIMEOUT". */
  lemma SendMessageOutcomes(sc: Scenario)
    ensures SendMessage(sc).result == Returned(Bool(false)) <==>
              CheckValidity(sc.validity) == Returned(Bool(false))
    ensures SendMessage(sc).result == Returned(Str("VALIDITY_CHECK_TIMEOUT")) <==>
              CheckValidity(sc.validity) == Returned(Str("TIMEOUT"))
    ensures SendMessage(sc).result == Returned(Bool(true)) <==>
              CheckValidity(sc.validity) == Returned(Bool(true)) && sc.sendButtonShown &&
              AwaitDelivery(sc.start, sc.delivery) == Returned(Confirmed)
    ensures SendMessage(sc).result == Returned(Str("SEND_TIMEOUT")) <==>
              CheckValidity(sc.validity) == Returned(Bool(true)) && sc.sendButtonShown &&
              AwaitDelivery(sc.start, sc.delivery) == Returned(TimedOut)
    ensures SendMessage(sc).result.Returned? ==> IsSendResult(SendMessage(sc).result.value)
    ensures SendMessage(sc).closesTab <==>
              SendMessage(sc).result.Returned? && SendMessage(sc).result.value != Str("SEND_TIMEOUT")
  {
    CheckValidityOutcomes(sc.validity);
  }

  /** `send_message` returns True only after the delivery loop saw a bubble
      stamped since the send started whose status was not "Pending". */
  lemma SentOnlyWhenNotPending(sc: Scenario)
    requires SendMessage(sc).result == Returned(Bool(true))
    ensures exists i :: 0 <= i < |sc.delivery| && DeliveryQuietBefore(sc.start, sc.delivery, i) &&
              ConfirmsDelivery(sc.start, sc.delivery[i])
  {
    SendMessageOutcomes(sc);
    ConfirmedExactlyWhenNotPending(sc.start, sc.delivery);
  }
}
