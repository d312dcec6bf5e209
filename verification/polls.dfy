/** The script's polling loops. Each loop sleeps, looks at the page, and
    either decides or goes round again; here the page a loop would have seen
    on each iteration is supplied as a finite trace of observations, with the
    seconds elapsed since the loop started. A loop that has not decided by
    the end of its trace is `Unfinished`. */
module Polls {
  import opened Py
  import opened TimeLabel

  /** Runs `step` on the observations in order; the first iteration whose
      step is not `Unfinished` decides the loop. */
  function Poll<O, V>(trace: seq<O>, step: O -> Run<V>): (r: Run<V>)
    ensures r.Unfinished? <==> forall i :: 0 <= i < |trace| ==> step(trace[i]).Unfinished?
    ensures !r.Unfinished? ==>
              exists i :: 0 <= i < |trace| && step(trace[i]) == r &&
                forall j :: 0 <= j < i ==> step(trace[j]).Unfinished?
  {
    if |trace| == 0 then Unfinished
    else if !step(trace[0]).Unfinished? then step(trace[0])
    else
      var r := Poll(trace[1..], step);
      assert forall i :: 1 <= i < |trace| ==> trace[1..][i - 1] == trace[i];
      r
  }

  /** The first deciding iteration's verdict is the loop's verdict. */
  lemma {:induction false} PollDecidedAt<O, V>(trace: seq<O>, step: O -> Run<V>, i: nat)
    requires i < |trace| && !step(trace[i]).Unfinished?
    requires forall j :: 0 <= j < i ==> step(trace[j]).Unfinished?
    ensures Poll(trace, step) == step(trace[i])
  {
    if i > 0 {
      assert step(trace[0]).Unfinished?;
      assert trace[1..][i - 1] == trace[i];
      assert forall j :: 0 <= j < i - 1 ==> trace[1..][j] == trace[j + 1];
      PollDecidedAt(trace[1..], step, i - 1);
    }
  }

  // ---------------------------------------------------------------------
  // check_logged_in_what

  /** Seconds after which `check_logged_in_what` gives up. */
  const CheckTimeout: real := 120.0

  /** One iteration of `check_logged_in_what`: whether the QR-code landing
      page (`landing-wrapper`) and the logged-in marker (`g5RCg`) were
      found. Clicking away the "retrying" dialog has no effect on the
      decision and is not modelled. */
  datatype CheckObs = CheckObs(qrLanding: bool, loggedInMarker: bool, elapsed: real)

  /** The QR landing page is looked for first, then the logged-in marker,
      then the clock. */
  function CheckStep(o: CheckObs): Run<Value> {
    if o.qrLanding then Returned(Bool(false))
    else if o.loggedInMarker then Returned(Bool(true))
    else if o.elapsed > CheckTimeout then Returned(Int(-1))
    else Unfinished
  }

  /** `check_logged_in_what`: False, True, or the integer -1 on timeout. */
  function CheckLoggedIn(trace: seq<CheckObs>): Run<Value> {
    Poll(trace, CheckStep)
  }

  /** Nothing decided on iterations `0..i`: no landing page, no marker, no timeout. */
  predicate CheckQuietBefore(trace: seq<CheckObs>, i: int)
    requires i <= |trace|
  {
    forall j :: 0 <= j < i ==>
      !trace[j].qrLanding && !trace[j].loggedInMarker && trace[j].elapsed <= CheckTimeout
  }

  /** Exactly when `check_logged_in_what` returns each of its results: the
      landing page wins over the marker on the same iteration, True needs the
      marker without the landing page, and -1 needs the clock past 120 s
      with neither element on the page. */
  lemma CheckLoggedInOutcomes(trace: seq<CheckObs>)
    ensures CheckLoggedIn(trace) == Returned(Bool(false)) <==>
              exists i :: 0 <= i < |trace| && CheckQuietBefore(trace, i) && trace[i].qrLanding
    ensures CheckLoggedIn(trace) == Returned(Bool(true)) <==>
              exists i :: 0 <= i < |trace| && CheckQuietBefore(trace, i) &&
                !trace[i].qrLanding && trace[i].loggedInMarker
    ensures CheckLoggedIn(trace) == Returned(Int(-1)) <==>
              exists i :: 0 <= i < |trace| && CheckQuietBefore(trace, i) &&
                !trace[i].qrLanding && !trace[i].loggedInMarker && trace[i].elapsed > CheckTimeout
    ensures CheckLoggedIn(trace).Unfinished? <==> CheckQuietBefore(trace, |trace|)
    ensures CheckLoggedIn(trace) in {Returned(Bool(false)), Returned(Bool(true)), Returned(Int(-1)), Unfinished}
  {
    var r := CheckLoggedIn(trace);
    forall i | 0 <= i < |trace| && CheckQuietBefore(trace, i) && !CheckStep(trace[i]).Unfinished?
      ensures r == CheckStep(trace[i])
    {
      PollDecidedAt(trace, CheckStep, i);
    }
    if !r.Unfinished? {
      var k :| 0 <= k < |trace| && CheckStep(trace[k]) == r &&
                forall j :: 0 <= j < k ==> CheckStep(trace[j]).Unfinished?;
      assert CheckQuietBefore(trace, k);
    }
  }

  // ---------------------------------------------------------------------
  // login_what

  /** Seconds after which `login_what` gives up. */
  const LoginTimeout: real := 120.0

  /** One iteration of `login_what`, shown to a person scanning the QR code:
      whether the logged-in marker (`g5RCg`) was found. */
  datatype LoginObs = LoginObs(loggedInMarker: bool, elapsed: real)

  function LoginStep(o: LoginObs): Run<Value> {
    if o.loggedInMarker then Returned(Bool(true))
    else if o.elapsed > LoginTimeout then Returned(Str("TIMEOUT"))
    else Unfinished
  }

  /** `login_what`: True once the marker shows, "TIMEOUT" after 120 s. */
  function LoginWhat(trace: seq<LoginObs>): Run<Value> {
    Poll(trace, LoginStep)
  }

  predicate LoginQuietBefore(trace: seq<LoginObs>, i: int)
    requires i <= |trace|
  {
    forall j :: 0 <= j < i ==> !trace[j].loggedInMarker && trace[j].elapsed <= LoginTimeout
  }

  /** `login_what` returns True or "TIMEOUT" and nothing else, each exactly
      when the first deciding iteration shows the marker or the clock past 120 s. */
  lemma LoginWhatOutcomes(trace: seq<LoginObs>)
    ensures LoginWhat(trace) == Returned(Bool(true)) <==>
              exists i :: 0 <= i < |trace| && LoginQuietBefore(trace, i) && trace[i].loggedInMarker
    ensures LoginWhat(trace) == Returned(Str("TIMEOUT")) <==>
              exists i :: 0 <= i < |trace| && LoginQuietBefore(trace, i) &&
                !trace[i].loggedInMarker && trace[i].elapsed > LoginTimeout
    ensures LoginWhat(trace).Unfinished? <==> LoginQuietBefore(trace, |trace|)
    ensures LoginWhat(trace) in {Returned(Bool(true)), Returned(Str("TIMEOUT")), Unfinished}
  {
    var r := LoginWhat(trace);
    forall i | 0 <= i < |trace| && LoginQuietBefore(trace, i) && !LoginStep(trace[i]).Unfinished?
      ensures r == LoginStep(trace[i])
    {
      PollDecidedAt(trace, LoginStep, i);
    }
    if !r.Unfinished? {
      var k :| 0 <= k < |trace| && LoginStep(trace[k]) == r &&
                forall j :: 0 <= j < k ==> LoginStep(trace[j]).Unfinished?;
      assert LoginQuietBefore(trace, k);
    }
  }

  // ---------------------------------------------------------------------
  // check_validity_no

  /** Seconds after which `check_validity_no` gives up. */
  const ValidityTimeout: real := 120.0

  /** The text WhatsApp shows for a number without an account. */
  const InvalidNumberText: string := "Phone number shared via url is invalid."

  /** One iteration of `check_validity_no`: whether the warning box
      (`_3NCh_`) was found, the text of its message element (`_3SRfO`, None
      when that lookup failed), and whether the compose box (`_1-qgF`) was
      found. */
  datatype ValidityObs = ValidityObs(warningBox: bool, warningText: Option<string>, composeBox: bool, elapsed: real)

  /** The iteration shows the invalid-number warning. */
  predicate ShowsInvalid(o: ValidityObs) {
    o.warningBox && o.warningText == Some(InvalidNumberText)
  }

  /** The warning is looked for first, then the compose box, then the clock. */
  function ValidityStep(o: ValidityObs): Run<Value> {
    if ShowsInvalid(o) then Returned(Bool(false))
    else if o.composeBox then Returned(Bool(true))
    else if o.elapsed > ValidityTimeout then Returned(Str("TIMEOUT"))
    else Unfinished
  }

  /** `check_validity_no`: False for an unregistered number, True once the
      compose box shows, "TIMEOUT" after 120 s. */
  function CheckValidity(trace: seq<ValidityObs>): Run<Value> {
    Poll(trace, ValidityStep)
  }

  predicate ValidityQuietBefore(trace: seq<ValidityObs>, i: int)
    requires i <= |trace|
  {
    forall j :: 0 <= j < i ==>
      !ShowsInvalid(trace[j]) && !trace[j].composeBox && trace[j].elapsed <= ValidityTimeout
  }

  /** The first iteration that shows the warning or the compose box decides,
      with the warning winning when both show; "TIMEOUT" needs an iteration
      past 120 s that shows neither. */
  lemma CheckValidityOutcomes(trace: seq<ValidityObs>)
    ensures CheckValidity(trace) == Returned(Bool(false)) <==>
              exists i :: 0 <= i < |trace| && ValidityQuietBefore(trace, i) && ShowsInvalid(trace[i])
    ensures CheckValidity(trace) == Returned(Bool(true)) <==>
              exists i :: 0 <= i < |trace| && ValidityQuietBefore(trace, i) &&
                !ShowsInvalid(trace[i]) && trace[i].composeBox
    ensures CheckValidity(trace) == Returned(Str("TIMEOUT")) <==>
              exists i :: 0 <= i < |trace| && ValidityQuietBefore(trace, i) &&
                !ShowsInvalid(trace[i]) && !trace[i].composeBox && trace[i].elapsed > ValidityTimeout
    ensures CheckValidity(trace).Unfinished? <==> ValidityQuietBefore(trace, |trace|)
    ensures CheckValidity(trace) in {Returned(Bool(false)), Returned(Bool(true)), Returned(Str("TIMEOUT")), Unfinished}
  {
    var r := CheckValidity(trace);
    forall i | 0 <= i < |trace| && ValidityQuietBefore(trace, i) && !ValidityStep(trace[i]).Unfinished?
      ensures r == ValidityStep(trace[i])
    {
      PollDecidedAt(trace, ValidityStep, i);
    }
    if !r.Unfinished? {
      var k :| 0 <= k < |trace| && ValidityStep(trace[k]) == r &&
                forall j :: 0 <= j < k ==> ValidityStep(trace[j]).Unfinished?;
      assert ValidityQuietBefore(trace, k);
    }
  }

  // ---------------------------------------------------------------------
  // The delivery loop of send_message

  /** Seconds after which the delivery loop gives up. */
  const DeliveryTimeout: real := 120.0

  /** One iteration of the delivery loop. `LookupFailed`: finding the last
      outgoing bubble, its time label (`_17Osw`) or its status icon (`_2nWgr`
      and its `span`) raised. `Bubble`: the label's text and the icon's
      `aria-label` attribute (None when the attribute is absent). */
  datatype DeliveryObs =
    | LookupFailed
    | Bubble(timeText: string, statusLabel: Option<string>, elapsed: real)

  datatype Delivery = Confirmed | TimedOut

  /** The bubble is stamped at or after the minute the send started. */
  predicate StampedSince(o: DeliveryObs, start: Clock)
    requires o.Bubble?
  {
    ConvertToSecs(o.timeText).Some? && ConvertToSecs(o.timeText).value >= SecondsOfDay(start)
  }

  /** The bubble test `convert_to_secs(send_time) >= now_` compares the
      label's (hour, minute), in the code's 24-hour reading, with the start
      minute lexicographically; a label that does not convert to a valid
      time of day never passes. */
  lemma StampedSinceIsLexicographic(o: DeliveryObs, start: Clock)
    requires o.Bubble? && IsTimeOfDay(start)
    ensures StampedSince(o, start) <==>
              var c := ConvertTo24(Strip(o.timeText));
              && c.Some? && IsTimeOfDay(c.value)
              && (c.value.hour > start.hour || (c.value.hour == start.hour && c.value.minute >= start.minute))
  {
    var c := ConvertTo24(Strip(o.timeText));
    if c.Some? && IsTimeOfDay(c.value) {
      SameDayOrderIsLexicographic(c.value, start);
    }
  }

  /** The bubble's status, stripped, is something other than "Pending". */
  predicate NotPending(o: DeliveryObs)
    requires o.Bubble?
  {
    o.statusLabel.Some? && Strip(o.statusLabel.value) != "Pending"
  }

  /** A failed lookup skips the rest of the iteration, timeout test included.
      Otherwise the time label is converted outside any `try`, so a label
      that does not convert raises out of `send_message`; a bubble stamped
      since the start minute is confirmed unless its status is "Pending"
      (a missing status raises on `.strip()`); only then is the clock
      tested. */
  function DeliveryStep(start: Clock, o: DeliveryObs): Run<Delivery> {
    match o
    case LookupFailed => Unfinished
    case Bubble(text, status, elapsed) =>
      match ConvertToSecs(text)
      case None => Raised
      case Some(secs) =>
        if secs >= SecondsOfDay(start) && status.None? then Raised
        else if secs >= SecondsOfDay(start) && Strip(status.value) != "Pending" then Returned(Confirmed)
        else if elapsed > DeliveryTimeout then Returned(TimedOut)
        else Unfinished
  }

  /** The `while True` loop after the send button is clicked; `start` is the
      minute (`now_`) taken before waiting for the send button. */
  function AwaitDelivery(start: Clock, trace: seq<DeliveryObs>): Run<Delivery> {
    Poll(trace, o => DeliveryStep(start, o))
  }

  /** No iteration before `i` decided the delivery loop. */
  predicate DeliveryQuietBefore(start: Clock, trace: seq<DeliveryObs>, i: int)
    requires i <= |trace|
  {
    forall j :: 0 <= j < i ==> DeliveryStep(start, trace[j]).Unfinished?
  }

  /** The observation shows a bubble stamped since `start` whose status is
      not "Pending". */
  predicate ConfirmsDelivery(start: Clock, o: DeliveryObs) {
    o.Bubble? && StampedSince(o, start) && NotPending(o)
  }

  /** One iteration confirms exactly when it shows a bubble stamped since
      `start` whose status is not "Pending". */
  lemma DeliveryStepConfirms(start: Clock, o: DeliveryObs)
    ensures DeliveryStep(start, o) == Returned(Confirmed) <==> ConfirmsDelivery(start, o)
  {
  }

  /** The delivery loop never confirms on a bubble whose status reads
      "Pending", nor on one stamped before the send started: it confirms
      exactly when the first deciding iteration shows a bubble stamped since
      `start` with another status. */
  lemma ConfirmedExactlyWhenNotPending(start: Clock, trace: seq<DeliveryObs>)
    ensures AwaitDelivery(start, trace) == Returned(Confirmed) <==>
              exists i :: 0 <= i < |trace| && DeliveryQuietBefore(start, trace, i) &&
                ConfirmsDelivery(start, trace[i])
  {
    var step := o => DeliveryStep(start, o);
    if i :| 0 <= i < |trace| && DeliveryQuietBefore(start, trace, i) && ConfirmsDelivery(start, trace[i]) {
      DeliveryStepConfirms(start, trace[i]);
      PollDecidedAt(trace, step, i);
    }
    if AwaitDelivery(start, trace) == Returned(Confirmed) {
      var k :| 0 <= k < |trace| && step(trace[k]) == Returned(Confirmed) &&
                forall j :: 0 <= j < k ==> step(trace[j]).Unfinished?;
      DeliveryStepConfirms(start, trace[k]);
      assert DeliveryQuietBefore(start, trace, k);
    }
  }

  /** "SEND_TIMEOUT" needs an iteration on which every lookup succeeded and
      the clock was past 120 s: iterations whose lookups fail never time
      out, however long they take. */
  lemma TimeoutNeedsCompleteLookup(start: Clock, trace: seq<DeliveryObs>)
    ensures AwaitDelivery(start, trace) == Returned(TimedOut) ==>
              exists i :: 0 <= i < |trace| && trace[i].Bubble? && trace[i].elapsed > DeliveryTimeout &&
                (StampedSince(trace[i], start) ==> !NotPending(trace[i]))
    ensures (forall i :: 0 <= i < |trace| ==> trace[i].LookupFailed?) ==> AwaitDelivery(start, trace).Unfinished?
  {
    var step := o => DeliveryStep(start, o);
    var r := AwaitDelivery(start, trace);
    if r == Returned(TimedOut) {
      var k :| 0 <= k < |trace| && step(trace[k]) == r &&
                forall j :: 0 <= j < k ==> step(trace[j]).Unfinished?;
      DeliveryStepTimesOut(start, trace[k]);
    }
  }

  /** One iteration times out only on a bubble past 120 s that did not
      confirm. */
  lemma DeliveryStepTimesOut(start: Clock, o: DeliveryObs)
    requires DeliveryStep(start, o) == Returned(TimedOut)
    ensures o.Bubble? && o.elapsed > DeliveryTimeout && (StampedSince(o, start) ==> !NotPending(o))
  {
  }
}
