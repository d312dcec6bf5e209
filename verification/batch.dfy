/** `multi_message`: check the login, let the operator log in (or give up)
    when needed, then send every message of the dictionary in order and
    report a status per phone number. */
module Batch {
  import opened Py
  import opened Polls
  import opened Send

  /** One `phone_number: message` pair of the input dictionary. */
  datatype Entry = Entry(phone: string, message: string)

  /** A dictionary's keys are distinct; its order is insertion order. */
  predicate DistinctPhones(entries: seq<Entry>) {
    forall i, j :: 0 <= i < j < |entries| ==> entries[i].phone != entries[j].phone
  }

  function Phones(entries: seq<Entry>): (ps: seq<string>)
    ensures |ps| == |entries|
    ensures forall k :: 0 <= k < |entries| ==> ps[k] == entries[k].phone
  {
    seq(|entries|, k requires 0 <= k < |entries| => entries[k].phone)
  }

  function PhoneSet(entries: seq<Entry>): set<string> {
    set e | e in entries :: e.phone
  }

  /** What `multi_message` returns: the status dictionary, or a plain value
      ("LOGIN_CHECK_TIMEOUT", "ABORTED" or None). */
  datatype BatchResult = Report(status: map<string, Value>) | Plain(v: Value)

  /** A run of `multi_message` and the phone numbers it called
      `send_message` for, in call order. */
  datatype Outcome = Outcome(ret: Run<BatchResult>, attempted: seq<string>)

  // ---------------------------------------------------------------------
  // Operator prompts

  /** The two answers the prompts accept. */
  datatype Answer = One | Two

  /** A line that, stripped, is "1" or "2". */
  predicate IsAnswer(line: string) {
    Strip(line) == "1" || Strip(line) == "2"
  }

  function AnswerOf(line: string): Answer {
    if Strip(line) == "1" then One else Two
  }

  function PromptFrom(inputs: seq<string>, i: nat): (r: Option<(Answer, nat)>)
    ensures r.Some? ==> i <= r.value.1 < |inputs|
    decreases |inputs| - i
  {
    if i >= |inputs| then None
    else if IsAnswer(inputs[i]) then Some((AnswerOf(inputs[i]), i))
    else PromptFrom(inputs, i + 1)
  }

  /** One `while` prompt loop: read lines until one strips to "1" or "2"
      ("Wrong input." for any other), giving the answer and the index of the
      line that gave it. None: the input ran out, so `input()` raises
      `EOFError`. */
  function Prompt(inputs: seq<string>): (r: Option<(Answer, nat)>)
    ensures r.Some? ==> r.value.1 < |inputs|
  {
    PromptFrom(inputs, 0)
  }

  lemma {:induction false} PromptFromSpec(inputs: seq<string>, i: nat)
    ensures PromptFrom(inputs, i).Some? ==>
              var (a, k) := PromptFrom(inputs, i).value;
              IsAnswer(inputs[k]) && a == AnswerOf(inputs[k]) &&
              forall j :: i <= j < k ==> !IsAnswer(inputs[j])
    ensures PromptFrom(inputs, i).None? ==> forall j :: i <= j < |inputs| ==> !IsAnswer(inputs[j])
    decreases |inputs| - i
  {
    if i < |inputs| && !IsAnswer(inputs[i]) {
      PromptFromSpec(inputs, i + 1);
    }
  }

  /** The prompt answers with the first line that strips to "1" or "2",
      skipping every other line, and raises only when no such line comes. */
  lemma PromptSpec(inputs: seq<string>)
    ensures Prompt(inputs).Some? ==>
              var (a, k) := Prompt(inputs).value;
              IsAnswer(inputs[k]) && a == AnswerOf(inputs[k]) &&
              forall j :: 0 <= j < k ==> !IsAnswer(inputs[j])
    ensures Prompt(inputs).None? <==> forall j :: 0 <= j < |inputs| ==> !IsAnswer(inputs[j])
  {
    PromptFromSpec(inputs, 0);
  }

  // ---------------------------------------------------------------------
  // The login loop

  /** How the `while a:` login loop ends: with the last `login_status`, or
      by returning "ABORTED". */
  datatype LoginExit = Ended(status: Value) | Aborted

  /** The `while a:` loop, entered when `check_logged_in_what` returned
      False. Each iteration calls `login_what` on the next attempt's
      observations. After True, the operator answers 1 (leave the loop) or 2
      (return "ABORTED"). After "TIMEOUT", 1 goes round again and 2 leaves
      the loop with `login_status` still "TIMEOUT". Any other result goes
      round again without a prompt. */
  function LoginLoop(attempts: seq<seq<LoginObs>>, inputs: seq<string>): Run<LoginExit>
    decreases |attempts|
  {
    if |attempts| == 0 then Unfinished
    else
      match LoginWhat(attempts[0])
      case Raised => Raised
      case Unfinished => Unfinished
      case Returned(status) =>
        if Eq(status, Bool(true)) then
          match Prompt(inputs)
          case None => Raised
          case Some((One, _)) => Returned(Ended(status))
          case Some((Two, _)) => Returned(Aborted)
        else if Eq(status, Str("TIMEOUT")) then
          match Prompt(inputs)
          case None => Raised
          case Some((One, k)) => LoginLoop(attempts[1..], inputs[k + 1..])
          case Some((Two, _)) => Returned(Ended(status))
        else LoginLoop(attempts[1..], inputs)
  }

  /** The login loop ends with True or "TIMEOUT" as the login status and
      with no other value. */
  lemma {:induction false} LoginLoopEndsLoggedInOrTimedOut(attempts: seq<seq<LoginObs>>, inputs: seq<string>)
    ensures LoginLoop(attempts, inputs).Returned? && LoginLoop(attempts, inputs).value.Ended? ==>
              LoginLoop(attempts, inputs).value.status in {Bool(true), Str("TIMEOUT")}
    decreases |attempts|
  {
    if |attempts| > 0 {
      LoginWhatOutcomes(attempts[0]);
      match Prompt(inputs)
      case None =>
      case Some((a, k)) =>
        LoginLoopEndsLoggedInOrTimedOut(attempts[1..], inputs[k + 1..]);
    }
  }

  // ---------------------------------------------------------------------
  // The send loop

  /** The status recorded for a `send_message` result: True is "SEND",
      False is "NUMBER_NOT_REGISTERED", anything else is stored as returned. */
  function StatusOf(v: Value): Value {
    if Eq(v, Bool(true)) then Str("SEND")
    else if Eq(v, Bool(false)) then Str("NUMBER_NOT_REGISTERED")
    else v
  }

  /** The statuses a finished send leaves in the report. */
  predicate IsFinalStatus(v: Value) {
    v in {Str("SEND"), Str("NUMBER_NOT_REGISTERED"), Str("VALIDITY_CHECK_TIMEOUT"), Str("SEND_TIMEOUT")}
  }

  /** Each result of `send_message` maps to its own final status, never to
      "NOT_ATTEMPTED". */
  lemma StatusOfSendResult(v: Value)
    requires IsSendResult(v)
    ensures IsFinalStatus(StatusOf(v))
    ensures StatusOf(v) == Str("SEND") <==> v == Bool(true)
    ensures StatusOf(v) == Str("NUMBER_NOT_REGISTERED") <==> v == Bool(false)
    ensures v.Str? ==> StatusOf(v) == v
  {
  }

  /** Every send from index `from` up to `to` had a result and returned. */
  predicate AllSendsReturn(results: seq<Run<Value>>, from: nat, to: nat) {
    to <= from || (to <= |results| && forall k :: from <= k < to ==> results[k].Returned?)
  }

  /** `m` holds, for every entry from index `from` on, the status of its send. */
  predicate RecordsSends(entries: seq<Entry>, results: seq<Run<Value>>, from: nat, m: map<string, Value>)
    requires AllSendsReturn(results, from, |entries|)
  {
    forall k :: from <= k < |entries| ==>
      entries[k].phone in m && m[entries[k].phone] == StatusOf(results[k].value)
  }

  /** The `for phone_no in message_dict` loop from index `i` on, over the
      statuses recorded so far. The `k`-th call of `send_message` gives
      `results[k]`; a call without a result is still running. An exception
      from `send_message` propagates out of `multi_message`. */
  function SendLoop(entries: seq<Entry>, results: seq<Run<Value>>, i: nat, status: map<string, Value>): (r: Outcome)
    requires i <= |entries|
    ensures |r.attempted| <= |entries| - i
    ensures r.ret.Returned? ==> r.ret.value.Report?
    decreases |entries| - i
  {
    if i == |entries| then Outcome(Returned(Report(status)), [])
    else
      var phone := entries[i].phone;
      if i >= |results| then Outcome(Unfinished, [phone])
      else
        match results[i]
        case Raised => Outcome(Raised, [phone])
        case Unfinished => Outcome(Unfinished, [phone])
        case Returned(v) =>
          var rest := SendLoop(entries, results, i + 1, status[phone := StatusOf(v)]);
          Outcome(rest.ret, [phone] + rest.attempted)
  }

  /** A slice that starts at `i` is `s[i]` followed by the slice after it. */
  lemma SliceCons<T>(s: seq<T>, i: nat, n: nat)
    requires i + 1 + n <= |s|
    ensures s[i..i + 1 + n] == [s[i]] + s[i + 1..i + 1 + n]
  {
  }

  /** Every send from `i` on returns exactly when the `i`-th does and every
      send after it does. */
  lemma AllSendsReturnStep(results: seq<Run<Value>>, i: nat, n: nat)
    requires i < n
    ensures AllSendsReturn(results, i, n) <==>
              i < |results| && results[i].Returned? && AllSendsReturn(results, i + 1, n)
  {
  }

  /** The send loop calls `send_message` for the numbers in dictionary
      order, one call each, and all of them when it finishes. */
  lemma {:induction false} SendLoopAttempts(entries: seq<Entry>, results: seq<Run<Value>>, i: nat, status: map<string, Value>)
    requires i <= |entries|
    ensures var r := SendLoop(entries, results, i, status);
            && r.attempted == Phones(entries)[i..i + |r.attempted|]
            && (r.ret.Returned? ==> |r.attempted| == |entries| - i)
            && (!r.ret.Returned? ==> |r.attempted| > 0)
    decreases |entries| - i
  {
    var r := SendLoop(entries, results, i, status);
    var ps := Phones(entries);
    if i < |entries| {
      if i < |results| && results[i].Returned? {
        var next := status[entries[i].phone := StatusOf(results[i].value)];
        SendLoopAttempts(entries, results, i + 1, next);
        var rest := SendLoop(entries, results, i + 1, next);
        assert r.attempted == [ps[i]] + rest.attempted;
        SliceCons(ps, i, |rest.attempted|);
      } else {
        assert r.attempted == [ps[i]];
        SliceCons(ps, i, 0);
      }
    }
  }

  /** A send loop that does not finish stops at the first call that does
      not return: every call before the last one attempted returned, the
      last one did not, and the loop raises exactly when that call raised. */
  lemma {:induction false} SendLoopStops(entries: seq<Entry>, results: seq<Run<Value>>, i: nat, status: map<string, Value>)
    requires i <= |entries|
    requires !SendLoop(entries, results, i, status).ret.Returned?
    ensures var r := SendLoop(entries, results, i, status);
            var last := i + |r.attempted| - 1;
            && |r.attempted| > 0
            && AllSendsReturn(results, i, last)
            && !(last < |results| && results[last].Returned?)
            && (r.ret.Raised? <==> last < |results| && results[last].Raised?)
    decreases |entries| - i
  {
    if i < |results| && results[i].Returned? {
      var next := status[entries[i].phone := StatusOf(results[i].value)];
      SendLoopStops(entries, results, i + 1, next);
      var rest := SendLoop(entries, results, i + 1, next);
      AllSendsReturnStep(results, i, i + |rest.attempted|);
    }
  }

  /** The send loop finishes exactly when every call returns. */
  lemma {:induction false} SendLoopFinishes(entries: seq<Entry>, results: seq<Run<Value>>, i: nat, status: map<string, Value>)
    requires i <= |entries|
    ensures SendLoop(entries, results, i, status).ret.Returned? <==> AllSendsReturn(results, i, |entries|)
    decreases |entries| - i
  {
    if i < |entries| {
      AllSendsReturnStep(results, i, |entries|);
      if i < |results| && results[i].Returned? {
        var next := status[entries[i].phone := StatusOf(results[i].value)];
        SendLoopFinishes(entries, results, i + 1, next);
      }
    }
  }

  /** The numbers from index `i` on are `entries[i]`'s and those after it,
      which do not include `entries[i]`'s. */
  lemma PhoneSetFrom(entries: seq<Entry>, i: nat)
    requires i < |entries| && DistinctPhones(entries)
    ensures PhoneSet(entries[i..]) == {entries[i].phone} + PhoneSet(entries[i + 1..])
    ensures entries[i].phone !in PhoneSet(entries[i + 1..])
  {
    assert entries[i..] == [entries[i]] + entries[i + 1..];
  }

  /** A finished send loop keeps every key it started with, adds the
      remaining numbers and no other key, and leaves every key that is not
      a remaining number as it was. */
  lemma {:induction false} SendLoopKeys(entries: seq<Entry>, results: seq<Run<Value>>, i: nat, status: map<string, Value>)
    requires i <= |entries|
    requires SendLoop(entries, results, i, status).ret.Returned?
    ensures var m := SendLoop(entries, results, i, status).ret.value.status;
            && m.Keys == status.Keys + PhoneSet(entries[i..])
            && forall p :: p in status && p !in PhoneSet(entries[i..]) ==> m[p] == status[p]
    decreases |entries| - i
  {
    if i < |entries| {
      var next := status[entries[i].phone := StatusOf(results[i].value)];
      SendLoopKeys(entries, results, i + 1, next);
      assert entries[i..] == [entries[i]] + entries[i + 1..];
    }
  }

  /** A finished send loop records, for each remaining number, the status
      of that number's own send. */
  lemma {:induction false} SendLoopRecords(entries: seq<Entry>, results: seq<Run<Value>>, i: nat, status: map<string, Value>)
    requires i <= |entries| && DistinctPhones(entries)
    requires SendLoop(entries, results, i, status).ret.Returned?
    ensures AllSendsReturn(results, i, |entries|)
    ensures RecordsSends(entries, results, i, SendLoop(entries, results, i, status).ret.value.status)
    decreases |entries| - i
  {
    SendLoopFinishes(entries, results, i, status);
    if i < |entries| {
      var next := status[entries[i].phone := StatusOf(results[i].value)];
      SendLoopRecords(entries, results, i + 1, next);
      SendLoopKeys(entries, results, i + 1, next);
      PhoneSetFrom(entries, i);
    }
  }

  /** Every phone number of the dictionary, set to "NOT_ATTEMPTED". */
  function InitialStatus(entries: seq<Entry>): (m: map<string, Value>)
    ensures m.Keys == PhoneSet(entries)
  {
    map p | p in PhoneSet(entries) :: Str("NOT_ATTEMPTED")
  }

  /** What each `send_message` call returns, the `k`-th seeing `scenarios[k]`. */
  function Results(scenarios: seq<Scenario>): (rs: seq<Run<Value>>)
    ensures |rs| == |scenarios|
    ensures forall k :: 0 <= k < |scenarios| ==> rs[k] == SendMessage(scenarios[k]).result
  {
    seq(|scenarios|, k requires 0 <= k < |scenarios| => SendMessage(scenarios[k]).result)
  }

  /** The logged-in branch: build `send_status` and run the send loop. */
  function SendAll(entries: seq<Entry>, scenarios: seq<Scenario>): Outcome
  {
    SendLoop(entries, Results(scenarios), 0, InitialStatus(entries))
  }

  /** The logged-in branch calls `send_message` once per number in
      dictionary order, and finishes with a report exactly when every call
      returns. */
  lemma SendAllCalls(entries: seq<Entry>, scenarios: seq<Scenario>)
    ensures SendAll(entries, scenarios).ret.Returned? <==> AllSendsReturn(Results(scenarios), 0, |entries|)
    ensures SendAll(entries, scenarios).ret.Returned? ==>
              SendAll(entries, scenarios).ret.value.Report? && SendAll(entries, scenarios).attempted == Phones(entries)
  {
    SendLoopAttempts(entries, Results(scenarios), 0, InitialStatus(entries));
    SendLoopFinishes(entries, Results(scenarios), 0, InitialStatus(entries));
    assert Phones(entries)[0..|entries|] == Phones(entries);
  }

  /** A finished send loop reports every phone number of the dictionary and
      no other key, each with the final status of its own `send_message`
      call. */
  lemma SendAllReport(entries: seq<Entry>, scenarios: seq<Scenario>)
    requires DistinctPhones(entries)
    requires SendAll(entries, scenarios).ret.Returned?
    ensures var m := SendAll(entries, scenarios).ret.value.status;
            && AllSendsReturn(Results(scenarios), 0, |entries|)
            && m.Keys == PhoneSet(entries)
            && RecordsSends(entries, Results(scenarios), 0, m)
            && forall k :: 0 <= k < |entries| ==> IsFinalStatus(m[entries[k].phone])
  {
    SendLoopKeys(entries, Results(scenarios), 0, InitialStatus(entries));
    SendLoopRecords(entries, Results(scenarios), 0, InitialStatus(entries));
    assert entries[0..] == entries;
    FinalStatuses(entries, scenarios, SendAll(entries, scenarios).ret.value.status);
  }

  /** Recorded statuses of sends that returned are final statuses. */
  lemma FinalStatuses(entries: seq<Entry>, scenarios: seq<Scenario>, m: map<string, Value>)
    requires AllSendsReturn(Results(scenarios), 0, |entries|)
    requires RecordsSends(entries, Results(scenarios), 0, m)
    ensures forall k :: 0 <= k < |entries| ==> entries[k].phone in m && IsFinalStatus(m[entries[k].phone])
  {
    forall k | 0 <= k < |entries|
      ensures entries[k].phone in m && IsFinalStatus(m[entries[k].phone])
    {
      SendMessageOutcomes(scenarios[k]);
      StatusOfSendResult(Results(scenarios)[k].value);
    }
  }

  // ---------------------------------------------------------------------
  // multi_message

  /** Sending happens only when `login_status == True`; otherwise the
      function falls off its end and returns None. */
  function SendIfLoggedIn(status: Value, entries: seq<Entry>, scenarios: seq<Scenario>): Outcome
  {
    if Eq(status, Bool(true)) then SendAll(entries, scenarios)
    else Outcome(Returned(Plain(PyNone)), [])
  }

  /** `multi_message` after `check_logged_in_what` returned `status`:
      "TIMEOUT" gives up, False enters the login loop, and whatever status
      results decides whether the messages are sent. */
  function AfterLoginCheck(status: Value, entries: seq<Entry>, attempts: seq<seq<LoginObs>>,
                           inputs: seq<string>, scenarios: seq<Scenario>): Outcome
  {
    if Eq(status, Str("TIMEOUT")) then Outcome(Returned(Plain(Str("LOGIN_CHECK_TIMEOUT"))), [])
    else if Eq(status, Bool(false)) then
      match LoginLoop(attempts, inputs)
      case Raised => Outcome(Raised, [])
      case Unfinished => Outcome(Unfinished, [])
      case Returned(Aborted) => Outcome(Returned(Plain(Str("ABORTED"))), [])
      case Returned(Ended(s)) => SendIfLoggedIn(s, entries, scenarios)
    else SendIfLoggedIn(status, entries, scenarios)
  }

  /** `multi_message`, given what the login check sees, each `login_what`
      attempt's observations, the operator's input lines, and what each
      `send_message` call sees. */
  function MultiMessage(check: seq<CheckObs>, entries: seq<Entry>, attempts: seq<seq<LoginObs>>,
                        inputs: seq<string>, scenarios: seq<Scenario>): Outcome
  {
    match CheckLoggedIn(check)
    case Returned(status) => AfterLoginCheck(status, entries, attempts, inputs, scenarios)
    case Raised => Outcome(Raised, [])
    case Unfinished => Outcome(Unfinished, [])
  }

  /** The branches on the login-check result: "TIMEOUT" returns
      "LOGIN_CHECK_TIMEOUT" and True sends; but the -1 the check really
      returns on timeout is neither "TIMEOUT", False nor True, so it returns
      None. None of these first prompts or sends without a login. */
  lemma LoginCheckBranches(entries: seq<Entry>, attempts: seq<seq<LoginObs>>, inputs: seq<string>,
                           scenarios: seq<Scenario>)
    ensures AfterLoginCheck(Str("TIMEOUT"), entries, attempts, inputs, scenarios) ==
              Outcome(Returned(Plain(Str("LOGIN_CHECK_TIMEOUT"))), [])
    ensures AfterLoginCheck(Int(-1), entries, attempts, inputs, scenarios) == Outcome(Returned(Plain(PyNone)), [])
    ensures AfterLoginCheck(Bool(true), entries, attempts, inputs, scenarios) == SendAll(entries, scenarios)
  {
  }

  /** The login status ends up True: the check found the user logged in,
      or it did not and the login loop ended logged in. */
  predicate LoggedIn(check: seq<CheckObs>, attempts: seq<seq<LoginObs>>, inputs: seq<string>) {
    CheckLoggedIn(check) == Returned(Bool(true)) ||
    (CheckLoggedIn(check) == Returned(Bool(false)) && LoginLoop(attempts, inputs) == Returned(Ended(Bool(true))))
  }

  /** `multi_message` runs the send loop exactly when the login status ends
      up True. Otherwise it calls `send_message` for nobody and returns None
      or "ABORTED" (or raises, or is still waiting); in particular it never
      returns "LOGIN_CHECK_TIMEOUT". */
  lemma SendsOnlyWhenLoggedIn(check: seq<CheckObs>, entries: seq<Entry>, attempts: seq<seq<LoginObs>>,
                              inputs: seq<string>, scenarios: seq<Scenario>)
    ensures LoggedIn(check, attempts, inputs) ==>
              MultiMessage(check, entries, attempts, inputs, scenarios) == SendAll(entries, scenarios)
    ensures !LoggedIn(check, attempts, inputs) ==>
              var r := MultiMessage(check, entries, attempts, inputs, scenarios);
              r.attempted == [] && (r.ret.Returned? ==> r.ret.value in {Plain(PyNone), Plain(Str("ABORTED"))})
  {
    CheckLoggedInOutcomes(check);
    if CheckLoggedIn(check) == Returned(Bool(false)) {
      LoginLoopEndsLoggedInOrTimedOut(attempts, inputs);
    }
  }

  /** When `check_logged_in_what` times out, `multi_message` returns None
      without sending anything. */
  lemma LoginCheckTimeoutReturnsNone(check: seq<CheckObs>, entries: seq<Entry>, attempts: seq<seq<LoginObs>>,
                                     inputs: seq<string>, scenarios: seq<Scenario>)
    requires CheckLoggedIn(check) == Returned(Int(-1))
    ensures MultiMessage(check, entries, attempts, inputs, scenarios) == Outcome(Returned(Plain(PyNone)), [])
  {
    EqFacts("TIMEOUT", Int(-1), false, true);
  }

  /** After a successful `login_what`, the first answer that strips to "1"
      leaves the loop logged in and "2" aborts; other lines are skipped. */
  lemma AnswerAfterLogin(attempts: seq<seq<LoginObs>>, inputs: seq<string>)
    requires |attempts| > 0 && LoginWhat(attempts[0]) == Returned(Bool(true))
    ensures Prompt(inputs).None? ==> LoginLoop(attempts, inputs) == Raised
    ensures Prompt(inputs).Some? && Prompt(inputs).value.0 == One ==>
              LoginLoop(attempts, inputs) == Returned(Ended(Bool(true)))
    ensures Prompt(inputs).Some? && Prompt(inputs).value.0 == Two ==>
              LoginLoop(attempts, inputs) == Returned(Aborted)
  {
  }

  /** After a `login_what` timeout, 1 retries the login with the input that
      follows the answer, and 2 leaves the loop with the status "TIMEOUT"
      rather than aborting. */
  lemma AnswerAfterLoginTimeout(attempts: seq<seq<LoginObs>>, inputs: seq<string>)
    requires |attempts| > 0 && LoginWhat(attempts[0]) == Returned(Str("TIMEOUT"))
    ensures Prompt(inputs).None? ==> LoginLoop(attempts, inputs) == Raised
    ensures Prompt(inputs).Some? && Prompt(inputs).value.0 == One ==>
              LoginLoop(attempts, inputs) == LoginLoop(attempts[1..], inputs[Prompt(inputs).value.1 + 1..])
    ensures Prompt(inputs).Some? && Prompt(inputs).value.0 == Two ==>
              LoginLoop(attempts, inputs) == Returned(Ended(Str("TIMEOUT")))
  {
  }

  /** After the login check finds the user logged out and `login_what`
      succeeds, the first line that strips to "1" sends every message, "2"
      makes `multi_message` return "ABORTED" without sending, and input that
      runs out raises without sending. */
  lemma AnswerAfterLoginDecides(check: seq<CheckObs>, entries: seq<Entry>, attempts: seq<seq<LoginObs>>,
                                inputs: seq<string>, scenarios: seq<Scenario>)
    requires CheckLoggedIn(check) == Returned(Bool(false))
    requires |attempts| > 0 && LoginWhat(attempts[0]) == Returned(Bool(true))
    ensures Prompt(inputs).None? ==> MultiMessage(check, entries, attempts, inputs, scenarios) == Outcome(Raised, [])
    ensures Prompt(inputs).Some? && Prompt(inputs).value.0 == One ==>
              MultiMessage(check, entries, attempts, inputs, scenarios) == SendAll(entries, scenarios)
    ensures Prompt(inputs).Some? && Prompt(inputs).value.0 == Two ==>
              MultiMessage(check, entries, attempts, inputs, scenarios) == Outcome(Returned(Plain(Str("ABORTED"))), [])
  {
    AnswerAfterLogin(attempts, inputs);
  }

  /** After the login check finds the user logged out and `login_what`
      times out, answering 1 makes `multi_message` carry on exactly as if
      the login loop had been entered afresh with the remaining attempts and
      the input lines after the answer; input that runs out raises without
      sending. */
  lemma RetryAfterLoginTimeout(check: seq<CheckObs>, entries: seq<Entry>, attempts: seq<seq<LoginObs>>,
                               inputs: seq<string>, scenarios: seq<Scenario>)
    requires CheckLoggedIn(check) == Returned(Bool(false))
    requires |attempts| > 0 && LoginWhat(attempts[0]) == Returned(Str("TIMEOUT"))
    ensures Prompt(inputs).None? ==> MultiMessage(check, entries, attempts, inputs, scenarios) == Outcome(Raised, [])
    ensures Prompt(inputs).Some? && Prompt(inputs).value.0 == One ==>
              MultiMessage(check, entries, attempts, inputs, scenarios) ==
              AfterLoginCheck(Bool(false), entries, attempts[1..], inputs[Prompt(inputs).value.1 + 1..], scenarios)
  {
    AnswerAfterLoginTimeout(attempts, inputs);
  }

  /** Answering 2 after a `login_what` timeout does not abort with
      "ABORTED": nothing is sent and `multi_message` returns None. */
  lemma AbortAfterLoginTimeoutReturnsNone(check: seq<CheckObs>, entries: seq<Entry>, attempts: seq<seq<LoginObs>>,
                                          inputs: seq<string>, scenarios: seq<Scenario>)
    requires CheckLoggedIn(check) == Returned(Bool(false))
    requires |attempts| > 0 && LoginWhat(attempts[0]) == Returned(Str("TIMEOUT"))
    requires Prompt(inputs).Some? && Prompt(inputs).value.0 == Two
    ensures MultiMessage(check, entries, attempts, inputs, scenarios) == Outcome(Returned(Plain(PyNone)), [])
  {
    AnswerAfterLoginTimeout(attempts, inputs);
  }

  /** A login that times out once, is retried with 1, succeeds, and is
      confirmed with 1 goes on to send every message: the run is the send
      loop itself, and when every send returns, each number is attempted once
      and reported. */
  lemma RetryAfterTimeoutSendsAll(check: seq<CheckObs>, entries: seq<Entry>, attempts: seq<seq<LoginObs>>,
                                  inputs: seq<string>, scenarios: seq<Scenario>)
    requires CheckLoggedIn(check) == Returned(Bool(false))
    requires |attempts| > 1
    requires LoginWhat(attempts[0]) == Returned(Str("TIMEOUT"))
    requires LoginWhat(attempts[1]) == Returned(Bool(true))
    requires Prompt(inputs).Some? && Prompt(inputs).value.0 == One
    requires Prompt(inputs[Prompt(inputs).value.1 + 1..]).Some?
    requires Prompt(inputs[Prompt(inputs).value.1 + 1..]).value.0 == One
    ensures MultiMessage(check, entries, attempts, inputs, scenarios) == SendAll(entries, scenarios)
    ensures AllSendsReturn(Results(scenarios), 0, |entries|) ==>
              && MultiMessage(check, entries, attempts, inputs, scenarios).attempted == Phones(entries)
              && MultiMessage(check, entries, attempts, inputs, scenarios).ret.Returned?
              && MultiMessage(check, entries, attempts, inputs, scenarios).ret.value.Report?
  {
    var k := Prompt(inputs).value.1;
    AnswerAfterLoginTimeout(attempts, inputs);
    assert attempts[1..][0] == attempts[1];
    AnswerAfterLogin(attempts[1..], inputs[k + 1..]);
    SendsOnlyWhenLoggedIn(check, entries, attempts, inputs, scenarios);
    SendAllCalls(entries, scenarios);
  }

  /** Whenever `multi_message` returns a report, the login status ended up
      True and the report has exactly the dictionary's phone numbers as
      keys, each sent once in dictionary order, each holding the final
      status of its own send. */
  lemma CompletedReport(check: seq<CheckObs>, entries: seq<Entry>, attempts: seq<seq<LoginObs>>,
                        inputs: seq<string>, scenarios: seq<Scenario>)
    requires DistinctPhones(entries)
    requires MultiMessage(check, entries, attempts, inputs, scenarios).ret.Returned?
    requires MultiMessage(check, entries, attempts, inputs, scenarios).ret.value.Report?
    ensures LoggedIn(check, attempts, inputs)
    ensures var r := MultiMessage(check, entries, attempts, inputs, scenarios);
            && AllSendsReturn(Results(scenarios), 0, |entries|)
            && r.attempted == Phones(entries)
            && r.ret.value.status.Keys == PhoneSet(entries)
            && RecordsSends(entries, Results(scenarios), 0, r.ret.value.status)
            && forall k :: 0 <= k < |entries| ==> IsFinalStatus(r.ret.value.status[entries[k].phone])
  {
    SendsOnlyWhenLoggedIn(check, entries, attempts, inputs, scenarios);
    SendAllCalls(entries, scenarios);
    SendAllReport(entries, scenarios);
  }
}
