# WhatsApp Web broadcast: decision logic

A Dafny model of the decisions `pywhatmessage.py` makes while broadcasting messages through WhatsApp Web. The browser, the clock and the console are replaced by finite traces of what each polling iteration would have seen. What is left is pure logic:

- **`convert_to_24` / `convert_to_secs`** (module `TimeLabel`) parse a bubble's time label such as `"2:48 PM"`. They are built on a small model of the Python string operations they use (module `Py`): `strip`, `find`, slicing, negative indexing and `int()`. `str.strip()` removes every `str.isspace` character, while `int()` skips only the blanks CPython's parser skips, so the ASCII separators U+001C to U+001F make `int()` raise.
- **The polling loops** (module `Polls`) are `check_logged_in_what`, `login_what`, `check_validity_no` and the delivery-confirmation loop of `send_message`. Each is one generic `Poll` over a trace. The first iteration that decides gives the loop's result.
- **`send_message`** (module `Send`) dispatches on the validity result, clicks send and waits for delivery.
- **`multi_message`** (module `Batch`) is the login-status state machine, the operator's retry/abort prompts, the send loop and the status report.

Results use Python's own values (`Py.Value`) and Python's `==` (`Py.Eq`), so `-1 == "TIMEOUT"` and `True == 1` come out as Python says. Every run ends in one of three ways:

- `Returned(v)`;
- `Raised`: an exception leaves the function;
- `Unfinished`: the supplied trace ran out while the loop was still polling.

Where the code departs from what its own comments and names suggest, the model follows the code:

- A 12-hour clock reads 12 AM as hour 0, but `convert_to_24` reads `"12:05 AM"` as hour 12. The `"12:"` test only suppresses the afternoon shift (`TimeLabel.ConvertTo24Examples`).
- The comment at pywhatmessage.py line 345 lists `LOGIN_CHECK_TIMEOUT` among the results. But on timeout `check_logged_in_what` returns `-1`, and `multi_message` compares the status with `"TIMEOUT"`, `False` and `True`. `-1` equals none of them, so the batch returns `None` (`Batch.LoginCheckTimeoutReturnsNone`).
- The same comment lists `ABORTED`, and the prompt after a login timeout logs "Aborted." on 2. But that answer leaves the status at `"TIMEOUT"`, so the batch returns `None`, not `"ABORTED"` (`Batch.AbortAfterLoginTimeoutReturnsNone`).
- Not every failure becomes a sentinel value. `convert_to_secs` sits outside the `try` of the delivery loop, so a label it cannot parse raises out of `send_message` and `multi_message`.
- `"SEND_TIMEOUT"` returns with the message's tab still open.

## Model

| member | source | states |
|---|---|---|
| Py.Strip | pywhatmessage.py:160 | `str.strip()`, removing `str.isspace` characters at both ends; characterised by `Py.StripSpec` and `Py.StripRemovesPadding` |
| Py.StripSpec | pywhatmessage.py:160 | stripping a set of characters leaves none of them at either end, and the result sits inside the input between two pieces made only of them |
| Py.StripRemovesPadding | pywhatmessage.py:160 | stripping any padding of stripped characters around an unpadded string gives that string back |
| Py.StripUnpadded | pywhatmessage.py:160 | a string with no stripped character at either end strips to itself |
| Py.Find | pywhatmessage.py:163-165 | `str.find`; characterised by `Py.FindSpec` |
| Py.FindSpec | pywhatmessage.py:163-165 | `find` gives the first index where the substring occurs, or -1 exactly when it occurs nowhere |
| Py.DecimalRoundTrip | pywhatmessage.py:163 | reading back the decimal digits of a natural number gives that number |
| Py.IntOf | pywhatmessage.py:163 | `int()` on a string; characterised by `Py.IntOfPadded` and `Py.IntOfRejectsSeparator` |
| Py.IntOfDigits | pywhatmessage.py:163 | `int()` of a non-empty digit string is its decimal value |
| Py.IntOfPadded | pywhatmessage.py:165 | `int()` of a digit string padded with any blanks it skips is the digits' decimal value |
| Py.IntOfRejectsSeparator | pywhatmessage.py:163 | a U+001C to U+001F separator before the digits is removed by `strip()` but makes `int()` raise |
| TimeLabel.ConvertTo24 | pywhatmessage.py:162-166 | `convert_to_24`; characterised by `TimeLabel.ConvertTo24Shaped` and `TimeLabel.ConvertTo24OfLabel` |
| TimeLabel.ConvertToSecs | pywhatmessage.py:158-172 | `convert_to_secs` succeeds exactly when the stripped label converts to a valid time of day, and then gives seconds since midnight in [0, 86400) |
| TimeLabel.SameDayOrderIsLexicographic | pywhatmessage.py:168-170 | comparing two same-day, minute-truncated timestamps is comparing (hour, minute) pairs lexicographically |
| TimeLabel.ShapedColon | pywhatmessage.py:163 | in an `H:MM XM` label, the first ':' follows the hour digits, and no other ':' occurs |
| TimeLabel.ShapedSpace | pywhatmessage.py:165 | in an `H:MM XM` label, the first space follows the minute digits |
| TimeLabel.ShapedTwelve | pywhatmessage.py:164 | "12:" occurs in an `H:MM XM` label exactly when the hour digits end in 12 |
| TimeLabel.ShapedHour | pywhatmessage.py:163 | in an `H:MM XM` label, the text before the first ':' reads as H |
| TimeLabel.ShapedMinute | pywhatmessage.py:165 | in an `H:MM XM` label, the text between the first ':' and the first space reads as MM |
| TimeLabel.ConvertTo24Shaped | pywhatmessage.py:162-166 | for any digit strings H and MM, `convert_to_24("H:MM XM")` has minute MM and hour H+12 exactly when X is 'P' and H does not end in 12, otherwise hour H |
| TimeLabel.ConvertTo24OfLabel | pywhatmessage.py:162-166 | for the label of a 12-hour time h:m, the hour is h+12 exactly for PM with h ≠ 12; 12 AM stays 12 |
| TimeLabel.ConvertToSecsOfLabel | pywhatmessage.py:158-172 | the label of any 12-hour time, padded with any whitespace, converts to that time's seconds in the code's 24-hour reading |
| TimeLabel.ConvertToSecsOfBareLabel | pywhatmessage.py:158-172 | the unpadded label of any 12-hour time converts to that time's seconds in the code's 24-hour reading |
| TimeLabel.ExampleLabels | pywhatmessage.py:159 | the printed forms of 2:48 PM, 12:05 PM and 12:05 AM are "2:48 PM", "12:05 PM" and "12:05 AM" |
| TimeLabel.ConvertTo24Examples | pywhatmessage.py:162-166 | "2:48 PM" is (14, 48), "12:05 PM" is (12, 5), and "12:05 AM" is (12, 5), not (0, 5) |
| TimeLabel.MidnightBubbleReadsAsNoon | pywhatmessage.py:164 | a bubble labelled 12:m AM passes the `>= now_` test against any start in the hour after midnight, including a later start |
| Polls.Poll | pywhatmessage.py:177-201 | a polling loop is unfinished exactly when no iteration decides; otherwise its result is the first deciding iteration's |
| Polls.PollDecidedAt | pywhatmessage.py:231-246 | the first iteration that decides gives the loop's result |
| Polls.CheckStep | pywhatmessage.py:91-114 | one iteration of `check_logged_in_what`'s loop; characterised by `Polls.CheckLoggedInOutcomes` |
| Polls.CheckLoggedIn | pywhatmessage.py:81-114 | `check_logged_in_what`'s loop; characterised by `Polls.CheckLoggedInOutcomes` |
| Polls.CheckLoggedInOutcomes | pywhatmessage.py:81-114 | `check_logged_in_what` returns False exactly when the first deciding iteration shows the QR page (even with the marker), True when it shows the marker without the QR page, and -1 only after an iteration with neither and more than 120 s elapsed; nothing else |
| Polls.LoginStep | pywhatmessage.py:136-149 | one iteration of `login_what`'s loop; characterised by `Polls.LoginWhatOutcomes` |
| Polls.LoginWhat | pywhatmessage.py:133-152 | `login_what`'s loop; characterised by `Polls.LoginWhatOutcomes` |
| Polls.LoginWhatOutcomes | pywhatmessage.py:133-152 | `login_what` returns True exactly when the marker appears before 120 s have passed on a marker-less iteration, "TIMEOUT" exactly otherwise, and nothing else |
| Polls.ValidityStep | pywhatmessage.py:179-201 | one iteration of `check_validity_no`'s loop; characterised by `Polls.CheckValidityOutcomes` |
| Polls.CheckValidity | pywhatmessage.py:174-201 | `check_validity_no`; characterised by `Polls.CheckValidityOutcomes` |
| Polls.CheckValidityOutcomes | pywhatmessage.py:174-201 | `check_validity_no` returns False when the first deciding iteration shows the invalid-number text (even with the compose box), True when it shows the compose box without it, "TIMEOUT" only after 120 s with neither; nothing else |
| Polls.DeliveryStep | pywhatmessage.py:233-246 | one iteration of the delivery loop; characterised by `Polls.DeliveryStepConfirms` and `Polls.DeliveryStepTimesOut` |
| Polls.AwaitDelivery | pywhatmessage.py:230-251 | the delivery loop; characterised by `Polls.ConfirmedExactlyWhenNotPending` and `Polls.TimeoutNeedsCompleteLookup` |
| Polls.StampedSinceIsLexicographic | pywhatmessage.py:225-241 | `convert_to_secs(send_time) >= now_` holds exactly when the label converts to a valid time whose (hour, minute) is at or after the start's, compared lexicographically |
| Polls.DeliveryStepConfirms | pywhatmessage.py:233-243 | one iteration confirms delivery exactly when the lookups succeed, the label converts, the bubble is stamped at or after the start minute, and its stripped status is not "Pending" |
| Polls.ConfirmedExactlyWhenNotPending | pywhatmessage.py:231-251 | the delivery loop confirms exactly when some iteration shows a fresh bubble not marked "Pending" and no earlier iteration decided |
| Polls.DeliveryStepTimesOut | pywhatmessage.py:241-246 | one iteration returns "SEND_TIMEOUT" only on a bubble past 120 s that did not confirm |
| Polls.TimeoutNeedsCompleteLookup | pywhatmessage.py:233-246 | "SEND_TIMEOUT" needs an iteration past 120 s on which every lookup succeeded and that did not confirm; a loop whose lookups all fail never times out |
| Send.SendMessage | pywhatmessage.py:203-251 | `send_message`; characterised by `Send.SendMessageOutcomes` |
| Send.SendMessageOutcomes | pywhatmessage.py:209-251 | `send_message` returns False or "VALIDITY_CHECK_TIMEOUT" exactly on validity False or "TIMEOUT", True exactly on validity True, a send button and a confirmed delivery, and "SEND_TIMEOUT" exactly on a delivery timeout; only these four values; the tab is closed on every return except "SEND_TIMEOUT" |
| Send.SentOnlyWhenNotPending | pywhatmessage.py:231-251 | `send_message` returns True only after an iteration that showed a fresh bubble whose status was not "Pending" |
| Batch.Prompt | pywhatmessage.py:277-286 | one operator prompt loop; characterised by `Batch.PromptSpec` |
| Batch.PromptSpec | pywhatmessage.py:277-303 | a prompt takes the first input line that strips to "1" or "2" and re-prompts on every other line; it raises (end of input) exactly when no such line comes |
| Batch.LoginLoop | pywhatmessage.py:270-303 | the `while a:` login loop; characterised by `Batch.LoginLoopEndsLoggedInOrTimedOut`, `Batch.AnswerAfterLoginDecides` and `Batch.RetryAfterLoginTimeout` |
| Batch.LoginLoopEndsLoggedInOrTimedOut | pywhatmessage.py:271-303 | the login loop leaves with the status True or "TIMEOUT" and no other |
| Batch.AnswerAfterLoginDecides | pywhatmessage.py:264-345 | logged out, then a successful `login_what`: the first answer 1 makes `multi_message` send every message, 2 makes it return "ABORTED" with no sends, and running out of input raises with no sends |
| Batch.RetryAfterLoginTimeout | pywhatmessage.py:270-303 | logged out, then a `login_what` timeout: answering 1 makes `multi_message` go on exactly as a fresh login loop over the remaining attempts and the input after the answer; running out of input raises with no sends |
| Batch.StatusOf | pywhatmessage.py:332-340 | the status recorded for a `send_message` result; characterised by `Batch.StatusOfSendResult` |
| Batch.StatusOfSendResult | pywhatmessage.py:332-340 | True is recorded as "SEND", False as "NUMBER_NOT_REGISTERED", the two timeout strings as themselves; never "NOT_ATTEMPTED" |
| Batch.SendLoop | pywhatmessage.py:326-340 | the `for phone_no in message_dict` loop; characterised by `Batch.SendLoopAttempts`, `Batch.SendLoopStops`, `Batch.SendLoopFinishes`, `Batch.SendLoopKeys` and `Batch.SendLoopRecords` |
| Batch.SendLoopAttempts | pywhatmessage.py:326-331 | the send loop calls `send_message` once per number in dictionary order, and for every number when it finishes |
| Batch.SendLoopStops | pywhatmessage.py:326-331 | a send loop that does not finish stops at the first call that does not return: every earlier call returned, and the loop raises exactly when that call raised |
| Batch.SendLoopFinishes | pywhatmessage.py:326-342 | the send loop finishes exactly when every call of `send_message` returns |
| Batch.SendLoopKeys | pywhatmessage.py:322-340 | a finished send loop keeps the keys it started with, adds the dictionary's remaining numbers and no other key, and leaves every other key unchanged |
| Batch.SendLoopRecords | pywhatmessage.py:326-340 | a finished send loop records, for each number, the status of that number's own `send_message` call |
| Batch.SendAllCalls | pywhatmessage.py:326-345 | the logged-in branch calls `send_message` once per number in dictionary order, and returns a report exactly when every call returns |
| Batch.SendAllReport | pywhatmessage.py:322-345 | a finished batch reports exactly the dictionary's numbers, each with the final status of its own send |
| Batch.AfterLoginCheck | pywhatmessage.py:259-345 | `multi_message` after the login check; characterised by `Batch.LoginCheckBranches` and `Batch.SendsOnlyWhenLoggedIn` |
| Batch.MultiMessage | pywhatmessage.py:254-345 | `multi_message`; characterised by `Batch.SendsOnlyWhenLoggedIn` and `Batch.CompletedReport` |
| Batch.LoginCheckBranches | pywhatmessage.py:262-305 | a status of "TIMEOUT" returns "LOGIN_CHECK_TIMEOUT" with no sends, True goes to the send loop, and -1 returns None with no sends |
| Batch.SendsOnlyWhenLoggedIn | pywhatmessage.py:259-345 | `multi_message` runs the send loop exactly when the login status ends up True; otherwise it sends nothing and returns only None or "ABORTED", never "LOGIN_CHECK_TIMEOUT" |
| Batch.LoginCheckTimeoutReturnsNone | pywhatmessage.py:259-305 | when the login check times out, `multi_message` returns None with zero sends |
| Batch.AbortAfterLoginTimeoutReturnsNone | pywhatmessage.py:289-305 | answering 2 after a login timeout makes `multi_message` return None with zero sends, not "ABORTED" |
| Batch.RetryAfterTimeoutSendsAll | pywhatmessage.py:271-345 | timeout, retry with 1, successful login and 1 runs the whole send loop; if every send returns, each number is attempted once in order and a report comes back |
| Batch.CompletedReport | pywhatmessage.py:322-345 | any report `multi_message` returns follows a True login status and maps exactly the dictionary's numbers, each attempted once in order, to the final status of its own send |

## Left out

- The Selenium driver is left out: Chrome options, tabs, XPath and class-name lookups, clicks, `WebDriverWait`. Each polling iteration is one abstract observation. The retry dialog's click changes no decision and is not modelled. A send button that never appears raises.
- `time.sleep`, `time.time` and `datetime.now()` are left out. Elapsed time is a given number of seconds per iteration, and the start minute is a given (hour, minute) pair.
- `convert_to_secs`' calendar arithmetic is left out: the date, time zone, daylight-saving changes and a midnight rollover between sending and reading. Same-day timestamps are modelled as seconds since midnight, which orders them the same way.
- `input()` is left out. The operator's lines are a given sequence, and running out of lines is the `EOFError` it would raise.
- `set_path_variables`, `getpass` and `os.makedirs` are left out: filesystem I/O with no decisions.
- `urllib.parse.quote` is left out: a library call whose result only builds the URL.
- `log` and `print` are left out, and so is the `truck` substring (line 328): it only feeds a log message.
- Py.IntOf: accepts ASCII digits, an optional sign, underscores between digits, and around them the blanks `int()` skips (the C locale's blanks and the non-ASCII `str.isspace` characters, but not U+001C to U+001F). It does not model the other Unicode digits that Python's `int()` also accepts.
- The report is modelled as a map, so it does not show the dictionary's insertion order. The order of the sends is stated on the list of numbers attempted.
- What the outer browser does after a send is left out: `driver.quit()` and the three-second pause.
