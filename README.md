# EnaLog event submission: validation and result mapping

A model of `push_event` from the EnaLog Python client (`enalog/__init__.py`). The function
sends one event to the EnaLog ingestion service. It first checks that the event dictionary
holds the three required keys `project`, `name` and `push`. If any are absent, it raises
`MissingRequiredData` with a message listing them, and no request is made. Otherwise it
POSTs the event once and turns the outcome into a two-entry result dictionary, or into
`None` when the status code is neither 200 nor an HTTP error.

Files, one module each:

- `wrappers.dfy` (`Wrappers`): `Option`, which stands for a Python value that may be `None`.
- `validation.dfy` (`Validation`): the event as a map from strings to JSON values, and the
  required keys. It gives the `all(...)` test, the missing-key set difference, and a method
  that picks an iteration order of that set.
- `message.dfy` (`MissingKeyMessage`): the loop that builds the list of missing keys
  (`BuildFragment`), proved equal to `", ".join` (`Join`). Also its inverse `Split`, the
  separator count, and the full error sentence with a parser for it.
- `outcome.dfy` (`Outcomes`): the POST outcome, `raise_for_status`, and the two `except`
  clauses mapped to the returned dictionary.
- `enalog.dfy` (`EnaLog`): `PushEvent`, which puts the two halves together, plus lemmas
  about the message for every iteration order and the concrete scenarios.

Python set iteration order is unspecified. `IterationOrder` chooses any order of distinct
keys whose elements are exactly the missing set, and every lemma quantifies over all such
orders. `list(missing_keys)[-1]` (line 18) and the `for` loop (line 20) walk the same
unchanged set, so both see this one order.

The POST is an input value `PostOutcome`. `Responded(response)` means a response object was
returned. `Failed(attached)` means a `RequestException` other than `HTTPError` was raised,
possibly carrying a response. The status entry of the result is a `StatusCode`. It is
`Numeric` for the integer codes the source returns, and `Text("500")` for the string the
source returns on a transport failure.

Where the sources disagree, the model follows the code of `enalog/__init__.py`:

- The tests in `tests/test_enalog.py` expect a dictionary of per-key messages for a missing
  key (lines 15-19). The code raises `MissingRequiredData` instead (lines 26-28).
- The tests expect a bare `RequestException` carrying a 401 or 404 response to yield that
  code (lines 82-100 for 401, lines 103-121 for 404). The code maps it to `"500"` (lines 43-44). `AttachedResponseIgnored`
  states this.
- The success message is `"Event succesfully sent to EnaLog"`, spelled as in the code.
- A response that is neither 200 nor 4xx/5xx (for example 201, a 3xx, or 600) makes the
  function fall through and return `None`. It is not reported as an error.

## Model

| member | source | states |
|---|---|---|
| Validation.RequiredKeySet | enalog/__init__.py:12 | the required set has exactly the three members `project`, `name`, `push` |
| Validation.HasAllRequired | enalog/__init__.py:13 | the `all(key in event ...)` test holds iff `project`, `name` and `push` are all keys of the event |
| Validation.MissingKeys | enalog/__init__.py:14 | the missing set lies within the required keys and shares no key with the event |
| Validation.MissingKeysExactly | enalog/__init__.py:14 | a key is missing iff it is required and absent from the event |
| Validation.IncompleteIffMissing | enalog/__init__.py:13-14 | the `all(key in event ...)` test fails iff the missing set is non-empty |
| Validation.ExtraKeysIrrelevant | enalog/__init__.py:12-14 | events that agree on which required keys they hold pass or fail alike and lack the same keys; other keys play no part |
| Validation.ExtraKeyIrrelevant | enalog/__init__.py:12-14 | adding a non-required key changes neither the pass/fail outcome nor the missing set |
| Validation.IterationOrder | enalog/__init__.py:18-20 | the chosen iteration order lists every element of the set exactly once and nothing else; its length is the set's size |
| MissingKeyMessage.BuildFragment | enalog/__init__.py:16-24 | for distinct keys, the accumulator loop (which omits the separator for the key equal to the last one) yields exactly `", ".join(keys)` |
| MissingKeyMessage.SplitJoin | enalog/__init__.py:20-24 | splitting the fragment at `", "` gives back the keys in iteration order, so each key appears once, in order, and nothing else appears |
| MissingKeyMessage.JoinSeparatorCount | enalog/__init__.py:20-24 | n comma-free keys give exactly n - 1 separators |
| MissingKeyMessage.RequiredKeysHaveNoComma | enalog/__init__.py:12 | none of the required key names contains a comma, so the separator count applies to them |
| MissingKeyMessage.MissingMessage | enalog/__init__.py:26-28 | the f-string's layout: the fixed prefix, then the fragment, then the fixed suffix; what the message means is carried by `FragmentOfMessage` and `MessageListsKeys` |
| MissingKeyMessage.FragmentOfMessage | enalog/__init__.py:26-28 | the message is `"The " + fragment + " key(s) are missing from the event data"`, and the fragment can be recovered from it |
| MissingKeyMessage.MessageListsKeys | enalog/__init__.py:16-28 | the message built from comma-free keys names exactly those keys, in order, with one comma fewer than keys |
| Outcomes.RaiseForStatus | enalog/__init__.py:37 | `raise_for_status` raises `HTTPError` carrying the response exactly for codes 400-599 |
| Outcomes.TryBlock | enalog/__init__.py:30-38 | the `try` ends normally iff the POST returned a response whose code is outside 400-599; it ends in `HTTPError` carrying that response iff the code is in 400-599; a failed POST ends in its own non-HTTP `RequestException` |
| Outcomes.MapOutcome | enalog/__init__.py:30-44 | 200 gives the success dictionary; 400-599 gives the response's own code and body; any other request failure gives `"500"` and "Internal server error"; any other code gives None |
| Outcomes.SuccessIff200 | enalog/__init__.py:39-40 | the success dictionary is returned iff the outcome is a 200 response |
| Outcomes.InternalErrorIffFailed | enalog/__init__.py:43-44 | the string status "500" appears iff the request failed without an HTTP error, so it cannot be confused with an upstream 500 |
| Outcomes.NothingIffUnhandledCode | enalog/__init__.py:37-40 | None is returned iff the response code is neither 200 nor 400-599 |
| Outcomes.NumericStatusFromServer | enalog/__init__.py:39-42 | a numeric status in the result is the code the server sent, and it is 200 or in 400-599 |
| Outcomes.AttachedResponseIgnored | enalog/__init__.py:43-44 | a response attached to a non-HTTP request failure never affects the result |
| EnaLog.RaiseMissing | enalog/__init__.py:5-8 | the `MissingRequiredData` error raised on lines 26-28 carries the sentence from which its fragment of missing keys can be read back |
| EnaLog.PushEvent | enalog/__init__.py:11-44 | the POST is issued iff all required keys are present, and MissingRequiredData is raised iff it is not issued; the error is raised iff some key is missing, with the message built from an iteration order of the missing set; otherwise the result is the outcome's mapping |
| EnaLog.MessageNamesMissingKeys | enalog/__init__.py:13-28 | for every iteration order, the raised message names exactly the missing keys, once each, with n - 1 commas for n missing keys |
| EnaLog.MessageOrderIndependent | enalog/__init__.py:14-24 | two iteration orders of the same missing set give messages naming the same set of keys, the same number of them, and the same multiset (each key as often) |
| EnaLog.MissingProjectScenario | enalog/__init__.py:12-28 | `{name, push}` lacks exactly `project`, and the message fragment is `project` |
| EnaLog.MissingNameAndPushScenario | enalog/__init__.py:12-28 | `{project}` lacks exactly `name` and `push`, and the fragment is `name, push` or `push, name` |
| EnaLog.CompleteEventScenario | tests/test_enalog.py:64-79 | an event with the three keys passes whatever other keys it holds, and a 200 reply gives the success dictionary |

## Left out

- The HTTP request itself (URL, JSON encoding, the `Authorization: Bearer` header, lines 31-35) is network I/O. It is replaced by the `PostOutcome` input, and `PushEvent` reports whether it would be issued.
- `api_token` is not a parameter of `PushEvent`, because it only feeds the left-out header.
- Exceptions outside `RequestException` (for example, a value that cannot be encoded as JSON) are not modelled. Event values are JSON values by construction.
- `enalog_py/__init__.py` is not part of this model. It is a bare POST wrapper with no validation.
- Set iteration order is not fixed. It is a nondeterministic choice, see `IterationOrder`.
- Python string formatting of a key (`f"{miss}"`) is the identity here, because the keys are strings.
- `JNumber` carries an integer. JSON floating-point values are not modelled.
