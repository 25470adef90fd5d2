# nuge random-number endpoint, modelled in Dafny

nuge is a small web service. Its one piece of logic is the handler of
`/api/random` (`random_api`). It reads the optional fields `min`, `max` and
`count` from the query string or a JSON body. Absent fields get defaults: the
widest signed 64-bit range and a count of 1. The count is clamped into
[1, 1000]. The handler rejects `min > max` with the message `"min > max"`.
Otherwise it answers with a JSON array of `count` integers, each drawn from
[min, max] inclusive. Any exception along the way, including a failed parse,
is answered with status 400 and `{"error": <message>}`.

`nuge.dfy` (module `Nuge`) models this as follows:

- the extracted request data is a `Payload`: either a map from field names to raw values, or an unreadable body;
- the pure steps are functions: defaulting (`FieldValue`), clamping (`ClampCount`), and parsing in order plus the range check (`Validate`);
- the drawing of numbers is a method with a loop (`Generate`), built on a nondeterministic `RandInt`;
- `RandomApi` is proved to give an `Admissible` response, meaning the error answer for a rejected request, or status 200 with exactly the clamped count of numbers in range;
- the properties of the endpoint are lemmas about `Validate` and `Admissible`.

Integer parsing (`int(...)`) is a parameter `parse` of every operation. It maps
a raw value to an integer, or to the message of the exception it raises.
Defaults do not go through `parse`, because `int` of an integer is that integer.

## Model

| member | source | states |
|---|---|---|
| `Nuge.PyMin` | nuge.py:16 | Python's `min` of two integers: no larger than either argument, and equal to one of them |
| `Nuge.PyMax` | nuge.py:16 | Python's `max` of two integers: no smaller than either argument, and equal to one of them |
| `Nuge.FieldValue` | nuge.py:14-16 | `int(data.get(key, default))`: an absent field yields the default unchanged; a present one is `parse` of its raw value |
| `Nuge.Message` | nuge.py:18-22 | the text `str(e)` gives: "min > max" for the range rejection, otherwise the body reader's or the parser's message |
| `Nuge.ClampCount` | nuge.py:16 | the effective count lies in [1, 1000]; counts below 1 become 1, counts above 1000 become 1000, and counts in [1, 1000] are unchanged |
| `Nuge.Validate` | nuge.py:13-18 | an accepted request has min <= max and a count in [1, 1000] |
| `Nuge.RandInt` | nuge.py:19 | `randint(lo, hi)` returns some integer of the closed interval [lo, hi] |
| `Nuge.Generate` | nuge.py:19 | the comprehension returns exactly `count` integers, each in [lo, hi] |
| `Nuge.RandomApi` | nuge.py:11-22 | the handler's answer is admissible: the 400 error answer with the failure's message for a rejected request, otherwise status 200 and exactly the effective count of numbers in [min, max] |
| `Nuge.AcceptedExactly` | nuge.py:14-18 | a request is accepted if and only if the body is readable, all three fields parse and min <= max; the accepted parameters are the parsed (or default) min and max and the clamped count |
| `Nuge.MinAboveMaxRejected` | nuge.py:17-18 | when all fields parse and min > max, the result is the "min > max" rejection, answered with status 400 and no numbers |
| `Nuge.ParseFailureFirst` | nuge.py:14-18 | fields are parsed in the order min, max, count; a parse failure is reported for the first failing field and is never the "min > max" rejection, even when min > max also holds; the client gets status 400 with the parser's message for that field |
| `Nuge.AbsentFieldsDefault` | nuge.py:14-16 | in an accepted request, each absent field takes its own default whatever the others hold: min = -2^63, max = 2^63-1, count = 1 |
| `Nuge.UnreadableRejected` | nuge.py:13-14 | a body that cannot be read as a field mapping is answered with status 400 and its own error message |
| `Nuge.StatusMatchesOutcome` | nuge.py:20-22 | the status is 400 exactly when the request is rejected, and 200 exactly when the body is a list of numbers |
| `Nuge.NoFieldsGivesOneNumber` | nuge.py:14-16 | with no fields the parameters are min = -2^63, max = 2^63-1, count = 1, and the answer is one integer in that range |
| `Nuge.CountOfAnswer` | nuge.py:16 | an accepted request with requested count above 1000 gets exactly 1000 numbers, below 1 gets exactly one, otherwise exactly the requested number |
| `Nuge.EqualBoundsRepeat` | nuge.py:19 | when min == max, every returned number equals min |
| `Nuge.FiveFiveThree` | nuge.py:14-19 | the request min = 5, max = 5, count = 3 is answered with [5, 5, 5] |

## Left out

- Flask routing, the choice between `request.get_json(force=True)` and `request.args`, and `jsonify` (nuge.py:1, 4, 13, 20) are framework I/O. The model starts from already-extracted request data and returns the status and the value handed to `jsonify`.
- The static file routes `index` and `static_files` (nuge.py:6-8, 24-26) serve files from disk and are not modelled.
- Server start-up and its console message (nuge.py:28-30) are not modelled.
- The exact behaviour of Python's `int()` on strings, floats, booleans and `null` is abstract: `parse` is an arbitrary total function. Exception texts other than "min > max" are whatever `parse` or the body reader reports.
- `RandInt`: states only that the result is in range, not that it is uniform; the process-wide generator state is not modelled.
- `sys.maxsize` is taken as 2^63-1, its value on 64-bit interpreters; on a 32-bit interpreter the defaults would be -2^31 and 2^31-1.
