/** A model of the `/api/random` request handler (`random_api`) of the nuge
    service: it reads the optional fields `min`, `max` and `count`, fills in
    defaults, clamps the count, checks the range and answers either with a
    JSON array of `count` integers drawn from [min, max] or with a JSON error
    object and status 400.

    Integer parsing (`int(...)`) is a library call and stays abstract: every
    operation takes it as a total function `parse` from a raw field value to
    either an integer or the text of the exception it would raise.
    Randomness is a nondeterministic choice in the closed interval. */
module Nuge {

  datatype Result<+T, +E> = Ok(value: T) | Err(error: E)

  /** Default lower bound: `-sys.maxsize - 1` on a 64-bit interpreter. */
  const MinDefault: int := -0x8000_0000_0000_0000
  /** Default upper bound: `sys.maxsize` on a 64-bit interpreter. */
  const MaxDefault: int := 0x7fff_ffff_ffff_ffff
  const CountDefault: int := 1
  /** The largest count the handler honours; larger requests are capped. */
  const CountCap: int := 1000

  /** The request data once the framework has extracted it: a mapping from
      field names to raw values (query arguments or the members of a JSON
      object), or a body that cannot be read as such a mapping (malformed
      JSON, or JSON that is not an object, on which `.get` fails). */
  datatype Payload<R> = Fields(fields: map<string, R>) | Unreadable(reason: string)

  /** Why a request is rejected. The field name of a parse failure is kept
      for stating which field failed first; the client sees only the reason. */
  datatype Failure =
    | BodyFailure(reason: string)
    | ParseFailure(field: string, reason: string)
    | MinAboveMax

  /** The validated request. */
  datatype Params = Params(lo: int, hi: int, count: int)

  /** What `jsonify` is handed: the list of numbers or `{"error": ...}`. */
  datatype Body = Numbers(nums: seq<int>) | ErrorObject(error: string)

  datatype Response = Response(status: int, body: Body)

  /** The text `str(e)` gives for each failure: the range rejection's own
      message, otherwise the reason the body reader or the parser gave. */
  function Message(f: Failure): (m: string)
    ensures f.MinAboveMax? ==> m == "min > max"
    ensures !f.MinAboveMax? ==> m == f.reason
  {
    match f
    case BodyFailure(reason) => reason
    case ParseFailure(_, reason) => reason
    case MinAboveMax => "min > max"
  }

  /** Python's built-in `min` and `max` on two integers. */
  function PyMin(a: int, b: int): (m: int)
    ensures m <= a && m <= b && (m == a || m == b)
  {
    if b < a then b else a
  }

  function PyMax(a: int, b: int): (m: int)
    ensures m >= a && m >= b && (m == a || m == b)
  {
    if b > a then b else a
  }

  /** `max(1, min(n, 1000))`: the effective count. */
  function ClampCount(n: int): (c: int)
    ensures 1 <= c <= CountCap
    ensures n < 1 ==> c == 1
    ensures n > CountCap ==> c == CountCap
    ensures 1 <= n <= CountCap ==> c == n
  {
    PyMax(1, PyMin(n, CountCap))
  }

  /** `int(data.get(key, default))`: an absent field yields the default
      unchanged (`int` of an integer is that integer); a present one is parsed. */
  function FieldValue<R>(fields: map<string, R>, key: string, default: int,
                         parse: R -> Result<int, string>): (r: Result<int, string>)
    ensures key !in fields ==> r == Ok(default)
    ensures key in fields ==> r == parse(fields[key])
  {
    if key in fields then parse(fields[key]) else Ok(default)
  }

  /** Everything the handler does before drawing numbers: read the body,
      parse `min`, `max` and `count` in that order (the first failure wins),
      clamp the count, and reject an empty range. */
  function Validate<R>(payload: Payload<R>, parse: R -> Result<int, string>): (r: Result<Params, Failure>)
    ensures r.Ok? ==> r.value.lo <= r.value.hi && 1 <= r.value.count <= CountCap
  {
    match payload
    case Unreadable(reason) => Err(BodyFailure(reason))
    case Fields(fields) =>
      var lo := FieldValue(fields, "min", MinDefault, parse);
      if lo.Err? then Err(ParseFailure("min", lo.error))
      else
        var hi := FieldValue(fields, "max", MaxDefault, parse);
        if hi.Err? then Err(ParseFailure("max", hi.error))
        else
          var n := FieldValue(fields, "count", CountDefault, parse);
          if n.Err? then Err(ParseFailure("count", n.error))
          else if lo.value > hi.value then Err(MinAboveMax)
          else Ok(Params(lo.value, hi.value, ClampCount(n.value)))
  }

  predicate InRange(nums: seq<int>, lo: int, hi: int)
  {
    forall i :: 0 <= i < |nums| ==> lo <= nums[i] <= hi
  }

  /** The responses the handler may give: the error answer for a rejected
      request, otherwise status 200 and exactly `count` numbers in [min, max]. */
  predicate Admissible<R>(payload: Payload<R>, parse: R -> Result<int, string>, resp: Response)
  {
    match Validate(payload, parse)
    case Err(f) => resp == Response(400, ErrorObject(Message(f)))
    case Ok(p) =>
      resp.status == 200 && resp.body.Numbers? &&
      |resp.body.nums| == p.count && InRange(resp.body.nums, p.lo, p.hi)
  }

  /** `random.randint(lo, hi)`: some integer of the closed interval. */
  method RandInt(lo: int, hi: int) returns (x: int)
    requires lo <= hi
    ensures lo <= x <= hi
  {
    x :| lo <= x <= hi;
  }

  /** `[random.randint(lo, hi) for _ in range(count)]`. */
  method Generate(lo: int, hi: int, count: nat) returns (nums: seq<int>)
    requires lo <= hi
    ensures |nums| == count
    ensures InRange(nums, lo, hi)
  {
    nums := [];
    for i := 0 to count
      invariant |nums| == i
      invariant InRange(nums, lo, hi)
    {
      var x := RandInt(lo, hi);
      nums := nums + [x];
    }
  }

  /** The handler: any exception becomes status 400 with its message. */
  method RandomApi<R>(payload: Payload<R>, parse: R -> Result<int, string>) returns (resp: Response)
    ensures Admissible(payload, parse, resp)
  {
    match Validate(payload, parse)
    case Err(f) =>
      resp := Response(400, ErrorObject(Message(f)));
    case Ok(p) =>
      var nums := Generate(p.lo, p.hi, p.count);
      resp := Response(200, Numbers(nums));
  }

  // ---------------------------------------------------------------------
  // Properties of the validation step

  /** A request is accepted exactly when the body is readable, all three
      fields parse and min <= max; the count is then the clamped one. */
  lemma AcceptedExactly<R>(payload: Payload<R>, parse: R -> Result<int, string>)
    ensures Validate(payload, parse).Ok? <==>
      payload.Fields? &&
      FieldValue(payload.fields, "min", MinDefault, parse).Ok? &&
      FieldValue(payload.fields, "max", MaxDefault, parse).Ok? &&
      FieldValue(payload.fields, "count", CountDefault, parse).Ok? &&
      FieldValue(payload.fields, "min", MinDefault, parse).value <=
      FieldValue(payload.fields, "max", MaxDefault, parse).value
    ensures Validate(payload, parse).Ok? ==>
      Validate(payload, parse).value == Params(
        FieldValue(payload.fields, "min", MinDefault, parse).value,
        FieldValue(payload.fields, "max", MaxDefault, parse).value,
        ClampCount(FieldValue(payload.fields, "count", CountDefault, parse).value))
  {
  }

  /** Parsed min above parsed max is rejected with "min > max", status 400,
      and no numbers. */
  lemma MinAboveMaxRejected<R>(fields: map<string, R>, parse: R -> Result<int, string>, resp: Response)
    requires FieldValue(fields, "min", MinDefault, parse).Ok?
    requires FieldValue(fields, "max", MaxDefault, parse).Ok?
    requires FieldValue(fields, "count", CountDefault, parse).Ok?
    requires FieldValue(fields, "min", MinDefault, parse).value > FieldValue(fields, "max", MaxDefault, parse).value
    requires Admissible(Fields(fields), parse, resp)
    ensures Validate(Fields(fields), parse) == Err(MinAboveMax)
    ensures resp == Response(400, ErrorObject("min > max"))
  {
  }

  /** Fields are parsed in the order min, max, count before the range is
      checked: a parse failure is reported for the first failing field and
      is never the "min > max" rejection. The client gets status 400 and
      the parser's message for that first failing field. */
  lemma ParseFailureFirst<R>(fields: map<string, R>, parse: R -> Result<int, string>, resp: Response)
    requires FieldValue(fields, "min", MinDefault, parse).Err? ||
             FieldValue(fields, "max", MaxDefault, parse).Err? ||
             FieldValue(fields, "count", CountDefault, parse).Err?
    requires Admissible(Fields(fields), parse, resp)
    ensures resp.status == 400
    ensures FieldValue(fields, "min", MinDefault, parse).Err? ==>
      resp.body == ErrorObject(FieldValue(fields, "min", MinDefault, parse).error)
    ensures FieldValue(fields, "min", MinDefault, parse).Ok? &&
            FieldValue(fields, "max", MaxDefault, parse).Err? ==>
      resp.body == ErrorObject(FieldValue(fields, "max", MaxDefault, parse).error)
    ensures FieldValue(fields, "min", MinDefault, parse).Ok? &&
            FieldValue(fields, "max", MaxDefault, parse).Ok? &&
            FieldValue(fields, "count", CountDefault, parse).Err? ==>
      resp.body == ErrorObject(FieldValue(fields, "count", CountDefault, parse).error)
    ensures Validate(Fields(fields), parse) != Err(MinAboveMax)
    ensures FieldValue(fields, "min", MinDefault, parse).Err? ==>
      Validate(Fields(fields), parse) ==
      Err(ParseFailure("min", FieldValue(fields, "min", MinDefault, parse).error))
    ensures FieldValue(fields, "min", MinDefault, parse).Ok? &&
            FieldValue(fields, "max", MaxDefault, parse).Err? ==>
      Validate(Fields(fields), parse) ==
      Err(ParseFailure("max", FieldValue(fields, "max", MaxDefault, parse).error))
    ensures FieldValue(fields, "min", MinDefault, parse).Ok? &&
            FieldValue(fields, "max", MaxDefault, parse).Ok? &&
            FieldValue(fields, "count", CountDefault, parse).Err? ==>
      Validate(Fields(fields), parse) ==
      Err(ParseFailure("count", FieldValue(fields, "count", CountDefault, parse).error))
  {
  }

  /** An unreadable body is rejected with its own reason before any field is
      looked at. */
  lemma UnreadableRejected<R>(reason: string, parse: R -> Result<int, string>, resp: Response)
    requires Admissible(Unreadable(reason), parse, resp)
    ensures resp == Response(400, ErrorObject(reason))
  {
  }

  /** Every rejection, whatever its cause, is answered with status 400 and an
      error object; every acceptance with status 200 and a list. */
  lemma StatusMatchesOutcome<R>(payload: Payload<R>, parse: R -> Result<int, string>, resp: Response)
    requires Admissible(payload, parse, resp)
    ensures resp.status == 400 <==> Validate(payload, parse).Err?
    ensures resp.status == 200 <==> resp.body.Numbers?
    ensures resp.status == 200 || resp.status == 400
  {
  }

  /** Each absent field takes its own default, whatever the other fields
      hold: min -2^63, max 2^63-1, count 1. */
  lemma AbsentFieldsDefault<R>(fields: map<string, R>, parse: R -> Result<int, string>)
    requires Validate(Fields(fields), parse).Ok?
    ensures "min" !in fields ==> Validate(Fields(fields), parse).value.lo == MinDefault
    ensures "max" !in fields ==> Validate(Fields(fields), parse).value.hi == MaxDefault
    ensures "count" !in fields ==> Validate(Fields(fields), parse).value.count == 1
  {
  }

  // ---------------------------------------------------------------------
  // Properties of the answer

  /** With no fields at all the defaults apply: the widest 64-bit range and
      one number, so the answer is a single integer of that range. */
  lemma NoFieldsGivesOneNumber<R>(parse: R -> Result<int, string>, resp: Response)
    requires Admissible(Fields(map[]), parse, resp)
    ensures Validate(Fields(map[]), parse) == Ok(Params(MinDefault, MaxDefault, 1))
    ensures resp.status == 200 && resp.body.Numbers? && |resp.body.nums| == 1
    ensures MinDefault <= resp.body.nums[0] <= MaxDefault
  {
  }

  /** A requested count above 1000 yields exactly 1000 numbers, one below 1
      yields exactly one, and one in [1, 1000] yields that many. */
  lemma CountOfAnswer<R>(fields: map<string, R>, parse: R -> Result<int, string>, resp: Response)
    requires Validate(Fields(fields), parse).Ok?
    requires Admissible(Fields(fields), parse, resp)
    ensures var n := FieldValue(fields, "count", CountDefault, parse).value;
      (n > CountCap ==> |resp.body.nums| == CountCap) &&
      (n < 1 ==> |resp.body.nums| == 1) &&
      (1 <= n <= CountCap ==> |resp.body.nums| == n)
  {
  }

  /** When min == max every number equals min. */
  lemma EqualBoundsRepeat<R>(payload: Payload<R>, parse: R -> Result<int, string>, resp: Response)
    requires Validate(payload, parse).Ok?
    requires Validate(payload, parse).value.lo == Validate(payload, parse).value.hi
    requires Admissible(payload, parse, resp)
    ensures resp.body == Numbers(seq(Validate(payload, parse).value.count, _ => Validate(payload, parse).value.lo))
  {
  }

  /** `{"min": 5, "max": 5, "count": 3}` is answered with `[5, 5, 5]`. */
  lemma FiveFiveThree<R>(fields: map<string, R>, parse: R -> Result<int, string>, resp: Response)
    requires fields.Keys == {"min", "max", "count"}
    requires parse(fields["min"]) == Ok(5) && parse(fields["max"]) == Ok(5)
    requires parse(fields["count"]) == Ok(3)
    requires Admissible(Fields(fields), parse, resp)
    ensures resp == Response(200, Numbers([5, 5, 5]))
  {
  }
}
