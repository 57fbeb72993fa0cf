/** The usual optional-value datatype. */
module Wrappers {
  datatype Option<+T> = None | Some(value: T)
}

/**
 * What both routers share: the values a parsed JSON body can hold, the
 * response a handler produces, the required-field check, and the text forms
 * of row ids (the `:wine_id` path parameter, the `userId` query and the
 * Location header).
 */
module Http {
  import opened Wrappers

  /** One key of a parsed JSON request body: absent, an explicit null, or a value. */
  datatype Field<T> = Undefined | Null | Given(value: T) {
    /** The source's `value == null`, which holds for null and undefined alike. */
    predicate IsNullish() {
      !Given?
    }

    /** What a nullable column receives for this key. */
    function ToOption(): Option<T> {
      if Given? then Some(value) else None
    }
  }

  /** JavaScript truthiness of a string-valued key: present and not the empty string. */
  predicate Truthy(f: Field<string>) {
    f.Given? && f.value != ""
  }

  /** What `res.status(..).json(..)` or `res.status(..).end()` sends. */
  datatype Payload<J> =
    | NoBody                          // `.end()`
    | ErrorMessage(message: string)   // `{ error: { message } }`
    | Json(value: J)                  // a serialized record or list
    | ServerError                     // produced by the application's error handler

  datatype Response<J> = Response(status: int, body: Payload<J>, location: Option<string>)

  function Fail<J>(status: int, message: string): Response<J> {
    Response(status, ErrorMessage(message), None)
  }

  function Ok<J>(value: J): Response<J> {
    Response(200, Json(value), None)
  }

  /** 204 No Content with an empty body. */
  function NoContent<J>(): Response<J> {
    Response(204, NoBody, None)
  }

  /** A storage call that rejects its statement ends in the generic 500 handler. */
  function StorageFailure<J>(): Response<J> {
    Response(500, ServerError, None)
  }

  // ---------------------------------------------------------------------
  // Validator: the first required key whose value is null or undefined
  // ---------------------------------------------------------------------

  /** One `[key, value]` pair of `Object.entries(..)`, reduced to what the check looks at. */
  datatype Entry = Entry(key: string, nullish: bool)

  function MissingMessage(key: string): string {
    "Missing '" + key + "' in request body"
  }

  /** The key of the first nullish entry, in iteration order. */
  function FirstNullish(entries: seq<Entry>): (r: Option<string>)
    ensures r.None? <==> forall i :: 0 <= i < |entries| ==> !entries[i].nullish
    ensures r.Some? ==>
      exists i :: 0 <= i < |entries| && entries[i].nullish && entries[i].key == r.value &&
        forall j :: 0 <= j < i ==> !entries[j].nullish
  {
    if entries == [] then None
    else if entries[0].nullish then Some(entries[0].key)
    else
      FirstNullish(entries[1..])
  }

  lemma FirstNullishUnfold(entries: seq<Entry>)
    requires entries != []
    ensures FirstNullish(entries) ==
      if entries[0].nullish then Some(entries[0].key) else FirstNullish(entries[1..])
  {
  }

  /** The `for .. of Object.entries(..)` loop that returns at the first missing key. */
  method FirstMissing(entries: seq<Entry>) returns (missing: Option<string>)
    ensures missing == FirstNullish(entries)
  {
    for i := 0 to |entries|
      invariant FirstNullish(entries[i..]) == FirstNullish(entries)
    {
      if entries[i].nullish {
        return Some(entries[i].key);
      }
      assert entries[i..][1..] == entries[i + 1..];
    }
    assert entries[|entries|..] == [];
    return None;
  }

  /** `Object.values(..).filter(Boolean).length` over string-valued keys. */
  function CountTruthy(fields: seq<Field<string>>): (n: nat)
    ensures n <= |fields|
    ensures n == 0 <==> forall i :: 0 <= i < |fields| ==> !Truthy(fields[i])
  {
    if fields == [] then 0
    else
      var rest := CountTruthy(fields[1..]);
      assert forall i :: 1 <= i < |fields| ==> fields[i] == fields[1..][i - 1];
      (if Truthy(fields[0]) then 1 else 0) + rest
  }

  // ---------------------------------------------------------------------
  // Ids as text
  // ---------------------------------------------------------------------

  predicate AllDigits(s: string) {
    forall i :: 0 <= i < |s| ==> '0' <= s[i] <= '9'
  }

  function Digit(d: nat): (c: char)
    requires d < 10
    ensures '0' <= c <= '9' && c as int - '0' as int == d
  {
    ('0' as int + d) as char
  }

  /** The decimal text of an id, as a template literal `${id}` writes it. */
  function IdText(n: nat): (s: string)
    ensures s != [] && AllDigits(s)
    ensures n < 10 <==> |s| == 1
    ensures |s| > 1 ==> s[0] != '0'
  {
    if n < 10 then [Digit(n)]
    else
      var high := IdText(n / 10);
      assert (high + [Digit(n % 10)])[0] == high[0];
      high + [Digit(n % 10)]
  }

  function DigitsValue(s: string): nat
    requires AllDigits(s)
  {
    if s == [] then 0 else DigitsValue(s[..|s| - 1]) * 10 + (s[|s| - 1] as int - '0' as int)
  }

  /**
   * How the storage reads a textual id compared with an integer column:
   * decimal digits give that number, anything else is rejected.
   */
  function ParseId(s: string): Option<nat> {
    if s != [] && AllDigits(s) then Some(DigitsValue(s)) else None
  }

  lemma {:induction false} ParseIdText(n: nat)
    ensures ParseId(IdText(n)) == Some(n)
    ensures DigitsValue(IdText(n)) == n
  {
    var s := IdText(n);
    if n < 10 {
      assert s[..0] == [];
      assert DigitsValue(s) == DigitsValue([]) * 10 + n;
    } else {
      ParseIdText(n / 10);
      assert s[..|s| - 1] == IdText(n / 10);
    }
  }

  /** Distinct ids have distinct text, so a Location names exactly one row. */
  lemma IdTextInjective(a: nat, b: nat)
    requires IdText(a) == IdText(b)
    ensures a == b
  {
    ParseIdText(a);
    ParseIdText(b);
  }

  // ---------------------------------------------------------------------
  // Location header: path.posix.join(originalUrl, `/${id}`)
  // ---------------------------------------------------------------------

  function TrimTrailingSlashes(s: string): (r: string)
    ensures |r| <= |s| && r == s[..|r|]
    ensures r == [] || r[|r| - 1] != '/'
    ensures forall i :: |r| <= i < |s| ==> s[i] == '/'
  {
    if s == [] || s[|s| - 1] != '/' then s else TrimTrailingSlashes(s[..|s| - 1])
  }

  function JoinLocation(base: string, id: nat): string {
    TrimTrailingSlashes(base) + "/" + IdText(id)
  }

  /**
   * The Location header is the request path followed by one slash and the
   * id's text, and that last segment reads back as the id.
   */
  lemma LocationNamesId(base: string, id: nat)
    ensures var loc := JoinLocation(base, id); var k := |loc| - |IdText(id)|;
      1 <= k && loc[..k - 1] == TrimTrailingSlashes(base) && loc[k - 1] == '/' &&
      ParseId(loc[k..]) == Some(id)
  {
    var loc := JoinLocation(base, id);
    var k := |loc| - |IdText(id)|;
    assert loc[k..] == IdText(id);
    assert loc[..k - 1] == TrimTrailingSlashes(base);
    ParseIdText(id);
  }
}
