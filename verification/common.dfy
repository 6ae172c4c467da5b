/** Shared vocabulary of the model: optional values, the JavaScript string
    helpers the handlers use (`trim`, `split(',')[0]`), the `||` defaults of
    request bodies, and the shape of an HTTP reply. */
module Common {

  /** A value that may be absent. For request bodies `None` is a field the
      JSON body does not carry (JavaScript `undefined`). */
  datatype Option<+T> = None | Some(value: T) {
    function GetOr(default: T): T {
      match this
      case Some(v) => v
      case None => default
    }
  }

  /** What a route handler answers. `Denied` is the answer of the
      authentication middleware when it rejects the bearer token; that
      middleware is not part of this model, so its status code is left open. */
  datatype Reply<+T> =
    | Ok(status: nat, value: T)
    | Fail(status: nat, message: string)
    | Denied

  /** White space and line terminators as `String.prototype.trim` removes
      them (sections 12.2 and 12.3 of ECMA-262). */
  predicate IsSpace(c: char) {
    || ('\U{9}' <= c <= '\U{D}')
    || c == '\U{20}' || c == '\U{A0}' || c == '\U{1680}'
    || ('\U{2000}' <= c <= '\U{200A}')
    || c == '\U{2028}' || c == '\U{2029}' || c == '\U{202F}' || c == '\U{205F}'
    || c == '\U{3000}' || c == '\U{FEFF}'
  }

  predicate AllSpace(s: string) {
    forall k :: 0 <= k < |s| ==> IsSpace(s[k])
  }

  /** `s` neither starts nor ends with white space. */
  predicate Trimmed(s: string) {
    |s| == 0 || (!IsSpace(s[0]) && !IsSpace(s[|s| - 1]))
  }

  /** How many white-space characters `s` starts with. */
  function LeadingSpace(s: string): (n: nat)
    ensures n <= |s|
    ensures forall k :: 0 <= k < n ==> IsSpace(s[k])
    ensures n < |s| ==> !IsSpace(s[n])
  {
    if |s| > 0 && IsSpace(s[0]) then 1 + LeadingSpace(s[1..]) else 0
  }

  /** Where the trailing white space of `s` begins. */
  function TrailingStart(s: string): (e: nat)
    ensures e <= |s|
    ensures forall k :: e <= k < |s| ==> IsSpace(s[k])
    ensures e > 0 ==> !IsSpace(s[e - 1])
  {
    if |s| > 0 && IsSpace(s[|s| - 1]) then TrailingStart(s[..|s| - 1]) else |s|
  }

  /** `String.prototype.trim`: the middle of `s` once the white space on
      both ends is gone. It is empty exactly when `s` is all white space. */
  function Trim(s: string): (r: string)
    ensures Trimmed(r)
    ensures r == [] <==> AllSpace(s)
    ensures r != [] ==> r == s[LeadingSpace(s)..TrailingStart(s)]
    ensures forall k :: 0 <= k < LeadingSpace(s) ==> IsSpace(s[k])
    ensures forall k :: LeadingSpace(s) + |r| <= k < |s| ==> IsSpace(s[k])
  {
    var i := LeadingSpace(s);
    if i == |s| then []
    else
      var e := TrailingStart(s);
      assert !IsSpace(s[i]);
      assert i < e;
      s[i..e]
  }

  /** `s.split(sep)[0]`: everything before the first `sep`, or all of `s`
      when it holds none. */
  function FirstField(s: string, sep: char): (r: string)
    ensures |r| <= |s| && r == s[..|r|]
    ensures sep !in r
    ensures |r| == |s| || s[|r|] == sep
  {
    if |s| == 0 || s[0] == sep then [] else [s[0]] + FirstField(s[1..], sep)
  }

  /** `x || 0` for a numeric body field: an absent field and `0` both give 0. */
  function OrZero(x: Option<int>): int {
    if x.Some? then x.value else 0
  }

  /** The value a column keeps after an update whose body may omit it: the
      JSON encoder drops `undefined` keys, so an absent field is not written. */
  function Keep<T>(current: T, given: Option<T>): T {
    if given.Some? then given.value else current
  }

  /** `Keep` for a nullable column: an absent field leaves the column as it is. */
  function Merge<T>(current: Option<T>, given: Option<T>): Option<T> {
    if given.Some? then given else current
  }
}
