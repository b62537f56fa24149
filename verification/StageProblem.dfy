/** What a stage may attach to a request, and the problem documents it is answered with. */
module StageProblem {
  import opened Prelude
  import opened HttpBytes

  const MAX_STAGE_ATTRIBUTES: nat := 32
  const MAX_STAGE_ATTRIBUTE_KEY_BYTES: nat := 64
  const MAX_STAGE_ATTRIBUTE_VALUE_BYTES: nat := 1024
  const MAX_STAGE_ATTRIBUTE_BYTES: nat := 8 * 1024

  /** An attribute with the size of its JSON encoding, if it has one. */
  datatype Attribute = Attribute(key: string, encoded: Option<nat>)

  datatype Body = Opaque(bytes: string) | Problem(status: nat, code: string, requestId: Option<string>)

  datatype Response = Response(status: nat, headers: map<string, string>, body: Body)

  // ----- attributes

  predicate IsKeyByte(c: char) {
    'a' <= c <= 'z' || '0' <= c <= '9' || c == '.' || c == '_' || c == '-'
  }

  predicate ValidKey(key: string) {
    0 < |key| <= MAX_STAGE_ATTRIBUTE_KEY_BYTES && forall i :: 0 <= i < |key| ==> IsKeyByte(key[i])
  }

  function AttributeBytes(attributes: seq<Attribute>): nat {
    if attributes == [] then 0
    else
      var a := attributes[|attributes| - 1];
      AttributeBytes(attributes[..|attributes| - 1]) + |a.key| + (if a.encoded.Some? then a.encoded.value else 0)
  }

  predicate ValidAttribute(a: Attribute) {
    ValidKey(a.key) && a.encoded.Some? && a.encoded.value <= MAX_STAGE_ATTRIBUTE_VALUE_BYTES
  }

  predicate ValidAttributes(attributes: seq<Attribute>) {
    && |attributes| <= MAX_STAGE_ATTRIBUTES
    && (forall i :: 0 <= i < |attributes| ==> ValidAttribute(attributes[i]))
    && AttributeBytes(attributes) <= MAX_STAGE_ATTRIBUTE_BYTES
  }

  lemma {:induction false} AttributeBytesGrow(attributes: seq<Attribute>, n: nat)
    requires n <= |attributes|
    ensures AttributeBytes(attributes[..n]) <= AttributeBytes(attributes)
    decreases |attributes| - n
  {
    if n == |attributes| {
      assert attributes[..n] == attributes;
    } else {
      AttributeBytesGrow(attributes, n + 1);
      assert attributes[..n + 1][..n] == attributes[..n];
    }
  }

  /** The total is the sum over the attributes of their key and their encoding. */
  lemma {:induction false} AttributeBytesAdd(a: seq<Attribute>, b: seq<Attribute>)
    ensures AttributeBytes(a + b) == AttributeBytes(a) + AttributeBytes(b)
    ensures forall x: Attribute ::
      AttributeBytes([x]) == |x.key| + (if x.encoded.Some? then x.encoded.value else 0)
  {
    assert forall x: Attribute :: [x][..0] == [];
    if b == [] {
      assert a + b == a;
    } else {
      var n := |b| - 1;
      assert (a + b)[..|a| + n] == a + b[..n] && (a + b)[|a| + n] == b[n];
      AttributeBytesAdd(a, b[..n]);
    }
  }

  /** The running total and the per-entry checks accept exactly the attribute maps within all bounds. */
  method ValidateStageAttributes(attributes: seq<Attribute>) returns (ok: bool)
    ensures ok == ValidAttributes(attributes)
  {
    if |attributes| > MAX_STAGE_ATTRIBUTES {
      return false;
    }
    var total := 0;
    for i := 0 to |attributes|
      invariant total == AttributeBytes(attributes[..i]) <= MAX_STAGE_ATTRIBUTE_BYTES
      invariant forall j :: 0 <= j < i ==> ValidAttribute(attributes[j])
    {
      var a := attributes[i];
      if !ValidKey(a.key) || a.encoded.None? || a.encoded.value > MAX_STAGE_ATTRIBUTE_VALUE_BYTES {
        return false;
      }
      assert attributes[..i + 1][..i] == attributes[..i];
      total := total + |a.key| + a.encoded.value;
      if total > MAX_STAGE_ATTRIBUTE_BYTES {
        AttributeBytesGrow(attributes, i + 1);
        return false;
      }
    }
    assert attributes[..|attributes|] == attributes;
    return true;
  }

  // ----- sanitized problem documents

  predicate IsCode(s: string) {
    && 0 < |s| <= 64
    && forall i :: 0 <= i < |s| ==> 'a' <= s[i] <= 'z' || '0' <= s[i] <= '9' || s[i] == '_'
  }

  predicate IsRequestId(s: string) {
    && 0 < |s| <= 128
    && forall i :: 0 <= i < |s| ==>
         'a' <= s[i] <= 'z' || 'A' <= s[i] <= 'Z' || '0' <= s[i] <= '9' || s[i] in "-_.:/"
  }

  predicate SafeHeader(name: string, value: string) {
    && name in {"retry-after", "ratelimit", "ratelimit-policy", "ratelimit-limit", "ratelimit-remaining",
                "ratelimit-reset", "x-request-id", "x-ores-request-id"}
    && 0 < |value| <= 256
    && !AnyForbidden(value)
  }

  function SafeHeaders(headers: seq<(string, string)>): map<string, string> {
    if headers == [] then map[]
    else
      var (name, value) := headers[|headers| - 1];
      var rest := SafeHeaders(headers[..|headers| - 1]);
      if SafeHeader(Lower(name), value) then rest[Lower(name) := value] else rest
  }

  function SanitizedProblem(status: nat, code: string, requestId: string, headers: seq<(string, string)>): Response {
    var safe := if IsCode(code) then code else "middleware_rejection";
    var id := if IsRequestId(requestId) then Some(requestId) else None;
    Response(status,
             SafeHeaders(headers)["content-type" := "application/problem+json"]["cache-control" := "no-store"],
             Problem(status, safe, id))
  }

  /** The last header of its lower-cased name that is safe. */
  ghost predicate LastSafe(headers: seq<(string, string)>, i: nat) {
    && i < |headers| && SafeHeader(Lower(headers[i].0), headers[i].1)
    && forall j :: i < j < |headers| && Lower(headers[j].0) == Lower(headers[i].0) ==>
         !SafeHeader(Lower(headers[j].0), headers[j].1)
  }

  /** Some safe header has the lower-cased name. */
  ghost predicate Offered(headers: seq<(string, string)>, name: string) {
    exists i :: 0 <= i < |headers| && LastSafe(headers, i) && Lower(headers[i].0) == name
  }

  /** Every last safe header is there with its value. */
  ghost predicate Carries(m: map<string, string>, headers: seq<(string, string)>) {
    forall i :: 0 <= i < |headers| && LastSafe(headers, i) ==>
      Lower(headers[i].0) in m && m[Lower(headers[i].0)] == headers[i].1
  }

  /** Exactly the names of safe headers get through, each with the value of its last safe header. */
  lemma {:induction false} SafeHeadersExact(headers: seq<(string, string)>)
    ensures Carries(SafeHeaders(headers), headers)
    ensures forall n :: n in SafeHeaders(headers) ==> Offered(headers, n)
  {
    hide SafeHeader, Lower, LastSafe;
    if headers == [] {
    } else {
      var n := |headers| - 1;
      var rest, last := headers[..n], headers[n];
      var name := Lower(last.0);
      SafeHeadersExact(rest);
      forall i | 0 <= i < n
        ensures headers[i] == rest[i]
        ensures LastSafe(headers, i) <==> LastSafe(rest, i) && !(Lower(rest[i].0) == name && SafeHeader(name, last.1))
      {
        LastSafeSnoc(headers, i);
      }
      LastSafeSnoc(headers, n);
      forall m | m in SafeHeaders(headers) ensures Offered(headers, m) {
        if m == name && SafeHeader(name, last.1) {
          assert LastSafe(headers, n);
        } else {
          assert Offered(rest, m);
          var i :| 0 <= i < |rest| && LastSafe(rest, i) && Lower(rest[i].0) == m;
          assert LastSafe(headers, i);
        }
      }
    }
  }

  lemma LastSafeSnoc(headers: seq<(string, string)>, i: nat)
    requires headers != []
    ensures var n := |headers| - 1;
      var name := Lower(headers[n].0);
      && (LastSafe(headers, n) <==> SafeHeader(name, headers[n].1))
      && (i < n ==> (LastSafe(headers, i) <==>
                     LastSafe(headers[..n], i) && !(Lower(headers[i].0) == name && SafeHeader(name, headers[n].1))))
  {
    hide SafeHeader, Lower;
    var n := |headers| - 1;
    assert forall j :: 0 <= j < n ==> headers[..n][j] == headers[j];
  }

  /**
   The problem document for a rejection: a clean code and request id as they are, any other code
   replaced and any other id left out, the two fixed headers, and of the headers supplied exactly
   the safe ones.
   */
  ghost predicate IsProblem(
    r: Response, status: nat, code: string, requestId: string, headers: seq<(string, string)>)
  {
    && r.status == status
    && r.body == Problem(status, if IsCode(code) then code else "middleware_rejection",
                         if IsRequestId(requestId) then Some(requestId) else None)
    && "content-type" in r.headers && r.headers["content-type"] == "application/problem+json"
    && "cache-control" in r.headers && r.headers["cache-control"] == "no-store"
    && Carries(r.headers, headers)
    && (forall n :: n in r.headers && n != "content-type" && n != "cache-control" ==> Offered(headers, n))
  }

  lemma FixedNamesUnsafe(value: string)
    ensures !SafeHeader("content-type", value) && !SafeHeader("cache-control", value)
  {
    assert "content-type"[0] == 'c' && "cache-control"[0] == 'c' && "retry-after"[0] == 'r' && "ratelimit"[0] == 'r'
      && "ratelimit-policy"[0] == 'r' && "ratelimit-limit"[0] == 'r' && "ratelimit-remaining"[0] == 'r'
      && "ratelimit-reset"[0] == 'r' && "x-request-id"[0] == 'x' && "x-ores-request-id"[0] == 'x';
  }

  /** What is sent out for a rejection, and nothing else is such a problem. */
  lemma ProblemExact(status: nat, code: string, requestId: string, headers: seq<(string, string)>)
    ensures IsProblem(SanitizedProblem(status, code, requestId, headers), status, code, requestId, headers)
    ensures forall r :: IsProblem(r, status, code, requestId, headers) ==>
      r == SanitizedProblem(status, code, requestId, headers)
  {
    hide SafeHeader, SafeHeaders, Lower, IsCode, IsRequestId, LastSafe, Carries, Offered;
    SafeHeadersExact(headers);
    var safe := SafeHeaders(headers);
    var problem := SanitizedProblem(status, code, requestId, headers);
    assert "content-type" != "cache-control" by { assert "content-type"[1] == 'o' && "cache-control"[1] == 'a'; }
    CarriesMore(safe, headers);
    forall r | IsProblem(r, status, code, requestId, headers) ensures r == problem {
      SameHeaders(r.headers, problem.headers, headers);
    }
  }

  lemma CarriesMore(m: map<string, string>, headers: seq<(string, string)>)
    requires Carries(m, headers)
    ensures Carries(m["content-type" := "application/problem+json"]["cache-control" := "no-store"], headers)
  {
    hide Lower, LastSafe;
    forall i | 0 <= i < |headers| && LastSafe(headers, i)
      ensures Lower(headers[i].0) != "content-type" && Lower(headers[i].0) != "cache-control"
    {
      LastSafeNotFixed(headers, i);
    }
  }

  lemma LastSafeNotFixed(headers: seq<(string, string)>, i: nat)
    requires LastSafe(headers, i)
    ensures Lower(headers[i].0) != "content-type" && Lower(headers[i].0) != "cache-control"
  {
    hide SafeHeader, Lower;
    FixedNamesUnsafe(headers[i].1);
  }

  lemma SameHeaders(a: map<string, string>, b: map<string, string>, headers: seq<(string, string)>)
    requires Carries(a, headers) && Carries(b, headers)
    requires forall n :: (n in a || n in b) && n != "content-type" && n != "cache-control" ==> Offered(headers, n)
    requires "content-type" in a && "content-type" in b && a["content-type"] == b["content-type"]
    requires "cache-control" in a && "cache-control" in b && a["cache-control"] == b["cache-control"]
    ensures a == b
  {
    hide LastSafe, Lower;
    forall n | n in a || n in b ensures n in a && n in b && a[n] == b[n] {
      if n != "content-type" && n != "cache-control" {
        assert Offered(headers, n);
        var i :| 0 <= i < |headers| && LastSafe(headers, i) && Lower(headers[i].0) == n;
      }
    }
  }

  /** Whatever a stage put into a rejection, the problem sent out holds only allowlisted material. */
  lemma ProblemIsClean(status: nat, code: string, requestId: string, headers: seq<(string, string)>)
    ensures var r := SanitizedProblem(status, code, requestId, headers);
      && IsCode(r.body.code)
      && (r.body.requestId.Some? ==> IsRequestId(r.body.requestId.value))
      && (forall n :: n in r.headers && n != "content-type" && n != "cache-control" ==> SafeHeader(n, r.headers[n]))
  {
    CleanDefault();
    hide SafeHeader, Lower, IsCode, IsRequestId, SanitizedProblem, LastSafe;
    ProblemExact(status, code, requestId, headers);
    var r := SanitizedProblem(status, code, requestId, headers);
    forall n | n in r.headers && n != "content-type" && n != "cache-control" ensures SafeHeader(n, r.headers[n]) {
      assert Offered(headers, n);
      var i :| 0 <= i < |headers| && LastSafe(headers, i) && Lower(headers[i].0) == n;
      LastSafeIsSafe(headers, i);
    }
  }

  lemma CleanDefault()
    ensures IsCode("middleware_rejection")
  {}

  lemma LastSafeIsSafe(headers: seq<(string, string)>, i: nat)
    requires LastSafe(headers, i)
    ensures SafeHeader(Lower(headers[i].0), headers[i].1)
  {}

  /** A rejection with a clean code and one safe header is answered with both. */
  lemma RateLimitedAnswered(requestId: string)
    ensures var r := SanitizedProblem(429, "rate_limited", requestId, [("Retry-After", "30")]);
      r.status == 429 && r.body.code == "rate_limited" && "retry-after" in r.headers && r.headers["retry-after"] == "30"
  {
    var headers := [("Retry-After", "30")];
    assert Lower("Retry-After") == "retry-after";
    assert SafeHeader("retry-after", "30");
    assert LastSafe(headers, 0);
    assert IsCode("rate_limited");
    ProblemExact(429, "rate_limited", requestId, headers);
  }
}
