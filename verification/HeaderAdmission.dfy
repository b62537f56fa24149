/** Admission of raw header pairs before any framework sees them as a map. */
module HeaderAdmission {
  import opened Prelude
  import opened HttpBytes

  const MAX_RAW_HEADERS: nat := 128
  const MAX_HEADER_NAME_BYTES: nat := 128
  const MAX_HEADER_VALUE_BYTES: nat := 8 * 1024
  const MAX_HEADER_BYTES: nat := 64 * 1024

  type Header = (string, string)

  datatype AdmissionError =
    | CountExceeded | NameSizeInvalid | ValueSizeExceeded | NameInvalid | ValueInvalid | BytesExceeded
    | DuplicateForbidden | DuplicateAmbiguous | TransferLengthAmbiguous

  // ----- bytes and names

  predicate IsTokenByte(c: char) {
    || '0' <= c <= '9' || 'a' <= c <= 'z' || 'A' <= c <= 'Z'
    || c in {'!', '#', '$', '%', '&', '\'', '*', '+', '-', '.', '^', '_', '`', '|', '~'}
  }

  predicate AllToken(s: string) {
    forall i :: 0 <= i < |s| ==> IsTokenByte(s[i])
  }

  function SensitiveNames(): set<string> {
    {"content-length", "transfer-encoding", "authorization", "cookie", "host", "origin", "forwarded",
     "cf-connecting-ip", "traceparent", "idempotency-key"}
  }

  predicate IsSingleton(name: string) {
    || name in SensitiveNames()
    || "x-forwarded-" <= name || "x-ores-" <= name
  }

  predicate IsJoinable(name: string) {
    name in {"accept", "accept-encoding", "accept-language", "cache-control", "pragma", "via", "warning"}
  }

  // ----- what the admitted map holds

  /** The non-empty values sent under `name`, in order. */
  ghost function Values(raw: seq<Header>, name: string): seq<string> {
    if raw == [] then []
    else
      var h := raw[|raw| - 1];
      Values(raw[..|raw| - 1], name) + (if Lower(h.0) == name && h.1 != [] then [h.1] else [])
  }

  ghost function Join(values: seq<string>): string {
    if values == [] then []
    else if |values| == 1 then values[0]
    else Join(values[..|values| - 1]) + ", " + values[|values| - 1]
  }

  ghost function Names(raw: seq<Header>): set<string> {
    set h | h in raw :: Lower(h.0)
  }

  /** Each name once, with its values joined. */
  ghost function Admitted(raw: seq<Header>): map<string, string> {
    map n | n in Names(raw) :: Join(Values(raw, n))
  }

  function TotalBytes(raw: seq<Header>): nat {
    if raw == [] then 0
    else TotalBytes(raw[..|raw| - 1]) + |raw[|raw| - 1].0| + |raw[|raw| - 1].1|
  }

  // ----- which input is refused, and why

  /** The first check that header `i` fails, given the headers before it. */
  ghost function Fault(raw: seq<Header>, i: nat): Option<AdmissionError>
    requires i < |raw|
  {
    var (name, value) := raw[i];
    var again := Lower(name) in Names(raw[..i]);
    if name == [] || |name| > MAX_HEADER_NAME_BYTES then Some(NameSizeInvalid)
    else if |value| > MAX_HEADER_VALUE_BYTES then Some(ValueSizeExceeded)
    else if !AllToken(name) then Some(NameInvalid)
    else if AnyForbidden(value) then Some(ValueInvalid)
    else if TotalBytes(raw[..i + 1]) > MAX_HEADER_BYTES then Some(BytesExceeded)
    else if again && IsSingleton(Lower(name)) then Some(DuplicateForbidden)
    else if again && !IsJoinable(Lower(name)) then Some(DuplicateAmbiguous)
    else None
  }

  ghost predicate FirstFault(raw: seq<Header>, i: nat, e: AdmissionError) {
    && i < |raw| && Fault(raw, i) == Some(e)
    && forall j :: 0 <= j < i ==> Fault(raw, j).None?
  }

  ghost predicate Faultless(raw: seq<Header>) {
    forall i :: 0 <= i < |raw| ==> Fault(raw, i).None?
  }

  ghost predicate LengthAmbiguous(raw: seq<Header>) {
    "content-length" in Names(raw) && "transfer-encoding" in Names(raw)
  }

  /** The result for every input: the earliest fault, or the joined map. */
  ghost predicate Answers(raw: seq<Header>, r: Result<map<string, string>, AdmissionError>) {
    if |raw| > MAX_RAW_HEADERS then r == Err(CountExceeded)
    else if Faultless(raw) then
      r == if LengthAmbiguous(raw) then Err(TransferLengthAmbiguous) else Ok(Admitted(raw))
    else r.Err? && exists i :: FirstFault(raw, i, r.error)
  }

  lemma NamesSnoc(raw: seq<Header>, h: Header)
    ensures Names(raw + [h]) == Names(raw) + {Lower(h.0)}
  {
    assert (raw + [h])[|raw|] == h;
    forall n ensures n in Names(raw + [h]) <==> n in Names(raw) + {Lower(h.0)} {
      if n in Names(raw) {
        var g :| g in raw && Lower(g.0) == n;
        assert g in raw + [h];
      }
    }
  }

  lemma {:induction false} ValuesAbsent(raw: seq<Header>, name: string)
    requires name !in Names(raw)
    ensures Values(raw, name) == []
  {
    if raw == [] {
    } else {
      var rest, h := raw[..|raw| - 1], raw[|raw| - 1];
      assert raw == rest + [h];
      NamesSnoc(rest, h);
      ValuesAbsent(rest, name);
    }
  }

  lemma {:induction false} JoinEmpty(values: seq<string>)
    requires forall v :: v in values ==> v != []
    ensures Join(values) == [] <==> values == []
  {
    if |values| == 1 {
      assert values[0] in values;
    }
  }

  lemma {:induction false} ValuesNonEmpty(raw: seq<Header>, name: string)
    ensures forall v :: v in Values(raw, name) ==> v != []
  {
    if raw == [] {
    } else {
      ValuesNonEmpty(raw[..|raw| - 1], name);
    }
  }

  /** How the loop extends a joined value is what joining one value more gives. */
  lemma JoinSnoc(raw: seq<Header>, h: Header)
    ensures var name := Lower(h.0);
      var before := Join(Values(raw, name));
      Join(Values(raw + [h], name))
      == if before != [] && h.1 != [] then before + ", " + h.1 else before + h.1
  {
    var name := Lower(h.0);
    var values := Values(raw, name);
    assert (raw + [h])[..|raw|] == raw;
    ValuesNonEmpty(raw, name);
    JoinEmpty(values);
    if h.1 == [] {
      assert Values(raw + [h], name) == values + [] == values;
      assert Join(values) + h.1 == Join(values);
    } else {
      assert Values(raw + [h], name) == values + [h.1];
      assert (values + [h.1])[..|values|] == values;
      if values == [] {
        assert Join(values) + h.1 == h.1;
      }
    }
  }

  lemma ValuesOther(raw: seq<Header>, h: Header, name: string)
    requires Lower(h.0) != name
    ensures Values(raw + [h], name) == Values(raw, name)
  {
    assert (raw + [h])[..|raw|] == raw;
    assert Values(raw + [h], name) == Values(raw, name) + [];
  }

  lemma AdmittedSnoc(raw: seq<Header>, h: Header)
    ensures var name := Lower(h.0);
      Admitted(raw + [h]) == Admitted(raw)[name := Join(Values(raw + [h], name))]
  {
    hide Values, Join, Names;
    var name := Lower(h.0);
    NamesSnoc(raw, h);
    forall n | n in Names(raw) && n != name ensures Values(raw + [h], n) == Values(raw, n) {
      ValuesOther(raw, h, n);
    }
  }

  lemma TotalSnoc(raw: seq<Header>, i: nat)
    requires i < |raw|
    ensures TotalBytes(raw[..i + 1]) == TotalBytes(raw[..i]) + |raw[i].0| + |raw[i].1|
  {
    assert raw[..i + 1][..i] == raw[..i];
  }

  /** Puts one header into the map, or refuses it. */
  method AdmitOne(ghost raw: seq<Header>, ghost i: nat, h: Header, total: nat, admitted: map<string, string>)
    returns (error: Option<AdmissionError>, total': nat, admitted': map<string, string>)
    requires i < |raw| && h == raw[i]
    requires total == TotalBytes(raw[..i]) && admitted == Admitted(raw[..i])
    ensures error == Fault(raw, i)
    ensures error.None? ==> total' == TotalBytes(raw[..i + 1]) && admitted' == Admitted(raw[..i + 1])
  {
    hide Values, Join, Names;
    total', admitted' := total, admitted;
    var (rawName, rawValue) := h;
    if rawName == [] || |rawName| > MAX_HEADER_NAME_BYTES {
      return Some(NameSizeInvalid), total', admitted';
    }
    if |rawValue| > MAX_HEADER_VALUE_BYTES {
      return Some(ValueSizeExceeded), total', admitted';
    }
    if !AllToken(rawName) {
      return Some(NameInvalid), total', admitted';
    }
    if AnyForbidden(rawValue) {
      return Some(ValueInvalid), total', admitted';
    }
    TotalSnoc(raw, i);
    total' := total + |rawName| + |rawValue|;
    if total' > MAX_HEADER_BYTES {
      return Some(BytesExceeded), total', admitted';
    }
    var name := Lower(rawName);
    assert raw[..i + 1] == raw[..i] + [h];
    JoinSnoc(raw[..i], h);
    AdmittedSnoc(raw[..i], h);
    if name in admitted {
      if IsSingleton(name) {
        return Some(DuplicateForbidden), total', admitted';
      }
      if !IsJoinable(name) {
        return Some(DuplicateAmbiguous), total', admitted';
      }
      var existing := admitted[name];
      if existing != [] && rawValue != [] {
        existing := existing + ", ";
      }
      admitted' := admitted[name := existing + rawValue];
    } else {
      NewValue(raw[..i], h);
      admitted' := admitted[name := rawValue];
    }
    return None, total', admitted';
  }

  lemma NewValue(raw: seq<Header>, h: Header)
    requires Lower(h.0) !in Names(raw)
    ensures Join(Values(raw + [h], Lower(h.0))) == h.1
  {
    ValuesAbsent(raw, Lower(h.0));
    JoinSnoc(raw, h);
  }

  method AdmitRawHeaders(raw: seq<Header>) returns (r: Result<map<string, string>, AdmissionError>)
    ensures Answers(raw, r)
  {
    hide Fault, Admitted, TotalBytes, Names;
    if |raw| > MAX_RAW_HEADERS {
      return Err(CountExceeded);
    }
    var total, admitted := 0, map[];
    NothingAdmitted();
    assert raw[..0] == [];
    for i := 0 to |raw|
      invariant total == TotalBytes(raw[..i]) && admitted == Admitted(raw[..i])
      invariant forall j :: 0 <= j < i ==> Fault(raw, j).None?
    {
      var error;
      error, total, admitted := AdmitOne(raw, i, raw[i], total, admitted);
      if error.Some? {
        assert FirstFault(raw, i, error.value);
        return Err(error.value);
      }
    }
    assert raw[..|raw|] == raw;
    AdmittedKeys(raw);
    if "content-length" in admitted && "transfer-encoding" in admitted {
      return Err(TransferLengthAmbiguous);
    }
    return Ok(admitted);
  }

  lemma NothingAdmitted()
    ensures TotalBytes([]) == 0 && Admitted([]) == map[]
  {
    assert Names([]) == {};
  }

  lemma AdmittedKeys(raw: seq<Header>)
    ensures Admitted(raw).Keys == Names(raw)
  {}

  // ----- what acceptance means

  /** Two positions carry the same name, up to case. */
  ghost predicate Repeats(raw: seq<Header>, i: int, j: int) {
    0 <= i < j < |raw| && Lower(raw[i].0) == Lower(raw[j].0)
  }

  ghost predicate Acceptable(raw: seq<Header>) {
    && |raw| <= MAX_RAW_HEADERS
    && TotalBytes(raw) <= MAX_HEADER_BYTES
    && (forall h :: h in raw ==>
          && 0 < |h.0| <= MAX_HEADER_NAME_BYTES && AllToken(h.0)
          && |h.1| <= MAX_HEADER_VALUE_BYTES && !AnyForbidden(h.1))
    && (forall i, j :: Repeats(raw, i, j) ==> IsJoinable(Lower(raw[j].0)))
    && !(exists i, j :: 0 <= i < |raw| && 0 <= j < |raw| && Lower(raw[i].0) == "content-length"
                        && Lower(raw[j].0) == "transfer-encoding")
  }

  lemma JoinableNotSingleton(name: string)
    requires IsJoinable(name)
    ensures !IsSingleton(name)
  {
    assert name[0] in {'a', 'c', 'p', 'v', 'w'};
    assert name[0] == 'a' ==> name in {"accept", "accept-encoding", "accept-language"} && name[1] == 'c';
    assert name[0] == 'c' ==> name == "cache-control" && name[1] == 'a';
    assert "x-forwarded-"[0] == 'x' && "x-ores-"[0] == 'x';
    forall single | single in SensitiveNames() ensures name != single {
      assert single[0] in {'c', 't', 'a', 'h', 'o', 'f', 'i'};
      assert single[0] == 'a' ==> single[1] == 'u';
      assert single[0] == 'c' ==> single[1] in {'o', 'f'};
    }
  }

  lemma {:induction false} TotalGrows(raw: seq<Header>, i: nat)
    requires i <= |raw|
    ensures TotalBytes(raw[..i]) <= TotalBytes(raw)
    decreases |raw| - i
  {
    if i == |raw| {
      assert raw[..i] == raw;
    } else {
      TotalSnoc(raw, i);
      TotalGrows(raw, i + 1);
    }
  }

  lemma NamesPrefix(raw: seq<Header>, j: nat)
    requires j < |raw|
    ensures Lower(raw[j].0) in Names(raw[..j]) <==> exists i :: Repeats(raw, i, j)
  {
    if Lower(raw[j].0) in Names(raw[..j]) {
      var h :| h in raw[..j] && Lower(h.0) == Lower(raw[j].0);
      var i :| 0 <= i < j && raw[..j][i] == h;
      assert Repeats(raw, i, j);
    }
    forall i | Repeats(raw, i, j) ensures Lower(raw[j].0) in Names(raw[..j]) {
      assert raw[..j][i] == raw[i] && raw[i] in raw[..j];
    }
  }

  lemma FaultlessIff(raw: seq<Header>)
    ensures Faultless(raw) <==>
      && TotalBytes(raw) <= MAX_HEADER_BYTES
      && (forall h :: h in raw ==>
            && 0 < |h.0| <= MAX_HEADER_NAME_BYTES && AllToken(h.0)
            && |h.1| <= MAX_HEADER_VALUE_BYTES && !AnyForbidden(h.1))
      && (forall i, j :: Repeats(raw, i, j) ==> IsJoinable(Lower(raw[j].0)))
  {
    hide TotalBytes, Names, AllToken, AnyForbidden, IsSingleton, IsJoinable;
    forall j {:trigger raw[j]} | 0 <= j < |raw|
      ensures Lower(raw[j].0) in Names(raw[..j]) <==> exists i :: Repeats(raw, i, j)
      ensures TotalBytes(raw[..j + 1]) <= TotalBytes(raw)
      ensures IsJoinable(Lower(raw[j].0)) ==> !IsSingleton(Lower(raw[j].0))
    {
      NamesPrefix(raw, j);
      TotalGrows(raw, j + 1);
      if IsJoinable(Lower(raw[j].0)) {
        JoinableNotSingleton(Lower(raw[j].0));
      }
    }
    if raw == [] {
      NothingAdmitted();
    }
    if Faultless(raw) {
      if raw != [] {
        assert Fault(raw, |raw| - 1).None?;
        assert raw[..|raw| - 1 + 1] == raw;
      }
      forall h | h in raw
        ensures 0 < |h.0| <= MAX_HEADER_NAME_BYTES && AllToken(h.0)
                && |h.1| <= MAX_HEADER_VALUE_BYTES && !AnyForbidden(h.1)
      {
        var i :| 0 <= i < |raw| && raw[i] == h;
        assert Fault(raw, i).None?;
      }
      forall i, j | Repeats(raw, i, j) ensures IsJoinable(Lower(raw[j].0)) {
        assert Fault(raw, j).None?;
      }
    }
  }

  /** Exactly the acceptable inputs are admitted, each name mapped to its joined non-empty values. */
  lemma AcceptsIff(raw: seq<Header>, r: Result<map<string, string>, AdmissionError>)
    requires Answers(raw, r)
    ensures r.Ok? <==> Acceptable(raw)
    ensures r.Ok? ==>
      && r.value.Keys == Names(raw)
      && (forall n :: n in r.value ==> r.value[n] == Join(Values(raw, n)))
      && !("content-length" in r.value && "transfer-encoding" in r.value)
  {
    hide Fault, Join, Values;
    FaultlessIff(raw);
    AdmittedKeys(raw);
    AmbiguousIff(raw);
  }

  lemma AmbiguousIff(raw: seq<Header>)
    ensures LengthAmbiguous(raw) <==>
      exists i, j :: 0 <= i < |raw| && 0 <= j < |raw| && Lower(raw[i].0) == "content-length"
                     && Lower(raw[j].0) == "transfer-encoding"
  {
    if LengthAmbiguous(raw) {
      var g :| g in raw && Lower(g.0) == "content-length";
      var h :| h in raw && Lower(h.0) == "transfer-encoding";
      var i :| 0 <= i < |raw| && raw[i] == g;
      var j :| 0 <= j < |raw| && raw[j] == h;
    }
  }

  // ----- the parts, as sums over the headers

  lemma {:induction false} TotalAdds(a: seq<Header>, b: seq<Header>)
    ensures TotalBytes(a + b) == TotalBytes(a) + TotalBytes(b)
    ensures forall h: Header :: TotalBytes([h]) == |h.0| + |h.1|
  {
    assert forall h: Header :: [h][..0] == [];
    if b == [] {
      assert a + b == a;
    } else {
      var n := |b| - 1;
      assert (a + b)[..|a| + n] == a + b[..n] && (a + b)[|a| + n] == b[n];
      TotalAdds(a, b[..n]);
    }
  }

  /** Values of one header: its own unless empty. */
  lemma ValuesOne(h: Header, name: string)
    ensures Values([h], name) == if Lower(h.0) == name && h.1 != [] then [h.1] else []
  {
    hide Lower;
    assert [h][..0] == [];
  }

  /** Values of one name: those of the parts, one after the other. */
  lemma {:induction false} ValuesAdd(a: seq<Header>, b: seq<Header>, name: string)
    ensures Values(a + b, name) == Values(a, name) + Values(b, name)
  {
    hide Lower;
    if b == [] {
      assert a + b == a;
    } else {
      var n := |b| - 1;
      assert (a + b)[..|a| + n] == a + b[..n] && (a + b)[|a| + n] == b[n];
      ValuesAdd(a, b[..n], name);
    }
  }

  /** A comma and a space stand between values and nowhere else. */
  lemma {:induction false} JoinAdds(a: seq<string>, b: seq<string>)
    requires a != [] && b != []
    ensures Join(a + b) == Join(a) + ", " + Join(b)
    ensures forall v :: Join([v]) == v
  {
    var n := |b| - 1;
    var all := a + b;
    assert all[|all| - 1] == b[n] && all[..|all| - 1] == a + b[..n];
    if n == 0 {
      assert a + b[..n] == a && b == [b[0]];
    } else {
      JoinAdds(a, b[..n]);
    }
  }

  /** What the reported fault says about the header. */
  lemma FaultMeans(raw: seq<Header>, i: nat)
    requires i < |raw|
    ensures match Fault(raw, i)
      case None => true
      case Some(NameSizeInvalid) => raw[i].0 == [] || |raw[i].0| > 128
      case Some(ValueSizeExceeded) => |raw[i].1| > 8192
      case Some(NameInvalid) => exists j :: 0 <= j < |raw[i].0| && !IsTokenByte(raw[i].0[j])
      case Some(ValueInvalid) => exists j :: 0 <= j < |raw[i].1| && IsForbiddenValueByte(raw[i].1[j])
      case Some(BytesExceeded) => TotalBytes(raw[..i + 1]) > 65536
      case Some(DuplicateForbidden) => IsSingleton(Lower(raw[i].0)) && exists j :: Repeats(raw, j, i)
      case Some(DuplicateAmbiguous) =>
        !IsSingleton(Lower(raw[i].0)) && !IsJoinable(Lower(raw[i].0)) && exists j :: Repeats(raw, j, i)
      case Some(_) => false
  {
    hide TotalBytes, Names, Lower, IsSingleton, IsJoinable, IsTokenByte, IsForbiddenValueByte;
    NamesPrefix(raw, i);
  }
}
