/** atomefin/encrypt/header.go: the `Encrypt` header and net/url's query
    escaping of its values. */
module EncryptHeader {
  import opened Strings
  import opened Wrappers
  import opened Query
  import opened Gateway

  // ---------- net/url ----------

  /** `url.QueryEscape`: as RFC 3986 has it, but a space becomes a plus. */
  function QueryEscaped(s: Bytes): (r: Bytes) {
    if s == [] then "" else QueryEscapedByte(s[0]) + QueryEscaped(s[1..])
  }

  function QueryEscapedByte(c: char): (r: Bytes)
    requires c as int < 256
  {
    if c == ' ' then "+" else EscapeByte(c)
  }

  function QueryUnescaped(s: string): Option<Bytes> {
    if s == "" then Some("")
    else if s[0] == '%' then
      if |s| < 3 || HexValue(s[1]).None? || HexValue(s[2]).None? then None
      else
        var b := 16 * HexValue(s[1]).value + HexValue(s[2]).value;
        if b >= 256 then None else PrependByte(b as char, QueryUnescaped(s[3..]))
    else if s[0] as int >= 256 then None
    else PrependByte(if s[0] == '+' then ' ' else s[0], QueryUnescaped(s[1..]))
  }

  /** What an escaped value never contains. */
  predicate IsClean(s: string) {
    forall i | 0 <= i < |s| :: !IsSpace(s[i]) && s[i] != ',' && s[i] != '='
  }

  lemma {:induction false} UnescapeUndoesEscape(s: Bytes)
    ensures QueryUnescaped(QueryEscaped(s)) == Some(s) && IsClean(QueryEscaped(s))
  {
    if s != [] {
      UnescapeUndoesEscape(s[1..]);
      UnescapeByte(s[0], QueryEscaped(s[1..]));
      assert [s[0]] + s[1..] == s;
    }
  }

  lemma UnescapeByte(c: char, rest: string)
    requires c as int < 256 && QueryUnescaped(rest).Some?
    ensures QueryUnescaped(QueryEscapedByte(c) + rest) == Some([c] + QueryUnescaped(rest).value)
    ensures IsClean(QueryEscapedByte(c))
  {
    if c == ' ' || IsUnreserved(c) {
      assert (QueryEscapedByte(c) + rest)[1..] == rest;
    } else {
      UnescapeTriple(c, rest);
      CleanHex(c as int / 16);
      CleanHex(c as int % 16);
    }
  }

  lemma UnescapeTriple(c: char, rest: string)
    requires c as int < 256 && QueryUnescaped(rest).Some?
    ensures QueryUnescaped(['%', HexDigit(c as int / 16), HexDigit(c as int % 16)] + rest)
         == Some([c] + QueryUnescaped(rest).value)
  {
    var n := c as int;
    HexRoundTrip(n / 16);
    HexRoundTrip(n % 16);
    hide HexDigit, HexValue;
    var s := ['%', HexDigit(n / 16), HexDigit(n % 16)] + rest;
    assert s[0] == '%' && s[1] == HexDigit(n / 16) && s[2] == HexDigit(n % 16) && s[3..] == rest;
    assert 16 * (n / 16) + n % 16 == n;
    assert (n as char) == c;
  }

  lemma CleanHex(n: nat)
    requires n < 16
    ensures IsClean([HexDigit(n)])
  {
    assert n == 0 || n == 1 || n == 2 || n == 3 || n == 4 || n == 5 || n == 6 || n == 7
        || n == 8 || n == 9 || n == 10 || n == 11 || n == 12 || n == 13 || n == 14 || n == 15;
  }

  /** A space is written as a plus, and every other byte as in a query. */
  lemma QueryEscapedOne(c: char)
    requires c as int < 256
    ensures QueryEscaped([c]) == if c == ' ' then "+" else Escaped([c])
  {
    assert [c][1..] == [] && QueryEscaped([]) == "" && Escaped([]) == "";
  }

  lemma {:induction false} QueryEscapedAppend(s: Bytes, t: Bytes)
    ensures QueryEscaped(s + t) == QueryEscaped(s) + QueryEscaped(t)
  {
    if s == [] {
      assert s + t == t;
    } else {
      assert (s + t)[0] == s[0] && (s + t)[1..] == s[1..] + t;
      QueryEscapedAppend(s[1..], t);
    }
  }

  const HEX_DIGITS := "0123456789abcdefABCDEF"

  /** A byte at place i, and two hex digits after it if it is a percent sign. */
  predicate FineAt(s: string, i: nat)
    requires i < |s|
  {
    s[i] as int < 256 && (s[i] == '%' ==> i + 2 < |s| && s[i + 1] in HEX_DIGITS && s[i + 2] in HEX_DIGITS)
  }

  predicate IsEscaped(s: string) {
    forall i | 0 <= i < |s| :: FineAt(s, i)
  }

  lemma EscapedTail(s: string, k: nat)
    requires k <= |s| && forall i | 0 <= i < k :: FineAt(s, i)
    ensures IsEscaped(s) <==> IsEscaped(s[k..])
  {
    assert forall i | k <= i < |s| :: FineAt(s, i) <==> FineAt(s[k..], i - k);
    if IsEscaped(s[k..]) {
      assert forall i | k <= i < |s| :: FineAt(s[k..], i - k) ==> FineAt(s, i);
    }
    if IsEscaped(s) {
      assert forall i | 0 <= i < |s| - k :: FineAt(s, i + k) ==> FineAt(s[k..], i);
    }
  }

  /** Unescaping fails exactly for texts that no escaping could have written. */
  lemma {:induction false} UnescapesIff(s: string)
    ensures QueryUnescaped(s).Some? <==> IsEscaped(s)
    decreases |s|
  {
    hide HEX_DIGITS, IsEscaped, HexValue, FineAt;
    if s == "" {
      EmptyIsEscaped();
    } else {
      FineStart(s);
      if s[0] == '%' && |s| >= 3 && s[1] in HEX_DIGITS && s[2] in HEX_DIGITS {
        UnescapesIff(s[3..]);
        EscapedTail(s, 3);
      } else if s[0] != '%' && s[0] as int < 256 {
        UnescapesIff(s[1..]);
        EscapedTail(s, 1);
      }
    }
  }

  lemma EmptyIsEscaped()
    ensures IsEscaped("")
  {
  }

  /** How the first character decides. */
  lemma FineStart(s: string)
    requires s != ""
    ensures var triple := |s| >= 3 && s[1] in HEX_DIGITS && s[2] in HEX_DIGITS;
            && (FineAt(s, 0) <==> s[0] as int < 256 && (s[0] == '%' ==> triple))
            && (triple ==> FineAt(s, 1) && FineAt(s, 2))
            && (|s| >= 3 ==> (triple <==> HexValue(s[1]).Some? && HexValue(s[2]).Some?))
            && (triple ==> HexValue(s[1]).value < 16 && HexValue(s[2]).value < 16)
            && (!FineAt(s, 0) ==> !IsEscaped(s))
  {
    hide HEX_DIGITS, HexValue;
    if |s| >= 3 {
      HexValueIff(s[1]);
      HexValueIff(s[2]);
    }
  }

  lemma HexValueIff(c: char)
    ensures HexValue(c).Some? <==> c in HEX_DIGITS
    ensures HexValue(c).Some? ==> HexValue(c).value < 16 && c != '%' && c as int < 256
  {
  }

  // ---------- Building and parsing ----------

  const SYMMETRIC_KEY := "symmetricKey"

  datatype Field = Field(key: string, value: Bytes)

  datatype HeaderError =
    | Blank
    | MissingSeparator(part: string)
    | EmptyKey(part: string)
    | BadEscape(part: string)
    | NoPairs
    | MissingField

  function BuildEncryptHeader(wrapped: Bytes): string {
    FieldText(Field(SYMMETRIC_KEY, wrapped))
  }

  function FieldText(f: Field): string {
    f.key + "=" + QueryEscaped(f.value)
  }

  /** The field one comma-separated part spells; none when it is blank. */
  function FieldOf(part: string): Result<Option<Field>, HeaderError> {
    var p := TrimSpace(part);
    if p == "" then Ok(None) else CutField(p, CutPoint(p))
  }

  function CutField(p: string, at: nat): Result<Option<Field>, HeaderError>
    requires at <= |p|
  {
    if at == |p| then Err(MissingSeparator(p))
    else
      var k, v := TrimSpace(p[..at]), QueryUnescaped(TrimSpace(p[at + 1..]));
      if k == "" then Err(EmptyKey(p))
      else if v.None? then Err(BadEscape(p))
      else Ok(Some(Field(k, v.value)))
  }

  /** The fields of all parts, or the error of the first bad one. */
  function FieldsOf(parts: seq<string>): Result<seq<Field>, HeaderError> {
    if parts == [] then Ok([])
    else
      var before, f := FieldsOf(parts[..|parts| - 1]), FieldOf(parts[|parts| - 1]);
      if before.Err? then before
      else if f.Err? then Err(f.error)
      else if f.value.None? then before
      else Ok(before.value + [f.value.value])
  }

  /** A later field overwrites an earlier one of the same key. */
  function Filed(fields: seq<Field>): (kv: map<string, Bytes>)
    ensures kv == map[] <==> fields == []
  {
    if fields == [] then map[]
    else
      var f := fields[|fields| - 1];
      var longer := Filed(fields[..|fields| - 1])[f.key := f.value];
      assert f.key in longer;
      longer
  }

  function Parsed(header: string): Result<map<string, Bytes>, HeaderError> {
    if TrimSpace(header) == "" then Err(Blank)
    else
      var fields := FieldsOf(Split(header, ','));
      if fields.Err? then Err(fields.error)
      else if fields.value == [] then Err(NoPairs)
      else Ok(Filed(fields.value))
  }

  method ParseEncryptHeader(header: string) returns (r: Result<map<string, Bytes>, HeaderError>)
    ensures r == Parsed(header)
  {
    if TrimSpace(header) == "" {
      return Err(Blank);
    }
    var kv: map<string, Bytes> := map[];
    var parts := Split(header, ',');
    var i := 0;
    while i < |parts|
      invariant 0 <= i <= |parts|
      invariant FieldsOf(parts[..i]).Ok? && kv == Filed(FieldsOf(parts[..i]).value)
    {
      FieldsOfSnoc(parts, i);
      var part := TrimSpace(parts[i]);
      i := i + 1;
      if part == "" {
        continue;
      }
      var at := CutPoint(part);
      if at == |part| {
        FirstErrorStays(parts, i);
        return Err(MissingSeparator(part));
      }
      var k, v := TrimSpace(part[..at]), TrimSpace(part[at + 1..]);
      if k == "" {
        FirstErrorStays(parts, i);
        return Err(EmptyKey(part));
      }
      var unescaped := QueryUnescaped(v);
      if unescaped.None? {
        FirstErrorStays(parts, i);
        return Err(BadEscape(part));
      }
      kv := kv[k := unescaped.value];
    }
    assert parts[..i] == parts;
    if |kv| == 0 {
      return Err(NoPairs);
    }
    return Ok(kv);
  }

  lemma FieldsOfSnoc(parts: seq<string>, i: nat)
    requires i < |parts| && FieldsOf(parts[..i]).Ok?
    ensures var f := FieldOf(parts[i]);
            var fields := FieldsOf(parts[..i]).value;
            && (f.Err? ==> FieldsOf(parts[..i + 1]) == Err(f.error))
            && (f.Ok? && f.value.None? ==> FieldsOf(parts[..i + 1]) == Ok(fields))
            && (f.Ok? && f.value.Some? ==>
                  FieldsOf(parts[..i + 1]) == Ok(fields + [f.value.value])
                  && Filed(fields + [f.value.value]) == Filed(fields)[f.value.value.key := f.value.value.value])
  {
    assert parts[..i + 1][..i] == parts[..i];
    var f := FieldOf(parts[i]);
    if f.Ok? && f.value.Some? {
      var fields := FieldsOf(parts[..i]).value;
      assert (fields + [f.value.value])[..|fields|] == fields;
    }
  }

  lemma {:induction false} FirstErrorStays(parts: seq<string>, i: nat)
    requires i <= |parts| && FieldsOf(parts[..i]).Err?
    ensures FieldsOf(parts) == FieldsOf(parts[..i])
  {
    if i == |parts| {
      assert parts[..i] == parts;
    } else {
      var front := parts[..|parts| - 1];
      assert front[..i] == parts[..i];
      FirstErrorStays(front, i);
    }
  }

  function SymmetricKeyFrom(kv: map<string, Bytes>): Result<Bytes, HeaderError> {
    if SYMMETRIC_KEY !in kv || kv[SYMMETRIC_KEY] == "" then Err(MissingField)
    else Ok(kv[SYMMETRIC_KEY])
  }

  // ---------- Parsing undoes building ----------

  predicate IsPlainKey(k: string) {
    k != "" && !IsSpace(k[0]) && !IsSpace(k[|k| - 1]) && forall i | 0 <= i < |k| :: k[i] != ',' && k[i] != '='
  }

  function Texts(fields: seq<Field>): (texts: seq<string>)
    ensures |texts| == |fields|
  {
    seq(|fields|, i requires 0 <= i < |fields| => FieldText(fields[i]))
  }

  lemma FieldOfText(f: Field)
    requires IsPlainKey(f.key)
    ensures FieldOf(FieldText(f)) == Ok(Some(f))
  {
    hide TrimSpace, CutPoint, QueryEscaped, QueryUnescaped, IsClean;
    var k, v := f.key, QueryEscaped(f.value);
    var s := k + "=" + v;
    UnescapeUndoesEscape(f.value);
    CutPointSkips(k, v);
    assert s[..|k|] == k && s[|k| + 1..] == v;
    PlainEnds(k, v);
    TrimmedAlready(k);
    TrimmedAlready(v);
    TrimmedAlready(s);
    assert CutField(s, |k|) == Ok(Some(f));
  }

  lemma PlainEnds(k: string, v: string)
    requires IsPlainKey(k) && IsClean(v)
    ensures var s := k + "=" + v;
            !IsSpace(s[0]) && !IsSpace(s[|s| - 1]) && ',' !in s && s[|k|] == '='
    ensures v != "" ==> !IsSpace(v[0]) && !IsSpace(v[|v| - 1])
  {
    var s := k + "=" + v;
    assert s[0] == k[0] && s[|s| - 1] == (if v == "" then '=' else v[|v| - 1]);
  }

  lemma OneMoreText(fields: seq<Field>, k: nat)
    requires k < |fields| && FieldsOf(Texts(fields)[..k]) == Ok(fields[..k])
    requires FieldOf(FieldText(fields[k])) == Ok(Some(fields[k]))
    ensures FieldsOf(Texts(fields)[..k + 1]) == Ok(fields[..k + 1])
  {
    hide FieldOf, FieldText, Filed;
    var texts := Texts(fields);
    assert texts[..k + 1][..k] == texts[..k] && texts[..k + 1][k] == FieldText(fields[k]);
    assert fields[..k + 1] == fields[..k] + [fields[k]];
  }

  ghost predicate AllPlain(fields: seq<Field>) {
    forall i | 0 <= i < |fields| :: IsPlainKey(fields[i].key)
  }

  lemma {:induction false} FieldsOfTexts(fields: seq<Field>, k: nat)
    requires k <= |fields| && AllPlain(fields)
    ensures FieldsOf(Texts(fields)[..k]) == Ok(fields[..k])
  {
    if k > 0 {
      assert IsPlainKey(fields[k - 1].key);
      hide AllPlain, IsPlainKey, FieldsOf, FieldOf, FieldText, Texts;
      FieldsOfTexts(fields, k - 1);
      FieldOfText(fields[k - 1]);
      OneMoreText(fields, k - 1);
    }
  }

  /** A header of any number of fields `k=v,k=v,...` is read back field by field,
      whatever bytes the values hold. */
  lemma ParseUndoesPrint(fields: seq<Field>)
    requires fields != [] && forall i | 0 <= i < |fields| :: IsPlainKey(fields[i].key)
    ensures Parsed(Join(Texts(fields), ',')) == Ok(Filed(fields))
  {
    var texts := Texts(fields);
    hide FieldText, FieldsOf, Filed, IsPlainKey, TrimSpace, Split, Join;
    forall i | 0 <= i < |texts|
      ensures ',' !in texts[i] && '=' in texts[i]
    {
      TextIsOnePart(fields[i]);
    }
    SplitJoined(texts, ',');
    FieldsOfTexts(fields, |fields|);
    assert texts[..|fields|] == texts && fields[..|fields|] == fields;
    SomethingPrinted(texts);
  }

  lemma TextIsOnePart(f: Field)
    requires IsPlainKey(f.key)
    ensures ',' !in FieldText(f) && '=' in FieldText(f)
  {
    UnescapeUndoesEscape(f.value);
    PlainEnds(f.key, QueryEscaped(f.value));
    assert FieldText(f)[|f.key|] == '=';
  }

  lemma {:induction false} SomethingPrinted(texts: seq<string>)
    requires texts != [] && '=' in texts[0]
    ensures TrimSpace(Join(texts, ',')) != ""
  {
    EqualsKept(texts);
    var s := Join(texts, ',');
    var i :| 0 <= i < |s| && s[i] == '=';
  }

  lemma {:induction false} EqualsKept(texts: seq<string>)
    requires texts != [] && '=' in texts[0]
    ensures '=' in Join(texts, ',')
  {
    if |texts| > 1 {
      EqualsKept(texts[..|texts| - 1]);
    }
  }

  /** The header built for a wrapped key yields that key and nothing else; only
      an empty one is refused afterwards. */
  lemma ParseUndoesBuild(wrapped: Bytes)
    ensures Parsed(BuildEncryptHeader(wrapped)) == Ok(map[SYMMETRIC_KEY := wrapped])
    ensures SymmetricKeyFrom(map[SYMMETRIC_KEY := wrapped]) == if wrapped == "" then Err(MissingField) else Ok(wrapped)
  {
    var f := Field(SYMMETRIC_KEY, wrapped);
    ParseUndoesPrint([f]);
    assert Texts([f]) == [BuildEncryptHeader(wrapped)];
    assert [f][..0] == [] && Filed([]) == map[];
  }

  lemma {:induction false} KeyHasField(fields: seq<Field>, k: string) returns (i: nat)
    requires k in Filed(fields)
    ensures i < |fields| && fields[i].key == k
  {
    i := |fields| - 1;
    if fields[i].key != k {
      i := KeyHasField(fields[..i], k);
    }
  }

  /** Of the fields with one key the last decides. */
  lemma {:induction false} LastFieldWins(fields: seq<Field>, i: nat)
    requires i < |fields| && forall j | i < j < |fields| :: fields[j].key != fields[i].key
    ensures fields[i].key in Filed(fields) && Filed(fields)[fields[i].key] == fields[i].value
  {
    if i < |fields| - 1 {
      LastFieldWins(fields[..|fields| - 1], i);
    }
  }

  /** The header names the one field it carries. */
  lemma BuiltHeader(wrapped: Bytes, kv: map<string, Bytes>)
    ensures BuildEncryptHeader(wrapped) == "symmetricKey=" + QueryEscaped(wrapped)
    ensures SymmetricKeyFrom(kv).Ok? <==> "symmetricKey" in kv && kv["symmetricKey"] != ""
    ensures SymmetricKeyFrom(kv).Ok? ==> SymmetricKeyFrom(kv).value == kv["symmetricKey"]
  {
    assert "symmetricKey" + "=" == "symmetricKey=";
  }
}
