/** qa/marshal/roundtrip.go: `walkAmountKeys`, which consumes one JSON value from
    a token stream and looks at the numbers under amount keys. */
module AmountWalk {
  import opened Wrappers

  /** What `json.Decoder.Token` delivers. */
  datatype Token =
    | OpenObject | CloseObject | OpenArray | CloseArray
    | Str(s: string) | Number(literal: string) | Bool(b: bool) | Null

  /** How a stream ends: no more input, or a syntax error, whose first character
      may or may not look like a closing bracket. */
  datatype End = Eof | Malformed(closing: bool)

  datatype WalkError =
    | BadToken(parent: string)
    | BadKey(parent: string)
    | KeyNotString(parent: string)
    | ObjectNotClosed(parent: string)
    | ArrayNotClosed(parent: string)
    | NotInteger(key: string, literal: string)

  // ---------- The walk ----------

  /** `dec.More()`. */
  predicate More(ts: seq<Token>, end: End) {
    if ts == [] then end.Malformed? && !end.closing else !ts[0].CloseObject? && !ts[0].CloseArray?
  }

  /** `strings.ContainsAny(s, ".eE")`. */
  predicate IsFractional(literal: string) {
    exists i | 0 <= i < |literal| :: literal[i] == '.' || literal[i] == 'e' || literal[i] == 'E'
  }

  lemma FractionalMeans(literal: string)
    ensures IsFractional(literal) <==> '.' in literal || 'e' in literal || 'E' in literal
  {
  }

  /** A number as JSON writes it (section 6 of RFC 8259), its parts told apart. */
  datatype Literal = Literal(minus: bool, whole: string, fraction: Option<string>, exponent: Option<Exponent>)
  datatype Exponent = Exponent(large: bool, sign: string, digits: string)

  predicate IsDigits(s: string) {
    s != "" && forall i | 0 <= i < |s| :: '0' <= s[i] <= '9'
  }

  predicate IsNumber(l: Literal) {
    && IsDigits(l.whole) && (l.fraction.Some? ==> IsDigits(l.fraction.value))
    && (l.exponent.Some? ==> IsDigits(l.exponent.value.digits) && l.exponent.value.sign in {"", "+", "-"})
  }

  function Written(l: Literal): string {
    (if l.minus then "-" else "") + l.whole
    + (if l.fraction.Some? then "." + l.fraction.value else "")
    + (match l.exponent
       case None => ""
       case Some(e) => (if e.large then "E" else "e") + e.sign + e.digits)
  }

  /** A JSON number is fractional exactly when it is written with a fraction or with
      an exponent. */
  lemma FractionalIff(l: Literal)
    requires IsNumber(l)
    ensures IsFractional(Written(l)) <==> l.fraction.Some? || l.exponent.Some?
  {
    var s := Written(l);
    var head := (if l.minus then "-" else "") + l.whole;
    assert s[..|head|] == head;
    if l.fraction.Some? {
      assert s[|head|] == '.';
    } else if l.exponent.Some? {
      assert s[|head|] == if l.exponent.value.large then 'E' else 'e';
    } else {
      assert s == head;
      forall i | 0 <= i < |s|
        ensures s[i] == '-' || '0' <= s[i] <= '9'
      {
        assert s[i] == '-' || s[i] in l.whole;
      }
    }
  }

  /** Walking one value: the tokens left over, or the error. */
  function WalkValue(ts: seq<Token>, end: End, keys: set<string>, parent: string): (r: Result<seq<Token>, WalkError>)
    ensures r.Ok? ==> |r.value| < |ts| || ts == r.value == []
    ensures ts == [] && r.Ok? ==> end.Eof?
    decreases |ts|, 0
  {
    if ts == [] then
      if end.Eof? then Ok([]) else Err(BadToken(parent))
    else match ts[0]
      case OpenObject => WalkMembers(ts[1..], end, keys, parent)
      case OpenArray => WalkItems(ts[1..], end, keys, parent)
      case Number(literal) =>
        if parent in keys && IsFractional(literal) then Err(NotInteger(parent, literal)) else Ok(ts[1..])
      case _ => Ok(ts[1..])
  }

  function WalkMembers(ts: seq<Token>, end: End, keys: set<string>, parent: string): (r: Result<seq<Token>, WalkError>)
    ensures r.Ok? ==> |r.value| < |ts|
    decreases |ts|, 1
  {
    if !More(ts, end) then
      if ts == [] then Err(ObjectNotClosed(parent)) else Ok(ts[1..])
    else if ts == [] then Err(BadKey(parent))
    else if !ts[0].Str? then Err(KeyNotString(parent))
    else
      var r := WalkValue(ts[1..], end, keys, ts[0].s);
      if r.Err? then r else WalkMembers(r.value, end, keys, parent)
  }

  /** Array elements keep the key the array stands under. */
  function WalkItems(ts: seq<Token>, end: End, keys: set<string>, parent: string): (r: Result<seq<Token>, WalkError>)
    ensures r.Ok? ==> |r.value| < |ts|
    decreases |ts|, 1
  {
    if !More(ts, end) then
      if ts == [] then Err(ArrayNotClosed(parent)) else Ok(ts[1..])
    else
      var r := WalkValue(ts, end, keys, parent);
      if r.Err? then r else WalkItems(r.value, end, keys, parent)
  }

  /** The decoder: the tokens it has yet to deliver. */
  class Decoder {
    var rest: seq<Token>
    const end: End

    constructor (ts: seq<Token>, e: End)
      ensures rest == ts && end == e
    {
      rest, end := ts, e;
    }

    method Next() returns (t: Option<Token>)
      modifies this
      ensures old(rest) == [] ==> t == None && rest == []
      ensures old(rest) != [] ==> t == Some(old(rest)[0]) && rest == old(rest)[1..]
    {
      if rest == [] {
        return None;
      }
      t, rest := Some(rest[0]), rest[1..];
    }

    /** `walkAmountKeys`. */
    method Walk(keys: set<string>, parent: string) returns (err: Option<WalkError>)
      modifies this
      ensures var r := WalkValue(old(rest), end, keys, parent);
              if err.None? then r == Ok(rest) else r == Err(err.value)
      decreases |rest|, 1
    {
      var tok := Next();
      if tok.None? {
        if end.Eof? {
          return None;
        }
        return Some(BadToken(parent));
      }
      match tok.value {
        case OpenObject =>
          err := Members(keys, parent);
        case OpenArray =>
          err := Items(keys, parent);
        case Number(literal) =>
          if parent in keys && IsFractional(literal) {
            return Some(NotInteger(parent, literal));
          }
          return None;
        case _ =>
          return None;
      }
    }

    /** The object loop, up to and including the closing brace. */
    method Members(keys: set<string>, parent: string) returns (err: Option<WalkError>)
      modifies this
      ensures var r := WalkMembers(old(rest), end, keys, parent);
              if err.None? then r == Ok(rest) else r == Err(err.value)
      decreases |rest|, 2
    {
      while More(rest, end)
        invariant |rest| <= |old(rest)|
        invariant WalkMembers(rest, end, keys, parent) == WalkMembers(old(rest), end, keys, parent)
        decreases |rest|
      {
        var key := Next();
        if key.None? {
          return Some(BadKey(parent));
        }
        if !key.value.Str? {
          return Some(KeyNotString(parent));
        }
        err := Walk(keys, key.value.s);
        if err.Some? {
          return;
        }
      }
      var close := Next();
      if close.None? {
        return Some(ObjectNotClosed(parent));
      }
      return None;
    }

    /** The array loop, up to and including the closing bracket. */
    method Items(keys: set<string>, parent: string) returns (err: Option<WalkError>)
      modifies this
      ensures var r := WalkItems(old(rest), end, keys, parent);
              if err.None? then r == Ok(rest) else r == Err(err.value)
      decreases |rest|, 2
    {
      while More(rest, end)
        invariant |rest| <= |old(rest)|
        invariant WalkItems(rest, end, keys, parent) == WalkItems(old(rest), end, keys, parent)
        decreases |rest|, if More(rest, end) then 1 else 0
      {
        err := Walk(keys, parent);
        if err.Some? {
          return;
        }
      }
      var close := Next();
      if close.None? {
        return Some(ArrayNotClosed(parent));
      }
      return None;
    }
  }

  // ---------- JSON values ----------

  datatype Value =
    | Text(s: string) | Num(literal: string) | Flag(b: bool) | Nothing
    | Arr(items: seq<Value>)
    | Obj(members: seq<Member>)
  datatype Member = Member(key: string, value: Value)

  function TokensOf(v: Value): (ts: seq<Token>)
    ensures ts != [] && !ts[0].CloseObject? && !ts[0].CloseArray?
    decreases v
  {
    match v
    case Text(s) => [Str(s)]
    case Num(literal) => [Number(literal)]
    case Flag(b) => [Bool(b)]
    case Nothing => [Null]
    case Arr(items) => [OpenArray] + TokensOfItems(items) + [CloseArray]
    case Obj(members) => [OpenObject] + TokensOfMembers(members) + [CloseObject]
  }

  function TokensOfItems(items: seq<Value>): seq<Token>
    decreases items
  {
    if items == [] then [] else TokensOf(items[0]) + TokensOfItems(items[1..])
  }

  function TokensOfMembers(members: seq<Member>): seq<Token>
    decreases members
  {
    if members == [] then []
    else [Str(members[0].key)] + TokensOf(members[0].value) + TokensOfMembers(members[1..])
  }

  /** A number literal and the nearest enclosing object key. */
  datatype Keyed = Keyed(key: string, literal: string)

  /** All numbers of a value in document order, each with its key; `parent`
      stands for the key of a number outside every object. */
  function Numbers(v: Value, parent: string): seq<Keyed>
    decreases v
  {
    match v
    case Num(literal) => [Keyed(parent, literal)]
    case Arr(items) => NumbersOfItems(items, parent)
    case Obj(members) => NumbersOfMembers(members)
    case _ => []
  }

  function NumbersOfItems(items: seq<Value>, parent: string): seq<Keyed>
    decreases items
  {
    if items == [] then [] else Numbers(items[0], parent) + NumbersOfItems(items[1..], parent)
  }

  function NumbersOfMembers(members: seq<Member>): seq<Keyed>
    decreases members
  {
    if members == [] then [] else Numbers(members[0].value, members[0].key) + NumbersOfMembers(members[1..])
  }

  predicate Offends(n: Keyed, keys: set<string>) {
    n.key in keys && IsFractional(n.literal)
  }

  function FirstOffence(ns: seq<Keyed>, keys: set<string>): (n: Option<Keyed>)
    ensures n.None? <==> forall i | 0 <= i < |ns| :: !Offends(ns[i], keys)
    ensures n.Some? ==> n.value in ns && Offends(n.value, keys)
  {
    if ns == [] then None else if Offends(ns[0], keys) then Some(ns[0]) else FirstOffence(ns[1..], keys)
  }

  lemma {:induction false} FirstOffenceAppend(a: seq<Keyed>, b: seq<Keyed>, keys: set<string>)
    ensures FirstOffence(a + b, keys)
         == (if FirstOffence(a, keys).Some? then FirstOffence(a, keys) else FirstOffence(b, keys))
  {
    if a == [] {
      assert a + b == b;
    } else {
      assert (a + b)[1..] == a[1..] + b;
      FirstOffenceAppend(a[1..], b, keys);
    }
  }

  // ---------- The walk against the values ----------

  /** What walking should answer when the numbers are `ns` and `rest` follows. */
  function Answer(ns: seq<Keyed>, keys: set<string>, rest: seq<Token>): Result<seq<Token>, WalkError> {
    var bad := FirstOffence(ns, keys);
    if bad.Some? then Err(NotInteger(bad.value.key, bad.value.literal)) else Ok(rest)
  }

  lemma AnswerAppend(a: seq<Keyed>, b: seq<Keyed>, keys: set<string>, more: seq<Token>, rest: seq<Token>)
    ensures Answer(a + b, keys, rest)
         == (if Answer(a, keys, more).Err? then Answer(a, keys, more) else Answer(b, keys, rest))
    ensures Answer(a, keys, more).Ok? ==> Answer(a, keys, more).value == more
  {
    FirstOffenceAppend(a, b, keys);
  }

  /** On the tokens of any value, followed by anything, the walk consumes exactly
      the value, unless a number whose nearest key is an amount key is written
      with a fraction or an exponent: then it reports the first such number. */
  lemma {:induction false} WalkIsExact(v: Value, rest: seq<Token>, end: End, keys: set<string>, parent: string)
    ensures WalkValue(TokensOf(v) + rest, end, keys, parent) == Answer(Numbers(v, parent), keys, rest)
    decreases v
  {
    var ts := TokensOf(v) + rest;
    match v {
      case Arr(items) =>
        assert ts[1..] == TokensOfItems(items) + ([CloseArray] + rest);
        ItemsExact(items, rest, end, keys, parent);
      case Obj(members) =>
        assert ts[1..] == TokensOfMembers(members) + ([CloseObject] + rest);
        MembersExact(members, rest, end, keys, parent);
      case Num(literal) =>
        assert ts[1..] == rest;
        assert [Keyed(parent, literal)][1..] == [];
      case _ =>
        assert ts[1..] == rest;
    }
  }

  lemma {:induction false} ItemsExact(items: seq<Value>, rest: seq<Token>, end: End, keys: set<string>, parent: string)
    ensures WalkItems(TokensOfItems(items) + ([CloseArray] + rest), end, keys, parent)
         == Answer(NumbersOfItems(items, parent), keys, rest)
    decreases items
  {
    var after := [CloseArray] + rest;
    if items == [] {
      assert TokensOfItems(items) + after == after && after[1..] == rest;
    } else {
      var more := TokensOfItems(items[1..]) + after;
      assert TokensOfItems(items) + after == TokensOf(items[0]) + more;
      WalkIsExact(items[0], more, end, keys, parent);
      ItemsExact(items[1..], rest, end, keys, parent);
      AnswerAppend(Numbers(items[0], parent), NumbersOfItems(items[1..], parent), keys, more, rest);
    }
  }

  lemma KeyFirst(key: Token, a: seq<Token>, b: seq<Token>, after: seq<Token>)
    ensures var ts := [key] + a + b + after;
            ts[0] == key && ts[1..] == a + (b + after)
  {
  }

  lemma {:induction false} MembersExact(members: seq<Member>, rest: seq<Token>, end: End, keys: set<string>, parent: string)
    ensures WalkMembers(TokensOfMembers(members) + ([CloseObject] + rest), end, keys, parent)
         == Answer(NumbersOfMembers(members), keys, rest)
    decreases members
  {
    var after := [CloseObject] + rest;
    assert members == [] ==> Answer(NumbersOfMembers(members), keys, rest) == Ok(rest);
    hide Answer, WalkValue, TokensOf, Numbers;
    if members == [] {
      assert TokensOfMembers(members) + after == after && after[1..] == rest;
    } else {
      var m, more := members[0], TokensOfMembers(members[1..]) + after;
      KeyFirst(Str(m.key), TokensOf(m.value), TokensOfMembers(members[1..]), after);
      WalkIsExact(m.value, more, end, keys, m.key);
      MembersExact(members[1..], rest, end, keys, parent);
      AnswerAppend(Numbers(m.value, m.key), NumbersOfMembers(members[1..]), keys, more, rest);
    }
  }

  /** The walk passes a whole document exactly when every number whose nearest
      key is an amount key is an integer literal. */
  lemma PassesIff(v: Value, keys: set<string>)
    ensures WalkValue(TokensOf(v), Eof, keys, "").Ok?
       <==> forall i | 0 <= i < |Numbers(v, "")| :: !Offends(Numbers(v, "")[i], keys)
  {
    assert TokensOf(v) + [] == TokensOf(v);
    WalkIsExact(v, [], Eof, keys, "");
  }

  // ---------- Documents that are cut off ----------

  /** What a walk does with the tokens it consumes does not depend on what
      follows them. */
  lemma {:induction false} ValueIsLocal(ts: seq<Token>, end: End, more: seq<Token>, end': End, keys: set<string>, parent: string)
    requires ts != [] && WalkValue(ts, end, keys, parent).Ok?
    ensures WalkValue(ts + more, end', keys, parent) == Ok(WalkValue(ts, end, keys, parent).value + more)
    decreases |ts|, 0
  {
    assert (ts + more)[0] == ts[0] && (ts + more)[1..] == ts[1..] + more;
    if ts[0].OpenObject? {
      MembersAreLocal(ts[1..], end, more, end', keys, parent);
    } else if ts[0].OpenArray? {
      ItemsAreLocal(ts[1..], end, more, end', keys, parent);
    }
  }

  lemma {:induction false} MembersAreLocal(ts: seq<Token>, end: End, more: seq<Token>, end': End, keys: set<string>, parent: string)
    requires WalkMembers(ts, end, keys, parent).Ok?
    ensures WalkMembers(ts + more, end', keys, parent) == Ok(WalkMembers(ts, end, keys, parent).value + more)
    decreases |ts|, 1
  {
    assert (ts + more)[0] == ts[0] && (ts + more)[1..] == ts[1..] + more;
    if More(ts, end) {
      if ts[1..] == [] {
        ValueNeedsTokens(end, keys, ts[0].s, parent);
      }
      ValueIsLocal(ts[1..], end, more, end', keys, ts[0].s);
      MembersAreLocal(WalkValue(ts[1..], end, keys, ts[0].s).value, end, more, end', keys, parent);
    }
  }

  lemma ValueNeedsTokens(end: End, keys: set<string>, key: string, parent: string)
    ensures WalkValue([], end, keys, key).Ok? ==> WalkMembers(WalkValue([], end, keys, key).value, end, keys, parent).Err?
  {
  }

  lemma {:induction false} ItemsAreLocal(ts: seq<Token>, end: End, more: seq<Token>, end': End, keys: set<string>, parent: string)
    requires WalkItems(ts, end, keys, parent).Ok?
    ensures WalkItems(ts + more, end', keys, parent) == Ok(WalkItems(ts, end, keys, parent).value + more)
    decreases |ts|, 1
  {
    assert (ts + more)[0] == ts[0] && (ts + more)[1..] == ts[1..] + more;
    if More(ts, end) {
      ValueIsLocal(ts, end, more, end', keys, parent);
      ItemsAreLocal(WalkValue(ts, end, keys, parent).value, end, more, end', keys, parent);
    }
  }

  /** A document that stops anywhere after its first token never passes, whether the
      input is over or malformed there. */
  lemma CutOffFails(v: Value, n: nat, end: End, keys: set<string>, parent: string)
    requires 0 < n < |TokensOf(v)|
    ensures WalkValue(TokensOf(v)[..n], end, keys, parent).Err?
  {
    var ts := TokensOf(v);
    WalkIsExact(v, [], Eof, keys, parent);
    assert ts + [] == ts && ts[..n] + ts[n..] == ts;
    if WalkValue(ts[..n], end, keys, parent).Ok? {
      ValueIsLocal(ts[..n], end, ts[n..], Eof, keys, parent);
      assert false;
    }
  }

  /** Where an object or an array has just been opened, input that is over, or goes on
      with a stray closing bracket, leaves it unclosed; other malformed input is a bad
      key or a bad value. */
  lemma OpenAtTheEnd(end: End, keys: set<string>, parent: string)
    ensures var braced, bracketed := WalkValue([OpenObject], end, keys, parent), WalkValue([OpenArray], end, keys, parent);
            if end == Malformed(false) then braced == Err(BadKey(parent)) && bracketed == Err(BadToken(parent))
            else braced == Err(ObjectNotClosed(parent)) && bracketed == Err(ArrayNotClosed(parent))
  {
    assert [OpenObject][1..] == [] && [OpenArray][1..] == [];
  }
}
