/** qa/marshal/roundtrip.go: `hasTopLevelKey`, a byte scanner that looks for a key
    of a JSON object without parsing it. */
module TopLevelKey {
  import opened Strings

  // ---------- The scanner ----------

  datatype Scan = Scan(
    depth: int, inStr: bool, esc: bool, collecting: bool, expectColon: bool, name: string, keys: set<string>)

  const START := Scan(0, false, false, false, false, "", {})

  function Kept(st: Scan, c: char): string {
    if st.collecting then st.name + [c] else st.name
  }

  /** One turn of the loop. */
  function Step(st: Scan, c: char): Scan {
    if st.esc then st.(name := Kept(st, c), esc := false)
    else if c == '\\' && st.inStr then st.(name := Kept(st, c), esc := true)
    else if c == '"' then
      if st.depth != 0 then st.(inStr := !st.inStr)
      else if !st.inStr then st.(inStr := true, collecting := !st.expectColon, name := "")
      else if st.collecting then
        st.(inStr := false, keys := st.keys + {st.name}, collecting := false, expectColon := true)
      else st.(inStr := false)
    else if st.inStr then st.(name := Kept(st, c))
    else if c == '{' || c == '[' then st.(depth := st.depth + 1)
    else if c == '}' || c == ']' then st.(depth := st.depth - 1)
    else if (c == ':' || c == ',') && st.depth == 0 then st.(expectColon := false)
    else st
  }

  function Run(st: Scan, s: string): Scan
    decreases |s|
  {
    if s == "" then st else Run(Step(st, s[0]), s[1..])
  }

  /** The names the scanner has collected at the end of `b`. */
  function Collected(b: string): set<string> {
    var s := TrimSpace(b);
    if !HasPrefix(s, "{") || !HasSuffix(s, "}") then {}
    else
      Delimited(s);
      Run(START, s[1..|s| - 1]).keys
  }

  lemma Delimited(s: string)
    requires HasPrefix(s, "{") && HasSuffix(s, "}")
    ensures |s| >= 2
  {
    assert s[..1][0] == '{' && s[|s| - 1..][0] == '}';
  }

  method HasTopLevelKey(b: string, key: string) returns (found: bool)
    ensures found <==> key in Collected(b)
  {
    var s := TrimSpace(b);
    if !HasPrefix(s, "{") || !HasSuffix(s, "}") {
      return false;
    }
    Delimited(s);
    var depth, inStr, esc, name, collecting, expectColon := 0, false, false, "", false, false;
    var keys: set<string> := {};
    var i := 1;
    ghost var last := RunFrom(START, s, 1);
    assert Collected(b) == last.keys;
    hide RunFrom, Collected, TrimSpace, HasPrefix, HasSuffix;
    while i < |s| - 1
      invariant 1 <= i <= |s| - 1
      invariant RunFrom(Scan(depth, inStr, esc, collecting, expectColon, name, keys), s, i) == last
    {
      var c := s[i];
      RunStep(Scan(depth, inStr, esc, collecting, expectColon, name, keys), s, i);
      i := i + 1;
      if esc {
        if collecting {
          name := name + [c];
        }
        esc := false;
        continue;
      }
      if c == '\\' && inStr {
        esc := true;
        if collecting {
          name := name + [c];
        }
        continue;
      }
      if c == '"' {
        if depth == 0 {
          if !inStr {
            inStr := true;
            collecting := !expectColon;
            name := "";
            continue;
          }
          inStr := false;
          if collecting {
            keys := keys + {name};
            collecting := false;
            expectColon := true;
          }
          continue;
        }
        inStr := !inStr;
        continue;
      }
      if inStr {
        if collecting {
          name := name + [c];
        }
        continue;
      }
      if c == '{' || c == '[' {
        depth := depth + 1;
      } else if c == '}' || c == ']' {
        depth := depth - 1;
      } else if c == ':' || c == ',' {
        if depth == 0 {
          expectColon := false;
        }
      }
    }
    RunNothing(Scan(depth, inStr, esc, collecting, expectColon, name, keys), s);
    return key in keys;
  }

  /** The rest of the run, from position i to before the last character. */
  function RunFrom(st: Scan, s: string, i: nat): Scan
    requires i <= |s| - 1
  {
    Run(st, s[i..|s| - 1])
  }

  lemma RunStep(st: Scan, s: string, i: nat)
    requires i < |s| - 1
    ensures RunFrom(st, s, i) == RunFrom(Step(st, s[i]), s, i + 1)
  {
    assert s[i..|s| - 1][1..] == s[i + 1..|s| - 1];
  }

  lemma RunNothing(st: Scan, s: string)
    requires s != ""
    ensures RunFrom(st, s, |s| - 1) == st
  {
    assert s[|s| - 1..|s| - 1] == "";
  }

  // ---------- JSON text ----------

  /** JSON values as they are written: white space is kept, strings are the raw
      text between their quotes. */
  datatype Node =
    | Leaf(text: string)
    | Quoted(raw: string)
    | List(items: seq<Item>, pad: string)
    | Record(members: seq<Member>, pad: string)
  datatype Item = Item(before: string, node: Node, after: string)
  datatype Member = Member(before: string, raw: string, mid: string, item: Item)

  function NodeText(n: Node): string
    decreases n
  {
    match n
    case Leaf(text) => text
    case Quoted(raw) => "\"" + raw + "\""
    case List(items, pad) => "[" + (ItemsText(items) + pad) + "]"
    case Record(members, pad) => "{" + (MembersText(members) + pad) + "}"
  }

  function ItemText(i: Item): string
    decreases i
  {
    i.before + NodeText(i.node) + i.after
  }

  function ItemsText(items: seq<Item>): string
    decreases items
  {
    if items == [] then ""
    else if |items| == 1 then ItemText(items[0])
    else ItemText(items[0]) + "," + ItemsText(items[1..])
  }

  function MemberText(m: Member): string
    decreases m
  {
    (m.before + ("\"" + m.raw + "\"") + m.mid) + ":" + ItemText(m.item)
  }

  function MembersText(members: seq<Member>): string
    decreases members
  {
    if members == [] then ""
    else if |members| == 1 then MemberText(members[0])
    else MemberText(members[0]) + "," + MembersText(members[1..])
  }

  predicate IsBlank(s: string) {
    forall i | 0 <= i < |s| :: IsSpace(s[i])
  }

  /** No character the scanner reacts to outside strings. */
  predicate IsInert(s: string) {
    forall i | 0 <= i < |s| :: s[i] !in "\"{}[],:"
  }

  /** The inside of a string literal: a quote only after a backslash, and every
      backslash followed by something. */
  predicate IsRaw(s: string) {
    if s == "" then true
    else if s[0] == '\\' then |s| >= 2 && IsRaw(s[2..])
    else s[0] != '"' && IsRaw(s[1..])
  }

  predicate WellFormed(n: Node)
    decreases n
  {
    match n
    case Leaf(text) => IsInert(text)
    case Quoted(raw) => IsRaw(raw)
    case List(items, pad) => IsBlank(pad) && forall i | 0 <= i < |items| :: WellFormedItem(items[i])
    case Record(members, pad) => IsBlank(pad) && forall i | 0 <= i < |members| :: WellFormedMember(members[i])
  }

  predicate WellFormedItem(i: Item)
    decreases i
  {
    IsBlank(i.before) && IsBlank(i.after) && WellFormed(i.node)
  }

  predicate WellFormedMember(m: Member)
    decreases m
  {
    IsBlank(m.before) && IsBlank(m.mid) && IsRaw(m.raw) && WellFormedItem(m.item)
  }

  // ---------- Running over pieces of text ----------

  lemma {:induction false} RunAppend(st: Scan, a: string, b: string)
    ensures Run(st, a + b) == Run(Run(st, a), b)
    decreases |a|
  {
    if a == "" {
      assert a + b == b;
    } else {
      assert (a + b)[0] == a[0] && (a + b)[1..] == a[1..] + b;
      RunAppend(Step(st, a[0]), a[1..], b);
    }
  }

  lemma RunOne(st: Scan, c: char)
    ensures Run(st, [c]) == Step(st, c)
  {
    assert [c][1..] == "";
  }

  lemma {:induction false} RunInert(st: Scan, s: string)
    requires IsInert(s) && !st.inStr && !st.esc
    ensures Run(st, s) == st
  {
    if s != "" {
      assert s[0] !in "\"{}[],:";
      assert s[0] != '"' && s[0] != '{' && s[0] != '}' && s[0] != '[' && s[0] != ']' && s[0] != ',' && s[0] != ':';
      RunInert(st, s[1..]);
    }
  }

  lemma BlankIsInert(s: string)
    requires IsBlank(s)
    ensures IsInert(s)
  {
  }

  /** Inside a string the scanner copies what it is collecting, escapes included,
      and changes nothing else. */
  lemma {:induction false} RunRaw(st: Scan, s: string)
    requires IsRaw(s) && st.inStr && !st.esc
    ensures Run(st, s) == if st.collecting then st.(name := st.name + s) else st
    decreases |s|
  {
    if s == "" {
      assert st.name + s == st.name;
    } else if s[0] == '\\' {
      var st' := Step(Step(st, s[0]), s[1]);
      assert s[1..][0] == s[1] && s[1..][1..] == s[2..];
      RunRaw(st', s[2..]);
      assert st.name + [s[0]] + [s[1]] + s[2..] == st.name + s;
    } else {
      RunRaw(Step(st, s[0]), s[1..]);
      assert st.name + [s[0]] + s[1..] == st.name + s;
    }
  }

  lemma RunEnclosed(st: Scan, open: char, s: string, close: char)
    ensures Run(st, [open] + s + [close]) == Step(Run(Step(st, open), s), close)
  {
    RunAppend(st, [open] + s, [close]);
    RunAppend(st, [open], s);
    RunOne(st, open);
    RunOne(Run(Step(st, open), s), close);
  }

  lemma RunPadded(st: Scan, before: string, s: string, after: string)
    requires IsBlank(before) && IsBlank(after) && !st.inStr && !st.esc
    requires !Run(st, s).inStr && !Run(st, s).esc
    ensures Run(st, before + s + after) == Run(st, s)
  {
    BlankIsInert(before);
    BlankIsInert(after);
    RunAppend(st, before + s, after);
    RunAppend(st, before, s);
    RunInert(st, before);
    RunInert(Run(st, s), after);
  }

  lemma RunJoined(st: Scan, a: string, c: char, b: string)
    ensures Run(st, a + [c] + b) == Run(Step(Run(st, a), c), b)
  {
    RunAppend(st, a + [c], b);
    RunAppend(st, a, [c]);
    RunOne(Run(st, a), c);
  }

  /** A bracketed text whose inside leaves no trace leaves none itself. */
  lemma RunBracketed(st: Scan, open: char, content: string, pad: string, close: char)
    requires !st.inStr && !st.esc && IsBlank(pad) && (open == '[' || open == '{') && (close == ']' || close == '}')
    requires Run(Step(st, open), content) == Step(st, open)
    ensures Run(st, [open] + (content + pad) + [close]) == st
  {
    hide Run;
    RunPadded(Step(st, open), "", content, pad);
    assert "" + content + pad == content + pad;
    RunEnclosed(st, open, content + pad, close);
  }

  // ---------- Nested values leave no trace ----------

  predicate IsNested(st: Scan) {
    st.depth >= 1 && !st.inStr && !st.esc && !st.collecting
  }

  lemma {:induction false} RunNested(st: Scan, n: Node)
    requires IsNested(st) && WellFormed(n)
    ensures Run(st, NodeText(n)) == st
    decreases n
  {
    hide Run, IsInert, IsRaw, IsBlank;
    match n {
      case Leaf(text) =>
        RunInert(st, text);
      case Quoted(raw) =>
        RunEnclosed(st, '"', raw, '"');
        RunRaw(Step(st, '"'), raw);
      case List(items, pad) =>
        RunNestedItems(Step(st, '['), items);
        RunBracketed(st, '[', ItemsText(items), pad, ']');
      case Record(members, pad) =>
        RunNestedMembers(Step(st, '{'), members);
        RunBracketed(st, '{', MembersText(members), pad, '}');
    }
  }

  lemma {:induction false} RunNestedItem(st: Scan, i: Item)
    requires IsNested(st) && WellFormedItem(i)
    ensures Run(st, ItemText(i)) == st
    decreases i
  {
    RunNested(st, i.node);
    RunPadded(st, i.before, NodeText(i.node), i.after);
  }

  lemma {:induction false} RunNestedItems(st: Scan, items: seq<Item>)
    requires IsNested(st) && forall i | 0 <= i < |items| :: WellFormedItem(items[i])
    ensures Run(st, ItemsText(items)) == st
    decreases items
  {
    if items != [] {
      RunNestedItem(st, items[0]);
      RunNestedItems(st, items[1..]);
      RunJoined(st, ItemText(items[0]), ',', ItemsText(items[1..]));
    }
  }

  lemma {:induction false} RunNestedMember(st: Scan, m: Member)
    requires IsNested(st) && WellFormedMember(m)
    ensures Run(st, MemberText(m)) == st
    decreases m
  {
    RunEnclosed(st, '"', m.raw, '"');
    RunRaw(Step(st, '"'), m.raw);
    RunPadded(st, m.before, "\"" + m.raw + "\"", m.mid);
    RunNestedItem(st, m.item);
    RunJoined(st, m.before + ("\"" + m.raw + "\"") + m.mid, ':', ItemText(m.item));
  }

  lemma {:induction false} RunNestedMembers(st: Scan, members: seq<Member>)
    requires IsNested(st) && forall i | 0 <= i < |members| :: WellFormedMember(members[i])
    ensures Run(st, MembersText(members)) == st
    decreases members
  {
    if members != [] {
      RunNestedMember(st, members[0]);
      RunNestedMembers(st, members[1..]);
      RunJoined(st, MemberText(members[0]), ',', MembersText(members[1..]));
    }
  }

  // ---------- Top-level strings are all collected ----------

  predicate IsIdle(st: Scan) {
    st.depth == 0 && !st.inStr && !st.esc && !st.collecting
  }

  function StringOf(n: Node): set<string> {
    if n.Quoted? then {n.raw} else {}
  }

  lemma RunTopString(st: Scan, raw: string)
    requires IsIdle(st) && !st.expectColon && IsRaw(raw)
    ensures var r := Run(st, "\"" + raw + "\"");
            IsIdle(r) && r.expectColon && r.keys == st.keys + {raw}
  {
    RunEnclosed(st, '"', raw, '"');
    RunRaw(Step(st, '"'), raw);
    assert "" + raw == raw;
  }

  lemma RunTopNode(st: Scan, n: Node)
    requires IsIdle(st) && !st.expectColon && WellFormed(n)
    ensures var r := Run(st, NodeText(n));
            IsIdle(r) && r.keys == st.keys + StringOf(n)
  {
    hide Run, IsInert, IsRaw, IsBlank;
    match n {
      case Leaf(text) =>
        RunInert(st, text);
      case Quoted(raw) =>
        RunTopString(st, raw);
      case List(items, pad) =>
        RunNestedItems(Step(st, '['), items);
        RunBracketed(st, '[', ItemsText(items), pad, ']');
      case Record(members, pad) =>
        RunNestedMembers(Step(st, '{'), members);
        RunBracketed(st, '{', MembersText(members), pad, '}');
    }
  }

  lemma RunTopMember(st: Scan, m: Member)
    requires IsIdle(st) && !st.expectColon && WellFormedMember(m)
    ensures var r := Run(st, MemberText(m));
            IsIdle(r) && r.keys == st.keys + {m.raw} + StringOf(m.item.node)
  {
    var key := "\"" + m.raw + "\"";
    RunTopString(st, m.raw);
    RunPadded(st, m.before, key, m.mid);
    var colon := Step(Run(st, key), ':');
    RunTopNode(colon, m.item.node);
    RunPadded(colon, m.item.before, NodeText(m.item.node), m.item.after);
    RunJoined(st, m.before + key + m.mid, ':', ItemText(m.item));
  }

  function KeysOf(members: seq<Member>): set<string> {
    set m | m in members :: m.raw
  }

  function StringValuesOf(members: seq<Member>): set<string> {
    set m | m in members && m.item.node.Quoted? :: m.item.node.raw
  }

  lemma {:induction false} RunTopMembers(st: Scan, members: seq<Member>)
    requires IsIdle(st) && !st.expectColon && forall i | 0 <= i < |members| :: WellFormedMember(members[i])
    ensures var r := Run(st, MembersText(members));
            IsIdle(r) && r.keys == st.keys + KeysOf(members) + StringValuesOf(members)
    decreases members
  {
    if members == [] {
      assert MembersText(members) == "" && Run(st, "") == st;
      assert KeysOf(members) == {} && StringValuesOf(members) == {};
      return;
    }
    hide Run, MemberText, KeysOf, StringValuesOf, WellFormedMember;
    if members != [] {
      var first, rest := members[0], members[1..];
      RunTopMember(st, first);
      SplitFirst(members);
      if rest != [] {
        var comma := Step(Run(st, MemberText(first)), ',');
        RunTopMembers(comma, rest);
        RunJoined(st, MemberText(first), ',', MembersText(rest));
      }
    }
  }

  lemma SplitFirst(members: seq<Member>)
    requires members != []
    ensures KeysOf(members) == {members[0].raw} + KeysOf(members[1..])
    ensures StringValuesOf(members) == StringOf(members[0].item.node) + StringValuesOf(members[1..])
  {
    assert members == [members[0]] + members[1..];
  }

  // ---------- What the scanner answers ----------

  /** For every well-formed object, however nested, escaped and laid out, the
      scanner collects the raw texts of the top-level keys and of the top-level
      string values, and nothing else. */
  lemma CollectsTopLevelStrings(before: string, members: seq<Member>, pad: string, after: string)
    requires IsBlank(before) && IsBlank(after) && WellFormed(Record(members, pad))
    ensures Collected(before + NodeText(Record(members, pad)) + after) == KeysOf(members) + StringValuesOf(members)
  {
    var inside := MembersText(members) + pad;
    hide Run, MembersText, Collected;
    CollectedInside(before, inside, after);
    RunTopMembers(START, members);
    RunPadded(START, "", MembersText(members), pad);
    assert "" + MembersText(members) + pad == inside;
  }

  lemma CollectedInside(before: string, inside: string, after: string)
    requires IsBlank(before) && IsBlank(after)
    ensures Collected(before + ("{" + inside + "}") + after) == Run(START, inside).keys
  {
    hide Run, TrimSpace;
    var s := "{" + inside + "}";
    assert s[0] == '{' && s[|s| - 1] == '}' && s[1..|s| - 1] == inside && s[..1] == "{" && s[|s| - 1..] == "}";
    TrimPadded(before, s, after);
  }

  // ---------- What a raw string stands for ----------

  predicate IsHex(c: char) {
    '0' <= c <= '9' || 'a' <= c <= 'f' || 'A' <= c <= 'F'
  }

  function HexValue(c: char): (v: nat)
    requires IsHex(c)
    ensures v < 16
  {
    if '0' <= c <= '9' then c as int - '0' as int
    else if 'a' <= c <= 'f' then c as int - 'a' as int + 10
    else c as int - 'A' as int + 10
  }

  /** The text starts with `\u` and four hex digits. */
  predicate StartsWithUnit(s: string) {
    |s| >= 6 && s[0] == '\\' && s[1] == 'u' && IsHex(s[2]) && IsHex(s[3]) && IsHex(s[4]) && IsHex(s[5])
  }

  function UnitAt(s: string): (u: nat)
    requires StartsWithUnit(s)
    ensures u < 0x10000
  {
    ((HexValue(s[2]) * 16 + HexValue(s[3])) * 16 + HexValue(s[4])) * 16 + HexValue(s[5])
  }

  /** The text starts with a surrogate pair, written as two units. */
  predicate StartsWithPair(s: string) {
    && StartsWithUnit(s) && 0xD800 <= UnitAt(s) < 0xDC00
    && StartsWithUnit(s[6..]) && 0xDC00 <= UnitAt(s[6..]) < 0xE000
  }

  function PairAt(s: string): char
    requires StartsWithPair(s)
  {
    (0x10000 + (UnitAt(s) - 0xD800) * 0x400 + (UnitAt(s[6..]) - 0xDC00)) as char
  }

  /** A surrogate on its own stands for U+FFFD. */
  function UnitChar(u: nat): char
    requires u < 0x10000
  {
    if 0xD800 <= u < 0xE000 then 0xFFFD as char else u as char
  }

  function ShortEscape(c: char): char {
    match c
    case 'b' => 8 as char
    case 'f' => 12 as char
    case 'n' => '\n'
    case 'r' => '\r'
    case 't' => '\t'
    case _ => c
  }

  /** The string a raw text stands for (section 7 of RFC 8259). */
  function Decoded(raw: string): string
    decreases |raw|
  {
    if raw == "" then ""
    else if raw[0] != '\\' then [raw[0]] + Decoded(raw[1..])
    else if StartsWithPair(raw) then [PairAt(raw)] + Decoded(raw[12..])
    else if StartsWithUnit(raw) then [UnitChar(UnitAt(raw))] + Decoded(raw[6..])
    else if |raw| == 1 then ""
    else [ShortEscape(raw[1])] + Decoded(raw[2..])
  }

  /** The escapes of one character, and the hex digits of a unit. */
  lemma EscapesAre(c: char)
    requires c in "bfnrt\"\\/"
    ensures Decoded(['\\', c]) == [match c case 'b' => 8 as char case 'f' => 12 as char case 'n' => 10 as char
                                          case 'r' => 13 as char case 't' => 9 as char case _ => c]
  {
    assert ['\\', c][2..] == "";
  }

  lemma HexDigitsAre(c: char)
    ensures IsHex(c) <==> c in "0123456789abcdefABCDEF"
  {
  }

  predicate HasEscape(s: string) {
    '\\' in s
  }

  /** A raw text stands for itself exactly when no escape is in it, otherwise for
      something shorter. */
  lemma {:induction false} StandsForItselfIff(raw: string)
    ensures |Decoded(raw)| <= |raw| && (HasEscape(raw) ==> |Decoded(raw)| < |raw|)
    ensures Decoded(raw) == raw <==> !HasEscape(raw)
    decreases |raw|
  {
    if raw != "" && raw[0] != '\\' {
      StandsForItselfIff(raw[1..]);
      assert raw == [raw[0]] + raw[1..];
    } else if StartsWithPair(raw) {
      StandsForItselfIff(raw[12..]);
    } else if StartsWithUnit(raw) {
      StandsForItselfIff(raw[6..]);
    } else if |raw| >= 2 {
      StandsForItselfIff(raw[2..]);
    }
  }

  // ---------- When the answer is right ----------

  /** The keys of an object, as opposed to how they are written. */
  function NamesOf(members: seq<Member>): set<string> {
    set m | m in members :: Decoded(m.raw)
  }

  /** Some key is the name, written without an escape. */
  predicate WrittenPlainly(members: seq<Member>, name: string) {
    exists m :: m in members && Decoded(m.raw) == name && !HasEscape(m.raw)
  }

  /** The name is the raw text of something that is not a key of that name: of a
      string value, or of a key that stands for another string. */
  predicate TakenForKey(members: seq<Member>, name: string) {
    name in StringValuesOf(members) || (HasEscape(name) && name in KeysOf(members))
  }

  /** The answer is yes exactly for the keys written without an escape and for what
      is taken for a key. So it is right exactly when a name that is a key is
      written plainly or taken for another, and a name that is no key is not taken
      for one. */
  lemma RightIff(before: string, members: seq<Member>, pad: string, after: string, name: string)
    requires IsBlank(before) && IsBlank(after) && WellFormed(Record(members, pad))
    ensures var found := name in Collected(before + NodeText(Record(members, pad)) + after);
            && (found <==> WrittenPlainly(members, name) || TakenForKey(members, name))
            && ((found <==> name in NamesOf(members))
                <==> if name in NamesOf(members) then WrittenPlainly(members, name) || TakenForKey(members, name)
                     else !TakenForKey(members, name))
  {
    CollectsTopLevelStrings(before, members, pad, after);
    PlainKeyIff(members, name);
  }

  lemma PlainKeyIff(members: seq<Member>, name: string)
    ensures WrittenPlainly(members, name) <==> name in KeysOf(members) && !HasEscape(name)
    ensures WrittenPlainly(members, name) ==> name in NamesOf(members)
  {
    forall m | m in members
      ensures Decoded(m.raw) == m.raw <==> !HasEscape(m.raw)
    {
      StandsForItselfIff(m.raw);
    }
    if name in KeysOf(members) && !HasEscape(name) {
      var m :| m in members && m.raw == name;
      assert Decoded(m.raw) == name;
    }
  }

  /** Among keys written without escapes none is missed: only a string value can
      make the answer wrong. */
  lemma PlainKeysAreNeverMissed(before: string, members: seq<Member>, pad: string, after: string, name: string)
    requires IsBlank(before) && IsBlank(after) && WellFormed(Record(members, pad))
    requires forall m | m in members :: !HasEscape(m.raw)
    ensures var found := name in Collected(before + NodeText(Record(members, pad)) + after);
            && (name in NamesOf(members) ==> found)
            && ((found <==> name in NamesOf(members))
                <==> name in NamesOf(members) || name !in StringValuesOf(members))
  {
    RightIff(before, members, pad, after, name);
    forall m | m in members
      ensures m.raw == Decoded(m.raw)
    {
      StandsForItselfIff(m.raw);
    }
  }

  /** So a string value passes for a key: no object {"k":"v"} with k other than v
      has the key v, but the scanner says so. */
  lemma ValueTakenForKey(k: string, v: string)
    requires IsRaw(k) && IsRaw(v) && k != v && !HasEscape(k)
    ensures var m := Member("", k, "", Item("", Quoted(v), ""));
            v !in NamesOf([m]) && v in Collected("" + NodeText(Record([m], "")) + "")
  {
    var m := Member("", k, "", Item("", Quoted(v), ""));
    assert WellFormed(Quoted(v)) && WellFormedItem(m.item) && WellFormedMember(m);
    CollectsTopLevelStrings("", [m], "", "");
    StandsForItselfIff(k);
    assert m in [m];
  }

  /** The only member of an object {"k":1}. */
  function NumberMember(k: string): Member {
    Member("", k, "", Item("", Leaf("1"), ""))
  }

  lemma NumberObjectText(k: string)
    ensures NodeText(Record([NumberMember(k)], "")) == "{\"" + k + "\":1}"
  {
    var m := NumberMember(k);
    assert ItemText(m.item) == "1";
    assert MemberText(m) == "\"" + k + "\":1";
    assert MembersText([m]) == MemberText(m) && MembersText([m]) + "" == MemberText(m);
  }

  /** And a key written with an escape is missed, while its spelling passes for a
      key. */
  lemma EscapedKeyIsMissed(k: string)
    requires IsRaw(k) && HasEscape(k)
    ensures var names, found := NamesOf([NumberMember(k)]), Collected("{\"" + k + "\":1}");
            Decoded(k) in names && Decoded(k) !in found && k !in names && k in found
  {
    hide Collected;
    var m := NumberMember(k);
    assert WellFormed(Leaf("1")) && WellFormedItem(m.item) && WellFormedMember(m);
    CollectsTopLevelStrings("", [m], "", "");
    NumberObjectText(k);
    assert "" + NodeText(Record([m], "")) + "" == NodeText(Record([m], ""));
    StandsForItselfIff(k);
    assert m in [m];
  }

  /** For instance the key of {"\u0061b":1}, which is `ab`. */
  lemma EscapedLetterIsMissed()
    ensures var names, found := NamesOf([NumberMember("\\u0061b")]), Collected("{\"\\u0061b\":1}");
            "ab" in names && "ab" !in found && "\\u0061b" !in names && "\\u0061b" in found
  {
    hide Collected, NamesOf, Decoded, IsRaw;
    var k := "\\u0061b";
    EscapedLetter();
    assert HasEscape(k);
    EscapedKeyIsMissed(k);
    assert "{\"" + k + "\":1}" == "{\"\\u0061b\":1}";
  }

  lemma EscapedLetter()
    ensures IsRaw("\\u0061b") && Decoded("\\u0061b") == "ab"
  {
    var k := "\\u0061b";
    assert k[2..] == "0061b" && IsRaw("0061b");
    assert UnitAt(k) == 97 && UnitChar(97) == 'a';
    assert k[6..] == "b" && Decoded("b") == ['b'] + Decoded("") == "b";
    assert Decoded(k) == [UnitChar(97)] + Decoded(k[6..]);
  }

  // ---------- Every name can be missed ----------

  function HexDigit(d: nat): (c: char)
    requires d < 16
    ensures IsHex(c) && HexValue(c) == d
  {
    if d < 10 then ('0' as int + d) as char else ('a' as int + d - 10) as char
  }

  function UnitText(u: nat): string
    requires u < 0x10000
  {
    ['\\', 'u', HexDigit(u / 4096), HexDigit(u / 256 % 16), HexDigit(u / 16 % 16), HexDigit(u % 16)]
  }

  function SpelledChar(c: char): string {
    var u := c as int;
    if u < 0x10000 then UnitText(u)
    else UnitText(0xD800 + (u - 0x10000) / 0x400) + UnitText(0xDC00 + (u - 0x10000) % 0x400)
  }

  /** The string written with escapes only. */
  function Spelled(s: string): string {
    if s == "" then "" else SpelledChar(s[0]) + Spelled(s[1..])
  }

  lemma FourDigits(u: nat)
    requires u < 0x10000
    ensures ((u / 4096 * 16 + u / 256 % 16) * 16 + u / 16 % 16) * 16 + u % 16 == u
    ensures u / 4096 < 16
  {
  }

  lemma UnitTextReads(u: nat, rest: string)
    requires u < 0x10000
    ensures StartsWithUnit(UnitText(u) + rest) && UnitAt(UnitText(u) + rest) == u
    ensures (UnitText(u) + rest)[6..] == rest
    ensures IsRaw(rest) ==> IsRaw(UnitText(u) + rest)
  {
    FourDigits(u);
    var s := UnitText(u) + rest;
    if IsRaw(rest) {
      assert s[6..] == rest && s[5..][1..] == s[6..] && IsRaw(s[5..]);
      assert s[4..][1..] == s[5..] && IsRaw(s[4..]);
      assert s[3..][1..] == s[4..] && IsRaw(s[3..]);
      assert s[2..][1..] == s[3..] && IsRaw(s[2..]);
    }
  }

  lemma SpelledCharReads(c: char, rest: string)
    ensures Decoded(SpelledChar(c) + rest) == [c] + Decoded(rest)
    ensures IsRaw(rest) ==> IsRaw(SpelledChar(c) + rest)
  {
    var u, s := c as int, SpelledChar(c) + rest;
    hide UnitText, IsRaw, UnitAt;
    if u < 0x10000 {
      UnitTextReads(u, rest);
    } else {
      var high, low := 0xD800 + (u - 0x10000) / 0x400, 0xDC00 + (u - 0x10000) % 0x400;
      UnitTextReads(low, rest);
      UnitTextReads(high, UnitText(low) + rest);
      assert s == UnitText(high) + (UnitText(low) + rest);
      assert s[12..] == s[6..][6..];
    }
  }

  /** Decoding reads the spelling back. */
  lemma {:induction false} SpelledReads(s: string)
    ensures Decoded(Spelled(s)) == s && IsRaw(Spelled(s))
  {
    hide SpelledChar;
    if s != "" {
      SpelledReads(s[1..]);
      SpelledCharReads(s[0], Spelled(s[1..]));
    }
  }

  /** Whatever the name, some object has a key of that name and the scanner says it
      has not. */
  lemma EveryNameCanBeMissed(name: string)
    requires name != ""
    ensures var k := Spelled(name);
            name in NamesOf([NumberMember(k)]) && name !in Collected("{\"" + k + "\":1}")
  {
    hide Collected, NamesOf, Decoded, IsRaw;
    SpelledReads(name);
    assert Spelled(name)[0] == '\\';
    EscapedKeyIsMissed(Spelled(name));
  }
}
