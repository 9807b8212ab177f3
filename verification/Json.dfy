/**
 * JSON, as far as the firmware's texts need it: objects, arrays, strings without escapes, whole numbers and true.
 * A reader, which knows nothing of the firmware, and a writer that it is proved to undo.
 */
module Json {
  import opened Text

  datatype Json = True | Number(n: int) | String(s: string) | Array(items: Items) | Object(members: Members)

  datatype Items = NoItems | Item(first: Json, others: Items)

  datatype Members = NoMembers | Member(name: string, value: Json, others: Members)

  // ---------- reading ----------

  /** What follows the leading spaces. */
  function Skip(s: string): (r: string)
    ensures |r| <= |s| && (r != [] ==> r[0] != ' ')
  {
    if s != [] && s[0] == ' ' then Skip(s[1..]) else s
  }

  /** What follows the character c, if that comes first after spaces. */
  function Token(c: char, s: string): (r: Option<string>)
    ensures r.Some? ==> |r.value| < |s|
  {
    var t := Skip(s);
    if t != [] && t[0] == c then Some(t[1..]) else None
  }

  function ReadString(s: string): (r: Option<(string, string)>)
    ensures r.Some? ==> |r.value.1| < |s|
  {
    var t :- Token('\"', s);
    var (text, rest) := ReadUntil(t, '\"');
    if rest == [] || '\\' in text then None else Some((text, rest[1..]))
  }

  /** The value that comes first, and what follows it. */
  function ReadValue(s: string): (r: Option<(Json, string)>)
    ensures r.Some? ==> |r.value.1| < |s|
    decreases |s|, 1
  {
    var t := Skip(s);
    if t == [] then None
    else if t[0] == '{' then
      if Token('}', t[1..]).Some? then Some((Object(NoMembers), Token('}', t[1..]).value))
      else
        var (members, rest) :- ReadMembers(t[1..]);
        Some((Object(members), rest))
    else if t[0] == '[' then
      if Token(']', t[1..]).Some? then Some((Array(NoItems), Token(']', t[1..]).value))
      else
        var (items, rest) :- ReadItems(t[1..]);
        Some((Array(items), rest))
    else if t[0] == '\"' then
      var (text, rest) :- ReadString(t);
      Some((String(text), rest))
    else if "true" <= t then Some((True, t[4..]))
    else
      var (n, rest) :- ReadInt(t);
      Some((Number(n), rest))
  }

  /** One or more items, and the bracket that closes them. */
  function ReadItems(s: string): (r: Option<(Items, string)>)
    ensures r.Some? ==> |r.value.1| < |s|
    decreases |s|, 2
  {
    var (first, s1) :- ReadValue(s);
    if Token(',', s1).Some? then
      var (others, rest) :- ReadItems(Token(',', s1).value);
      Some((Item(first, others), rest))
    else
      var rest :- Token(']', s1);
      Some((Item(first, NoItems), rest))
  }

  /** A name, a colon and a value. */
  function ReadMember(s: string): (r: Option<((string, Json), string)>)
    ensures r.Some? ==> |r.value.1| < |s|
    decreases |s|, 2
  {
    var (name, s1) :- ReadString(s);
    var s2 :- Token(':', s1);
    var (value, rest) :- ReadValue(s2);
    Some(((name, value), rest))
  }

  /** One or more members, and the brace that closes them. */
  function ReadMembers(s: string): (r: Option<(Members, string)>)
    ensures r.Some? ==> |r.value.1| < |s|
    decreases |s|, 3
  {
    var ((name, value), s1) :- ReadMember(s);
    if Token(',', s1).Some? then
      var (others, rest) :- ReadMembers(Token(',', s1).value);
      Some((Member(name, value, others), rest))
    else
      var rest :- Token('}', s1);
      Some((Member(name, value, NoMembers), rest))
  }

  /** The value of a whole text. */
  function ReadJson(s: string): Option<Json> {
    var (v, rest) :- ReadValue(s);
    if Skip(rest) == [] then Some(v) else None
  }

  // ---------- writing ----------

  /** A quoted text, and what follows. */
  function Quote(text: string, rest: string): string {
    "\"" + (text + ("\"" + rest))
  }

  /** A name with its colon and the gap, and the value with what follows. */
  function Named(name: string, gap: string, value: string): string {
    Quote(name, ":" + (gap + value))
  }

  /** The text of a value with `gap` after each colon, and what follows. */
  function Write(v: Json, gap: string, rest: string): string
    decreases v
  {
    match v
    case True => "true" + rest
    case Number(n) => Decimal(n) + rest
    case String(s) => Quote(s, rest)
    case Array(items) => "[" + WriteItems(items, gap, rest)
    case Object(members) => "{" + WriteMembers(members, gap, rest)
  }

  function WriteItems(items: Items, gap: string, rest: string): string
    decreases items
  {
    match items
    case NoItems => "]" + rest
    case Item(v, NoItems) => Write(v, gap, "]" + rest)
    case Item(v, others) => Write(v, gap, "," + WriteItems(others, gap, rest))
  }

  function WriteMembers(members: Members, gap: string, rest: string): string
    decreases members
  {
    match members
    case NoMembers => "}" + rest
    case Member(name, v, NoMembers) => Named(name, gap, Write(v, gap, "}" + rest))
    case Member(name, v, others) => Named(name, gap, Write(v, gap, "," + WriteMembers(others, gap, rest)))
  }

  /** A name and its colon as one text. */
  lemma NamedText(name: string, gap: string, value: string)
    ensures Named(name, gap, value) == ("\"" + name + "\":" + gap) + value
  {
  }

  /** What is written after a member's value. */
  function AfterMember(others: Members, gap: string, rest: string): string {
    if others.NoMembers? then "}" + rest else "," + WriteMembers(others, gap, rest)
  }

  /** A format's tag that opens a member. */
  lemma MemberText(first: string, tag: string, name: string, v: Json, others: Members, gap: string, rest: string)
    requires first + ("\"" + name + "\":" + gap) == tag
    ensures first + WriteMembers(Member(name, v, others), gap, rest) ==
            tag + Write(v, gap, AfterMember(others, gap, rest))
  {
    NamedText(name, gap, Write(v, gap, AfterMember(others, gap, rest)));
  }

  /** A format's text that is two texts. */
  lemma JoinText(whole: string, first: string, second: string, rest: string)
    requires first + second == whole
    ensures first + (second + rest) == whole + rest
  {
  }

  /** One that also opens the quotes of a text, and one that also closes them. */
  lemma QuoteText(before: string, opening: string, text: string, after: string, closing: string)
    requires before + "\"" == opening && "\"" + after == closing
    ensures before + Quote(text, after) == opening + (text + closing)
  {
  }

  // ---------- reading undoes writing ----------

  /** A text that is quoted as it stands. */
  predicate PlainText(s: string) {
    '\"' !in s && '\\' !in s
  }

  predicate Plain(v: Json)
    decreases v
  {
    match v
    case String(s) => PlainText(s)
    case Array(items) => PlainItems(items)
    case Object(members) => PlainMembers(members)
    case _ => true
  }

  predicate PlainItems(items: Items)
    decreases items
  {
    items.Item? ==> Plain(items.first) && PlainItems(items.others)
  }

  predicate PlainMembers(members: Members)
    decreases members
  {
    members.Member? ==> PlainText(members.name) && Plain(members.value) && PlainMembers(members.others)
  }

  lemma PlainMember(name: string, v: Json, others: Members)
    requires PlainText(name) && Plain(v) && PlainMembers(others)
    ensures PlainMembers(Member(name, v, others)) && Plain(Object(Member(name, v, others)))
  {
  }

  predicate Spaces(gap: string) {
    forall k :: 0 <= k < |gap| ==> gap[k] == ' '
  }

  lemma {:induction false} SkipGap(gap: string, s: string)
    requires Spaces(gap)
    ensures Skip(gap + s) == Skip(s)
  {
    if gap == [] {
      assert gap + s == s;
    } else {
      assert (gap + s)[1..] == gap[1..] + s;
      SkipGap(gap[1..], s);
    }
  }

  lemma TokenAhead(c: char, rest: string)
    requires c != ' '
    ensures Token(c, [c] + rest) == Some(rest)
    ensures forall d :: d != c ==> Token(d, [c] + rest).None?
  {
  }

  lemma StringAhead(text: string, rest: string)
    requires PlainText(text)
    ensures ReadString(Quote(text, rest)) == Some((text, rest))
  {
    TokenAhead('\"', text + ("\"" + rest));
    ReadUntilStop(text, '\"', "\"" + rest);
  }

  /** How a written value starts. */
  predicate Starts(v: Json, c: char) {
    match v
    case True => c == 't'
    case Number(_) => IsDigit(c) || c == '-'
    case String(_) => c == '\"'
    case Array(_) => c == '['
    case Object(_) => c == '{'
  }

  lemma WriteStarts(v: Json, gap: string, rest: string)
    ensures Write(v, gap, rest) != [] && Starts(v, Write(v, gap, rest)[0])
  {
  }

  lemma SkipNothing(s: string)
    requires s == [] || s[0] != ' '
    ensures Skip(s) == s
  {
  }

  lemma {:induction false} ValueRoundTrip(v: Json, gap: string, rest: string)
    requires Plain(v) && Spaces(gap) && NotDigitAhead(rest)
    ensures ReadValue(Write(v, gap, rest)) == Some((v, rest))
    decreases v, 1
  {
    WriteStarts(v, gap, rest);
    SkipNothing(Write(v, gap, rest));
    match v
    case True =>
      assert ("true" + rest)[4..] == rest;
    case Number(n) => ReadIntOfDecimal(n, rest);
    case String(s) => StringAhead(s, rest);
    case Array(items) => ItemsRoundTrip(items, gap, rest);
    case Object(members) => MembersRoundTrip(members, gap, rest);
  }

  lemma {:induction false} ItemsRoundTrip(items: Items, gap: string, rest: string)
    requires PlainItems(items) && Spaces(gap)
    ensures var s := WriteItems(items, gap, rest);
            if items.NoItems? then Token(']', s) == Some(rest)
            else Token(']', s).None? && ReadItems(s) == Some((items, rest))
    decreases items, 0
  {
    match items
    case NoItems => TokenAhead(']', rest);
    case Item(v, others) =>
      var after := if others.NoItems? then "]" + rest else "," + WriteItems(others, gap, rest);
      WriteStarts(v, gap, after);
      SkipNothing(Write(v, gap, after));
      ValueRoundTrip(v, gap, after);
      if others.NoItems? {
        TokenAhead(']', rest);
      } else {
        TokenAhead(',', WriteItems(others, gap, rest));
        ItemsRoundTrip(others, gap, rest);
      }
  }

  /** A name is read with the value that comes after it. */
  lemma MemberAhead(name: string, gap: string, text: string, v: Json, after: string)
    requires PlainText(name) && Spaces(gap) && ReadValue(text) == Some((v, after))
    ensures var s := Named(name, gap, text);
            Token('}', s).None? && ReadMember(s) == Some(((name, v), after))
  {
    var colon := ":" + (gap + text);
    StringAhead(name, colon);
    TokenAhead('\"', name + ("\"" + colon));
    TokenAhead(':', gap + text);
    SkipGap(gap, text);
    assert ReadValue(gap + text) == ReadValue(text);
  }

  lemma {:induction false} MembersRoundTrip(members: Members, gap: string, rest: string)
    requires PlainMembers(members) && Spaces(gap)
    ensures var s := WriteMembers(members, gap, rest);
            if members.NoMembers? then Token('}', s) == Some(rest)
            else Token('}', s).None? && ReadMembers(s) == Some((members, rest))
    decreases members, 0
  {
    match members
    case NoMembers => TokenAhead('}', rest);
    case Member(name, v, others) =>
      var after := if others.NoMembers? then "}" + rest else "," + WriteMembers(others, gap, rest);
      ValueRoundTrip(v, gap, after);
      MemberAhead(name, gap, Write(v, gap, after), v, after);
      if others.NoMembers? {
        TokenAhead('}', rest);
      } else {
        TokenAhead(',', WriteMembers(others, gap, rest));
        MembersRoundTrip(others, gap, rest);
      }
  }

  /** Every value comes back from its text, however many spaces follow its colons. */
  lemma JsonRoundTrip(v: Json, gap: string)
    requires Plain(v) && Spaces(gap)
    ensures ReadJson(Write(v, gap, "")) == Some(v)
  {
    ValueRoundTrip(v, gap, "");
  }
}
