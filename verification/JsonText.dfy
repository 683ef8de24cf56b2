// JSON as text (RFC 8259): a syntax tree that keeps member order and the
// literal of every number, the writers of the gateway and of the toolkit, and
// one reader. The main result is that reading inverts every writer, whatever
// delimiter-led text follows.
module JsonText {
  import opened Wrappers
  import opened Decimal

  datatype Doc =
    | Null
    | Bool(b: bool)
    | Number(literal: string)
    | Text(s: string)
    | Array(items: seq<Doc>)
    | Object(members: seq<Member>)

  datatype Member = Member(key: string, value: Doc)

  // ---- Numbers (section 6 of RFC 8259) ----

  predicate IsNumberChar(c: char) {
    IsDigit(c) || c == '-' || c == '+' || c == '.' || c == 'e' || c == 'E'
  }

  function SkipDigits(s: string): (r: string)
    ensures |r| <= |s|
  {
    if |s| > 0 && IsDigit(s[0]) then SkipDigits(s[1..]) else s
  }

  // At least one digit, or nothing is left to match.
  function SkipDigits1(s: string): Option<string> {
    if |s| > 0 && IsDigit(s[0]) then Some(SkipDigits(s)) else None
  }

  function SkipInt(s: string): Option<string> {
    if |s| > 0 && s[0] == '0' then Some(s[1..]) else SkipDigits1(s)
  }

  function SkipFrac(s: string): Option<string> {
    if |s| > 0 && s[0] == '.' then SkipDigits1(s[1..]) else Some(s)
  }

  function SkipExp(s: string): Option<string> {
    if |s| > 0 && (s[0] == 'e' || s[0] == 'E') then
      SkipDigits1(if |s| > 1 && (s[1] == '+' || s[1] == '-') then s[2..] else s[1..])
    else
      Some(s)
  }

  predicate MatchesNumber(s: string) {
    var int_ := SkipInt(if |s| > 0 && s[0] == '-' then s[1..] else s);
    int_.Some? &&
    var frac := SkipFrac(int_.value);
    frac.Some? &&
    var exp := SkipExp(frac.value);
    exp == Some("")
  }

  predicate IsNumberLiteral(s: string) {
    |s| > 0 && (forall i | 0 <= i < |s| :: IsNumberChar(s[i])) && MatchesNumber(s)
  }

  predicate WellFormed(d: Doc)
    decreases d, 1
  {
    match d
    case Number(lit) => IsNumberLiteral(lit)
    case Array(items) => ItemsWellFormed(items)
    case Object(members) => MembersWellFormed(members)
    case _ => true
  }

  predicate ItemsWellFormed(items: seq<Doc>)
    decreases items, 0
  {
    |items| == 0 || (WellFormed(items[0]) && ItemsWellFormed(items[1..]))
  }

  predicate MembersWellFormed(members: seq<Member>)
    decreases members, 0
  {
    |members| == 0 || (WellFormed(members[0].value) && MembersWellFormed(members[1..]))
  }

  // ---- Strings (section 7 of RFC 8259) ----

  function HexDigit(d: nat): char
    requires d < 16
  {
    if d < 10 then ('0' as int + d) as char else ('a' as int + (d - 10)) as char
  }

  function HexValue(c: char): (d: Option<nat>)
    ensures d.Some? ==> d.value < 16
  {
    if '0' <= c <= '9' then Some(c as int - '0' as int)
    else if 'a' <= c <= 'f' then Some(c as int - 'a' as int + 10)
    else if 'A' <= c <= 'F' then Some(c as int - 'A' as int + 10)
    else None
  }

  function UnicodeEscape(n: nat): string
    requires n < 0x10000
  {
    ['\\', 'u', HexDigit(n / 0x1000), HexDigit(n / 0x100 % 0x10), HexDigit(n / 0x10 % 0x10), HexDigit(n % 0x10)]
  }

  // The five characters encoding/json escapes to keep its output safe inside HTML.
  predicate IsHtmlSensitive(c: char) {
    c == '<' || c == '>' || c == '&' || c as int == 0x2028 || c as int == 0x2029
  }

  // One character inside a JSON string. `html` is the extra escaping of
  // encoding/json; JSON.stringify does not do it.
  function Escape(html: bool, c: char): (s: string)
    ensures |s| > 0 && s[0] != '"'
  {
    if c == '"' then "\\\""
    else if c == '\\' then "\\\\"
    else if c as int == 8 then "\\b"
    else if c as int == 9 then "\\t"
    else if c as int == 10 then "\\n"
    else if c as int == 12 then "\\f"
    else if c as int == 13 then "\\r"
    else if c as int < 0x20 || (html && IsHtmlSensitive(c)) then UnicodeEscape(c as int)
    else [c]
  }

  function EscapeAll(html: bool, s: string): string {
    if |s| == 0 then "" else Escape(html, s[0]) + EscapeAll(html, s[1..])
  }

  // ---- Writers ----

  // `gap` is the white space after ',' and ':'. The gateway and the toolkit
  // write none; PostgreSQL writes one space when it prints JSONB.
  datatype Style = Style(html: bool, gap: string)

  const GO := Style(true, "")
  const JS := Style(false, "")
  const JSONB := Style(false, " ")

  predicate IsSpace(c: char) {
    c == ' ' || c == '\t' || c == '\n' || c == '\r'
  }

  predicate IsGap(s: string) {
    forall i | 0 <= i < |s| :: IsSpace(s[i])
  }

  function Quote(st: Style, s: string): string {
    "\"" + EscapeAll(st.html, s) + "\""
  }

  function Write(st: Style, d: Doc): string
    decreases d, 1
  {
    match d
    case Null => "null"
    case Bool(b) => if b then "true" else "false"
    case Number(lit) => lit
    case Text(s) => Quote(st, s)
    case Array(items) =>
      if |items| == 0 then "[]" else "[" + Write(st, items[0]) + WriteItems(st, items[1..])
    case Object(members) =>
      if |members| == 0 then "{}"
      else "{" + WriteMember(st, members[0]) + WriteMembers(st, members[1..])
  }

  // The rest of an array after its first item, closing bracket included.
  function WriteItems(st: Style, items: seq<Doc>): string
    decreases items, 0
  {
    if |items| == 0 then "]" else "," + st.gap + Write(st, items[0]) + WriteItems(st, items[1..])
  }

  // The rest of an object after its first member, closing brace included.
  function WriteMembers(st: Style, members: seq<Member>): string
    decreases members, 0
  {
    if |members| == 0 then "}"
    else "," + st.gap + WriteMember(st, members[0]) + WriteMembers(st, members[1..])
  }

  function WriteMember(st: Style, m: Member): string
    decreases m, 2
  {
    Quote(st, m.key) + ":" + st.gap + Write(st, m.value)
  }

  // ---- Reader ----

  function SkipSpace(s: string): (r: string)
    ensures |r| <= |s|
  {
    if |s| > 0 && IsSpace(s[0]) then SkipSpace(s[1..]) else s
  }

  function ReadHex4(s: string): (r: Option<(nat, string)>)
    ensures r.Some? ==> |r.value.1| < |s| && r.value.0 < 0x10000
  {
    if |s| < 4 then
      None
    else
      var a :- HexValue(s[0]);
      var b :- HexValue(s[1]);
      var c :- HexValue(s[2]);
      var d :- HexValue(s[3]);
      Some((a * 0x1000 + b * 0x100 + c * 0x10 + d, s[4..]))
  }

  // What follows "\u". A surrogate pair is one scalar; a lone surrogate is read
  // as U+FFFD, as encoding/json does.
  function ReadUnicodeEscape(s: string): (r: Option<(char, string)>)
    ensures r.Some? ==> |r.value.1| < |s|
  {
    var (n, rest) :- ReadHex4(s);
    if n < 0xD800 || 0xE000 <= n then
      Some((n as char, rest))
    else if n < 0xDC00 && |rest| >= 2 && rest[0] == '\\' && rest[1] == 'u' && ReadHex4(rest[2..]).Some? then
      var (low, after) := ReadHex4(rest[2..]).value;
      if 0xDC00 <= low < 0xE000 then
        Some(((0x10000 + (n - 0xD800) * 0x400 + (low - 0xDC00)) as char, after))
      else
        Some((0xFFFD as char, rest))
    else
      Some((0xFFFD as char, rest))
  }

  // One character of a JSON string, the opening quote already read.
  function ReadChar(s: string): (r: Option<(char, string)>)
    requires |s| > 0 && s[0] != '"'
    ensures r.Some? ==> |r.value.1| < |s|
  {
    if s[0] != '\\' then
      if s[0] as int < 0x20 then None else Some((s[0], s[1..]))
    else if |s| < 2 then
      None
    else
      match s[1]
      case '"' => Some(('"', s[2..]))
      case '\\' => Some(('\\', s[2..]))
      case '/' => Some(('/', s[2..]))
      case 'b' => Some((8 as char, s[2..]))
      case 't' => Some((9 as char, s[2..]))
      case 'n' => Some((10 as char, s[2..]))
      case 'f' => Some((12 as char, s[2..]))
      case 'r' => Some((13 as char, s[2..]))
      case 'u' => ReadUnicodeEscape(s[2..])
      case _ => None
  }

  // The rest of a JSON string after its opening quote.
  function ReadString(s: string): (r: Option<(string, string)>)
    ensures r.Some? ==> |r.value.1| < |s|
  {
    if |s| == 0 then
      None
    else if s[0] == '"' then
      Some(("", s[1..]))
    else
      var (c, rest) :- ReadChar(s);
      var (cs, after) :- ReadString(rest);
      Some(([c] + cs, after))
  }

  function NumberPrefix(s: string): (n: nat)
    ensures n <= |s|
  {
    if |s| > 0 && IsNumberChar(s[0]) then 1 + NumberPrefix(s[1..]) else 0
  }

  predicate StartsWith(s: string, prefix: string) {
    |prefix| <= |s| && s[..|prefix|] == prefix
  }

  function Read(s: string): (r: Option<(Doc, string)>)
    ensures r.Some? ==> |r.value.1| < |s|
    decreases |s|, 0
  {
    var t := SkipSpace(s);
    if |t| == 0 then
      None
    else if t[0] == '"' then
      var (str, rest) :- ReadString(t[1..]);
      Some((Text(str), rest))
    else if t[0] == '[' then
      var u := SkipSpace(t[1..]);
      if |u| > 0 && u[0] == ']' then
        Some((Array([]), u[1..]))
      else
        var (first, rest) :- Read(u);
        var (others, after) :- ReadItems(rest);
        Some((Array([first] + others), after))
    else if t[0] == '{' then
      var u := SkipSpace(t[1..]);
      if |u| > 0 && u[0] == '}' then
        Some((Object([]), u[1..]))
      else
        var (first, rest) :- ReadMember(u);
        var (others, after) :- ReadMembers(rest);
        Some((Object([first] + others), after))
    else if StartsWith(t, "null") then
      Some((Null, t[4..]))
    else if StartsWith(t, "true") then
      Some((Bool(true), t[4..]))
    else if StartsWith(t, "false") then
      Some((Bool(false), t[5..]))
    else
      var n := NumberPrefix(t);
      if IsNumberLiteral(t[..n]) then Some((Number(t[..n]), t[n..])) else None
  }

  function ReadItems(s: string): (r: Option<(seq<Doc>, string)>)
    ensures r.Some? ==> |r.value.1| < |s|
    decreases |s|, 1
  {
    var t := SkipSpace(s);
    if |t| == 0 then
      None
    else if t[0] == ']' then
      Some(([], t[1..]))
    else if t[0] == ',' then
      var (first, rest) :- Read(t[1..]);
      var (others, after) :- ReadItems(rest);
      Some(([first] + others, after))
    else
      None
  }

  function ReadMember(s: string): (r: Option<(Member, string)>)
    ensures r.Some? ==> |r.value.1| < |s|
    decreases |s|, 2
  {
    var t := SkipSpace(s);
    if |t| == 0 || t[0] != '"' then
      None
    else
      var (key, rest) :- ReadString(t[1..]);
      ReadAfterKey(key, rest)
  }

  // The colon and the value of a member.
  function ReadAfterKey(key: string, s: string): (r: Option<(Member, string)>)
    ensures r.Some? ==> |r.value.1| < |s|
    decreases |s|, 1
  {
    var t := SkipSpace(s);
    if |t| == 0 || t[0] != ':' then
      None
    else
      var (value, after) :- Read(t[1..]);
      Some((Member(key, value), after))
  }

  function ReadMembers(s: string): (r: Option<(seq<Member>, string)>)
    ensures r.Some? ==> |r.value.1| < |s|
    decreases |s|, 3
  {
    var t := SkipSpace(s);
    if |t| == 0 then
      None
    else if t[0] == '}' then
      Some(([], t[1..]))
    else if t[0] == ',' then
      var (first, rest) :- ReadMember(t[1..]);
      var (others, after) :- ReadMembers(rest);
      Some(([first] + others, after))
    else
      None
  }

  // A whole text: one value and nothing but white space after it.
  function ReadAll(s: string): Option<Doc> {
    var (d, rest) :- Read(s);
    if SkipSpace(rest) == "" then Some(d) else None
  }

  // ---- Strings round-trip ----

  lemma HexRoundTrip(n: nat, rest: string)
    requires n < 0x10000
    ensures ReadHex4(UnicodeEscape(n)[2..] + rest) == Some((n, rest))
  {
    var a, b, c, d := n / 0x1000, n / 0x100 % 0x10, n / 0x10 % 0x10, n % 0x10;
    assert n == a * 0x1000 + b * 0x100 + c * 0x10 + d by {
      assert n / 0x100 == n / 0x10 / 0x10;
      assert n / 0x1000 == n / 0x100 / 0x10;
    }
    assert HexValue(HexDigit(a)) == Some(a);
    assert HexValue(HexDigit(b)) == Some(b);
    assert HexValue(HexDigit(c)) == Some(c);
    assert HexValue(HexDigit(d)) == Some(d);
    assert (UnicodeEscape(n)[2..] + rest)[4..] == rest;
  }

  lemma CharRoundTrip(html: bool, c: char, rest: string)
    ensures ReadChar(Escape(html, c) + rest) == Some((c, rest))
  {
    var e := Escape(html, c);
    assert (e + rest)[..|e|] == e;
    if |e| == 1 {
      assert (e + rest)[1..] == rest;
    } else if |e| == 2 {
      assert (e + rest)[2..] == rest;
    } else {
      HexRoundTrip(c as int, rest);
      assert (e + rest)[2..] == e[2..] + rest;
    }
  }

  lemma {:induction false} StringRoundTrip(html: bool, s: string, rest: string)
    ensures ReadString(EscapeAll(html, s) + "\"" + rest) == Some((s, rest))
  {
    var whole := EscapeAll(html, s) + "\"" + rest;
    if |s| == 0 {
      assert whole[1..] == rest;
    } else {
      var e, tail := Escape(html, s[0]), EscapeAll(html, s[1..]) + "\"" + rest;
      assert whole == e + tail;
      CharRoundTrip(html, s[0], tail);
      StringRoundTrip(html, s[1..], rest);
      assert s == [s[0]] + s[1..];
    }
  }

  // ---- White space and numbers ----

  lemma {:induction false} SkipGap(gap: string, s: string)
    requires IsGap(gap)
    requires |s| > 0 && !IsSpace(s[0])
    ensures SkipSpace(gap + s) == s
  {
    if |gap| == 0 {
      assert gap + s == s;
    } else {
      assert (gap + s)[1..] == gap[1..] + s;
      SkipGap(gap[1..], s);
    }
  }

  // What may follow a value: nothing, or a character that cannot continue a number.
  predicate Delimited(rest: string) {
    |rest| == 0 || !IsNumberChar(rest[0])
  }

  lemma {:induction false} NumberPrefixStops(lit: string, rest: string)
    requires forall i | 0 <= i < |lit| :: IsNumberChar(lit[i])
    requires Delimited(rest)
    ensures NumberPrefix(lit + rest) == |lit|
  {
    if |lit| == 0 {
      assert lit + rest == rest;
    } else {
      assert (lit + rest)[1..] == lit[1..] + rest;
      NumberPrefixStops(lit[1..], rest);
    }
  }

  // The first character of a written value is neither white space nor a closing bracket.
  lemma FirstChar(st: Style, d: Doc)
    requires WellFormed(d)
    ensures var w := Write(st, d);
            |w| > 0 && !IsSpace(w[0]) && w[0] != ']' && w[0] != '}' && w[0] != ',' && w[0] != ':'
  {
  }

  // ---- Values round-trip ----

  lemma NumberRoundTrip(lit: string, rest: string)
    requires IsNumberLiteral(lit) && Delimited(rest)
    ensures Read(lit + rest) == Some((Number(lit), rest))
  {
    var s := lit + rest;
    assert IsNumberChar(s[0]);
    assert SkipSpace(s) == s;
    NumberPrefixStops(lit, rest);
    assert s[..|lit|] == lit && s[|lit|..] == rest;
    assert !StartsWith(s, "null") && !StartsWith(s, "true") && !StartsWith(s, "false");
  }

  lemma ScalarRoundTrip(st: Style, d: Doc, rest: string)
    requires d.Null? || d.Bool? || d.Text?
    ensures Read(Write(st, d) + rest) == Some((d, rest))
  {
    var w := Write(st, d);
    var s := w + rest;
    assert s[..|w|] == w && s[|w|..] == rest;
    assert SkipSpace(s) == s;
    match d
    case Null => assert StartsWith(s, "null");
    case Bool(true) => assert StartsWith(s, "true");
    case Bool(false) => assert StartsWith(s, "false");
    case Text(str) =>
      assert s[1..] == EscapeAll(st.html, str) + "\"" + rest;
      StringRoundTrip(st.html, str, rest);
  }

  lemma EmptyRoundTrip(d: Doc, rest: string)
    requires d == Array([]) || d == Object([])
    ensures Read((if d.Array? then "[]" else "{}") + rest) == Some((d, rest))
  {
    var s := (if d.Array? then "[]" else "{}") + rest;
    assert SkipSpace(s) == s;
    assert s[1..][1..] == rest;
    assert SkipSpace(s[1..]) == s[1..];
  }

  // A value that starts with no white space is read the same behind any gap.
  lemma ReadSkips(gap: string, s: string)
    requires IsGap(gap)
    requires |s| > 0 && !IsSpace(s[0])
    ensures Read(gap + s) == Read(s)
  {
    SkipGap(gap, s);
    assert SkipSpace(s) == s;
  }

  lemma {:induction false} ReadWrite(st: Style, d: Doc, rest: string)
    requires IsGap(st.gap) && WellFormed(d) && Delimited(rest)
    ensures Read(Write(st, d) + rest) == Some((d, rest))
    decreases d, 1
  {
    match d
    case Number(lit) => NumberRoundTrip(lit, rest);
    case Array(items) =>
      if |items| == 0 { EmptyRoundTrip(d, rest); } else { ReadWriteArray(st, items, rest); }
    case Object(members) =>
      if |members| == 0 { EmptyRoundTrip(d, rest); } else { ReadWriteObject(st, members, rest); }
    case _ => ScalarRoundTrip(st, d, rest);
  }

  lemma {:induction false} ReadWriteArray(st: Style, items: seq<Doc>, rest: string)
    requires IsGap(st.gap) && ItemsWellFormed(items) && |items| > 0
    ensures Read(Write(st, Array(items)) + rest) == Some((Array(items), rest))
    decreases items, 1
  {
    var tail := WriteItems(st, items[1..]) + rest;
    var s := Write(st, Array(items)) + rest;
    var u := Write(st, items[0]) + tail;
    FirstChar(st, items[0]);
    assert s[0] == '[' && s[1..] == u;
    assert SkipSpace(s) == s && SkipSpace(u) == u;
    assert Delimited(tail) by { assert tail[0] == WriteItems(st, items[1..])[0]; }
    ReadWrite(st, items[0], tail);
    ReadWriteItems(st, items[1..], rest);
    assert items == [items[0]] + items[1..];
  }

  lemma {:induction false} ReadWriteItems(st: Style, items: seq<Doc>, rest: string)
    requires IsGap(st.gap) && ItemsWellFormed(items)
    ensures ReadItems(WriteItems(st, items) + rest) == Some((items, rest))
    decreases items, 0
  {
    var s := WriteItems(st, items) + rest;
    if |items| == 0 {
      assert s[1..] == rest;
    } else {
      var tail := WriteItems(st, items[1..]) + rest;
      var x := Write(st, items[0]) + tail;
      assert s[1..] == st.gap + x;
      FirstChar(st, items[0]);
      ReadSkips(st.gap, x);
      assert Delimited(tail) by { assert tail[0] == WriteItems(st, items[1..])[0]; }
      ReadWrite(st, items[0], tail);
      ReadWriteItems(st, items[1..], rest);
      assert items == [items[0]] + items[1..];
    }
  }

  // The steps of ReadMember: the quoted key, then the colon and the value.
  lemma KeyStep(html: bool, key: string, gap: string, after: string)
    requires IsGap(gap)
    ensures ReadMember(gap + ("\"" + (EscapeAll(html, key) + "\"" + after))) == ReadAfterKey(key, after)
  {
    var body := "\"" + (EscapeAll(html, key) + "\"" + after);
    SkipGap(gap, body);
    assert body[1..] == EscapeAll(html, key) + "\"" + after;
    StringRoundTrip(html, key, after);
  }

  lemma AfterKeyStep(key: string, gap: string, x: string, value: Doc, tail: string)
    requires IsGap(gap) && |x| > 0 && !IsSpace(x[0]) && Read(x) == Some((value, tail))
    ensures ReadAfterKey(key, ":" + (gap + x)) == Some((Member(key, value), tail))
  {
    var s := ":" + (gap + x);
    assert SkipSpace(s) == s && s[1..] == gap + x;
    ReadSkips(gap, x);
  }

  lemma RegroupMember(gap: string, e: string, g: string, w: string, tail: string)
    ensures gap + ("\"" + e + "\"" + ":" + g + w) + tail
         == gap + ("\"" + (e + "\"" + (":" + (g + (w + tail)))))
  {
    var quoted := "\"" + e + "\"";
    assert quoted + ":" + g + w + tail == quoted + (":" + (g + (w + tail)));
    assert quoted + (":" + (g + (w + tail))) == "\"" + (e + "\"" + (":" + (g + (w + tail))));
  }

  lemma {:induction false} ReadWriteMember(st: Style, m: Member, gap: string, tail: string)
    requires IsGap(st.gap) && IsGap(gap)
    requires WellFormed(m.value) && Delimited(tail)
    ensures ReadMember(gap + WriteMember(st, m) + tail) == Some((m, tail))
    decreases m, 2
  {
    var w := Write(st, m.value);
    FirstChar(st, m.value);
    ReadWrite(st, m.value, tail);
    AfterKeyStep(m.key, st.gap, w + tail, m.value, tail);
    KeyStep(st.html, m.key, gap, ":" + (st.gap + (w + tail)));
    RegroupMember(gap, EscapeAll(st.html, m.key), st.gap, w, tail);
  }

  // The steps of Read on an object that has a member.
  lemma ReadObjectStep(u: string, first: Member, rest: string, others: seq<Member>, after: string)
    requires |u| > 0 && u[0] == '"'
    requires ReadMember(u) == Some((first, rest)) && ReadMembers(rest) == Some((others, after))
    ensures Read("{" + u) == Some((Object([first] + others), after))
  {
    var s := "{" + u;
    assert SkipSpace(s) == s && s[1..] == u && SkipSpace(u) == u;
  }

  lemma RegroupObject(m: string, ms: string, rest: string)
    ensures "{" + m + ms + rest == "{" + (m + (ms + rest))
    ensures "" + m + (ms + rest) == m + (ms + rest)
  {
    assert "{" + m + ms == "{" + (m + ms);
    assert m + ms + rest == m + (ms + rest);
  }

  lemma ReadMembersStep(gap: string, u: string, first: Member, rest: string, others: seq<Member>, after: string)
    requires ReadMember(gap + u) == Some((first, rest)) && ReadMembers(rest) == Some((others, after))
    ensures ReadMembers("," + gap + u) == Some(([first] + others, after))
  {
    var s := "," + gap + u;
    assert SkipSpace(s) == s && s[1..] == gap + u;
  }

  lemma {:induction false} ReadWriteObject(st: Style, members: seq<Member>, rest: string)
    requires IsGap(st.gap) && MembersWellFormed(members) && |members| > 0
    ensures Read(Write(st, Object(members)) + rest) == Some((Object(members), rest))
    decreases members, 1
  {
    var m, ms := WriteMember(st, members[0]), WriteMembers(st, members[1..]);
    MembersDelimited(st, members[1..], rest);
    ReadWriteMember(st, members[0], "", ms + rest);
    RegroupObject(m, ms, rest);
    ReadWriteMembers(st, members[1..], rest);
    ReadObjectStep(m + (ms + rest), members[0], ms + rest, members[1..], rest);
    assert members == [members[0]] + members[1..];
  }

  lemma Regroup(a: string, b: string, c: string, d: string, e: string)
    ensures a + b + c + d + e == a + b + (c + (d + e))
    ensures b + c + (d + e) == b + (c + (d + e))
  {
  }

  lemma MembersDelimited(st: Style, members: seq<Member>, rest: string)
    ensures Delimited(WriteMembers(st, members) + rest)
  {
    assert (WriteMembers(st, members) + rest)[0] == WriteMembers(st, members)[0];
  }

  lemma {:induction false} ReadWriteMembers(st: Style, members: seq<Member>, rest: string)
    requires IsGap(st.gap) && MembersWellFormed(members)
    ensures ReadMembers(WriteMembers(st, members) + rest) == Some((members, rest))
    decreases members, 0
  {
    if |members| == 0 {
      assert (WriteMembers(st, members) + rest)[1..] == rest;
    } else {
      var tail := WriteMembers(st, members[1..]) + rest;
      var u := WriteMember(st, members[0]) + tail;
      Regroup(",", st.gap, WriteMember(st, members[0]), WriteMembers(st, members[1..]), rest);
      MembersDelimited(st, members[1..], rest);
      ReadWriteMember(st, members[0], st.gap, tail);
      ReadWriteMembers(st, members[1..], rest);
      ReadMembersStep(st.gap, u, members[0], tail, members[1..], rest);
      assert members == [members[0]] + members[1..];
    }
  }

  // Reading a whole text gives back the document it was written from, in every style.
  lemma ReadAllWrite(st: Style, d: Doc)
    requires IsGap(st.gap) && WellFormed(d)
    ensures ReadAll(Write(st, d)) == Some(d)
  {
    ReadWrite(st, d, "");
    assert Write(st, d) + "" == Write(st, d);
  }

  // ---- The texts themselves ----

  // One character: as itself, or as two characters where RFC 8259 has a short
  // form, or else as \\u and four lower-case hexadecimal digits.
  lemma EscapeForms(html: bool, c: char)
    ensures |Escape(html, c)| == 1 <==> c != '"' && c != '\\' && c >= ' ' && !(html && IsHtmlSensitive(c))
    ensures |Escape(html, c)| == 1 ==> Escape(html, c) == [c]
    ensures |Escape(html, c)| == 2 <==> c == '"' || c == '\\' || c as int in {8, 9, 10, 12, 13}
    ensures |Escape(html, c)| == 1 || |Escape(html, c)| == 2 || |Escape(html, c)| == 6
  {
  }

  lemma EscapeExamples(html: bool)
    ensures Escape(html, '"') == "\\\"" && Escape(html, '\\') == "\\\\" && Escape(html, '\n') == "\\n"
    ensures Escape(html, '\r') == "\\r" && Escape(html, '\t') == "\\t"
    ensures Escape(html, 8 as char) == "\\b" && Escape(html, 12 as char) == "\\f"
    ensures Escape(html, 0x1F as char) == "\\u001f" && Escape(html, '/') == "/"
    ensures Escape(true, '<') == "\\u003c" && Escape(true, '>') == "\\u003e" && Escape(true, '&') == "\\u0026"
    ensures Escape(true, 0x2028 as char) == "\\u2028" && Escape(true, 0x2029 as char) == "\\u2029"
    ensures Escape(false, '<') == "<"
  {
  }

  lemma QuoteOne(st: Style, c: char)
    ensures Quote(st, [c]) == "\"" + Escape(st.html, c) + "\""
  {
    assert [c][1..] == "";
    assert EscapeAll(st.html, [c]) == Escape(st.html, c) + EscapeAll(st.html, "");
  }

  lemma QuoteLetter(st: Style, c: char)
    requires 'a' <= c <= 'z'
    ensures Quote(st, [c]) == "\"" + [c] + "\""
  {
    QuoteOne(st, c);
  }

  // An array and an object of two, in any writer's text.
  lemma WriteTwo(st: Style, a: Doc, b: Doc)
    ensures Write(st, Array([a, b])) == "[" + Write(st, a) + ("," + st.gap + Write(st, b) + "]")
  {
    assert [a, b][1..] == [b] && [b][1..] == [];
    assert WriteItems(st, [b]) == "," + st.gap + Write(st, b) + "]";
  }

  lemma WriteTwoMembers(st: Style, k: char, a: Doc, l: char, b: Doc)
    requires 'a' <= k <= 'z' && 'a' <= l <= 'z'
    ensures Write(st, Object([Member([k], a), Member([l], b)]))
         == "{" + ("\"" + [k] + "\"" + ":" + st.gap + Write(st, a))
            + ("," + st.gap + ("\"" + [l] + "\"" + ":" + st.gap + Write(st, b)) + "}")
  {
    var m, n := Member([k], a), Member([l], b);
    assert [m, n][1..] == [n] && [n][1..] == [];
    assert WriteMembers(st, [n]) == "," + st.gap + WriteMember(st, n) + "}";
    QuoteLetter(st, k);
    QuoteLetter(st, l);
  }

  // ---- What the reader takes and refuses ----

  // White space is the four characters of section 2 of RFC 8259, and no other.
  lemma SpaceIs(c: char, s: string)
    ensures SkipSpace([c] + s) == if c as int in {32, 9, 10, 13} then SkipSpace(s) else [c] + s
  {
    assert ([c] + s)[1..] == s;
  }

  lemma StringCharacters(c: char, s: string)
    requires c != '"'
    ensures c as int < 0x20 ==> ReadChar([c] + s) == None
    ensures ReadChar(['\\', c] + s).Some? ==> c in "\\/btnfru"
    ensures ReadChar("\\/" + s) == Some(('/', s))
  {
    assert ("\\/" + s)[2..] == s;
  }

  function FourHex(a: char, b: char, c: char, d: char): nat
    requires HexValue(a).Some? && HexValue(b).Some? && HexValue(c).Some? && HexValue(d).Some?
  {
    HexValue(a).value * 0x1000 + HexValue(b).value * 0x100 + HexValue(c).value * 0x10 + HexValue(d).value
  }

  lemma FourDigits(a: char, b: char, c: char, d: char, s: string)
    requires HexValue(a).Some? && HexValue(b).Some? && HexValue(c).Some? && HexValue(d).Some?
    ensures ReadHex4([a, b, c, d] + s) == Some((FourHex(a, b, c, d), s))
  {
    assert ([a, b, c, d] + s)[4..] == s;
  }

  // Hexadecimal digits of either case.
  lemma HexDigitsAre(d: nat)
    requires d < 16
    ensures HexValue("0123456789abcdef"[d]) == Some(d) && HexValue("0123456789ABCDEF"[d]) == Some(d)
    ensures HexValue('g') == None && HexValue('G') == None && HexValue('/') == None && HexValue(':') == None
  {
  }

  // One escape is one scalar unless it is half of a pair; a lone half is U+FFFD.
  lemma UnicodeEscapeIs(a: char, b: char, c: char, d: char, s: string)
    requires HexValue(a).Some? && HexValue(b).Some? && HexValue(c).Some? && HexValue(d).Some?
    requires |s| == 0 || s[0] != '\\'
    ensures var n := FourHex(a, b, c, d);
            ReadUnicodeEscape([a, b, c, d] + s) == Some(((if 0xD800 <= n < 0xE000 then 0xFFFD else n) as char, s))
  {
    FourDigits(a, b, c, d, s);
  }

  // A high and a low half are one scalar beyond U+FFFF.
  lemma SurrogatePairIs(s: string)
    ensures ReadUnicodeEscape("d83d\\ude00" + s) == Some((0x1F600 as char, s))
    ensures ReadUnicodeEscape("d83d\\u0041" + s) == Some((0xFFFD as char, "\\u0041" + s))
  {
    var low, other := "\\ude00" + s, "\\u0041" + s;
    assert "d83d\\ude00" + s == ['d', '8', '3', 'd'] + low && "d83d\\u0041" + s == ['d', '8', '3', 'd'] + other;
    FourDigits('d', '8', '3', 'd', low);
    FourDigits('d', '8', '3', 'd', other);
    assert low[2..] == ['d', 'e', '0', '0'] + s && other[2..] == ['0', '0', '4', '1'] + s;
    FourDigits('d', 'e', '0', '0', s);
    FourDigits('0', '0', '4', '1', s);
  }

  lemma NumberGrammar()
    ensures IsNumberLiteral("0") && IsNumberLiteral("-10") && IsNumberLiteral("1.5") && IsNumberLiteral("5e+1")
    ensures !IsNumberLiteral("") && !IsNumberLiteral("01") && !IsNumberLiteral("+1") && !IsNumberLiteral("1.")
    ensures !IsNumberLiteral(".5") && !IsNumberLiteral("1e") && !IsNumberLiteral("-")
  {
    assert SkipDigits("0") == "" && SkipDigits("5") == "" && SkipDigits("1") == "";
    assert "-10"[1..] == "10" && "10"[1..] == "0" && "1.5"[1..] == ".5" && ".5"[1..] == "5";
    assert SkipInt("1.5") == Some(".5") && SkipFrac(".5") == Some("") && SkipExp("") == Some("");
    assert "5e+1"[1..] == "e+1" && "e+1"[1..] == "+1" && "+1"[1..] == "1";
    assert SkipInt("5e+1") == Some("e+1") && SkipFrac("e+1") == Some("e+1") && SkipExp("e+1") == Some("");
  }

  lemma NoValueStartsSo(c: char, s: string)
    requires c == ']' || c == '}'
    ensures Read([c] + s) == None && ReadMember([c] + s) == None
  {
    SpaceIs(c, s);
    assert NumberPrefix([c] + s) == 0 && ([c] + s)[..0] == "";
  }

  // No comma before a closing bracket or brace.
  lemma NoTrailingComma(s: string)
    ensures ReadItems([','] + ("]" + s)) == None
    ensures ReadMembers([','] + ("}" + s)) == None
  {
    SpaceIs(',', "]" + s);
    SpaceIs(',', "}" + s);
    NoValueStartsSo(']', s);
    NoValueStartsSo('}', s);
    assert ([','] + ("]" + s))[1..] == "]" + s && ([','] + ("}" + s))[1..] == "}" + s;
  }

  // No other sign in place of a comma or a colon.
  lemma CommasAndColons(key: string, c: char, s: string)
    ensures c != ':' && !IsSpace(c) ==> ReadAfterKey(key, [c] + s) == None
    ensures c != ',' && c != ']' && !IsSpace(c) ==> ReadItems([c] + s) == None
    ensures c != ',' && c != '}' && !IsSpace(c) ==> ReadMembers([c] + s) == None
  {
    SpaceIs(c, s);
  }

  // A whole text is one value: anything but white space after it is refused.
  lemma NothingMayFollow(st: Style, d: Doc, rest: string)
    requires WellFormed(d) && IsGap(st.gap) && Delimited(rest)
    ensures ReadAll(Write(st, d) + rest) == if SkipSpace(rest) == "" then Some(d) else None
  {
    ReadWrite(st, d, rest);
  }
}
