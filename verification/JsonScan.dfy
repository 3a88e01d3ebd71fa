/** The scan that follows bracket depth through a model's answer to find the JSON value in it. */
module JsonScan {

  // ------------------------------------------------------------ JSON texts

  // A concrete syntax tree of RFC 8259: values with all the white space between their tokens.
  // A number or literal is kept as its text, which never holds a quote, bracket or comma.

  datatype Piece = Raw(c: char) | Escape(c: char, hex: string)

  datatype Json = Atom(text: string) | Text(pieces: seq<Piece>) | Array(items: Entries) | Object(members: Entries)

  datatype Entries = End(blank: string) | Entry(lead: string, key: Key, value: Json, trail: string, rest: Entries)

  datatype Key = NoKey | Key(pieces: seq<Piece>, before: string, after: string)

  /** Section 2 of RFC 8259. */
  predicate Blank(s: string) {
    forall k :: 0 <= k < |s| ==> BlankChar(s[k])
  }

  predicate BlankChar(c: char) {
    c == ' ' || c == '\t' || c == '\n' || c == '\r'
  }

  /** The characters of numbers (section 6) and of the three literal names (section 3), and a few more. */
  predicate AtomText(s: string) {
    forall k :: 0 <= k < |s| ==> AtomChar(s[k])
  }

  predicate AtomChar(c: char) {
    '0' <= c <= '9' || 'a' <= c <= 'z' || c == 'E' || c == '+' || c == '-' || c == '.'
  }

  /** Section 7: a raw character is neither quote nor backslash, an escape may be followed by four hex digits. */
  predicate ValidPiece(p: Piece) {
    match p
    case Raw(c) => c != '"' && c != '\\'
    case Escape(c, hex) => if c == 'u' then |hex| == 4 && HexDigits(hex) else EscapeChar(c) && hex == ""
  }

  predicate EscapeChar(c: char) {
    c == '"' || c == '\\' || c == '/' || c == 'b' || c == 'f' || c == 'n' || c == 'r' || c == 't'
  }

  predicate HexDigits(s: string) {
    forall k :: 0 <= k < |s| ==> '0' <= s[k] <= '9' || 'a' <= s[k] <= 'f' || 'A' <= s[k] <= 'F'
  }

  predicate ValidPieces(ps: seq<Piece>) {
    forall k :: 0 <= k < |ps| ==> ValidPiece(ps[k])
  }

  predicate Valid(v: Json) {
    match v
    case Atom(text) => AtomText(text)
    case Text(pieces) => ValidPieces(pieces)
    case Array(items) => ValidEntries(items, false)
    case Object(members) => ValidEntries(members, true)
  }

  predicate ValidEntries(es: Entries, keyed: bool) {
    match es
    case End(blank) => Blank(blank)
    case Entry(lead, key, value, trail, rest) =>
      Blank(lead) && ValidKey(key, keyed) && Valid(value) && Blank(trail) && ValidEntries(rest, keyed)
  }

  predicate ValidKey(key: Key, keyed: bool) {
    match key
    case NoKey => !keyed
    case Key(pieces, before, after) => keyed && ValidPieces(pieces) && Blank(before) && Blank(after)
  }

  function PrintPieces(ps: seq<Piece>): string {
    if ps == [] then "" else PrintPiece(ps[0]) + PrintPieces(ps[1..])
  }

  function PrintPiece(p: Piece): string {
    match p
    case Raw(c) => [c]
    case Escape(c, hex) => ['\\', c] + hex
  }

  function PrintText(ps: seq<Piece>): string {
    ['"'] + (PrintPieces(ps) + ['"'])
  }

  function PrintKey(key: Key): string {
    match key
    case NoKey => ""
    case Key(pieces, before, after) => PrintText(pieces) + (before + ([':'] + after))
  }

  function Print(v: Json): string {
    match v
    case Atom(text) => text
    case Text(pieces) => PrintText(pieces)
    case Array(items) => ['['] + (PrintEntries(items, true) + [']'])
    case Object(members) => ['{'] + (PrintEntries(members, true) + ['}'])
  }

  function PrintEntries(es: Entries, first: bool): string {
    match es
    case End(blank) => blank
    case Entry(lead, key, value, trail, rest) =>
      (if first then "" else ",") + (lead + (PrintKey(key) + (Print(value) + (trail + PrintEntries(rest, false)))))
  }

  // ------------------------------------------------------------ the scan

  predicate Bracket(c: char) {
    c == '[' || c == '{'
  }

  function Closing(open: char): char {
    if open == '{' then '}' else ']'
  }

  /** The position of the first opening bracket, -1 without one. */
  function Search(s: string): (start: int)
    ensures -1 <= start < |s|
    ensures if start < 0 then forall k :: 0 <= k < |s| ==> !Bracket(s[k])
            else Bracket(s[start]) && forall k :: 0 <= k < start ==> !Bracket(s[k])
  {
    if s == "" then -1
    else if Bracket(s[0]) then 0
    else var rest := Search(s[1..]); if rest < 0 then -1 else rest + 1
  }

  /** What the loop knows besides its position. */
  datatype State = State(depth: int, inString: bool, escaped: bool)

  /** The number of characters left behind the bracket that closes the scan, -1 if the text ends first. */
  function Scan(open: char, text: string, st: State): int
    decreases |text|
  {
    if text == "" then -1
    else if Closes(open, text[0], st) then |text| - 1
    else Scan(open, text[1..], Step(open, text[0], st))
  }

  predicate Closes(open: char, c: char, st: State) {
    !st.inString && c != '"' && c != open && c == Closing(open) && st.depth == 1
  }

  function Step(open: char, c: char, st: State): State {
    if st.inString then
      if st.escaped then st.(escaped := false)
      else if c == '\\' then st.(escaped := true)
      else if c == '"' then st.(inString := false)
      else st
    else if c == '"' then st.(inString := true)
    else if c == open then st.(depth := st.depth + 1)
    else if c == Closing(open) then st.(depth := st.depth - 1)
    else st
  }

  datatype Found = NoJson | Unterminated | Slice(start: nat, end: nat)

  /** Which part of the candidate the scan hands to the JSON parser. */
  function Locate(s: string): Found {
    var start := Search(s);
    if start < 0 then NoJson
    else
      var left := Scan(s[start], s[start..], State(0, false, false));
      if left < 0 || left > |s| then Unterminated else Slice(start, |s| - left)
  }

  method SearchLoop(s: string) returns (start: int)
    ensures start == Search(s)
  {
    start := 0;
    while start < |s|
      invariant 0 <= start <= |s| && forall k :: 0 <= k < start ==> !Bracket(s[k])
    {
      if Bracket(s[start]) { return; }
      start := start + 1;
    }
    start := -1;
  }

  lemma ScanStep(open: char, s: string, i: int, st: State)
    requires 0 <= i < |s|
    ensures Scan(open, s[i..], st) ==
            if Closes(open, s[i], st) then |s| - i - 1 else Scan(open, s[i + 1..], Step(open, s[i], st))
  {
    assert s[i..][0] == s[i] && s[i..][1..] == s[i + 1..];
  }

  /** The loop as written. */
  method ExtractSlice(candidate: string) returns (found: Found)
    ensures found == Locate(candidate)
  {
    var start := SearchLoop(candidate);
    if start == -1 { return NoJson; }
    var open := candidate[start];
    var close := if open == '{' then '}' else ']';
    var depth := 0;
    var inString := false;
    var escaped := false;
    for i := start to |candidate|
      invariant Scan(open, candidate[start..], State(0, false, false)) ==
                Scan(open, candidate[i..], State(depth, inString, escaped))
    {
      var c := candidate[i];
      ScanStep(open, candidate, i, State(depth, inString, escaped));
      if inString {
        if escaped { escaped := false; }
        else if c == '\\' { escaped := true; }
        else if c == '"' { inString := false; }
        continue;
      }
      if c == '"' {
        inString := true;
      } else if c == open {
        depth := depth + 1;
      } else if c == close {
        depth := depth - 1;
        if depth == 0 { return Slice(start, i + 1); }
      }
    }
    found := Unterminated;
  }

  // ------------------------------------------------------------ what is passed over

  /** A scan through `part` that neither ends nor changes the state. */
  ghost predicate Passes(open: char, part: string, rest: string, st: State) {
    Scan(open, part + rest, st) == Scan(open, rest, st)
  }

  /** One character. */
  lemma ScanChar(open: char, c: char, rest: string, st: State)
    ensures Scan(open, [c] + rest, st) == if Closes(open, c, st) then |rest| else Scan(open, rest, Step(open, c, st))
  {
    assert ([c] + rest)[1..] == rest;
  }

  /** Characters that mean nothing in a state are passed over. */
  lemma {:induction false} PassDull(open: char, part: string, rest: string, st: State)
    requires forall k :: 0 <= k < |part| ==> !Closes(open, part[k], st) && Step(open, part[k], st) == st
    ensures Passes(open, part, rest, st)
  {
    if part == "" {
      assert part + rest == rest;
    } else {
      ScanChar(open, part[0], part[1..] + rest, st);
      assert part + rest == [part[0]] + (part[1..] + rest);
      PassDull(open, part[1..], rest, st);
    }
  }

  lemma PassPair(open: char, a: string, b: string, rest: string, st: State)
    requires Passes(open, a, b + rest, st) && Passes(open, b, rest, st)
    ensures Passes(open, a + b, rest, st)
  {
    assert (a + b) + rest == a + (b + rest);
  }

  predicate Outside(open: char, st: State) {
    Bracket(open) && !st.inString && !st.escaped && st.depth >= 1
  }

  lemma PassBlank(open: char, s: string, rest: string, st: State)
    requires Outside(open, st) && (Blank(s) || AtomText(s) || s == "," || s == ":")
    ensures Passes(open, s, rest, st)
  {
    PassDull(open, s, rest, st);
  }

  /** A string is passed over whatever brackets and escaped quotes it holds. */
  lemma PassText(open: char, ps: seq<Piece>, rest: string, st: State)
    requires Outside(open, st) && ValidPieces(ps)
    ensures Passes(open, PrintText(ps), rest, st)
  {
    var inside := st.(inString := true);
    var body := PrintPieces(ps);
    assert PrintText(ps) + rest == ['"'] + (body + (['"'] + rest));
    ScanChar(open, '"', body + (['"'] + rest), st);
    PassPieces(open, ps, ['"'] + rest, inside);
    ScanChar(open, '"', rest, inside);
  }

  lemma {:induction false} PassPieces(open: char, ps: seq<Piece>, rest: string, inside: State)
    requires ValidPieces(ps) && inside.inString && !inside.escaped
    ensures Passes(open, PrintPieces(ps), rest, inside)
  {
    if ps == [] {
      assert PrintPieces(ps) + rest == rest;
    } else {
      PassPiece(open, ps[0], PrintPieces(ps[1..]) + rest, inside);
      PassPieces(open, ps[1..], rest, inside);
      PassPair(open, PrintPiece(ps[0]), PrintPieces(ps[1..]), rest, inside);
    }
  }

  lemma PassPiece(open: char, p: Piece, rest: string, inside: State)
    requires ValidPiece(p) && inside.inString && !inside.escaped
    ensures Passes(open, PrintPiece(p), rest, inside)
  {
    match p
    case Raw(c) =>
      ScanChar(open, c, rest, inside);
    case Escape(c, hex) =>
      assert PrintPiece(p) + rest == ['\\'] + ([c] + (hex + rest));
      ScanChar(open, '\\', [c] + (hex + rest), inside);
      ScanChar(open, c, hex + rest, inside.(escaped := true));
      PassDull(open, hex, rest, inside);
  }

  lemma PassKey(open: char, key: Key, keyed: bool, rest: string, st: State)
    requires Outside(open, st) && ValidKey(key, keyed)
    ensures Passes(open, PrintKey(key), rest, st)
  {
    match key
    case NoKey =>
      assert PrintKey(key) + rest == rest;
    case Key(pieces, before, after) =>
      PassBlank(open, after, rest, st);
      PassBlank(open, ":", after + rest, st);
      PassPair(open, ":", after, rest, st);
      PassBlank(open, before, ([':'] + after) + rest, st);
      PassPair(open, before, [':'] + after, rest, st);
      PassText(open, pieces, (before + ([':'] + after)) + rest, st);
      PassPair(open, PrintText(pieces), before + ([':'] + after), rest, st);
  }

  /** Brackets of the counted kind balance; the other kind is not looked at. */
  lemma PassBrackets(open: char, o: char, c: char, body: string, rest: string, st: State)
    requires Outside(open, st) && Bracket(o) && c == Closing(o)
    requires Passes(open, body, [c] + rest, if o == open then st.(depth := st.depth + 1) else st)
    ensures Passes(open, [o] + (body + [c]), rest, st)
  {
    var inner := if o == open then st.(depth := st.depth + 1) else st;
    assert ([o] + (body + [c])) + rest == [o] + (body + ([c] + rest));
    ScanChar(open, o, body + ([c] + rest), st);
    ScanChar(open, c, rest, inner);
  }

  /** Inside an open bracket every value is passed over and leaves the depth as it was. */
  lemma {:induction false} PassValue(open: char, v: Json, rest: string, st: State)
    requires Outside(open, st) && Valid(v)
    ensures Passes(open, Print(v), rest, st)
    decreases v, 1
  {
    match v
    case Atom(text) =>
      PassBlank(open, text, rest, st);
    case Text(pieces) =>
      PassText(open, pieces, rest, st);
    case Array(items) =>
      PassEntries(open, items, false, true, [']'] + rest, if '[' == open then st.(depth := st.depth + 1) else st);
      PassBrackets(open, '[', ']', PrintEntries(items, true), rest, st);
    case Object(members) =>
      PassEntries(open, members, true, true, ['}'] + rest, if '{' == open then st.(depth := st.depth + 1) else st);
      PassBrackets(open, '{', '}', PrintEntries(members, true), rest, st);
  }

  lemma {:induction false} PassEntries(open: char, es: Entries, keyed: bool, first: bool, rest: string, st: State)
    requires Outside(open, st) && ValidEntries(es, keyed)
    ensures Passes(open, PrintEntries(es, first), rest, st)
    decreases es, 0
  {
    match es
    case End(blank) =>
      PassBlank(open, blank, rest, st);
    case Entry(lead, key, value, trail, more) =>
      var e5 := PrintEntries(more, false);
      var e4 := trail + e5;
      var e3 := Print(value) + e4;
      var e2 := PrintKey(key) + e3;
      var e1 := lead + e2;
      var comma := if first then "" else ",";
      PassEntries(open, more, keyed, false, rest, st);
      PassBlank(open, trail, e5 + rest, st);
      PassPair(open, trail, e5, rest, st);
      PassValue(open, value, e4 + rest, st);
      PassPair(open, Print(value), e4, rest, st);
      PassKey(open, key, keyed, e3 + rest, st);
      PassPair(open, PrintKey(key), e3, rest, st);
      PassBlank(open, lead, e2 + rest, st);
      PassPair(open, lead, e2, rest, st);
      PassBlank(open, comma, e1 + rest, st);
      PassPair(open, comma, e1, rest, st);
  }

  // ------------------------------------------------------------ the theorem

  predicate Container(v: Json) {
    v.Array? || v.Object?
  }

  lemma Regroup(a: string, b: string, c: string, d: string)
    ensures a + (b + c) + d == a + (b + (c + d))
  {
  }

  /** From its opening bracket on, the scan of a list of entries ends at the bracket that closes it. */
  lemma ListEnds(open: char, es: Entries, keyed: bool, suffix: string)
    requires Bracket(open) && ValidEntries(es, keyed)
    ensures Scan(open, [open] + (PrintEntries(es, true) + [Closing(open)]) + suffix, State(0, false, false)) == |suffix|
  {
    var body := PrintEntries(es, true);
    PassEntries(open, es, keyed, true, [Closing(open)] + suffix, State(1, false, false));
    EndAtDepthOne(open, body, suffix);
    Regroup([open], body, [Closing(open)], suffix);
  }

  lemma EndAtDepthOne(open: char, body: string, suffix: string)
    requires Bracket(open) && Passes(open, body, [Closing(open)] + suffix, State(1, false, false))
    ensures Scan(open, [open] + (body + ([Closing(open)] + suffix)), State(0, false, false)) == |suffix|
  {
    ScanChar(open, open, body + ([Closing(open)] + suffix), State(0, false, false));
    ScanChar(open, Closing(open), suffix, State(1, false, false));
  }

  /** Counting one kind of bracket finds the end of the value. */
  lemma ScanFindsEnd(v: Json, suffix: string)
    requires Valid(v) && Container(v)
    ensures Scan(Print(v)[0], Print(v) + suffix, State(0, false, false)) == |suffix|
  {
    match v
    case Array(items) => ListEnds('[', items, false, suffix);
    case Object(members) => ListEnds('{', members, true, suffix);
  }

  predicate NoBracket(s: string) {
    forall k :: 0 <= k < |s| ==> !Bracket(s[k])
  }

  /** The scan cuts out exactly the printed value, whatever follows it, if and only if no bracket precedes it. */
  lemma LocatesValue(prefix: string, v: Json, suffix: string)
    requires Valid(v) && Container(v)
    ensures (Locate(prefix + Print(v) + suffix) == Slice(|prefix|, |prefix| + |Print(v)|)) <==> NoBracket(prefix)
  {
    var s := prefix + Print(v) + suffix;
    assert s[|prefix|] == Print(v)[0];
    assert forall k :: 0 <= k < |prefix| ==> s[k] == prefix[k];
    if NoBracket(prefix) {
      assert Search(s) == |prefix|;
      assert s[|prefix|..] == Print(v) + suffix;
      ScanFindsEnd(v, suffix);
    }
  }

  /** What is cut out of any text begins and ends with matching brackets and lies in the text. */
  lemma SliceShape(s: string)
    requires Locate(s).Slice?
    ensures var f := Locate(s);
      0 <= f.start < f.end <= |s| && Bracket(s[f.start]) && s[f.end - 1] == Closing(s[f.start]) && NoBracket(s[..f.start])
  {
    var start := Search(s);
    ScanEndsAtClosing(s[start], s[start..], State(0, false, false));
  }

  lemma {:induction false} ScanEndsAtClosing(open: char, text: string, st: State)
    ensures var left := Scan(open, text, st);
      -1 <= left && (left >= 0 ==> left < |text| && text[|text| - 1 - left] == Closing(open))
    decreases |text|
  {
    if text != "" && !Closes(open, text[0], st) {
      ScanEndsAtClosing(open, text[1..], Step(open, text[0], st));
    }
  }

  // ------------------------------------------------------------ what the texts look like

  function Raws(s: string): (ps: seq<Piece>)
    ensures |ps| == |s| && forall k :: 0 <= k < |s| ==> ps[k] == Raw(s[k])
  {
    seq(|s|, k requires 0 <= k < |s| => Raw(s[k]))
  }

  /** Any text without quotes and backslashes is a string between quotes, whatever brackets it holds. */
  lemma {:induction false} RawText(s: string)
    requires '"' !in s && '\\' !in s
    ensures Valid(Text(Raws(s))) && Print(Text(Raws(s))) == ['"'] + s + ['"']
  {
    RawPieces(s);
  }

  lemma {:induction false} RawPieces(s: string)
    ensures PrintPieces(Raws(s)) == s
  {
    if s != "" {
      RawPieces(s[1..]);
      assert Raws(s)[1..] == Raws(s[1..]);
    }
  }

  /** A string that holds a bracket, a code point and a quote. */
  lemma ExampleText() returns (t: Json)
    ensures Valid(t) && Print(t) == "\"]\\u00Ff\\\"\""
  {
    var rest := [Escape('u', "00Ff"), Escape('"', "")];
    t := Text([Raw(']')] + rest);
    assert ([Raw(']')] + rest)[1..] == rest && rest[1..] == [Escape('"', "")] && [Escape('"', "")][1..] == [];
    assert PrintPieces([Escape('"', "")]) == "\\\"";
    assert PrintPieces(rest) == "\\u00Ff\\\"";
  }

  lemma LastItem(v: Json, text: string, first: bool)
    requires Valid(v) && Print(v) == text
    ensures var e := Entry("", NoKey, v, "\n", End(""));
      ValidEntries(e, false) && PrintEntries(e, first) == (if first then "" else ",") + text + "\n"
  {
  }

  lemma FirstItem(v: Json, rest: Entries, x: string)
    requires Print(v) == x
    ensures PrintEntries(Entry("", NoKey, v, "", rest), true) == x + PrintEntries(rest, false)
  {
  }

  lemma Framed(x: string, y: string)
    ensures ['['] + ((x + ("," + y + "\n")) + [']']) == "[" + x + "," + y + "\n]"
  {
  }

  /** A list of two values. */
  lemma TwoItems(v: Json, w: Json, x: string, y: string)
    requires Valid(v) && Valid(w) && Print(v) == x && Print(w) == y
    ensures var l := Array(Entry("", NoKey, v, "", Entry("", NoKey, w, "\n", End(""))));
      Valid(l) && Container(l) && Print(l) == "[" + x + "," + y + "\n]"
  {
    var last := Entry("", NoKey, w, "\n", End(""));
    LastItem(w, y, false);
    FirstItem(v, last, x);
    Framed(x, y);
  }

  /** An object with one member, with blanks around its key. */
  lemma OneMember(v: Json, text: string)
    requires Valid(v) && Print(v) == text
    ensures var o := Object(Entry(" ", Key([Raw('a')], " ", ""), v, "", End("")));
      Valid(o) && Container(o) && Print(o) == "{ \"a\" :" + text + "}"
  {
    var e := Entry(" ", Key([Raw('a')], " ", ""), v, "", End(""));
    assert [Raw('a')][1..] == [] && PrintPieces([Raw('a')]) == "a";
    assert PrintKey(e.key) == "\"a\" :";
    assert PrintEntries(e, true) == " \"a\" :" + text;
  }
}
