/** The string operations the codec, the harness and the comparator rely on. */
module Text {

  /** The characters matched by \s. */
  predicate IsSpace(c: char) {
    c == ' ' || '\t' <= c <= '\r' || c == '\U{00A0}' || c == '\U{1680}' || '\U{2000}' <= c <= '\U{200A}' ||
    c == '\U{2028}' || c == '\U{2029}' || c == '\U{202F}' || c == '\U{205F}' || c == '\U{3000}' || c == '\U{FEFF}'
  }

  /** They are 25 in all. */
  lemma SpaceExactly(c: char)
    ensures IsSpace(c) <==>
      c in {'\t', '\n', '\U{000B}', '\U{000C}', '\r', ' ', '\U{00A0}', '\U{1680}', '\U{2000}', '\U{2001}', '\U{2002}',
            '\U{2003}', '\U{2004}', '\U{2005}', '\U{2006}', '\U{2007}', '\U{2008}', '\U{2009}', '\U{200A}', '\U{2028}',
            '\U{2029}', '\U{202F}', '\U{205F}', '\U{3000}', '\U{FEFF}'}
  {
  }

  predicate IsNewline(c: char) {
    c == '\n'
  }

  ghost predicate Free(s: string, p: char -> bool) {
    forall i :: 0 <= i < |s| ==> !p(s[i])
  }

  /** A non-empty text without white space. */
  ghost predicate IsWord(s: string) {
    s != "" && Free(s, IsSpace)
  }

  /** The pieces between separator characters; always at least one. */
  function Split(s: string, p: char -> bool): (r: seq<string>)
    ensures |r| > 0
  {
    if s == "" then [""]
    else
      var r := Split(s[1..], p);
      if p(s[0]) then [""] + r else [[s[0]] + r[0]] + r[1..]
  }

  function Join(ws: seq<string>, sep: char): string {
    if ws == [] then ""
    else if |ws| == 1 then ws[0]
    else ws[0] + [sep] + Join(ws[1..], sep)
  }

  lemma {:induction false} SplitFree(w: string, p: char -> bool)
    requires Free(w, p)
    ensures Split(w, p) == [w]
  {
    if w != "" {
      SplitFree(w[1..], p);
      assert [w[0]] + w[1..] == w;
    }
  }

  lemma {:induction false} SplitFirst(w: string, c: char, rest: string, p: char -> bool)
    requires Free(w, p) && p(c)
    ensures Split(w + [c] + rest, p) == [w] + Split(rest, p)
  {
    var s := w + [c] + rest;
    if w == "" {
      assert s[1..] == rest;
    } else {
      assert s[1..] == w[1..] + [c] + rest;
      SplitFirst(w[1..], c, rest, p);
      assert [w[0]] + w[1..] == w;
    }
  }

  /** Splitting undoes joining when no piece contains a separator. */
  lemma {:induction false} SplitJoin(ws: seq<string>, sep: char, p: char -> bool)
    requires |ws| > 0 && p(sep) && forall i :: 0 <= i < |ws| ==> Free(ws[i], p)
    ensures Split(Join(ws, sep), p) == ws
  {
    if |ws| == 1 {
      SplitFree(ws[0], p);
    } else {
      SplitFirst(ws[0], sep, Join(ws[1..], sep), p);
      SplitJoin(ws[1..], sep, p);
    }
  }

  function NonEmpty(ws: seq<string>): seq<string> {
    if ws == [] then []
    else (if ws[0] == "" then [] else [ws[0]]) + NonEmpty(ws[1..])
  }

  /** Splitting on white space and dropping empty pieces. */
  function Words(s: string): seq<string> {
    NonEmpty(Split(s, IsSpace))
  }

  lemma {:induction false} NonEmptySame(ws: seq<string>)
    requires forall i :: 0 <= i < |ws| ==> ws[i] != ""
    ensures NonEmpty(ws) == ws
  {
    if ws != [] {
      NonEmptySame(ws[1..]);
    }
  }

  lemma WordsJoin(ws: seq<string>)
    requires forall i :: 0 <= i < |ws| ==> IsWord(ws[i])
    ensures Words(Join(ws, ' ')) == ws
  {
    if ws == [] {
      assert NonEmpty([""]) == NonEmpty([""][1..]);
    } else {
      SplitJoin(ws, ' ', IsSpace);
      NonEmptySame(ws);
    }
  }

  lemma {:induction false} PiecesFree(s: string, p: char -> bool)
    ensures forall i :: 0 <= i < |Split(s, p)| ==> Free(Split(s, p)[i], p)
  {
    if s != "" { PiecesFree(s[1..], p); }
  }

  lemma {:induction false} NonEmptyOnly(ws: seq<string>)
    ensures forall i :: 0 <= i < |NonEmpty(ws)| ==> NonEmpty(ws)[i] != "" && NonEmpty(ws)[i] in ws
  {
    if ws != [] { NonEmptyOnly(ws[1..]); }
  }

  /** What is left are words. */
  lemma WordsAreWords(s: string)
    ensures forall i :: 0 <= i < |Words(s)| ==> IsWord(Words(s)[i])
  {
    PiecesFree(s, IsSpace);
    NonEmptyOnly(Split(s, IsSpace));
  }

  // ------------------------------------------------------------ trimming

  function TrimStart(s: string): string {
    if s != "" && IsSpace(s[0]) then TrimStart(s[1..]) else s
  }

  function TrimEnd(s: string): string {
    if s != "" && IsSpace(s[|s| - 1]) then TrimEnd(s[..|s| - 1]) else s
  }

  ghost predicate IsTrimmed(t: string, s: string) {
    t <= s && (t == "" || !IsSpace(t[|t| - 1])) && forall i :: |t| <= i < |s| ==> IsSpace(s[i])
  }

  lemma {:induction false} TrimEndTrims(s: string)
    ensures IsTrimmed(TrimEnd(s), s)
  {
    if s != "" && IsSpace(s[|s| - 1]) {
      TrimEndTrims(s[..|s| - 1]);
    }
  }

  function Trim(s: string): string {
    TrimEnd(TrimStart(s))
  }

  /** Removes one carriage return at the end of a line. */
  function StripCR(s: string): string {
    if s != "" && s[|s| - 1] == '\r' then s[..|s| - 1] else s
  }

  /** A line ends in LF or in CR LF, and reads the same. */
  lemma StripCRExactly(s: string)
    ensures StripCR(s + "\r") == s
    ensures '\r' !in s ==> StripCR(s) == s
  {
    assert (s + "\r")[..|s|] == s;
  }

  lemma TrimWord(s: string)
    requires IsWord(s)
    ensures Trim(s) == s && TrimEnd(s) == s && StripCR(s) == s
  {
    assert !IsSpace(s[0]) && !IsSpace(s[|s| - 1]);
  }

  /** A joined row of words neither starts nor ends with white space. */
  lemma {:induction false} JoinTidy(ws: seq<string>)
    requires forall i :: 0 <= i < |ws| ==> IsWord(ws[i])
    ensures TrimEnd(Join(ws, ' ')) == Join(ws, ' ')
    ensures ws != [] ==> Join(ws, ' ') != "" && !IsSpace(Join(ws, ' ')[|Join(ws, ' ')| - 1])
  {
    if |ws| > 1 {
      JoinTidy(ws[1..]);
      var rest := Join(ws[1..], ' ');
      assert Join(ws, ' ')[|Join(ws, ' ')| - 1] == rest[|rest| - 1];
    }
  }

  lemma {:induction false} JoinFree(ws: seq<string>, sep: char, p: char -> bool)
    requires !p(sep) && forall i :: 0 <= i < |ws| ==> Free(ws[i], p)
    ensures Free(Join(ws, sep), p)
  {
    if |ws| > 1 {
      JoinFree(ws[1..], sep, p);
    }
  }
}
