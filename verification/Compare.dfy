/** The judge's comparison of a program's output with the expected output. */
module Compare {
  import opened Text
  import opened Decimal
  import opened Codec
  import opened Sorting
  import RoundTrip
  import LevelOrder

  /** How outputs are compared; the tolerance comparator for floats is not part of this model. */
  datatype Comparator = Exact | Unordered(sortInner: bool)

  // ------------------------------------------------------------ normalisation

  /** Every carriage return, with the line feed that may follow it, becomes one line feed. */
  function Newlines(s: string): string
    decreases |s|
  {
    if s == "" then ""
    else if s[0] == '\r' then ['\n'] + Newlines(if |s| > 1 && s[1] == '\n' then s[2..] else s[1..])
    else [s[0]] + Newlines(s[1..])
  }

  function PopBlank(lines: seq<string>): seq<string> {
    if lines != [] && lines[|lines| - 1] == "" then PopBlank(lines[..|lines| - 1]) else lines
  }

  function Normalize(text: string): seq<string> {
    PopBlank(Image(TrimEnd, Split(Newlines(text), IsNewline)))
  }

  method NormalizeOutput(text: string) returns (lines: seq<string>)
    ensures lines == Normalize(text)
  {
    lines := Image(TrimEnd, Split(Newlines(text), IsNewline));
    while |lines| > 0 && lines[|lines| - 1] == ""
      invariant PopBlank(lines) == Normalize(text)
    {
      lines := lines[..|lines| - 1];
    }
  }

  // ------------------------------------------------------------ canonical forms

  function LineOr(lines: seq<string>, i: nat, default: string): string {
    if i < |lines| then lines[i] else default
  }

  function SortedWords(line: string): string {
    Join(Sort(Words(line), StrLe), ' ')
  }

  function RowKey(row: string, inner: bool): string {
    if inner then SortedWords(row) else row
  }

  function RowCount(lines: seq<string>): nat {
    var n := ParseInt(LineOr(lines, 0, "0"));
    if n.Int? && n.n > 0 then n.n else 0
  }

  function Rows(lines: seq<string>, count: nat, inner: bool): (r: seq<string>)
    ensures |r| == count && forall i :: 0 <= i < count ==> r[i] == RowKey(LineOr(lines, i + 1, ""), inner)
  {
    seq(count, i requires 0 <= i < count => RowKey(LineOr(lines, i + 1, ""), inner))
  }

  function From(lines: seq<string>, k: nat): seq<string> {
    if k <= |lines| then lines[k..] else []
  }

  function CanonicalRows(lines: seq<string>, inner: bool): seq<string> {
    [NumberText(ParseInt(LineOr(lines, 0, "0")))] + Sort(Rows(lines, RowCount(lines), inner), StrLe)
      + From(lines, RowCount(lines) + 1)
  }

  /** The form in which unordered outputs are compared. */
  function CanonicalForm(lines: seq<string>, ty: ValueType, sortInner: bool): seq<string> {
    match ty
    case IntArrayT | ListT => [SortedWords(LineOr(lines, 0, ""))]
    case IntMatrixT => CanonicalRows(lines, sortInner)
    case StringArrayT => CanonicalRows(lines, false)
    case _ => lines
  }

  /** The loop that collects the declared number of rows. */
  method CollectRows(lines: seq<string>, count: Decimal.Number, inner: bool) returns (rows: seq<string>)
    ensures rows == Rows(lines, if count.Int? && count.n > 0 then count.n else 0, inner)
  {
    rows := [];
    var i := 0;
    while count.Int? && i < count.n
      invariant 0 <= i && (i > 0 ==> count.Int? && i <= count.n)
      invariant rows == Rows(lines, i, inner)
    {
      var row := LineOr(lines, i + 1, "");
      rows := rows + [RowKey(row, inner)];
      i := i + 1;
    }
  }

  method CanonicalUnordered(lines: seq<string>, ty: ValueType, sortInner: bool) returns (r: seq<string>)
    ensures r == CanonicalForm(lines, ty, sortInner)
  {
    if ty.IntArrayT? || ty.ListT? {
      return [SortedWords(LineOr(lines, 0, ""))];
    }
    if ty.IntMatrixT? || ty.StringArrayT? {
      var count := ParseInt(LineOr(lines, 0, "0"));
      var rows := CollectRows(lines, count, sortInner && ty.IntMatrixT?);
      return [NumberText(count)] + Sort(rows, StrLe) + From(lines, |rows| + 1);
    }
    return lines;
  }

  function Prepared(text: string, cmp: Comparator, ty: ValueType): seq<string> {
    if cmp.Unordered? then CanonicalForm(Normalize(text), ty, cmp.sortInner) else Normalize(text)
  }

  /** The verdict: same number of lines and equal line by line. */
  method OutputsMatch(actual: string, expected: string, cmp: Comparator, ty: ValueType) returns (ok: bool)
    ensures ok <==> Prepared(actual, cmp, ty) == Prepared(expected, cmp, ty)
  {
    var left := NormalizeOutput(actual);
    var right := NormalizeOutput(expected);
    if cmp.Unordered? {
      left := CanonicalUnordered(left, ty, cmp.sortInner);
      right := CanonicalUnordered(right, ty, cmp.sortInner);
    }
    ok := |left| == |right| && forall i :: 0 <= i < |left| ==> left[i] == right[i];
  }

  // ------------------------------------------------------------ blank lines

  lemma {:induction false} PopBlankSpec(a: seq<string>)
    ensures PopBlank(a) <= a && forall i :: |PopBlank(a)| <= i < |a| ==> a[i] == ""
    ensures PopBlank(a) == [] || PopBlank(a)[|PopBlank(a)| - 1] != ""
  {
    if a != [] && a[|a| - 1] == "" {
      PopBlankSpec(a[..|a| - 1]);
    }
  }

  /** A removed line reads as the empty line it was. */
  lemma PoppedLine(a: seq<string>, i: nat)
    requires i < |a|
    ensures LineOr(PopBlank(a), i, "") == a[i]
  {
    PopBlankSpec(a);
  }

  lemma PopBlankSame(a: seq<string>, b: seq<string>)
    requires |a| == |b|
    ensures PopBlank(a) == PopBlank(b) <==> a == b
  {
    if PopBlank(a) == PopBlank(b) {
      forall i | 0 <= i < |a|
        ensures a[i] == b[i]
      {
        PoppedLine(a, i);
        PoppedLine(b, i);
      }
    }
  }

  lemma PopBlankHead(c: string, rows: seq<string>)
    requires c != ""
    ensures PopBlank([c] + rows) != [] && PopBlank([c] + rows)[0] == c
  {
    PopBlankSpec([c] + rows);
    assert ([c] + rows)[0] == c;
  }

  lemma IntTextNotBlank(n: int)
    ensures IntText(n) != ""
  {
    ParsePrinted(n);
  }

  /** With the count line in front, dropping blank rows at the end loses nothing. */
  lemma CountedRowsSame(a: seq<string>, b: seq<string>)
    ensures PopBlank([IntText(|a|)] + a) == PopBlank([IntText(|b|)] + b) <==> a == b
  {
    var x, y := [IntText(|a|)] + a, [IntText(|b|)] + b;
    IntTextNotBlank(|a|);
    IntTextNotBlank(|b|);
    PopBlankHead(IntText(|a|), a);
    PopBlankHead(IntText(|b|), b);
    if PopBlank(x) == PopBlank(y) {
      IntTextInjective(|a|, |b|);
      PopBlankSame(x, y);
      assert a == x[1..] && b == y[1..];
    }
  }

  // ------------------------------------------------------------ normalising any text

  predicate LineEnd(e: string) {
    e == "\n" || e == "\r\n" || e == "\r"
  }

  /** Raw lines with a line end behind each but the last. */
  function Render(raw: seq<string>, ends: seq<string>): string
    requires |raw| == |ends| + 1
  {
    if ends == [] then raw[0] else raw[0] + ends[0] + Render(raw[1..], ends[1..])
  }

  /** The lines hold no line breaks, and no carriage return that ends a line meets a line feed behind it. */
  ghost predicate Layout(raw: seq<string>, ends: seq<string>) {
    |raw| == |ends| + 1 && SingleLine(raw[0]) &&
    (ends != [] ==>
      LineEnd(ends[0]) && Layout(raw[1..], ends[1..]) &&
      (ends[0] == "\r" ==> !(['\n'] <= Render(raw[1..], ends[1..]))))
  }

  lemma {:induction false} NewlinesOver(w: string, x: string)
    requires SingleLine(w)
    ensures Newlines(w + x) == w + Newlines(x)
  {
    if w == "" {
      assert w + x == x;
    } else {
      assert (w + x)[1..] == w[1..] + x;
      NewlinesOver(w[1..], x);
    }
  }

  lemma NewlinesEnd(e: string, x: string)
    requires LineEnd(e) && (e == "\r" ==> !(['\n'] <= x))
    ensures Newlines(e + x) == "\n" + Newlines(x)
  {
    var s := e + x;
    if e == "\r\n" {
      assert s[2..] == x;
    } else {
      assert s[1..] == x;
    }
  }

  lemma NewlinesOfLine(w: string, e: string, rest: string)
    requires SingleLine(w) && LineEnd(e) && (e == "\r" ==> !(['\n'] <= rest))
    ensures Newlines(w + e + rest) == w + ['\n'] + Newlines(rest)
  {
    NewlinesOver(w, e + rest);
    NewlinesEnd(e, rest);
    assert w + e + rest == w + (e + rest);
    assert w + ("\n" + Newlines(rest)) == w + ['\n'] + Newlines(rest);
  }

  /** Whatever line ends a text uses, normalising it yields its lines joined by line feeds. */
  lemma {:induction false} NewlinesOfLayout(raw: seq<string>, ends: seq<string>)
    requires Layout(raw, ends)
    ensures Newlines(Render(raw, ends)) == Join(raw, '\n')
  {
    if ends == [] {
      NewlinesOver(raw[0], "");
      assert raw[0] + "" == raw[0];
    } else {
      NewlinesOfLayout(raw[1..], ends[1..]);
      NewlinesOfLine(raw[0], ends[0], Render(raw[1..], ends[1..]));
    }
  }

  lemma {:induction false} LayoutSingle(raw: seq<string>, ends: seq<string>)
    requires Layout(raw, ends)
    ensures forall i :: 0 <= i < |raw| ==> SingleLine(raw[i]) && Free(raw[i], IsNewline)
  {
    if ends != [] { LayoutSingle(raw[1..], ends[1..]); }
  }

  /** The normalised lines of any text: its raw lines, whatever the line ends, each without the white space at its end, and
      without the blank ones at the end of the text. */
  lemma NormalizeLayout(raw: seq<string>, ends: seq<string>)
    requires Layout(raw, ends)
    ensures var lines, kept := Image(TrimEnd, raw), Normalize(Render(raw, ends));
      (forall i :: 0 <= i < |raw| ==> IsTrimmed(lines[i], raw[i])) &&
      kept <= lines && (forall i :: |kept| <= i < |lines| ==> lines[i] == "") && (kept == [] || kept[|kept| - 1] != "")
  {
    NormalizeRaw(raw, ends);
    PopBlankSpec(Image(TrimEnd, raw));
    AllTrimmed(raw);
  }

  lemma AllTrimmed(raw: seq<string>)
    ensures forall i :: 0 <= i < |raw| ==> IsTrimmed(Image(TrimEnd, raw)[i], raw[i])
  {
    forall i | 0 <= i < |raw| ensures IsTrimmed(TrimEnd(raw[i]), raw[i]) { TrimEndTrims(raw[i]); }
  }

  lemma NormalizeRaw(raw: seq<string>, ends: seq<string>)
    requires Layout(raw, ends)
    ensures Normalize(Render(raw, ends)) == PopBlank(Image(TrimEnd, raw))
  {
    NewlinesOfLayout(raw, ends);
    LayoutSingle(raw, ends);
    SplitJoin(raw, '\n', IsNewline);
  }

  /** Every text has such a layout. */
  lemma {:induction false} EveryTextHasLayout(text: string) returns (raw: seq<string>, ends: seq<string>)
    ensures Layout(raw, ends) && text == Render(raw, ends)
  {
    if text == "" {
      raw, ends := [""], [];
    } else if text[0] == '\n' {
      raw, ends := EveryTextHasLayout(text[1..]);
      LayoutCons("\n", raw, ends, text);
      raw, ends := [""] + raw, ["\n"] + ends;
    } else if text[0] == '\r' && |text| > 1 && text[1] == '\n' {
      raw, ends := EveryTextHasLayout(text[2..]);
      LayoutCons("\r\n", raw, ends, text);
      raw, ends := [""] + raw, ["\r\n"] + ends;
    } else if text[0] == '\r' {
      raw, ends := EveryTextHasLayout(text[1..]);
      LayoutCons("\r", raw, ends, text);
      raw, ends := [""] + raw, ["\r"] + ends;
    } else {
      raw, ends := EveryTextHasLayout(text[1..]);
      LayoutChar(text[0], raw, ends, text);
      raw := [[text[0]] + raw[0]] + raw[1..];
    }
  }

  lemma LayoutCons(e: string, raw: seq<string>, ends: seq<string>, text: string)
    requires LineEnd(e) && Layout(raw, ends) && text == e + Render(raw, ends)
    requires e == "\r" ==> !(['\n'] <= Render(raw, ends))
    ensures Layout([""] + raw, [e] + ends) && Render([""] + raw, [e] + ends) == text
  {
    assert ([""] + raw)[1..] == raw && ([e] + ends)[1..] == ends;
    assert "" + e + Render(raw, ends) == text;
  }

  lemma LayoutChar(c: char, raw: seq<string>, ends: seq<string>, text: string)
    requires c != '\r' && c != '\n' && Layout(raw, ends) && text == [c] + Render(raw, ends)
    ensures Layout([[c] + raw[0]] + raw[1..], ends) && Render([[c] + raw[0]] + raw[1..], ends) == text
  {
    var longer := [[c] + raw[0]] + raw[1..];
    assert longer[1..] == raw[1..];
    if ends != [] {
      var rest := Render(raw[1..], ends[1..]);
      assert [c] + raw[0] + ends[0] + rest == [c] + (raw[0] + ends[0] + rest);
    }
  }

  // ------------------------------------------------------------ normalising encoded outputs

  lemma {:induction false} NewlinesSame(s: string)
    requires forall i :: 0 <= i < |s| ==> s[i] != '\r'
    ensures Newlines(s) == s
  {
    if s != "" {
      NewlinesSame(s[1..]);
    }
  }

  lemma EncodedHasNoReturn(lines: seq<string>)
    requires forall i :: 0 <= i < |lines| ==> SingleLine(lines[i])
    ensures Newlines(Join(lines, '\n') + "\n") == Join(lines, '\n') + "\n"
  {
    var p := (c: char) => c == '\r';
    JoinFree(lines, '\n', p);
    NewlinesSame(Join(lines, '\n') + "\n");
  }

  lemma PopFinalBlank(a: seq<string>, b: seq<string>)
    requires b == a + [""]
    ensures PopBlank(b) == PopBlank(a)
  {
    assert b[..|b| - 1] == a;
  }

  lemma SplitOutput(lines: seq<string>, text: string)
    requires lines != [] && forall i :: 0 <= i < |lines| ==> SingleLine(lines[i])
    requires text == Join(lines, '\n') + "\n"
    ensures Split(Newlines(text), IsNewline) == lines + [""]
  {
    EncodedHasNoReturn(lines);
    SplitEncoded(lines);
  }

  lemma TrimmedPieces(lines: seq<string>)
    ensures PopBlank(Image(TrimEnd, lines + [""])) == PopBlank(Image(TrimEnd, lines))
  {
    assert TrimEnd("") == "";
    PopFinalBlank(Image(TrimEnd, lines), Image(TrimEnd, lines + [""]));
  }

  lemma NormalizeEncoded(lines: seq<string>)
    requires lines != [] && forall i :: 0 <= i < |lines| ==> SingleLine(lines[i])
    ensures Normalize(Join(lines, '\n') + "\n") == PopBlank(Image(TrimEnd, lines))
  {
    SplitOutput(lines, Join(lines, '\n') + "\n");
    TrimmedPieces(lines);
  }

  /** The lines of an encoded output after white space at their ends is removed. */
  function View(ty: ValueType, v: Value): seq<string>
    requires Validates(ty, v) && !ty.DoubleT?
  {
    match ty
    case IntT | LongT => [NumberText(v.num)]
    case BoolT => [BoolText(v.b)]
    case StringT => [TrimEnd(v.s)]
    case IntArrayT | ListT => [Row(Ints(v))]
    case IntMatrixT => [IntText(|v.items|)] + PlainRows(Matrix(v))
    case StringArrayT => [IntText(|v.items|)] + Image(TrimEnd, Strings(v))
    case TreeT => [Join(TokenTexts(LevelOrder.Trim(Entries(v))), ' ')]
  }

  lemma TidyRow(ns: seq<int>)
    ensures TrimEnd(Row(ns)) == Row(ns)
  {
    IntTextsAreWords(ns);
    JoinTidy(IntTexts(ns));
  }

  lemma TidyInt(n: int)
    ensures TrimEnd(IntText(n)) == IntText(n)
  {
    ParsePrinted(n);
    TrimWord(IntText(n));
  }

  lemma TidyRows(rows: seq<seq<int>>)
    ensures Image(TrimEnd, PlainRows(rows)) == PlainRows(rows)
  {
    forall i | 0 <= i < |rows|
      ensures TrimEnd(PlainRows(rows)[i]) == PlainRows(rows)[i]
    {
      TidyRow(rows[i]);
    }
  }

  lemma ImageOne<T, U>(f: T -> U, x: T)
    ensures Image(f, [x]) == [f(x)]
  {
  }

  lemma ImageCons<T, U>(f: T -> U, x: T, s: seq<T>)
    ensures Image(f, [x] + s) == [f(x)] + Image(f, s)
  {
  }

  lemma TrimmedOutput(ty: ValueType, v: Value, fixed: Decimal.Number -> string)
    requires Validates(ty, v) && !ty.DoubleT?
    ensures Image(TrimEnd, OutputLines(ty, v, fixed)) == View(ty, v)
  {
    match ty
    case IntT | LongT => TidyInt(v.num.n); ImageOne(TrimEnd, NumberText(v.num));
    case BoolT => TrimWord(BoolText(v.b)); ImageOne(TrimEnd, BoolText(v.b));
    case StringT => ImageOne(TrimEnd, v.s);
    case IntArrayT | ListT => TidyRow(Ints(v)); ImageOne(TrimEnd, Row(Ints(v)));
    case IntMatrixT =>
      TidyInt(|v.items|); TidyRows(Matrix(v)); ImageCons(TrimEnd, IntText(|v.items|), PlainRows(Matrix(v)));
    case StringArrayT => TidyInt(|v.items|); ImageCons(TrimEnd, IntText(|v.items|), Strings(v));
    case TreeT =>
      var texts := TokenTexts(LevelOrder.Trim(Entries(v)));
      TokenTextsAreWords(LevelOrder.Trim(Entries(v)));
      JoinTidy(texts);
      ImageOne(TrimEnd, Join(texts, ' '));
  }

  lemma OutputLinesSingle(ty: ValueType, v: Value, fixed: Decimal.Number -> string)
    requires Validates(ty, v) && !ty.DoubleT?
    ensures OutputLines(ty, v, fixed) != []
    ensures forall i :: 0 <= i < |OutputLines(ty, v, fixed)| ==> SingleLine(OutputLines(ty, v, fixed)[i])
  {
    match ty
    case IntT | LongT => IntTextSingleLine(v.num.n);
    case BoolT =>
    case StringT =>
    case IntArrayT | ListT => RowSingleLine(Ints(v));
    case IntMatrixT =>
      IntTextSingleLine(|v.items|);
      var m := Matrix(v);
      forall i | 0 <= i < |m|
        ensures SingleLine(PlainRows(m)[i])
      {
        RowSingleLine(m[i]);
      }
    case StringArrayT => IntTextSingleLine(|v.items|);
    case TreeT =>
      TokenTextsAreWords(LevelOrder.Trim(Entries(v)));
      JoinedWordsSingleLine(TokenTexts(LevelOrder.Trim(Entries(v))));
  }

  lemma NormalizeOutputOf(ty: ValueType, v: Value, fixed: Decimal.Number -> string)
    requires Validates(ty, v) && !ty.DoubleT?
    ensures Normalize(EncodeOutput(ty, v, fixed).value) == PopBlank(View(ty, v))
  {
    OutputLinesSingle(ty, v, fixed);
    NormalizeEncoded(OutputLines(ty, v, fixed));
    TrimmedOutput(ty, v, fixed);
  }

  // ------------------------------------------------------------ exact comparison

  /** Equality of results as the exact comparator should see it: strings up to trailing white space, trees
      up to trailing nulls, everything else literally. */
  predicate SameResult(ty: ValueType, v: Value, w: Value)
    requires Validates(ty, v) && Validates(ty, w) && !ty.DoubleT?
  {
    match ty
    case IntT | LongT => v.num.n == w.num.n
    case BoolT => v.b == w.b
    case StringT => TrimEnd(v.s) == TrimEnd(w.s)
    case IntArrayT | ListT => Ints(v) == Ints(w)
    case IntMatrixT => Matrix(v) == Matrix(w)
    case StringArrayT => Image(TrimEnd, Strings(v)) == Image(TrimEnd, Strings(w))
    case TreeT => LevelOrder.Trim(Entries(v)) == LevelOrder.Trim(Entries(w))
  }

  lemma RowInjective(a: seq<int>, b: seq<int>)
    ensures Row(a) == Row(b) <==> a == b
  {
    RoundTrip.NumbersOfRow(a);
    RoundTrip.NumbersOfRow(b);
    if Row(a) == Row(b) {
      assert RoundTrip.AsNumbers(a) == RoundTrip.AsNumbers(b);
      assert |a| == |b|;
      assert forall i :: 0 <= i < |a| ==> RoundTrip.AsNumbers(a)[i] == RoundTrip.AsNumbers(b)[i];
    }
  }

  lemma PlainRowsInjective(a: seq<seq<int>>, b: seq<seq<int>>)
    ensures PlainRows(a) == PlainRows(b) <==> a == b
  {
    if PlainRows(a) == PlainRows(b) {
      forall i | 0 <= i < |a|
        ensures a[i] == b[i]
      {
        assert PlainRows(a)[i] == PlainRows(b)[i];
        RowInjective(a[i], b[i]);
      }
    }
  }

  lemma BoolTextInjective(a: bool, b: bool)
    ensures BoolText(a) == BoolText(b) <==> a == b
  {
    assert |"true"| == 4 && |"false"| == 5;
  }

  lemma ViewDecides(ty: ValueType, v: Value, w: Value)
    requires Validates(ty, v) && Validates(ty, w) && !ty.DoubleT?
    ensures PopBlank(View(ty, v)) == PopBlank(View(ty, w)) <==> SameResult(ty, v, w)
  {
    if ty.IntMatrixT? {
      CountedRowsSame(PlainRows(Matrix(v)), PlainRows(Matrix(w)));
      PlainRowsInjective(Matrix(v), Matrix(w));
    } else if ty.StringArrayT? {
      CountedRowsSame(Image(TrimEnd, Strings(v)), Image(TrimEnd, Strings(w)));
    } else {
      PopBlankSame(View(ty, v), View(ty, w));
      OneLineDecides(ty, v, w);
    }
  }

  lemma OneLineDecides(ty: ValueType, v: Value, w: Value)
    requires Validates(ty, v) && Validates(ty, w) && !ty.DoubleT? && !ty.IntMatrixT? && !ty.StringArrayT?
    ensures |View(ty, v)| == |View(ty, w)| == 1
    ensures View(ty, v) == View(ty, w) <==> SameResult(ty, v, w)
  {
    match ty
    case IntT | LongT => IntTextInjective(v.num.n, w.num.n);
    case BoolT => BoolTextInjective(v.b, w.b);
    case StringT =>
    case IntArrayT | ListT => RowInjective(Ints(v), Ints(w));
    case TreeT => RoundTrip.TokenTextsInjective(LevelOrder.Trim(Entries(v)), LevelOrder.Trim(Entries(w)));
  }

  /** The exact comparator accepts one encoded result for another exactly when the results are equal. */
  lemma ExactDecidesEquality(ty: ValueType, v: Value, w: Value, fixed: Decimal.Number -> string)
    requires Validates(ty, v) && Validates(ty, w) && !ty.DoubleT?
    ensures Prepared(EncodeOutput(ty, v, fixed).value, Exact, ty) == Prepared(EncodeOutput(ty, w, fixed).value, Exact, ty)
            <==> SameResult(ty, v, w)
  {
    NormalizeOutputOf(ty, v, fixed);
    NormalizeOutputOf(ty, w, fixed);
    ViewDecides(ty, v, w);
  }

  // ------------------------------------------------------------ unordered comparison

  function Bag(ns: seq<int>): multiset<int> {
    multiset(ns)
  }

  /** Equality up to order: of elements, of rows, or with `inner` of rows and of the numbers in each row. */
  ghost predicate SamePermuted(ty: ValueType, inner: bool, v: Value, w: Value)
    requires Validates(ty, v) && Validates(ty, w) && !ty.DoubleT?
  {
    match ty
    case IntArrayT | ListT => multiset(Ints(v)) == multiset(Ints(w))
    case IntMatrixT =>
      if inner then multiset(Image(Bag, Matrix(v))) == multiset(Image(Bag, Matrix(w)))
      else multiset(Matrix(v)) == multiset(Matrix(w))
    case StringArrayT => multiset(Image(TrimEnd, Strings(v))) == multiset(Image(TrimEnd, Strings(w)))
    case _ => SameResult(ty, v, w)
  }

  function Identity<T>(x: T): T {
    x
  }

  lemma ImageIdentity<T>(s: seq<T>)
    ensures Image(Identity, s) == s
  {
  }

  lemma InjectiveImage<T(!new), U(!new)>(f: T -> U, a: seq<T>, b: seq<T>)
    requires forall x, y :: f(x) == f(y) ==> x == y
    ensures multiset(Image(f, a)) == multiset(Image(f, b)) <==> multiset(a) == multiset(b)
  {
    ImageIdentity(a);
    ImageIdentity(b);
    assert forall x, y: T :: Identity(x) == Identity(y) <==> f(x) == f(y);
    SameKernel(f, Identity, a, b);
  }

  lemma IntTextsPermuted(a: seq<int>, b: seq<int>)
    ensures multiset(IntTexts(a)) == multiset(IntTexts(b)) <==> multiset(a) == multiset(b)
  {
    forall x, y | IntText(x) == IntText(y)
      ensures x == y
    {
      IntTextInjective(x, y);
    }
    InjectiveImage(IntText, a, b);
    assert IntTexts(a) == Image(IntText, a) && IntTexts(b) == Image(IntText, b);
  }

  lemma SortedAreWords(ws: seq<string>)
    requires forall i :: 0 <= i < |ws| ==> IsWord(ws[i])
    ensures forall i :: 0 <= i < |Sort(ws, StrLe)| ==> IsWord(Sort(ws, StrLe)[i])
  {
    StrLeOrder();
    SortSpec(ws, StrLe);
    forall i | 0 <= i < |Sort(ws, StrLe)|
      ensures IsWord(Sort(ws, StrLe)[i])
    {
      assert Sort(ws, StrLe)[i] in multiset(ws);
    }
  }

  /** Sorting the numbers of a printed row gives the same text exactly for permuted rows. */
  lemma SortedRowDecides(a: seq<int>, b: seq<int>)
    ensures SortedWords(Row(a)) == SortedWords(Row(b)) <==> multiset(a) == multiset(b)
  {
    RoundTrip.NumbersOfRow(a);
    RoundTrip.NumbersOfRow(b);
    IntTextsAreWords(a);
    IntTextsAreWords(b);
    SortedAreWords(IntTexts(a));
    SortedAreWords(IntTexts(b));
    WordsJoin(Sort(IntTexts(a), StrLe));
    WordsJoin(Sort(IntTexts(b), StrLe));
    StrLeOrder();
    SortCanonical(IntTexts(a), IntTexts(b), StrLe);
    IntTextsPermuted(a, b);
  }

  function SortedRow(ns: seq<int>): string {
    SortedWords(Row(ns))
  }

  lemma RowsPermuted(a: seq<seq<int>>, b: seq<seq<int>>)
    ensures multiset(Image(Row, a)) == multiset(Image(Row, b)) <==> multiset(a) == multiset(b)
    ensures multiset(Image(SortedRow, a)) == multiset(Image(SortedRow, b)) <==>
            multiset(Image(Bag, a)) == multiset(Image(Bag, b))
  {
    forall x, y
      ensures Row(x) == Row(y) ==> x == y
    {
      RowInjective(x, y);
    }
    InjectiveImage(Row, a, b);
    forall x, y
      ensures SortedRow(x) == SortedRow(y) <==> Bag(x) == Bag(y)
    {
      SortedRowDecides(x, y);
    }
    SameKernel(SortedRow, Bag, a, b);
  }

  /** The canonical form of a counted list of rows, blank rows at the end included. */
  lemma CanonicalOfCounted(rows: seq<string>, inner: bool, keys: seq<string>)
    requires |keys| == |rows| && forall i :: 0 <= i < |rows| ==> keys[i] == RowKey(rows[i], inner)
    ensures CanonicalRows(PopBlank([IntText(|rows|)] + rows), inner) == [IntText(|rows|)] + Sort(keys, StrLe)
  {
    var all := [IntText(|rows|)] + rows;
    var lines := PopBlank(all);
    CountLine(rows);
    assert lines == PopBlank(all) && RowCount(lines) == |rows|;
    PopBlankSpec(all);
    forall i | 0 <= i < |rows|
      ensures LineOr(lines, i + 1, "") == rows[i]
    {
      PoppedLine(all, i + 1);
    }
    RowsAre(lines, rows, inner, keys);
    assert From(lines, |rows| + 1) == [];
  }

  lemma CountLine(rows: seq<string>)
    ensures ParseInt(LineOr(PopBlank([IntText(|rows|)] + rows), 0, "0")) == Int(|rows|)
  {
    IntTextNotBlank(|rows|);
    PopBlankHead(IntText(|rows|), rows);
    ParsePrinted(|rows|);
  }

  lemma RowsAre(lines: seq<string>, rows: seq<string>, inner: bool, keys: seq<string>)
    requires |keys| == |rows| && forall i :: 0 <= i < |rows| ==> keys[i] == RowKey(rows[i], inner)
    requires forall i :: 0 <= i < |rows| ==> LineOr(lines, i + 1, "") == rows[i]
    ensures Rows(lines, |rows|, inner) == keys
  {
  }

  lemma SortedListsDecide(a: seq<string>, b: seq<string>)
    ensures [IntText(|a|)] + Sort(a, StrLe) == [IntText(|b|)] + Sort(b, StrLe) <==> multiset(a) == multiset(b)
  {
    StrLeOrder();
    SortCanonical(a, b, StrLe);
    var x, y := [IntText(|a|)] + Sort(a, StrLe), [IntText(|b|)] + Sort(b, StrLe);
    assert x[1..] == Sort(a, StrLe) && y[1..] == Sort(b, StrLe);
    assert |multiset(a)| == |a| && |multiset(b)| == |b|;
  }

  lemma MatrixDecides(a: seq<seq<int>>, b: seq<seq<int>>, inner: bool)
    ensures var x, y := PopBlank([IntText(|a|)] + PlainRows(a)), PopBlank([IntText(|b|)] + PlainRows(b));
      CanonicalRows(x, inner) == CanonicalRows(y, inner) <==>
      if inner then multiset(Image(Bag, a)) == multiset(Image(Bag, b)) else multiset(a) == multiset(b)
  {
    var f := if inner then SortedRow else Row;
    CanonicalOfCounted(PlainRows(a), inner, Image(f, a));
    CanonicalOfCounted(PlainRows(b), inner, Image(f, b));
    SortedListsDecide(Image(f, a), Image(f, b));
    RowsPermuted(a, b);
  }

  lemma StringsDecide(a: seq<string>, b: seq<string>)
    ensures var x, y := PopBlank([IntText(|a|)] + a), PopBlank([IntText(|b|)] + b);
      CanonicalRows(x, false) == CanonicalRows(y, false) <==> multiset(a) == multiset(b)
  {
    CanonicalOfCounted(a, false, a);
    CanonicalOfCounted(b, false, b);
    SortedListsDecide(a, b);
  }

  lemma ListDecides(a: seq<int>, b: seq<int>)
    ensures [SortedWords(LineOr(PopBlank([Row(a)]), 0, ""))] == [SortedWords(LineOr(PopBlank([Row(b)]), 0, ""))] <==>
            multiset(a) == multiset(b)
  {
    PoppedLine([Row(a)], 0);
    PoppedLine([Row(b)], 0);
    SortedRowDecides(a, b);
  }

  lemma FormDecides(ty: ValueType, inner: bool, v: Value, w: Value)
    requires Validates(ty, v) && Validates(ty, w) && !ty.DoubleT?
    ensures CanonicalForm(PopBlank(View(ty, v)), ty, inner) == CanonicalForm(PopBlank(View(ty, w)), ty, inner) <==>
            SamePermuted(ty, inner, v, w)
  {
    if ty.IntArrayT? || ty.ListT? {
      ListDecides(Ints(v), Ints(w));
    } else if ty.IntMatrixT? {
      MatrixDecides(Matrix(v), Matrix(w), inner);
    } else if ty.StringArrayT? {
      StringsDecide(Image(TrimEnd, Strings(v)), Image(TrimEnd, Strings(w)));
    } else {
      ViewDecides(ty, v, w);
    }
  }

  /** The unordered comparator accepts one encoded result for another exactly when they are equal up to order. */
  lemma UnorderedDecidesPermutation(ty: ValueType, inner: bool, v: Value, w: Value, fixed: Decimal.Number -> string)
    requires Validates(ty, v) && Validates(ty, w) && !ty.DoubleT?
    ensures (Prepared(EncodeOutput(ty, v, fixed).value, Unordered(inner), ty) ==
             Prepared(EncodeOutput(ty, w, fixed).value, Unordered(inner), ty)) <==> SamePermuted(ty, inner, v, w)
  {
    NormalizeOutputOf(ty, v, fixed);
    NormalizeOutputOf(ty, w, fixed);
    FormDecides(ty, inner, v, w);
  }

  // ------------------------------------------------------------ any output against an encoded result

  function WordBag(line: string): multiset<string> {
    multiset(Words(line))
  }

  /** Two lines have the same sorted words exactly when they hold the same words equally often. */
  lemma SortedWordsDecide(a: string, b: string)
    ensures SortedWords(a) == SortedWords(b) <==> WordBag(a) == WordBag(b)
  {
    WordsAreWords(a);
    WordsAreWords(b);
    SortedAreWords(Words(a));
    SortedAreWords(Words(b));
    WordsJoin(Sort(Words(a), StrLe));
    WordsJoin(Sort(Words(b), StrLe));
    StrLeOrder();
    SortCanonical(Words(a), Words(b), StrLe);
  }

  /** The n lines behind the count line; missing ones are empty. */
  function Declared(lines: seq<string>, n: nat): (r: seq<string>)
    ensures |r| == n && forall i :: 0 <= i < n ==> r[i] == if i + 1 < |lines| then lines[i + 1] else ""
  {
    seq(n, i requires 0 <= i < n => if i + 1 < |lines| then lines[i + 1] else "")
  }

  function ExpectedRows(ty: ValueType, v: Value): (r: seq<string>)
    requires (ty.IntMatrixT? || ty.StringArrayT?) && Validates(ty, v)
    ensures |r| == |v.items|
  {
    if ty.IntMatrixT? then PlainRows(Matrix(v)) else Image(TrimEnd, Strings(v))
  }

  /** Rows in any order; with `inner`, words in any order within each row. */
  ghost predicate SameRows(inner: bool, a: seq<string>, b: seq<string>) {
    if inner then multiset(Image(WordBag, a)) == multiset(Image(WordBag, b)) else multiset(a) == multiset(b)
  }

  lemma KeysDecide(inner: bool, a: seq<string>, b: seq<string>, x: seq<string>, y: seq<string>)
    requires |x| == |a| && forall i :: 0 <= i < |a| ==> x[i] == RowKey(a[i], inner)
    requires |y| == |b| && forall i :: 0 <= i < |b| ==> y[i] == RowKey(b[i], inner)
    ensures Sort(x, StrLe) == Sort(y, StrLe) <==> SameRows(inner, a, b)
  {
    StrLeOrder();
    SortCanonical(x, y, StrLe);
    if inner {
      forall s, t ensures SortedWords(s) == SortedWords(t) <==> WordBag(s) == WordBag(t) { SortedWordsDecide(s, t); }
      SameKernel(SortedWords, WordBag, a, b);
      assert x == Image(SortedWords, a) && y == Image(SortedWords, b);
    } else {
      assert x == a && y == b;
    }
  }

  lemma CountText(p: Decimal.Number, n: int)
    requires !p.Other?
    ensures NumberText(p) == IntText(n) <==> p == Int(n)
  {
    if p.Int? {
      IntTextInjective(p.n, n);
    } else {
      ParsePrinted(n);
      assert ParseInt("NaN") == NaN;
    }
  }

  lemma ThreeParts(c: string, x: seq<string>, extra: seq<string>, d: string, y: seq<string>)
    requires |x| == |y|
    ensures [c] + x + extra == [d] + y <==> c == d && x == y && extra == []
  {
    var s, t := [c] + x + extra, [d] + y;
    if s == t {
      assert |s| == 1 + |x| + |extra| && |t| == 1 + |y|;
      assert s[0] == c && t[0] == d;
      assert s[1..] == x && t[1..] == y;
    }
  }

  lemma NothingBehind(lines: seq<string>, n: nat)
    ensures From(lines, n + 1) == [] <==> |lines| <= n + 1
  {
  }

  lemma SortedLength(x: seq<string>)
    ensures |Sort(x, StrLe)| == |x|
  {
    StrLeOrder();
    SortSpec(x, StrLe);
  }

  lemma CountRight(lines: seq<string>, inner: bool, rows: seq<string>, keys: seq<string>, mine: seq<string>, n: nat)
    requires |keys| == |rows| == n && forall i :: 0 <= i < n ==> keys[i] == RowKey(rows[i], inner)
    requires mine == Rows(lines, n, inner)
    ensures [IntText(n)] + Sort(mine, StrLe) + From(lines, n + 1) == [IntText(n)] + Sort(keys, StrLe) <==>
            |lines| <= n + 1 && SameRows(inner, Declared(lines, n), rows)
  {
    SortedLength(mine);
    SortedLength(keys);
    KeysDecide(inner, Declared(lines, n), rows, mine, keys);
    ThreeParts(IntText(n), Sort(mine, StrLe), From(lines, n + 1), IntText(n), Sort(keys, StrLe));
    NothingBehind(lines, n);
  }

  lemma CountWrong(c: string, mine: seq<string>, extra: seq<string>, d: string, keys: seq<string>)
    requires c != d
    ensures [c] + mine + extra != [d] + keys
  {
    assert ([c] + mine + extra)[0] == c && ([d] + keys)[0] == d;
  }

  /** Lines against a counted list of rows. */
  lemma CountedDecide(lines: seq<string>, inner: bool, rows: seq<string>, keys: seq<string>)
    requires |keys| == |rows| && forall i :: 0 <= i < |rows| ==> keys[i] == RowKey(rows[i], inner)
    ensures CanonicalRows(lines, inner) == [IntText(|rows|)] + Sort(keys, StrLe) <==>
      ParseInt(LineOr(lines, 0, "0")) == Int(|rows|) && |lines| <= |rows| + 1 && SameRows(inner, Declared(lines, |rows|), rows)
  {
    var n, p := |rows|, ParseInt(LineOr(lines, 0, "0"));
    var mine := Rows(lines, RowCount(lines), inner);
    CountText(p, n);
    if p == Int(n) {
      CountRight(lines, inner, rows, keys, mine, n);
    } else {
      CountWrong(NumberText(p), Sort(mine, StrLe), From(lines, RowCount(lines) + 1), IntText(n), Sort(keys, StrLe));
    }
  }

  lemma KeysOf(rows: seq<string>, inner: bool) returns (keys: seq<string>)
    ensures |keys| == |rows| && forall i :: 0 <= i < |rows| ==> keys[i] == RowKey(rows[i], inner)
    ensures CanonicalRows(PopBlank([IntText(|rows|)] + rows), inner) == [IntText(|rows|)] + Sort(keys, StrLe)
  {
    keys := seq(|rows|, i requires 0 <= i < |rows| => RowKey(rows[i], inner));
    CanonicalOfCounted(rows, inner, keys);
  }

  /** Any output against an encoded list of rows: it is accepted exactly when it announces as many rows, prints nothing
      behind them, and its rows are the expected ones in any order. */
  lemma UnorderedRowsExactlyWhen(actual: string, ty: ValueType, v: Value, inner: bool, fixed: Decimal.Number -> string)
    requires (ty.IntMatrixT? || ty.StringArrayT?) && Validates(ty, v)
    ensures var lines, n := Normalize(actual), |v.items|;
      Prepared(actual, Unordered(inner), ty) == Prepared(EncodeOutput(ty, v, fixed).value, Unordered(inner), ty) <==>
      ParseInt(LineOr(lines, 0, "0")) == Int(n) && |lines| <= n + 1 &&
      SameRows(inner && ty.IntMatrixT?, Declared(lines, n), ExpectedRows(ty, v))
  {
    var rows := ExpectedRows(ty, v);
    NormalizeOutputOf(ty, v, fixed);
    var keys := KeysOf(rows, inner && ty.IntMatrixT?);
    CountedDecide(Normalize(actual), inner && ty.IntMatrixT?, rows, keys);
  }

  /** Of an unordered list only the first line is looked at: it must hold the expected numbers in any order. */
  lemma UnorderedListExactlyWhen(actual: string, ty: ValueType, v: Value, inner: bool, fixed: Decimal.Number -> string)
    requires (ty.IntArrayT? || ty.ListT?) && Validates(ty, v)
    ensures Prepared(actual, Unordered(inner), ty) == Prepared(EncodeOutput(ty, v, fixed).value, Unordered(inner), ty) <==>
      WordBag(LineOr(Normalize(actual), 0, "")) == multiset(IntTexts(Ints(v)))
  {
    NormalizeOutputOf(ty, v, fixed);
    PoppedLine([Row(Ints(v))], 0);
    SortedWordsDecide(LineOr(Normalize(actual), 0, ""), Row(Ints(v)));
    RoundTrip.NumbersOfRow(Ints(v));
  }

  /** Everything else, and everything under the exact comparator, is compared line by line. */
  lemma LinesExactlyWhen(actual: string, cmp: Comparator, ty: ValueType, v: Value, fixed: Decimal.Number -> string)
    requires Validates(ty, v) && !ty.DoubleT?
    requires cmp.Exact? || ty in {IntT, LongT, BoolT, StringT, TreeT}
    ensures Prepared(actual, cmp, ty) == Prepared(EncodeOutput(ty, v, fixed).value, cmp, ty) <==>
            Normalize(actual) == PopBlank(View(ty, v))
  {
    NormalizeOutputOf(ty, v, fixed);
  }

  /** What the comparator demands of the normalised lines of an output. */
  ghost predicate Accepted(lines: seq<string>, cmp: Comparator, ty: ValueType, v: Value)
    requires Validates(ty, v) && !ty.DoubleT?
  {
    if cmp.Unordered? && (ty.IntArrayT? || ty.ListT?) then WordBag(LineOr(lines, 0, "")) == multiset(IntTexts(Ints(v)))
    else if cmp.Unordered? && (ty.IntMatrixT? || ty.StringArrayT?) then
      ParseInt(LineOr(lines, 0, "0")) == Int(|v.items|) && |lines| <= |v.items| + 1 &&
      SameRows(cmp.sortInner && ty.IntMatrixT?, Declared(lines, |v.items|), ExpectedRows(ty, v))
    else lines == PopBlank(View(ty, v))
  }

  /** The verdict on any output of a program when the expected result is v. */
  method JudgeOutput(actual: string, cmp: Comparator, ty: ValueType, v: Value, fixed: Decimal.Number -> string) returns (ok: bool)
    requires Validates(ty, v) && !ty.DoubleT?
    ensures ok <==> Accepted(Normalize(actual), cmp, ty, v)
  {
    ok := OutputsMatch(actual, EncodeOutput(ty, v, fixed).value, cmp, ty);
    if cmp.Unordered? && (ty.IntArrayT? || ty.ListT?) {
      UnorderedListExactlyWhen(actual, ty, v, cmp.sortInner, fixed);
    } else if cmp.Unordered? && (ty.IntMatrixT? || ty.StringArrayT?) {
      UnorderedRowsExactlyWhen(actual, ty, v, cmp.sortInner, fixed);
    } else {
      LinesExactlyWhen(actual, cmp, ty, v, fixed);
    }
  }

  lemma OneDigit(d: string)
    requires |d| == 1 && IsDigit(d[0])
    ensures IsWord(d) && SingleLine(d) && TrimEnd(d) == d
  {
    TrimWord(d);
  }

  /** Expected [1], printed 1 and then 2 on a second line: accepted. */
  lemma ExtraLinesAreIgnored()
    ensures var one := Arr([Value.Number(Int(1))]);
      Validates(IntArrayT, one) && Accepted(Normalize("1\n2\n"), Unordered(false), IntArrayT, one)
  {
    var one, lines := Arr([Value.Number(Int(1))]), ["1", "2"];
    OneDigit("1");
    OneDigit("2");
    NormalizeEncoded(lines);
    assert Image(TrimEnd, lines) == lines && PopBlank(lines) == lines;
    assert Join(lines, '\n') + "\n" == "1\n2\n";
    assert IntTexts(Ints(one)) == ["1"];
    WordsJoin(["1"]);
  }
}
