/** The text protocol between the judge and the generated harnesses: typed values as lines. */
module Codec {
  import opened Text
  import opened Decimal
  import opened LevelOrder

  datatype ValueType =
    | IntT | LongT | DoubleT | BoolT | StringT | IntArrayT | IntMatrixT | StringArrayT | ListT | TreeT

  /** A JSON value given as an argument or as an expected result. */
  datatype Value = Number(num: Decimal.Number) | Bool(b: bool) | Str(s: string) | Missing | Arr(items: seq<Value>)

  datatype Result<+T> = Ok(value: T) | CodecError

  // ------------------------------------------------------------ validation

  predicate IsInt(v: Value) {
    v.Number? && v.num.Int?
  }

  /** A finite number; the text of a number that is not an integer is one word and no integer numeral. */
  ghost predicate WellFormed(n: Decimal.Number) {
    n.Other? ==> IsWord(n.text) && !IsIntText(n.text)
  }

  predicate SingleLine(s: string) {
    forall i :: 0 <= i < |s| ==> s[i] != '\r' && s[i] != '\n'
  }

  predicate IsIntArray(v: Value) {
    v.Arr? && forall i :: 0 <= i < |v.items| ==> IsInt(v.items[i])
  }

  const MIN_INT32 := -2147483648
  const MAX_INT32 := 2147483647
  const MAX_SAFE := 9007199254740991

  predicate Validates(ty: ValueType, v: Value) {
    match ty
    case IntT => IsInt(v) && MIN_INT32 <= v.num.n <= MAX_INT32
    case LongT => IsInt(v) && -MAX_SAFE <= v.num.n <= MAX_SAFE
    case DoubleT => v.Number? && !v.num.NaN?
    case BoolT => v.Bool?
    case StringT => v.Str? && SingleLine(v.s)
    case IntArrayT => IsIntArray(v)
    case ListT => IsIntArray(v)
    case IntMatrixT => v.Arr? && forall i :: 0 <= i < |v.items| ==> IsIntArray(v.items[i])
    case StringArrayT => v.Arr? && forall i :: 0 <= i < |v.items| ==> v.items[i].Str? && SingleLine(v.items[i].s)
    case TreeT =>
      v.Arr? && (forall i :: 0 <= i < |v.items| ==> v.items[i].Missing? || IsInt(v.items[i])) &&
      (|v.items| > 0 ==> !v.items[0].Missing?)
  }

  // ------------------------------------------------------------ encoding

  function NumberText(n: Decimal.Number): string {
    match n
    case Int(k) => IntText(k)
    case Other(text) => text
    case NaN => "NaN"
  }

  function BoolText(b: bool): string {
    if b then "true" else "false"
  }

  function Ints(v: Value): (r: seq<int>)
    requires IsIntArray(v)
    ensures |r| == |v.items| && forall i :: 0 <= i < |r| ==> r[i] == v.items[i].num.n
  {
    seq(|v.items|, i requires 0 <= i < |v.items| => v.items[i].num.n)
  }

  function IntTexts(ns: seq<int>): (r: seq<string>)
    ensures |r| == |ns| && forall i :: 0 <= i < |r| ==> r[i] == IntText(ns[i])
  {
    seq(|ns|, i requires 0 <= i < |ns| => IntText(ns[i]))
  }

  function Row(ns: seq<int>): string {
    Join(IntTexts(ns), ' ')
  }

  function Strings(v: Value): (r: seq<string>)
    requires Validates(StringArrayT, v)
    ensures |r| == |v.items| && forall i :: 0 <= i < |r| ==> r[i] == v.items[i].s
  {
    seq(|v.items|, i requires 0 <= i < |v.items| => v.items[i].s)
  }

  function Matrix(v: Value): (r: seq<seq<int>>)
    requires Validates(IntMatrixT, v)
    ensures |r| == |v.items| && forall i :: 0 <= i < |r| ==> r[i] == Ints(v.items[i])
  {
    seq(|v.items|, i requires 0 <= i < |v.items| => Ints(v.items[i]))
  }

  /** The rows of a matrix argument carry their own length. */
  function CountedRows(rows: seq<seq<int>>): (r: seq<string>)
    ensures |r| == |rows| && forall i :: 0 <= i < |r| ==> r[i] == Row([|rows[i]|] + rows[i])
  {
    seq(|rows|, i requires 0 <= i < |rows| => Row([|rows[i]|] + rows[i]))
  }

  function PlainRows(rows: seq<seq<int>>): (r: seq<string>)
    ensures |r| == |rows| && forall i :: 0 <= i < |r| ==> r[i] == Row(rows[i])
  {
    seq(|rows|, i requires 0 <= i < |rows| => Row(rows[i]))
  }

  ghost predicate IntTokens(ts: seq<Token<Decimal.Number>>) {
    forall i :: 0 <= i < |ts| ==> ts[i].Num? ==> ts[i].v.Int?
  }

  /** The level-order entries of a tree argument. */
  function Entries(v: Value): (r: seq<Token<Decimal.Number>>)
    requires Validates(TreeT, v)
    ensures |r| == |v.items| && IntTokens(r)
    ensures forall i :: 0 <= i < |r| ==> r[i] == if v.items[i].Missing? then Null else Num(v.items[i].num)
  {
    seq(|v.items|, i requires 0 <= i < |v.items| => if v.items[i].Missing? then Null else Num(v.items[i].num))
  }

  function TokenText(t: Token<Decimal.Number>): string {
    if t.Null? then "null" else NumberText(t.v)
  }

  function TokenTexts(ts: seq<Token<Decimal.Number>>): (r: seq<string>)
    ensures |r| == |ts| && forall i :: 0 <= i < |r| ==> r[i] == TokenText(ts[i])
  {
    seq(|ts|, i requires 0 <= i < |ts| => TokenText(ts[i]))
  }

  function ArgLines(ty: ValueType, v: Value): seq<string>
    requires Validates(ty, v)
  {
    match ty
    case IntT | LongT | DoubleT => [NumberText(v.num)]
    case BoolT => [BoolText(v.b)]
    case StringT => [v.s]
    case IntArrayT | ListT => [IntText(|v.items|), Row(Ints(v))]
    case IntMatrixT => [IntText(|v.items|)] + CountedRows(Matrix(v))
    case StringArrayT => [IntText(|v.items|)] + Strings(v)
    case TreeT =>
      var ts := LevelOrder.Trim(Entries(v));
      [IntText(|ts|), Join(TokenTexts(ts), ' ')]
  }

  predicate ArgsValid(types: seq<ValueType>, args: seq<Value>) {
    |types| == |args| && forall i :: 0 <= i < |types| ==> Validates(types[i], args[i])
  }

  /** The lines of every argument. */
  function Chunks(types: seq<ValueType>, args: seq<Value>): (r: seq<seq<string>>)
    requires ArgsValid(types, args)
    ensures |r| == |types| && forall i :: 0 <= i < |r| ==> r[i] == ArgLines(types[i], args[i])
  {
    seq(|types|, i requires 0 <= i < |types| => ArgLines(types[i], args[i]))
  }

  function Flatten<T>(chunks: seq<seq<T>>): seq<T> {
    if chunks == [] then [] else chunks[0] + Flatten(chunks[1..])
  }

  /** The standard input of a test. */
  function EncodeInput(types: seq<ValueType>, args: seq<Value>): Result<string> {
    if ArgsValid(types, args) then Ok(Join(Flatten(Chunks(types, args)), '\n') + "\n") else CodecError
  }

  /** The loop that trims trailing nulls from a tree argument. */
  method TrimTree(tokens: seq<Token<Decimal.Number>>) returns (r: seq<Token<Decimal.Number>>)
    ensures r == LevelOrder.Trim(tokens)
  {
    var end := |tokens|;
    while end > 0 && tokens[end - 1].Null?
      invariant 0 <= end <= |tokens|
      invariant LevelOrder.Trim(tokens[..end]) == LevelOrder.Trim(tokens)
    {
      assert tokens[..end][..end - 1] == tokens[..end - 1];
      end := end - 1;
    }
    r := tokens[..end];
  }

  /** The lines of an expected output; doubles are printed by `fixed`, the five-digit formatter. */
  function OutputLines(ty: ValueType, v: Value, fixed: Decimal.Number -> string): seq<string>
    requires Validates(ty, v)
  {
    match ty
    case IntT | LongT => [NumberText(v.num)]
    case DoubleT => [fixed(v.num)]
    case BoolT => [BoolText(v.b)]
    case StringT => [v.s]
    case IntArrayT | ListT => [Row(Ints(v))]
    case IntMatrixT => [IntText(|v.items|)] + PlainRows(Matrix(v))
    case StringArrayT => [IntText(|v.items|)] + Strings(v)
    case TreeT => [Join(TokenTexts(LevelOrder.Trim(Entries(v))), ' ')]
  }

  function EncodeOutput(ty: ValueType, v: Value, fixed: Decimal.Number -> string): Result<string> {
    if Validates(ty, v) then Ok(Join(OutputLines(ty, v, fixed), '\n') + "\n") else CodecError
  }

  // ------------------------------------------------------------ what the lines look like

  lemma IntTextsAreWords(ns: seq<int>)
    ensures forall i :: 0 <= i < |ns| ==> IsWord(IntTexts(ns)[i])
  {
    forall i | 0 <= i < |ns|
      ensures IsWord(IntTexts(ns)[i])
    {
      ParsePrinted(ns[i]);
    }
  }

  lemma TokenTextsAreWords(ts: seq<Token<Decimal.Number>>)
    requires IntTokens(ts)
    ensures forall i :: 0 <= i < |ts| ==> IsWord(TokenTexts(ts)[i])
  {
    forall i | 0 <= i < |ts|
      ensures IsWord(TokenTexts(ts)[i])
    {
      if ts[i].Num? { ParsePrinted(ts[i].v.n); }
    }
  }

  lemma WordIsSingleLine(s: string)
    requires IsWord(s)
    ensures SingleLine(s)
  {
  }

  lemma JoinedWordsSingleLine(ws: seq<string>)
    requires forall i :: 0 <= i < |ws| ==> IsWord(ws[i])
    ensures SingleLine(Join(ws, ' '))
  {
    var p := (c: char) => c == '\r' || c == '\n';
    JoinFree(ws, ' ', p);
  }

  lemma RowSingleLine(ns: seq<int>)
    ensures SingleLine(Row(ns))
  {
    IntTextsAreWords(ns);
    JoinedWordsSingleLine(IntTexts(ns));
  }

  lemma IntTextSingleLine(n: int)
    ensures SingleLine(IntText(n))
  {
    ParsePrinted(n);
    WordIsSingleLine(IntText(n));
  }

  lemma NumberTextSingleLine(n: Decimal.Number)
    requires !n.NaN? && WellFormed(n)
    ensures SingleLine(NumberText(n))
  {
    if n.Int? {
      IntTextSingleLine(n.n);
    } else {
      WordIsSingleLine(n.text);
    }
  }

  /** No encoded line contains a line break, so the framing by lines is unambiguous. */
  lemma ArgLinesSingle(ty: ValueType, v: Value)
    requires Validates(ty, v) && (v.Number? ==> WellFormed(v.num))
    ensures forall i :: 0 <= i < |ArgLines(ty, v)| ==> SingleLine(ArgLines(ty, v)[i])
  {
    match ty
    case IntT | LongT | DoubleT => NumberTextSingleLine(v.num);
    case BoolT =>
    case StringT =>
    case IntArrayT | ListT => IntTextSingleLine(|v.items|); RowSingleLine(Ints(v));
    case IntMatrixT =>
      IntTextSingleLine(|v.items|);
      var m := Matrix(v);
      forall i | 0 <= i < |m|
        ensures SingleLine(CountedRows(m)[i])
      {
        RowSingleLine([|m[i]|] + m[i]);
      }
    case StringArrayT => IntTextSingleLine(|v.items|);
    case TreeT =>
      var ts := LevelOrder.Trim(Entries(v));
      IntTextSingleLine(|ts|);
      TokenTextsAreWords(ts);
      JoinedWordsSingleLine(TokenTexts(ts));
  }

  lemma {:induction false} FlattenSingle(chunks: seq<seq<string>>)
    requires forall i, j :: 0 <= i < |chunks| && 0 <= j < |chunks[i]| ==> SingleLine(chunks[i][j])
    ensures forall i :: 0 <= i < |Flatten(chunks)| ==> SingleLine(Flatten(chunks)[i])
  {
    if chunks != [] {
      assert forall j :: 0 <= j < |chunks[0]| ==> SingleLine(chunks[0][j]);
      FlattenSingle(chunks[1..]);
    }
  }

  lemma {:induction false} JoinNewlineTerminated(lines: seq<string>)
    requires lines != []
    ensures Join(lines, '\n') + "\n" == Join(lines + [""], '\n')
  {
    if |lines| == 1 {
      assert (lines + [""])[1..] == [""];
    } else {
      assert (lines + [""])[1..] == lines[1..] + [""];
      JoinNewlineTerminated(lines[1..]);
      var a, b := lines[0] + ['\n'], Join(lines[1..], '\n');
      assert (a + b) + "\n" == a + (b + "\n");
    }
  }

  /** Splitting an encoded text at line breaks gives the encoded lines and a final empty piece. */
  lemma SplitEncoded(lines: seq<string>)
    requires forall i :: 0 <= i < |lines| ==> SingleLine(lines[i])
    ensures lines != [] ==> Split(Join(lines, '\n') + "\n", IsNewline) == lines + [""]
  {
    if lines != [] {
      JoinNewlineTerminated(lines);
      SplitJoin(lines + [""], '\n', IsNewline);
    }
  }
}
