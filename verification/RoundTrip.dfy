/** Reading back what the codec wrote. */
module RoundTrip {
  import opened Text
  import opened Decimal
  import opened LevelOrder
  import opened Codec
  import opened Harness

  function AsNumbers(ns: seq<int>): (r: seq<Decimal.Number>)
    ensures |r| == |ns| && forall i :: 0 <= i < |r| ==> r[i] == Int(ns[i])
  {
    seq(|ns|, i requires 0 <= i < |ns| => Int(ns[i]))
  }

  function AsRows(rows: seq<seq<int>>): (r: seq<seq<Decimal.Number>>)
    ensures |r| == |rows| && forall i :: 0 <= i < |r| ==> r[i] == AsNumbers(rows[i])
  {
    seq(|rows|, i requires 0 <= i < |rows| => AsNumbers(rows[i]))
  }

  /** The argument a candidate's function is meant to receive for a JSON value of the declared type. */
  function Meaning(ty: ValueType, v: Value): Arg
    requires Validates(ty, v)
  {
    match ty
    case IntT | LongT | DoubleT => ANumber(v.num)
    case BoolT => ABool(v.b)
    case StringT => AString(v.s)
    case IntArrayT => ANumbers(AsNumbers(Ints(v)))
    case ListT => AList(AsNumbers(Ints(v)))
    case IntMatrixT => ARows(AsRows(Matrix(v)))
    case StringArrayT => AStrings(Strings(v))
    case TreeT => ATree(Decode(Entries(v)))
  }

  /** The arguments that a parameter of the type can take: 32-bit and safe integers, numbers, texts of one line, and lists,
      matrices and trees of integers. */
  ghost predicate Expressible(ty: ValueType, a: Arg) {
    match ty
    case IntT => a.ANumber? && a.num.Int? && -2147483648 <= a.num.n <= 2147483647
    case LongT => a.ANumber? && a.num.Int? && -9007199254740991 <= a.num.n <= 9007199254740991
    case DoubleT => a.ANumber? && !a.num.NaN?
    case BoolT => a.ABool?
    case StringT => a.AString? && '\n' !in a.s && '\r' !in a.s
    case IntArrayT => a.ANumbers? && AllInts(a.ns)
    case ListT => a.AList? && AllInts(a.ns)
    case IntMatrixT => a.ARows? && forall i :: 0 <= i < |a.rows| ==> AllInts(a.rows[i])
    case StringArrayT => a.AStrings? && forall i :: 0 <= i < |a.ss| ==> '\n' !in a.ss[i] && '\r' !in a.ss[i]
    case TreeT => a.ATree? && IntTree(a.t)
  }

  ghost predicate AllInts(ns: seq<Decimal.Number>) {
    forall i :: 0 <= i < |ns| ==> ns[i].Int?
  }

  // ------------------------------------------------------------ pieces

  lemma StripSingleLine(s: string)
    requires SingleLine(s)
    ensures StripCR(s) == s
  {
  }

  lemma NumbersOfRow(ns: seq<int>)
    ensures Numbers(Words(Row(ns))) == AsNumbers(ns)
    ensures Words(Row(ns)) == IntTexts(ns)
  {
    IntTextsAreWords(ns);
    WordsJoin(IntTexts(ns));
    forall i | 0 <= i < |ns|
      ensures ParseNumber(IntTexts(ns)[i]) == Int(ns[i])
    {
      ParsePrinted(ns[i]);
    }
  }

  lemma RowFromCounted(ns: seq<int>, t: seq<Decimal.Number>)
    requires t == AsNumbers([|ns|] + ns)
    ensures RowFrom(t) == AsNumbers(ns)
  {
    assert t[0] == Int(|ns|);
    assert Prefix(t, Int(1 + |ns|)) == t;
    assert t[1..] == AsNumbers(ns);
  }

  lemma RowReadsBack(ns: seq<int>)
    ensures RowOf(Row([|ns|] + ns)) == AsNumbers(ns)
  {
    NumbersOfRow([|ns|] + ns);
    RowFromCounted(ns, AsNumbers([|ns|] + ns));
  }

  lemma IntReadsBack(n: int, lines: seq<string>, pos: nat)
    requires pos < |lines| && lines[pos] == IntText(n)
    ensures IntAt(lines, pos) == Int(n)
  {
    ParsePrinted(n);
    TrimWord(IntText(n));
  }

  lemma NumberReadsBack(n: Decimal.Number, lines: seq<string>, pos: nat)
    requires pos < |lines| && lines[pos] == NumberText(n) && !n.NaN? && WellFormed(n)
    ensures ParseNumber(Text.Trim(LineAt(lines, pos))) == n
  {
    if n.Int? {
      ParsePrinted(n.n);
    }
    TrimWord(NumberText(n));
  }

  lemma RowIsList(ns: seq<int>)
    ensures ListFrom(Int(|ns|), Row(ns)) == AsNumbers(ns)
  {
    NumbersOfRow(ns);
    assert Prefix(IntTexts(ns), Int(|ns|)) == IntTexts(ns);
  }

  lemma IntListReadsBack(ns: seq<int>, lines: seq<string>, pos: nat)
    requires pos + 1 < |lines| && lines[pos] == IntText(|ns|) && lines[pos + 1] == Row(ns)
    ensures IntListAt(lines, pos) == AsNumbers(ns)
  {
    IntReadsBack(|ns|, lines, pos);
    RowSingleLine(ns);
    StripSingleLine(Row(ns));
    RowIsList(ns);
  }

  lemma TokensReadBack(ts: seq<Token<Decimal.Number>>)
    requires IntTokens(ts)
    ensures Words(Join(TokenTexts(ts), ' ')) == TokenTexts(ts)
    ensures TokensOf(TokenTexts(ts)) == ts
  {
    TokenTextsAreWords(ts);
    WordsJoin(TokenTexts(ts));
    forall i | 0 <= i < |ts|
      ensures TokenOf(TokenText(ts[i])) == ts[i]
    {
      if ts[i].Num? {
        ParsePrinted(ts[i].v.n);
        IntTextIsNotNull(ts[i].v.n);
      }
    }
  }

  lemma JoinIsTree(ts: seq<Token<Decimal.Number>>)
    requires IntTokens(ts)
    ensures TreeFrom(Int(|ts|), Join(TokenTexts(ts), ' ')) == ts
  {
    TokensReadBack(ts);
    assert Prefix(TokenTexts(ts), Int(|ts|)) == TokenTexts(ts);
  }

  lemma TreeReadsBack(ts: seq<Token<Decimal.Number>>, lines: seq<string>, pos: nat)
    requires IntTokens(ts)
    requires pos + 1 < |lines| && lines[pos] == IntText(|ts|) && lines[pos + 1] == Join(TokenTexts(ts), ' ')
    ensures TreeTokensAt(lines, pos) == ts
  {
    IntReadsBack(|ts|, lines, pos);
    TokenTextsAreWords(ts);
    JoinedWordsSingleLine(TokenTexts(ts));
    StripSingleLine(Join(TokenTexts(ts), ' '));
    JoinIsTree(ts);
  }

  // ------------------------------------------------------------ one argument

  /** The lines of one argument start at `pos`. */
  ghost predicate At(lines: seq<string>, pos: nat, mine: seq<string>) {
    pos + |mine| <= |lines| && forall i :: 0 <= i < |mine| ==> lines[pos + i] == mine[i]
  }

  lemma FirstLine(lines: seq<string>, pos: nat, a: string)
    requires At(lines, pos, [a])
    ensures pos < |lines| && lines[pos] == a && NextLine(lines, pos) == pos + 1
  {
    assert lines[pos + 0] == [a][0];
  }

  lemma BoolArgReadsBack(v: Value, lines: seq<string>, pos: nat, mine: seq<string>, a: Arg, end: nat)
    requires Validates(BoolT, v) && At(lines, pos, mine)
    requires mine == ArgLines(BoolT, v) && a == Meaning(BoolT, v) && end == pos + |mine|
    ensures ReadAt(BoolT, lines, pos) == (a, end)
  {
    FirstLine(lines, pos, BoolText(v.b));
    TrimWord(BoolText(v.b));
    assert "true" != "false" by { assert |"true"| == 4; }
  }

  lemma StringArgReadsBack(v: Value, lines: seq<string>, pos: nat, mine: seq<string>, a: Arg, end: nat)
    requires Validates(StringT, v) && At(lines, pos, mine)
    requires mine == ArgLines(StringT, v) && a == Meaning(StringT, v) && end == pos + |mine|
    ensures ReadAt(StringT, lines, pos) == (a, end)
  {
    FirstLine(lines, pos, v.s);
    StripSingleLine(v.s);
  }

  lemma IntArgReadsBack(v: Value, lines: seq<string>, pos: nat, mine: seq<string>, a: Arg, end: nat)
    requires Validates(IntT, v) && At(lines, pos, mine)
    requires mine == ArgLines(IntT, v) && a == Meaning(IntT, v) && end == pos + |mine|
    ensures ReadAt(IntT, lines, pos) == (a, end)
  {
    FirstLine(lines, pos, IntText(v.num.n));
    IntReadsBack(v.num.n, lines, pos);
  }

  lemma LongArgReadsBack(v: Value, lines: seq<string>, pos: nat, mine: seq<string>, a: Arg, end: nat)
    requires Validates(LongT, v) && At(lines, pos, mine)
    requires mine == ArgLines(LongT, v) && a == Meaning(LongT, v) && end == pos + |mine|
    ensures ReadAt(LongT, lines, pos) == (a, end)
  {
    FirstLine(lines, pos, IntText(v.num.n));
    IntReadsBack(v.num.n, lines, pos);
  }

  lemma DoubleAtLine(n: Decimal.Number, lines: seq<string>, pos: nat)
    requires pos < |lines| && lines[pos] == NumberText(n) && !n.NaN? && WellFormed(n)
    ensures ReadAt(DoubleT, lines, pos) == (ANumber(n), pos + 1)
  {
    NumberReadsBack(n, lines, pos);
  }

  lemma DoubleArgReadsBack(v: Value, lines: seq<string>, pos: nat, mine: seq<string>, a: Arg, end: nat)
    requires Validates(DoubleT, v) && WellFormed(v.num) && At(lines, pos, mine)
    requires mine == ArgLines(DoubleT, v) && a == Meaning(DoubleT, v) && end == pos + |mine|
    ensures ReadAt(DoubleT, lines, pos) == (a, end)
  {
    FirstLine(lines, pos, NumberText(v.num));
    DoubleAtLine(v.num, lines, pos);
  }

  lemma LinesReadBack<T>(lines: seq<string>, pos: nat, f: string -> T, out: seq<T>)
    requires forall i :: 0 <= i < |out| ==> f(LineAt(lines, pos + i)) == out[i]
    ensures LinesAt(lines, pos, |out|, f) == out
  {
  }

  lemma MatrixRow(m: seq<seq<int>>, lines: seq<string>, pos: nat, i: nat)
    requires At(lines, pos, CountedRows(m)) && i < |m|
    ensures RowOf(LineAt(lines, pos + i)) == AsRows(m)[i]
  {
    var line := Row([|m[i]|] + m[i]);
    assert lines[pos + i] == CountedRows(m)[i] == line;
    RowSingleLine([|m[i]|] + m[i]);
    StripSingleLine(line);
    assert LineAt(lines, pos + i) == line;
    RowReadsBack(m[i]);
  }

  lemma MatrixRows(m: seq<seq<int>>, lines: seq<string>, pos: nat)
    requires At(lines, pos, CountedRows(m))
    ensures LinesAt(lines, pos, |m|, RowOf) == AsRows(m)
  {
    forall i | 0 <= i < |m|
      ensures RowOf(LineAt(lines, pos + i)) == AsRows(m)[i]
    {
      MatrixRow(m, lines, pos, i);
    }
    LinesReadBack(lines, pos, RowOf, AsRows(m));
  }

  lemma MatrixReadsBack(m: seq<seq<int>>, lines: seq<string>, pos: nat)
    requires At(lines, pos, [IntText(|m|)] + CountedRows(m))
    ensures IntAt(lines, pos) == Int(|m|) && LinesAt(lines, pos + 1, |m|, RowOf) == AsRows(m)
  {
    AtSplit(lines, pos, [IntText(|m|)], CountedRows(m));
    FirstLine(lines, pos, IntText(|m|));
    IntReadsBack(|m|, lines, pos);
    MatrixRows(m, lines, pos + 1);
  }

  lemma StringArrayReadsBack(ss: seq<string>, lines: seq<string>, pos: nat)
    requires At(lines, pos, [IntText(|ss|)] + ss) && forall i :: 0 <= i < |ss| ==> SingleLine(ss[i])
    ensures IntAt(lines, pos) == Int(|ss|) && LinesAt(lines, pos + 1, |ss|, Same) == ss
  {
    AtSplit(lines, pos, [IntText(|ss|)], ss);
    assert lines[pos + 0] == [IntText(|ss|)][0];
    IntReadsBack(|ss|, lines, pos);
    forall i | 0 <= i < |ss|
      ensures Same(LineAt(lines, pos + 1 + i)) == ss[i]
    {
      assert lines[pos + 1 + i] == ss[i];
      StripSingleLine(ss[i]);
    }
    LinesReadBack(lines, pos + 1, Same, ss);
  }

  lemma AtSplit(lines: seq<string>, pos: nat, mine: seq<string>, rest: seq<string>)
    requires At(lines, pos, mine + rest)
    ensures At(lines, pos, mine) && At(lines, pos + |mine|, rest)
  {
    assert forall i :: 0 <= i < |mine| ==> mine[i] == (mine + rest)[i];
    forall i | 0 <= i < |rest|
      ensures lines[pos + |mine| + i] == rest[i]
    {
      assert lines[pos + (|mine| + i)] == (mine + rest)[|mine| + i];
    }
  }

  lemma TwoLines(lines: seq<string>, pos: nat, a: string, b: string)
    requires At(lines, pos, [a, b])
    ensures pos + 1 < |lines| && lines[pos] == a && lines[pos + 1] == b && NextTwo(lines, pos) == pos + 2
  {
    assert lines[pos + 0] == [a, b][0] && lines[pos + 1] == [a, b][1];
  }

  lemma IntLinesReadBack(lines: seq<string>, pos: nat, ns: seq<int>)
    requires At(lines, pos, [IntText(|ns|), Row(ns)])
    ensures IntListAt(lines, pos) == AsNumbers(ns) && NextTwo(lines, pos) == pos + 2
  {
    TwoLines(lines, pos, IntText(|ns|), Row(ns));
    IntListReadsBack(ns, lines, pos);
  }

  lemma IntArrayArgReadsBack(v: Value, lines: seq<string>, pos: nat, mine: seq<string>, a: Arg, end: nat)
    requires Validates(IntArrayT, v) && At(lines, pos, mine)
    requires mine == ArgLines(IntArrayT, v) && a == Meaning(IntArrayT, v) && end == pos + |mine|
    ensures ReadAt(IntArrayT, lines, pos) == (a, end)
  {
    IntLinesReadBack(lines, pos, Ints(v));
  }

  lemma ListArgReadsBack(v: Value, lines: seq<string>, pos: nat, mine: seq<string>, a: Arg, end: nat)
    requires Validates(ListT, v) && At(lines, pos, mine)
    requires mine == ArgLines(ListT, v) && a == Meaning(ListT, v) && end == pos + |mine|
    ensures ReadAt(ListT, lines, pos) == (a, end)
  {
    IntLinesReadBack(lines, pos, Ints(v));
  }

  lemma TreeLines(v: Value, ts: seq<Token<Decimal.Number>>)
    requires Validates(TreeT, v) && ts == LevelOrder.Trim(Entries(v))
    ensures ArgLines(TreeT, v) == [IntText(|ts|), Join(TokenTexts(ts), ' ')]
    ensures Meaning(TreeT, v) == ATree(Decode(ts))
  {
    DecodeIgnoresTrailingNulls(Entries(v));
  }

  lemma TreeAtLines(lines: seq<string>, pos: nat, ts: seq<Token<Decimal.Number>>, mine: seq<string>, a: Arg, end: nat)
    requires IntTokens(ts) && At(lines, pos, mine) && mine == [IntText(|ts|), Join(TokenTexts(ts), ' ')]
    requires a == ATree(Decode(ts)) && end == pos + 2
    ensures ReadAt(TreeT, lines, pos) == (a, end)
  {
    TwoLines(lines, pos, IntText(|ts|), Join(TokenTexts(ts), ' '));
    TreeReadsBack(ts, lines, pos);
  }

  lemma TreeArgReadsBack(v: Value, lines: seq<string>, pos: nat, mine: seq<string>, a: Arg, end: nat)
    requires Validates(TreeT, v) && At(lines, pos, mine)
    requires mine == ArgLines(TreeT, v) && a == Meaning(TreeT, v) && end == pos + |mine|
    ensures ReadAt(TreeT, lines, pos) == (a, end)
  {
    var ts := LevelOrder.Trim(Entries(v));
    TreeLines(v, ts);
    TreeAtLines(lines, pos, ts, mine, a, end);
  }

  lemma MatrixArgReadsBack(v: Value, lines: seq<string>, pos: nat, mine: seq<string>, a: Arg, end: nat)
    requires Validates(IntMatrixT, v) && At(lines, pos, mine)
    requires mine == ArgLines(IntMatrixT, v) && a == Meaning(IntMatrixT, v) && end == pos + |mine|
    ensures ReadAt(IntMatrixT, lines, pos) == (a, end)
  {
    MatrixReadsBack(Matrix(v), lines, pos);
  }

  lemma StringsArgReadsBack(v: Value, lines: seq<string>, pos: nat, mine: seq<string>, a: Arg, end: nat)
    requires Validates(StringArrayT, v) && At(lines, pos, mine)
    requires mine == ArgLines(StringArrayT, v) && a == Meaning(StringArrayT, v) && end == pos + |mine|
    ensures ReadAt(StringArrayT, lines, pos) == (a, end)
  {
    StringArrayReadsBack(Strings(v), lines, pos);
  }

  /** Every reader returns the value its encoder wrote and stops right after its lines. */
  lemma ReadsBack(ty: ValueType, v: Value, lines: seq<string>, pos: nat, mine: seq<string>, a: Arg, end: nat)
    requires Validates(ty, v) && (v.Number? ==> WellFormed(v.num)) && At(lines, pos, mine)
    requires mine == ArgLines(ty, v) && a == Meaning(ty, v) && end == pos + |mine|
    ensures ReadAt(ty, lines, pos) == (a, end)
  {
    if ty == IntT { IntArgReadsBack(v, lines, pos, mine, a, end); }
    else if ty == LongT { LongArgReadsBack(v, lines, pos, mine, a, end); }
    else if ty == DoubleT { DoubleArgReadsBack(v, lines, pos, mine, a, end); }
    else if ty == BoolT { BoolArgReadsBack(v, lines, pos, mine, a, end); }
    else if ty == StringT { StringArgReadsBack(v, lines, pos, mine, a, end); }
    else if ty == IntArrayT { IntArrayArgReadsBack(v, lines, pos, mine, a, end); }
    else if ty == ListT { ListArgReadsBack(v, lines, pos, mine, a, end); }
    else if ty == IntMatrixT { MatrixArgReadsBack(v, lines, pos, mine, a, end); }
    else if ty == StringArrayT { StringsArgReadsBack(v, lines, pos, mine, a, end); }
    else { TreeArgReadsBack(v, lines, pos, mine, a, end); }
  }

  // ------------------------------------------------------------ all arguments

  function Meanings(types: seq<ValueType>, args: seq<Value>): (r: seq<Arg>)
    requires ArgsValid(types, args)
    ensures |r| == |types| && forall i :: 0 <= i < |r| ==> r[i] == Meaning(types[i], args[i])
  {
    seq(|types|, i requires 0 <= i < |types| => Meaning(types[i], args[i]))
  }

  ghost predicate ArgsWellFormed(args: seq<Value>) {
    forall i :: 0 <= i < |args| && args[i].Number? ==> WellFormed(args[i].num)
  }

  ghost predicate ReadsFrom(read: Reader, ty: ValueType, lines: seq<string>, pos: nat, chunk: seq<string>, a: Arg) {
    read(ty, lines, pos) == (a, pos + |chunk|)
  }

  /** Wherever the lines of the chunk stand, the reader returns `a` and stops behind them. */
  ghost predicate ReadsChunk(read: Reader, ty: ValueType, lines: seq<string>, chunk: seq<string>, a: Arg) {
    forall p: nat :: At(lines, p, chunk) ==> ReadsFrom(read, ty, lines, p, chunk, a)
  }

  ghost predicate ReadsChunks(read: Reader, types: seq<ValueType>, lines: seq<string>, chunks: seq<seq<string>>, out: seq<Arg>) {
    |types| == |chunks| == |out| && forall i :: 0 <= i < |types| ==> ReadsChunk(read, types[i], lines, chunks[i], out[i])
  }

  lemma {:induction false} ReadAllFrom(read: Reader, types: seq<ValueType>, chunks: seq<seq<string>>, out: seq<Arg>,
                                       lines: seq<string>, pos: nat, end: nat)
    requires ReadsChunks(read, types, lines, chunks, out)
    requires At(lines, pos, Flatten(chunks)) && end == pos + |Flatten(chunks)|
    ensures ReadAll(read, types, lines, pos) == (out, end)
  {
    if types != [] {
      AtSplit(lines, pos, chunks[0], Flatten(chunks[1..]));
      assert ReadsChunk(read, types[0], lines, chunks[0], out[0]) && ReadsFrom(read, types[0], lines, pos, chunks[0], out[0]);
      ReadAllFrom(read, types[1..], chunks[1..], out[1..], lines, pos + |chunks[0]|, end);
      assert [out[0]] + out[1..] == out;
    }
  }

  lemma AppliedReader(ty: ValueType, lines: seq<string>, pos: nat, chunk: seq<string>, a: Arg, end: nat)
    requires ReadAt(ty, lines, pos) == (a, end) && end == pos + |chunk|
    ensures ReadsFrom(ReadAt, ty, lines, pos, chunk, a)
  {
  }

  lemma ReadsBackFrom(ty: ValueType, v: Value, lines: seq<string>, pos: nat, chunk: seq<string>, a: Arg)
    requires Validates(ty, v) && (v.Number? ==> WellFormed(v.num)) && At(lines, pos, chunk)
    requires chunk == ArgLines(ty, v) && a == Meaning(ty, v)
    ensures ReadsFrom(ReadAt, ty, lines, pos, chunk, a)
  {
    var end := pos + |chunk|;
    ReadsBack(ty, v, lines, pos, chunk, a, end);
    AppliedReader(ty, lines, pos, chunk, a, end);
  }

  lemma ChunkReadsBack(ty: ValueType, v: Value, lines: seq<string>, chunk: seq<string>, a: Arg)
    requires Validates(ty, v) && (v.Number? ==> WellFormed(v.num))
    requires chunk == ArgLines(ty, v) && a == Meaning(ty, v)
    ensures ReadsChunk(ReadAt, ty, lines, chunk, a)
  {
    forall p: nat | At(lines, p, chunk)
      ensures ReadsFrom(ReadAt, ty, lines, p, chunk, a)
    {
      ReadsBackFrom(ty, v, lines, p, chunk, a);
    }
  }

  lemma AllChunksReadBack(types: seq<ValueType>, args: seq<Value>, chunks: seq<seq<string>>, out: seq<Arg>, lines: seq<string>)
    requires ArgsValid(types, args) && ArgsWellFormed(args)
    requires chunks == Chunks(types, args) && out == Meanings(types, args)
    ensures ReadsChunks(ReadAt, types, lines, chunks, out)
  {
    forall i | 0 <= i < |types|
      ensures ReadsChunk(ReadAt, types[i], lines, chunks[i], out[i])
    {
      ChunkReadsBack(types[i], args[i], lines, chunks[i], out[i]);
    }
  }

  lemma FirstChunk(types: seq<ValueType>, args: seq<Value>)
    requires ArgsValid(types, args)
    ensures types != [] ==> Flatten(Chunks(types, args)) != []
  {
    if types != [] {
      assert |Chunks(types, args)[0]| > 0;
    }
  }

  lemma ChunksSingle(types: seq<ValueType>, args: seq<Value>)
    requires ArgsValid(types, args) && ArgsWellFormed(args)
    ensures forall i :: 0 <= i < |Flatten(Chunks(types, args))| ==> SingleLine(Flatten(Chunks(types, args))[i])
  {
    var chunks := Chunks(types, args);
    forall i, j | 0 <= i < |chunks| && 0 <= j < |chunks[i]|
      ensures SingleLine(chunks[i][j])
    {
      ArgLinesSingle(types[i], args[i]);
    }
    FlattenSingle(chunks);
  }

  lemma StartsAtZero(mine: seq<string>, lines: seq<string>)
    requires lines == mine + [""]
    ensures At(lines, 0, mine)
  {
    forall i | 0 <= i < |mine|
      ensures lines[0 + i] == mine[i]
    {
    }
  }

  lemma LinesReadAsArguments(types: seq<ValueType>, args: seq<Value>, chunks: seq<seq<string>>, out: seq<Arg>,
                             lines: seq<string>, end: nat)
    requires ArgsValid(types, args) && ArgsWellFormed(args)
    requires chunks == Chunks(types, args) && out == Meanings(types, args)
    requires lines == Flatten(chunks) + [""] && end == 0 + |Flatten(chunks)|
    ensures ReadAll(ReadAt, types, lines, 0) == (out, end)
  {
    AllChunksReadBack(types, args, chunks, out, lines);
    StartsAtZero(Flatten(chunks), lines);
    ReadAllFrom(ReadAt, types, chunks, out, lines, 0, end);
  }

  /** For every signature and every argument list the judge accepts, the harness reads from the encoded
      input exactly the intended arguments, and has then consumed every encoded line. */
  lemma HarnessReadsArguments(types: seq<ValueType>, args: seq<Value>)
    requires ArgsValid(types, args) && ArgsWellFormed(args)
    ensures EncodeInput(types, args).Ok?
    ensures var lines := Split(EncodeInput(types, args).value, IsNewline);
      ReadAll(ReadAt, types, lines, 0) == (Meanings(types, args), |Flatten(Chunks(types, args))|)
    ensures types != [] ==>
      Split(EncodeInput(types, args).value, IsNewline) == Flatten(Chunks(types, args)) + [""]
  {
    var mine := Flatten(Chunks(types, args));
    ChunksSingle(types, args);
    SplitEncoded(mine);
    FirstChunk(types, args);
    if types != [] {
      LinesReadAsArguments(types, args, Chunks(types, args), Meanings(types, args), mine + [""], |mine|);
    }
  }

  /** From end to end: the judge encodes the arguments, the generated program reads them from standard input, and what
      it passes on are the intended values, lists and trees, each of them in nodes of its own. */
  method LoadArguments(types: seq<ValueType>, args: seq<Value>) returns (stdin: Stdin, xs: seq<Loaded>, ghost heaps: seq<Heap>)
    requires ArgsValid(types, args) && ArgsWellFormed(args)
    ensures AllStand(xs, Meanings(types, args), heaps)
    ensures stdin.pos == |Flatten(Chunks(types, args))|
    ensures types != [] ==> stdin.lines == Flatten(Chunks(types, args)) + [""]
  {
    HarnessReadsArguments(types, args);
    stdin := new Stdin(EncodeInput(types, args).value);
    ghost var out;
    xs, out, heaps := stdin.ReadArgs(types);
  }

  // ------------------------------------------------------------ printers

  function FmtNumbers(ns: seq<Decimal.Number>): string {
    Join(seq(|ns|, i requires 0 <= i < |ns| => NumberText(ns[i])), ' ')
  }

  /** What the harness prints for a result of a type other than double, before the final line break. */
  function Format(a: Arg): string
  {
    match a
    case ANumber(n) => NumberText(n)
    case ABool(b) => BoolText(b)
    case AString(s) => s
    case ANumbers(ns) => FmtNumbers(ns)
    case AList(ns) => FmtNumbers(ns)
    case ARows(rows) =>
      Join([IntText(|rows|)] + seq(|rows|, i requires 0 <= i < |rows| => FmtNumbers(rows[i])), '\n')
    case AStrings(ss) => Join([IntText(|ss|)] + ss, '\n')
    case ATree(t) => Join(TokenTexts(Tokens(t)), ' ')
  }

  lemma FmtIsRow(ns: seq<int>)
    ensures FmtNumbers(AsNumbers(ns)) == Row(ns)
  {
    var r := AsNumbers(ns);
    assert seq(|r|, i requires 0 <= i < |r| => NumberText(r[i])) == IntTexts(ns);
  }

  lemma FmtIsRows(rows: seq<seq<int>>)
    ensures var r := AsRows(rows);
      seq(|r|, i requires 0 <= i < |r| => FmtNumbers(r[i])) == PlainRows(rows)
  {
    forall i | 0 <= i < |rows|
      ensures FmtNumbers(AsRows(rows)[i]) == PlainRows(rows)[i]
    {
      FmtIsRow(rows[i]);
    }
  }

  lemma TokenTextsInjective(ts: seq<Token<Decimal.Number>>, us: seq<Token<Decimal.Number>>)
    requires IntTokens(ts) && IntTokens(us)
    ensures Join(TokenTexts(ts), ' ') == Join(TokenTexts(us), ' ') <==> ts == us
  {
    TokensReadBack(ts);
    TokensReadBack(us);
  }

  lemma {:induction false} WalkIntTokens(vals: seq<Decimal.Number>, ts: seq<Token<Decimal.Number>>)
    requires IntTokens(ts) && AllInts(vals)
    ensures forall k :: 0 <= k < |vals| ==> IntTree(Grow(vals, ts)[k])
    decreases |ts|
  {
    if vals != [] && ts != [] {
      var l, r := ts[0], Second(ts);
      var next := vals[1..] + Kids(l, r);
      assert AllInts(next);
      WalkIntTokens(next, AfterTwo(ts));
      GrowExpands(vals, ts, next);
    }
  }

  ghost predicate IntTree(t: Tree<Decimal.Number>) {
    t.Leaf? || (t.val.Int? && IntTree(t.left) && IntTree(t.right))
  }

  lemma {:induction false} IntTreeWalk(q: seq<Tree<Decimal.Number>>)
    requires forall k :: 0 <= k < |q| ==> IntTree(q[k])
    ensures IntTokens(Walk(q))
    decreases QueueWeight(q)
  {
    if q != [] {
      var next := q[1..] + Children(q[0]);
      WalkStep(q, next);
      IntTreeWalk(next);
    }
  }

  lemma DecodedIntTree(es: seq<Token<Decimal.Number>>)
    requires IntTokens(es)
    ensures IntTree(Decode(es))
  {
    if es != [] && es[0].Num? { WalkIntTokens([es[0].v], es[1..]); }
  }

  lemma TokensOfIntTree(t: Tree<Decimal.Number>)
    requires IntTree(t)
    ensures IntTokens(Tokens(t))
  {
    IntTreeWalk([t]);
  }

  lemma TrimIntTokens(es: seq<Token<Decimal.Number>>)
    requires IntTokens(es)
    ensures IntTokens(LevelOrder.Trim(es))
  {
  }

  lemma FormatTree(t: Tree<Decimal.Number>)
    ensures Format(ATree(t)) == Join(TokenTexts(Tokens(t)), ' ')
  {
  }

  /** A tree is printed like an array exactly when its print is that array. */
  lemma EchoTree(ts: seq<Token<Decimal.Number>>, t: Tree<Decimal.Number>)
    requires IntTokens(ts) && IntTree(t)
    ensures Join(TokenTexts(Tokens(t)), ' ') == Join(TokenTexts(ts), ' ') <==> Tokens(t) == ts
  {
    TokensOfIntTree(t);
    TokenTextsInjective(Tokens(t), ts);
  }

  lemma EchoOther(ty: ValueType, v: Value, fixed: Decimal.Number -> string)
    requires Validates(ty, v) && !ty.DoubleT? && !ty.TreeT?
    ensures Format(Meaning(ty, v)) == Join(OutputLines(ty, v, fixed), '\n')
  {
    if ty.IntArrayT? || ty.ListT? {
      FmtIsRow(Ints(v));
    } else if ty.IntMatrixT? {
      FmtIsRows(Matrix(v));
    }
  }

  lemma TerminatedEqual(a: string, b: string)
    ensures a + "\n" == b + "\n" <==> a == b
  {
    if a + "\n" == b + "\n" {
      assert a == (a + "\n")[..|a|] == (b + "\n")[..|b|] == b;
    }
  }

  /** A program that returns its argument prints the expected output, except that for trees this holds
      exactly when the trimmed array is canonical. */
  lemma EchoPrintsExpected(ty: ValueType, v: Value, fixed: Decimal.Number -> string)
    requires Validates(ty, v) && !ty.DoubleT?
    ensures Ok(Format(Meaning(ty, v)) + "\n") == EncodeOutput(ty, v, fixed) <==>
            (ty.TreeT? ==> Canonical(LevelOrder.Trim(Entries(v))))
  {
    TerminatedEqual(Format(Meaning(ty, v)), Join(OutputLines(ty, v, fixed), '\n'));
    if ty.TreeT? {
      var ts := LevelOrder.Trim(Entries(v));
      FormatTree(Decode(Entries(v)));
      DecodedIntTree(Entries(v));
      TrimIntTokens(Entries(v));
      EchoTree(ts, Decode(Entries(v)));
      DecodeIgnoresTrailingNulls(Entries(v));
      PrintAfterDecode(ts);
    } else {
      EchoOther(ty, v, fixed);
    }
  }

  // ------------------------------------------------------------ which arguments can be passed

  function NumberValues(ns: seq<Decimal.Number>): (v: Value)
    ensures v.Arr? && |v.items| == |ns| && forall i :: 0 <= i < |ns| ==> v.items[i] == Value.Number(ns[i])
  {
    Arr(seq(|ns|, i requires 0 <= i < |ns| => Value.Number(ns[i])))
  }

  lemma NumbersValid(ns: seq<Decimal.Number>)
    requires AllInts(ns)
    ensures IsIntArray(NumberValues(ns)) && AsNumbers(Ints(NumberValues(ns))) == ns
  {
  }

  function RowValues(rows: seq<seq<Decimal.Number>>): (v: Value)
    ensures v.Arr? && |v.items| == |rows| && forall i :: 0 <= i < |rows| ==> v.items[i] == NumberValues(rows[i])
  {
    Arr(seq(|rows|, i requires 0 <= i < |rows| => NumberValues(rows[i])))
  }

  lemma RowsValid(rows: seq<seq<Decimal.Number>>)
    requires forall i :: 0 <= i < |rows| ==> AllInts(rows[i])
    ensures Validates(IntMatrixT, RowValues(rows)) && AsRows(Matrix(RowValues(rows))) == rows
  {
    forall i | 0 <= i < |rows|
      ensures IsIntArray(RowValues(rows).items[i]) && AsNumbers(Ints(RowValues(rows).items[i])) == rows[i]
    {
      NumbersValid(rows[i]);
    }
  }

  function StringValues(ss: seq<string>): (v: Value)
    ensures v.Arr? && |v.items| == |ss| && forall i :: 0 <= i < |ss| ==> v.items[i] == Str(ss[i])
  {
    Arr(seq(|ss|, i requires 0 <= i < |ss| => Str(ss[i])))
  }

  lemma StringsValid(ss: seq<string>)
    requires forall i :: 0 <= i < |ss| ==> '\n' !in ss[i] && '\r' !in ss[i]
    ensures Validates(StringArrayT, StringValues(ss)) && Strings(StringValues(ss)) == ss
  {
  }

  function EntryValues(ts: seq<Token<Decimal.Number>>): (v: Value)
    ensures v.Arr? && |v.items| == |ts|
    ensures forall i :: 0 <= i < |ts| ==> v.items[i] == if ts[i].Null? then Missing else Value.Number(ts[i].v)
  {
    Arr(seq(|ts|, i requires 0 <= i < |ts| => if ts[i].Null? then Missing else Value.Number(ts[i].v)))
  }

  lemma EntriesValid(ts: seq<Token<Decimal.Number>>)
    requires IntTokens(ts) && (ts != [] ==> ts[0].Num?)
    ensures Validates(TreeT, EntryValues(ts)) && Entries(EntryValues(ts)) == ts
  {
  }

  lemma TreeValid(t: Tree<Decimal.Number>)
    requires IntTree(t)
    ensures Validates(TreeT, EntryValues(Tokens(t))) && Meaning(TreeT, EntryValues(Tokens(t))) == ATree(t)
  {
    TokensOfIntTree(t);
    FirstToken(t);
    EntriesValid(Tokens(t));
    DecodeTokens(t);
  }

  lemma FirstToken<T>(t: Tree<T>)
    ensures Tokens(t) != [] ==> Tokens(t)[0].Num?
  {
    if t.Node? {
      WalkOfNode(t);
    } else {
      WalkStep([t], []);
    }
  }

  /** Every expressible argument is what some valid JSON value stands for. */
  lemma EveryArgumentCanBePassed(ty: ValueType, a: Arg) returns (v: Value)
    requires Expressible(ty, a)
    ensures Validates(ty, v) && Meaning(ty, v) == a
  {
    match ty
    case IntT | LongT | DoubleT => v := Value.Number(a.num);
    case BoolT => v := Bool(a.b);
    case StringT => v := Str(a.s);
    case IntArrayT | ListT => NumbersValid(a.ns); v := NumberValues(a.ns);
    case IntMatrixT => RowsValid(a.rows); v := RowValues(a.rows);
    case StringArrayT => StringsValid(a.ss); v := StringValues(a.ss);
    case TreeT => TreeValid(a.t); v := EntryValues(Tokens(a.t));
  }

  /** And every valid JSON value stands for an expressible argument; only the empty array stands for the empty tree. */
  lemma OnlyArgumentsArePassed(ty: ValueType, v: Value)
    requires Validates(ty, v)
    ensures Expressible(ty, Meaning(ty, v))
    ensures ty.TreeT? ==> (Meaning(ty, v).t.Leaf? <==> v.items == [])
  {
    if ty.TreeT? {
      DecodedIntTree(Entries(v));
      assert v.items != [] ==> Entries(v)[0].Num?;
    }
  }

  /** Every call of a candidate's function can be made: whatever arguments its parameters can take, some input that the
      judge encodes makes the harness read exactly these. */
  lemma EveryCallCanBeMade(types: seq<ValueType>, call: seq<Arg>) returns (args: seq<Value>, text: string)
    requires |call| == |types| && forall i :: 0 <= i < |types| ==> Expressible(types[i], call[i])
    requires forall i :: 0 <= i < |types| && call[i].ANumber? ==> WellFormed(call[i].num)
    ensures EncodeInput(types, args) == Ok(text) && ReadAll(ReadAt, types, Split(text, IsNewline), 0).0 == call
  {
    args := [];
    for i := 0 to |types|
      invariant |args| == i
      invariant forall k :: 0 <= k < i ==> Validates(types[k], args[k]) && Meaning(types[k], args[k]) == call[k]
    {
      var v := EveryArgumentCanBePassed(types[i], call[i]);
      args := args + [v];
    }
    HarnessReadsArguments(types, args);
    text := EncodeInput(types, args).value;
    assert Meanings(types, args) == call;
  }
}
