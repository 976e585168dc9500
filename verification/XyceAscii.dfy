/** The ASCII `Values:` section of a raw file: indexed records of one value per line. */
module XyceAscii {
  import opened Prelude
  import opened Decimals

  datatype Value<V> = Real(value: V) | Complex(re: V, im: V)

  datatype Refusal = Truncated | BadIndex(index: nat) | BlankValue | NonNumber | TrailingRecords

  /** How one line is read: `number` is the numeric conversion, None where it raises. */
  datatype Reader<!V> = Reader(number: string -> Option<V>, complex: bool, variables: nat)

  // Lines.

  predicate IsSpace(c: char) {
    c == ' ' || '\t' <= c <= '\r' || '\U{1c}' <= c <= '\U{1f}'
  }

  predicate IsParen(c: char) {
    c == '(' || c == ')'
  }

  predicate Dropped(c: char, parens: bool) {
    if parens then IsParen(c) else IsSpace(c)
  }

  function TrimLeft(s: string, parens: bool): (r: string)
    ensures |r| <= |s|
  {
    if s != "" && Dropped(s[0], parens) then TrimLeft(s[1..], parens) else s
  }

  function TrimRight(s: string, parens: bool): (r: string)
    ensures |r| <= |s|
  {
    if s != "" && Dropped(s[|s| - 1], parens) then TrimRight(s[..|s| - 1], parens) else s
  }

  function Strip(s: string): string {
    TrimRight(TrimLeft(s, false), false)
  }

  predicate IsBlank(line: string) {
    Strip(line) == ""
  }

  /** A field ends at a comma, or at white space. */
  predicate Ends(c: char, comma: bool) {
    if comma then c == ',' else IsSpace(c)
  }

  function SpanTo(s: string, comma: bool): (n: nat)
    ensures n <= |s|
  {
    if s == "" || Ends(s[0], comma) then 0 else 1 + SpanTo(s[1..], comma)
  }

  /** split(maxsplit=1): the two fields of a stripped line, if there are two. */
  function TwoFields(line: string): Option<(string, string)> {
    var s := Strip(line);
    var n := SpanTo(s, false);
    var rest := TrimLeft(s[n..], false);
    if rest == "" then None else Some((s[..n], rest))
  }

  function Stripped(token: string): string {
    TrimRight(TrimLeft(Strip(token), true), true)
  }

  /** split(","): the two fields, if there are two. */
  function Pair(s: string): Option<(string, string)> {
    var n := SpanTo(s, true);
    if n < |s| && SpanTo(s[n + 1..], true) == |s| - n - 1 then Some((s[..n], s[n + 1..])) else None
  }

  function AsciiValue<V>(reader: Reader<V>, token: string): Option<Value<V>> {
    if reader.complex then
      match Pair(Stripped(token))
      case None => None
      case Some((a, b)) =>
        match (reader.number(a), reader.number(b))
        case (Some(re), Some(im)) => Some(Complex(re, im))
        case _ => None
    else
      match reader.number(Stripped(token))
      case Some(v) => Some(Real(v))
      case None => None
  }

  // What the reader answers, record by record.

  function ReadValues<V>(reader: Reader<V>, lines: seq<string>, n: nat): Result<seq<Value<V>>, Refusal> {
    if n == 0 then Ok([])
    else if lines == [] then Err(Truncated)
    else if IsBlank(lines[0]) then Err(BlankValue)
    else
      match AsciiValue(reader, Strip(lines[0]))
      case None => Err(NonNumber)
      case Some(v) =>
        match ReadValues(reader, lines[1..], n - 1)
        case Err(e) => Err(e)
        case Ok(vs) => Ok([v] + vs)
  }

  function ReadRecord<V>(reader: Reader<V>, lines: seq<string>, index: nat): Result<seq<Value<V>>, Refusal>
    requires lines != [] && reader.variables > 0
  {
    match TwoFields(lines[0])
    case None => Err(BadIndex(index))
    case Some((key, token)) =>
      if key != Numeral(index) then Err(BadIndex(index))
      else
        match AsciiValue(reader, token)
        case None => Err(NonNumber)
        case Some(v) =>
          match ReadValues(reader, lines[1..], reader.variables - 1)
          case Err(e) => Err(e)
          case Ok(vs) => Ok([v] + vs)
  }

  function LeadingBlanks(lines: seq<string>): (n: nat)
    ensures n <= |lines|
    ensures forall i :: 0 <= i < n ==> IsBlank(lines[i])
    ensures n < |lines| ==> !IsBlank(lines[n])
  {
    if lines == [] || !IsBlank(lines[0]) then 0 else 1 + LeadingBlanks(lines[1..])
  }

  predicate AllBlank(lines: seq<string>) {
    forall line :: line in lines ==> IsBlank(line)
  }

  function Read<V>(reader: Reader<V>, lines: seq<string>, index: nat, points: nat): Result<seq<seq<Value<V>>>, Refusal>
    requires reader.variables > 0
    decreases points
  {
    if points == 0 then if AllBlank(lines) then Ok([]) else Err(TrailingRecords)
    else
      var b := LeadingBlanks(lines);
      if b == |lines| then Err(Truncated)
      else
        match ReadRecord(reader, lines[b..], index)
        case Err(e) => Err(e)
        case Ok(row) =>
          RecordFits(reader, lines[b..], index);
          match Read(reader, lines[b + reader.variables..], index + 1, points - 1)
          case Err(e) => Err(e)
          case Ok(rows) => Ok([row] + rows)
  }

  lemma {:induction false} ValuesFit<V>(reader: Reader<V>, lines: seq<string>, n: nat)
    requires ReadValues(reader, lines, n).Ok?
    ensures |ReadValues(reader, lines, n).value| == n <= |lines|
    decreases n
  {
    if n > 0 {
      ValuesFit(reader, lines[1..], n - 1);
    }
  }

  lemma RecordFits<V>(reader: Reader<V>, lines: seq<string>, index: nat)
    requires lines != [] && reader.variables > 0 && ReadRecord(reader, lines, index).Ok?
    ensures |ReadRecord(reader, lines, index).value| == reader.variables <= |lines|
  {
    ValuesFit(reader, lines[1..], reader.variables - 1);
  }

  function After<T>(rows: seq<T>, r: Result<seq<T>, Refusal>): Result<seq<T>, Refusal> {
    match r
    case Err(e) => Err(e)
    case Ok(more) => Ok(rows + more)
  }

  lemma AfterNext<T>(rows: seq<T>, row: T, r: Result<seq<T>, Refusal>)
    ensures After(rows, After([row], r)) == After(rows + [row], r)
    ensures After([], r) == r && After(rows, Ok([])) == Ok(rows)
    ensures r.Err? ==> After(rows, r) == r
  {
    assert rows + [] == rows;
    if r.Ok? {
      assert rows + ([row] + r.value) == (rows + [row]) + r.value && [] + r.value == r.value;
    }
  }

  lemma ReadUnfolds<V>(reader: Reader<V>, lines: seq<string>, index: nat, points: nat)
    requires reader.variables > 0 && points > 0
    ensures var b := LeadingBlanks(lines);
            if b == |lines| then Read(reader, lines, index, points) == Err(Truncated)
            else
              match ReadRecord(reader, lines[b..], index)
              case Err(e) => Read(reader, lines, index, points) == Err(e)
              case Ok(row) =>
                b + reader.variables <= |lines|
                && Read(reader, lines, index, points) == After([row], Read(reader, lines[b + reader.variables..], index + 1, points - 1))
  {
    hide ReadRecord, LeadingBlanks;
    var b := LeadingBlanks(lines);
    if b < |lines| && ReadRecord(reader, lines[b..], index).Ok? {
      RecordFits(reader, lines[b..], index);
    }
  }

  lemma ReadEnds<V>(reader: Reader<V>, lines: seq<string>, index: nat)
    requires reader.variables > 0
    ensures Read(reader, lines, index, 0) == if AllBlank(lines) then Ok([]) else Err(TrailingRecords)
  {
  }

  /** The reader: a cursor over the lines, which stays within them. */
  method ParseXyceAscii<V>(reader: Reader<V>, lines: seq<string>, points: nat) returns (r: Result<seq<seq<Value<V>>>, Refusal>)
    requires reader.variables > 0
    ensures r == Read(reader, lines, 0, points)
  {
    hide *;
    var cursor := 0;
    var rows: seq<seq<Value<V>>> := [];
    assert lines[0..] == lines;
    AfterNext(rows, [], Read(reader, lines, 0, points));
    for index := 0 to points
      invariant 0 <= cursor <= |lines|
      invariant Read(reader, lines, 0, points) == After(rows, Read(reader, lines[cursor..], index, points - index))
    {
      ghost var rest := lines[cursor..];
      ReadUnfolds(reader, rest, index, points - index);
      AfterNext(rows, [], Err(Truncated));
      cursor := SkipBlanks(lines, cursor);
      if cursor >= |lines| {
        return Err(Truncated);
      }
      assert rest[LeadingBlanks(rest)..] == lines[cursor..];
      var record;
      record, cursor := ParseRecord(reader, lines, cursor, index);
      if record.Err? {
        AfterNext(rows, [], Err(record.error));
        return Err(record.error);
      }
      assert rest[LeadingBlanks(rest) + reader.variables..] == lines[cursor..];
      AfterNext(rows, record.value, Read(reader, lines[cursor..], index + 1, points - index - 1));
      rows := rows + [record.value];
    }
    ReadEnds(reader, lines[cursor..], points);
    AfterNext(rows, [], Err(TrailingRecords));
    if !AllBlank(lines[cursor..]) {
      return Err(TrailingRecords);
    }
    r := Ok(rows);
  }

  method SkipBlanks(lines: seq<string>, from: nat) returns (cursor: nat)
    requires from <= |lines|
    ensures cursor == from + LeadingBlanks(lines[from..])
  {
    cursor := from;
    while cursor < |lines| && IsBlank(lines[cursor])
      invariant from <= cursor <= |lines|
      invariant from + LeadingBlanks(lines[from..]) == cursor + LeadingBlanks(lines[cursor..])
    {
      assert lines[cursor..][1..] == lines[cursor + 1..];
      cursor := cursor + 1;
    }
  }

  lemma ValuesUnfold<V>(reader: Reader<V>, lines: seq<string>, n: nat)
    ensures n == 0 ==> ReadValues(reader, lines, n) == Ok([])
    ensures n > 0 && lines == [] ==> ReadValues(reader, lines, n) == Err(Truncated)
    ensures n > 0 && lines != [] && Strip(lines[0]) == "" ==> ReadValues(reader, lines, n) == Err(BlankValue)
    ensures n > 0 && lines != [] && Strip(lines[0]) != "" ==>
              match AsciiValue(reader, Strip(lines[0]))
              case None => ReadValues(reader, lines, n) == Err(NonNumber)
              case Some(v) => ReadValues(reader, lines, n) == After([v], ReadValues(reader, lines[1..], n - 1))
  {
    hide AsciiValue, Strip;
  }

  lemma RecordUnfolds<V>(reader: Reader<V>, lines: seq<string>, index: nat)
    requires lines != [] && reader.variables > 0
    ensures var fields := TwoFields(lines[0]);
            if fields.None? || fields.value.0 != Numeral(index) then ReadRecord(reader, lines, index) == Err(BadIndex(index))
            else
              match AsciiValue(reader, fields.value.1)
              case None => ReadRecord(reader, lines, index) == Err(NonNumber)
              case Some(v) =>
                ReadRecord(reader, lines, index) == After([v], ReadValues(reader, lines[1..], reader.variables - 1))
  {
    hide AsciiValue, TwoFields, Numeral, ReadValues;
  }

  /** The index line and the dependent lines of one point. */
  method ParseRecord<V>(reader: Reader<V>, lines: seq<string>, from: nat, index: nat)
    returns (r: Result<seq<Value<V>>, Refusal>, cursor: nat)
    requires reader.variables > 0 && from < |lines|
    ensures r == ReadRecord(reader, lines[from..], index)
    ensures cursor <= |lines| && (r.Ok? ==> cursor == from + reader.variables)
  {
    hide *;
    RecordUnfolds(reader, lines[from..], index);
    var fields := TwoFields(lines[from]);
    cursor := from + 1;
    if fields.None? || fields.value.0 != Numeral(index) {
      return Err(BadIndex(index)), cursor;
    }
    var first := AsciiValue(reader, fields.value.1);
    if first.None? {
      return Err(NonNumber), cursor;
    }
    var row := [first.value];
    assert lines[from..][1..] == lines[cursor..];
    for n := 0 to reader.variables - 1
      invariant cursor == from + 1 + n <= |lines|
      invariant ReadRecord(reader, lines[from..], index) == After(row, ReadValues(reader, lines[cursor..], reader.variables - 1 - n))
    {
      ValuesUnfold(reader, lines[cursor..], reader.variables - 1 - n);
      AfterNext(row, first.value, Err(Truncated));
      if cursor >= |lines| {
        return Err(Truncated), cursor;
      }
      assert lines[cursor..][1..] == lines[cursor + 1..] && lines[cursor..][0] == lines[cursor];
      var value := Strip(lines[cursor]);
      cursor := cursor + 1;
      AfterNext(row, first.value, Err(BlankValue));
      if value == "" {
        return Err(BlankValue), cursor;
      }
      var read := AsciiValue(reader, value);
      AfterNext(row, first.value, Err(NonNumber));
      if read.None? {
        return Err(NonNumber), cursor;
      }
      AfterNext(row, read.value, ReadValues(reader, lines[cursor..], reader.variables - 2 - n));
      row := row + [read.value];
    }
    ValuesUnfold(reader, lines[cursor..], 0);
    AfterNext(row, first.value, Ok([]));
    r := Ok(row);
  }

  // Acceptance against a grammar.

  /** `line` is a record's first line for this index, with this value. */
  predicate IsIndexLine<V(==)>(reader: Reader<V>, line: string, index: nat, value: Value<V>) {
    TwoFields(line).Some? && TwoFields(line).value.0 == Numeral(index)
    && AsciiValue(reader, TwoFields(line).value.1) == Some(value)
  }

  predicate IsValueLine<V(==)>(reader: Reader<V>, line: string, value: Value<V>) {
    !IsBlank(line) && AsciiValue(reader, Strip(line)) == Some(value)
  }

  ghost predicate IsRecord<V>(reader: Reader<V>, lines: seq<string>, index: nat, row: seq<Value<V>>)
    requires reader.variables > 0
  {
    && |lines| == |row| == reader.variables
    && IsIndexLine(reader, lines[0], index, row[0])
    && forall j :: 1 <= j < |row| ==> IsValueLine(reader, lines[j], row[j])
  }

  /** Exactly b blank lines, and the record. */
  ghost predicate RecordAfter<V>(reader: Reader<V>, lines: seq<string>, index: nat, row: seq<Value<V>>, b: nat)
    requires reader.variables > 0
  {
    && b + reader.variables <= |lines|
    && AllBlank(lines[..b])
    && IsRecord(reader, lines[b..b + reader.variables], index, row)
  }

  /** Blank lines, record `index`, blank lines, record `index + 1`, ..., blank lines. */
  ghost predicate IsListing<V>(reader: Reader<V>, lines: seq<string>, index: nat, rows: seq<seq<Value<V>>>)
    requires reader.variables > 0
    decreases |rows|
  {
    if rows == [] then AllBlank(lines)
    else
      exists b: nat ::
        && b + reader.variables <= |lines| && RecordAfter(reader, lines, index, rows[0], b)
        && IsListing(reader, lines[b + reader.variables..], index + 1, rows[1..])
  }

  lemma {:induction false} ValuesMeanLines<V>(reader: Reader<V>, lines: seq<string>, n: nat, row: seq<Value<V>>)
    ensures ReadValues(reader, lines, n) == Ok(row) <==>
            n == |row| <= |lines| && forall j :: 0 <= j < n ==> IsValueLine(reader, lines[j], row[j])
    decreases n
  {
    if n > 0 && |row| > 0 && lines != [] {
      ValuesMeanLines(reader, lines[1..], n - 1, row[1..]);
      assert row == [row[0]] + row[1..];
      if n == |row| <= |lines| && forall j :: 0 <= j < n ==> IsValueLine(reader, lines[j], row[j]) {
        assert IsValueLine(reader, lines[0], row[0]);
        forall j | 0 <= j < n - 1
          ensures IsValueLine(reader, lines[1..][j], row[1..][j])
        {
          assert IsValueLine(reader, lines[j + 1], row[j + 1]);
        }
      }
      if ReadValues(reader, lines, n) == Ok(row) {
        forall j | 0 <= j < n
          ensures IsValueLine(reader, lines[j], row[j])
        {
          assert j > 0 ==> IsValueLine(reader, lines[1..][j - 1], row[1..][j - 1]);
        }
      }
    }
  }

  lemma RecordMeansLines<V>(reader: Reader<V>, lines: seq<string>, index: nat, row: seq<Value<V>>)
    requires lines != [] && reader.variables > 0
    ensures ReadRecord(reader, lines, index) == Ok(row) <==>
            reader.variables <= |lines| && IsRecord(reader, lines[..reader.variables], index, row)
  {
    hide TwoFields, AsciiValue, IsBlank, Numeral;
    var n := reader.variables;
    if row != [] {
      ValuesMeanLines(reader, lines[1..], n - 1, row[1..]);
      assert row == [row[0]] + row[1..];
      assert n <= |lines| ==> forall j :: 1 <= j < n ==> lines[..n][j] == lines[1..][j - 1];
      assert |row| == n ==> forall j :: 1 <= j < n ==> row[j] == row[1..][j - 1];
    }
  }

  lemma {:induction false} FirstBlanks(lines: seq<string>, b: nat)
    requires b < |lines| && AllBlank(lines[..b]) && !IsBlank(lines[b])
    ensures LeadingBlanks(lines) == b
  {
    var n := LeadingBlanks(lines);
    forall i | 0 <= i < b
      ensures IsBlank(lines[i])
    {
      assert lines[i] in lines[..b];
    }
  }

  lemma IndexLineIsNotBlank<V>(reader: Reader<V>, line: string, index: nat, value: Value<V>)
    requires IsIndexLine(reader, line, index, value)
    ensures !IsBlank(line)
  {
  }

  lemma ReadStep<V>(reader: Reader<V>, lines: seq<string>, index: nat, points: nat, rows: seq<seq<Value<V>>>)
    requires reader.variables > 0 && points > 0 && rows != []
    ensures Read(reader, lines, index, points) == Ok(rows) <==>
            var b, n := LeadingBlanks(lines), reader.variables;
            b < |lines| && ReadRecord(reader, lines[b..], index) == Ok(rows[0])
            && b + n <= |lines| && Read(reader, lines[b + n..], index + 1, points - 1) == Ok(rows[1..])
  {
    hide ReadRecord, LeadingBlanks;
    assert rows == [rows[0]] + rows[1..];
    var b := LeadingBlanks(lines);
    if b < |lines| && ReadRecord(reader, lines[b..], index).Ok? {
      RecordFits(reader, lines[b..], index);
    }
  }

  lemma RecordAfterBlanks<V>(reader: Reader<V>, lines: seq<string>, index: nat, row: seq<Value<V>>, b: nat)
    requires reader.variables > 0 && RecordAfter(reader, lines, index, row, b)
    ensures b == LeadingBlanks(lines) && b + reader.variables <= |lines|
  {
    hide LeadingBlanks, IsBlank, AllBlank, IsIndexLine, IsValueLine;
    IndexLineIsNotBlank(reader, lines[b], index, row[0]);
    FirstBlanks(lines, b);
  }

  lemma ListingStep<V>(reader: Reader<V>, lines: seq<string>, index: nat, rows: seq<seq<Value<V>>>)
    requires reader.variables > 0 && rows != []
    ensures IsListing(reader, lines, index, rows) <==>
            var b, n := LeadingBlanks(lines), reader.variables;
            b + n <= |lines| && RecordAfter(reader, lines, index, rows[0], b) && IsListing(reader, lines[b + n..], index + 1, rows[1..])
  {
    hide RecordAfter, LeadingBlanks;
    var b := LeadingBlanks(lines);
    if IsListing(reader, lines, index, rows) {
      var c: nat :| c + reader.variables <= |lines| && RecordAfter(reader, lines, index, rows[0], c)
                    && IsListing(reader, lines[c + reader.variables..], index + 1, rows[1..]);
      RecordAfterBlanks(reader, lines, index, rows[0], c);
    }
  }

  lemma RecordAfterMeans<V>(reader: Reader<V>, lines: seq<string>, index: nat, row: seq<Value<V>>, b: nat)
    requires reader.variables > 0
    ensures RecordAfter(reader, lines, index, row, b) <==>
            b + reader.variables <= |lines| && AllBlank(lines[..b])
            && IsRecord(reader, lines[b..b + reader.variables], index, row)
  {
  }

  lemma AllBlankBefore(lines: seq<string>)
    ensures AllBlank(lines[..LeadingBlanks(lines)])
  {
    hide IsBlank;
  }

  /** The record after the leading blank lines is the record the reader takes there. */
  lemma RecordAtBlanks<V>(reader: Reader<V>, lines: seq<string>, index: nat, row: seq<Value<V>>)
    requires reader.variables > 0
    ensures var b, n := LeadingBlanks(lines), reader.variables;
            b + n <= |lines| && RecordAfter(reader, lines, index, row, b) <==>
            b + n <= |lines| && ReadRecord(reader, lines[b..], index) == Ok(row)
  {
    hide LeadingBlanks, ReadRecord, IsRecord, RecordAfter, IsBlank;
    var b, n := LeadingBlanks(lines), reader.variables;
    if b + n <= |lines| {
      AllBlankBefore(lines);
      RecordAfterMeans(reader, lines, index, row, b);
      RecordMeansLines(reader, lines[b..], index, row);
      assert lines[b..][..n] == lines[b..b + n];
    }
  }

  lemma AcceptsAtEnd<V>(reader: Reader<V>, lines: seq<string>, index: nat, points: nat, rows: seq<seq<Value<V>>>)
    requires reader.variables > 0 && (points == 0 || rows == [])
    ensures Read(reader, lines, index, points) == Ok(rows) <==> |rows| == points && IsListing(reader, lines, index, rows)
  {
    hide ReadRecord, RecordAfter, IsBlank;
  }

  /** The reader accepts exactly the listings of the declared number of points, with their values. */
  lemma {:induction false} AcceptsListings<V>(reader: Reader<V>, lines: seq<string>, index: nat, points: nat, rows: seq<seq<Value<V>>>)
    requires reader.variables > 0
    ensures Read(reader, lines, index, points) == Ok(rows) <==> |rows| == points && IsListing(reader, lines, index, rows)
    decreases points
  {
    hide *;
    if points == 0 || rows == [] {
      AcceptsAtEnd(reader, lines, index, points, rows);
    } else {
      ReadStep(reader, lines, index, points, rows);
      ListingStep(reader, lines, index, rows);
      RecordAtBlanks(reader, lines, index, rows[0]);
      var next := LeadingBlanks(lines) + reader.variables;
      if next <= |lines| {
        AcceptsListings(reader, lines[next..], index + 1, points - 1, rows[1..]);
      }
    }
  }

  // Printing, and reading back what was printed.

  /** How a matrix is written: numbers by `show`, white space around the fields, complex values in parentheses or not. */
  datatype Layout<!V> = Layout(show: V -> string, indent: string, gap: string, trail: string, parens: bool)

  predicate AllSpace(s: string) {
    forall c :: c in s ==> IsSpace(c)
  }

  predicate Blanks(layout: Layout) {
    AllSpace(layout.indent) && AllSpace(layout.gap) && layout.gap != "" && AllSpace(layout.trail)
  }

  /** The number is written without white space, comma or parenthesis, and reads back as itself. */
  predicate Legible<V(==)>(reader: Reader<V>, layout: Layout<V>, v: V) {
    var s := layout.show(v);
    s != "" && (forall c :: c in s ==> !IsSpace(c) && !IsParen(c) && c != ',') && reader.number(s) == Some(v)
  }

  predicate LegibleValue<V(==)>(reader: Reader<V>, layout: Layout<V>, value: Value<V>) {
    match value
    case Real(v) => !reader.complex && Legible(reader, layout, v)
    case Complex(re, im) => reader.complex && Legible(reader, layout, re) && Legible(reader, layout, im)
  }

  function Text<V>(layout: Layout<V>, value: Value<V>): string {
    match value
    case Real(v) => layout.show(v)
    case Complex(re, im) =>
      var pair := layout.show(re) + "," + layout.show(im);
      if layout.parens then "(" + pair + ")" else pair
  }

  function ValueLine<V>(layout: Layout<V>, value: Value<V>): string {
    layout.indent + Text(layout, value) + layout.trail
  }

  function IndexLine<V>(layout: Layout<V>, index: nat, value: Value<V>): string {
    layout.indent + (Numeral(index) + layout.gap + Text(layout, value)) + layout.trail
  }

  function PrintRecord<V>(layout: Layout<V>, index: nat, row: seq<Value<V>>): (lines: seq<string>)
    requires row != []
    ensures |lines| == |row| && lines[0] == IndexLine(layout, index, row[0])
    ensures forall j :: 1 <= j < |row| ==> lines[j] == ValueLine(layout, row[j])
  {
    [IndexLine(layout, index, row[0])] + seq(|row| - 1, j requires 0 <= j < |row| - 1 => ValueLine(layout, row[j + 1]))
  }

  /** Each record after its own blank lines, and the last blank lines at the end. */
  function Print<V>(layout: Layout<V>, index: nat, rows: seq<seq<Value<V>>>, blanks: seq<seq<string>>): seq<string>
    requires |blanks| == |rows| + 1 && forall i :: 0 <= i < |rows| ==> rows[i] != []
    decreases |rows|
  {
    if rows == [] then blanks[0]
    else blanks[0] + (PrintRecord(layout, index, rows[0]) + Print(layout, index + 1, rows[1..], blanks[1..]))
  }

  lemma {:induction false} TrimLeftDrops(a: string, core: string, parens: bool)
    requires forall c :: c in a ==> Dropped(c, parens)
    requires core != "" ==> !Dropped(core[0], parens)
    ensures TrimLeft(a + core, parens) == core
  {
    if a == "" {
      assert a + core == core;
    } else {
      TrimLeftDrops(a[1..], core, parens);
      assert (a + core)[1..] == a[1..] + core && a[0] in a;
    }
  }

  lemma {:induction false} TrimRightDrops(core: string, b: string, parens: bool)
    requires forall c :: c in b ==> Dropped(c, parens)
    requires core != "" ==> !Dropped(core[|core| - 1], parens)
    ensures TrimRight(core + b, parens) == core
    decreases |b|
  {
    if b == "" {
      assert core + b == core;
    } else {
      var s, n := core + b, |b| - 1;
      TrimRightDrops(core, b[..n], parens);
      assert s[..|s| - 1] == core + b[..n] && s[|s| - 1] == b[n] && b[n] in b;
    }
  }

  /** No white space at either end. */
  predicate Tight(s: string) {
    s != "" && !IsSpace(s[0]) && !IsSpace(s[|s| - 1])
  }

  lemma StripPadded(a: string, core: string, b: string)
    requires AllSpace(a) && AllSpace(b) && Tight(core)
    ensures Strip(a + core + b) == core
  {
    TrimLeftDrops(a, core + b, false);
    assert a + core + b == a + (core + b);
    TrimRightDrops(core, b, false);
  }

  lemma {:induction false} SpanStops(a: string, rest: string, comma: bool)
    requires forall c :: c in a ==> !Ends(c, comma)
    requires rest != "" ==> Ends(rest[0], comma)
    ensures SpanTo(a + rest, comma) == |a|
  {
    if a == "" {
      assert a + rest == rest;
    } else {
      SpanStops(a[1..], rest, comma);
      assert (a + rest)[1..] == a[1..] + rest && a[0] in a;
    }
  }

  lemma TextIsTight<V>(reader: Reader<V>, layout: Layout<V>, value: Value<V>)
    requires LegibleValue(reader, layout, value)
    ensures Tight(Text(layout, value))
  {
  }

  lemma StripTight(s: string)
    requires Tight(s)
    ensures Strip(s) == s
  {
    StripPadded("", s, "");
    assert "" + s + "" == s;
  }

  lemma ParensOff(open: string, s: string, close: string)
    requires open in ["", "("] && close in ["", ")"]
    requires Tight(open + s + close) && s != "" && !IsParen(s[0]) && !IsParen(s[|s| - 1])
    ensures Stripped(open + s + close) == s
  {
    StripTight(open + s + close);
    TrimLeftDrops(open, s + close, true);
    assert open + s + close == open + (s + close);
    TrimRightDrops(s, close, true);
  }

  lemma PairOf(a: string, b: string)
    requires forall c :: c in a || c in b ==> c != ','
    ensures Pair(a + "," + b) == Some((a, b))
  {
    var s := a + "," + b;
    SpanStops(a, "," + b, true);
    assert s == a + ("," + b);
    SpanStops(b, "", true);
    assert b + "" == b && s[|a| + 1..] == b && s[..|a|] == a;
  }

  lemma TextStrips<V>(reader: Reader<V>, layout: Layout<V>, value: Value<V>)
    requires LegibleValue(reader, layout, value)
    ensures Stripped(Text(layout, value)) ==
            match value case Real(v) => layout.show(v) case Complex(re, im) => layout.show(re) + "," + layout.show(im)
  {
    TextIsTight(reader, layout, value);
    hide Stripped, IsSpace;
    match value
    case Real(v) =>
      var s := layout.show(v);
      ParensOff("", s, "");
      assert "" + s + "" == s;
    case Complex(re, im) =>
      var a, b := layout.show(re), layout.show(im);
      var pair := a + "," + b;
      assert pair[0] == a[0] && pair[|pair| - 1] == b[|b| - 1];
      if layout.parens {
        ParensOff("(", pair, ")");
      } else {
        ParensOff("", pair, "");
        assert "" + pair + "" == pair;
      }
  }

  lemma TextReads<V>(reader: Reader<V>, layout: Layout<V>, value: Value<V>)
    requires LegibleValue(reader, layout, value)
    ensures AsciiValue(reader, Text(layout, value)) == Some(value)
  {
    TextStrips(reader, layout, value);
    hide Stripped, Text, Pair, IsSpace;
    if value.Complex? {
      PairOf(layout.show(value.re), layout.show(value.im));
    }
  }

  lemma IndexLineReads<V>(reader: Reader<V>, layout: Layout<V>, index: nat, value: Value<V>)
    requires Blanks(layout) && LegibleValue(reader, layout, value)
    ensures IsIndexLine(reader, IndexLine(layout, index, value), index, value)
  {
    var key, text := Numeral(index), Text(layout, value);
    NumeralShape(index);
    TextIsTight(reader, layout, value);
    TextReads(reader, layout, value);
    hide Numeral, Text, AsciiValue, Strip, LegibleValue;
    FieldsOf(layout.indent, key, layout.gap, text, layout.trail);
  }

  lemma FieldsOf(indent: string, key: string, gap: string, text: string, trail: string)
    requires AllSpace(indent) && AllSpace(gap) && gap != "" && AllSpace(trail)
    requires key != "" && (forall c :: c in key ==> !IsSpace(c)) && Tight(text)
    ensures TwoFields(indent + (key + gap + text) + trail) == Some((key, text))
  {
    var core := key + gap + text;
    assert key[0] in key && core[0] == key[0] && core[|core| - 1] == text[|text| - 1];
    StripPadded(indent, core, trail);
    hide Strip;
    assert gap[0] in gap && core == key + (gap + text);
    SpanStops(key, gap + text, false);
    assert core[|key|..] == gap + text && core[..|key|] == key;
    TrimLeftDrops(gap, text, false);
  }

  lemma ValueLineReads<V>(reader: Reader<V>, layout: Layout<V>, value: Value<V>)
    requires Blanks(layout) && LegibleValue(reader, layout, value)
    ensures IsValueLine(reader, ValueLine(layout, value), value)
  {
    TextIsTight(reader, layout, value);
    StripPadded(layout.indent, Text(layout, value), layout.trail);
    TextReads(reader, layout, value);
  }

  ghost predicate Printable<V>(reader: Reader<V>, layout: Layout<V>, rows: seq<seq<Value<V>>>) {
    && Blanks(layout)
    && forall i :: 0 <= i < |rows| ==> |rows[i]| == reader.variables && forall v :: v in rows[i] ==> LegibleValue(reader, layout, v)
  }

  lemma RecordReads<V>(reader: Reader<V>, layout: Layout<V>, index: nat, row: seq<Value<V>>)
    requires Blanks(layout) && |row| == reader.variables > 0 && forall v :: v in row ==> LegibleValue(reader, layout, v)
    ensures IsRecord(reader, PrintRecord(layout, index, row), index, row)
  {
    hide IsIndexLine, IsValueLine, ValueLine, IndexLine, LegibleValue;
    IndexLineReads(reader, layout, index, row[0]);
    forall j | 1 <= j < |row|
      ensures IsValueLine(reader, PrintRecord(layout, index, row)[j], row[j])
    {
      ValueLineReads(reader, layout, row[j]);
    }
  }

  lemma PrintSplits<V>(reader: Reader<V>, layout: Layout<V>, index: nat, rows: seq<seq<Value<V>>>, blanks: seq<seq<string>>)
    requires rows != [] && |blanks| == |rows| + 1 && forall i :: 0 <= i < |rows| ==> |rows[i]| == reader.variables > 0
    ensures var lines, b, n := Print(layout, index, rows, blanks), |blanks[0]|, reader.variables;
            && b + n <= |lines| && lines[..b] == blanks[0] && lines[b..b + n] == PrintRecord(layout, index, rows[0])
            && lines[b + n..] == Print(layout, index + 1, rows[1..], blanks[1..])
  {
    var record, rest := PrintRecord(layout, index, rows[0]), Print(layout, index + 1, rows[1..], blanks[1..]);
    assert Print(layout, index, rows, blanks) == blanks[0] + (record + rest);
    hide *;
    ThreeParts(blanks[0], record, rest);
  }

  lemma ThreeParts(a: seq<string>, b: seq<string>, c: seq<string>)
    ensures var s := a + (b + c); s[..|a|] == a && s[|a|..|a| + |b|] == b && s[|a| + |b|..] == c
  {
  }

  lemma {:induction false} PrintIsListing<V>(reader: Reader<V>, layout: Layout<V>, index: nat, rows: seq<seq<Value<V>>>, blanks: seq<seq<string>>)
    requires reader.variables > 0 && Printable(reader, layout, rows)
    requires |blanks| == |rows| + 1 && forall i :: 0 <= i < |blanks| ==> AllBlank(blanks[i])
    ensures IsListing(reader, Print(layout, index, rows, blanks), index, rows)
    decreases |rows|
  {
    hide *;
    if rows == [] {
      PrintEnds(reader, layout, index, blanks);
    } else {
      PrintableMeans(reader, layout, rows);
      var lines := Print(layout, index, rows, blanks);
      PrintSplits(reader, layout, index, rows, blanks);
      RecordReads(reader, layout, index, rows[0]);
      PrintIsListing(reader, layout, index + 1, rows[1..], blanks[1..]);
      RecordAfterMeans(reader, lines, index, rows[0], |blanks[0]|);
      ListingFrom(reader, lines, index, rows, |blanks[0]|);
    }
  }

  lemma PrintEnds<V>(reader: Reader<V>, layout: Layout<V>, index: nat, blanks: seq<seq<string>>)
    requires reader.variables > 0 && |blanks| == 1 && AllBlank(blanks[0])
    ensures IsListing(reader, Print(layout, index, [], blanks), index, [])
  {
  }

  lemma PrintableMeans<V>(reader: Reader<V>, layout: Layout<V>, rows: seq<seq<Value<V>>>)
    requires rows != [] && Printable(reader, layout, rows)
    ensures Blanks(layout) && Printable(reader, layout, rows[1..])
    ensures |rows[0]| == reader.variables && forall v :: v in rows[0] ==> LegibleValue(reader, layout, v)
    ensures forall i :: 0 <= i < |rows| ==> |rows[i]| == reader.variables
  {
    hide LegibleValue, Blanks;
  }

  lemma ListingFrom<V>(reader: Reader<V>, lines: seq<string>, index: nat, rows: seq<seq<Value<V>>>, b: nat)
    requires reader.variables > 0 && rows != [] && b + reader.variables <= |lines| && RecordAfter(reader, lines, index, rows[0], b)
    requires IsListing(reader, lines[b + reader.variables..], index + 1, rows[1..])
    ensures IsListing(reader, lines, index, rows)
  {
    hide RecordAfter;
  }

  /** Printing any matrix, with any blank lines before each record and after the last, and reading it gives the matrix back. */
  lemma ReadPrint<V>(reader: Reader<V>, layout: Layout<V>, rows: seq<seq<Value<V>>>, blanks: seq<seq<string>>)
    requires reader.variables > 0 && Printable(reader, layout, rows)
    requires |blanks| == |rows| + 1 && forall i :: 0 <= i < |blanks| ==> AllBlank(blanks[i])
    ensures Read(reader, Print(layout, 0, rows, blanks), 0, |rows|) == Ok(rows)
  {
    PrintIsListing(reader, layout, 0, rows, blanks);
    AcceptsListings(reader, Print(layout, 0, rows, blanks), 0, |rows|, rows);
  }

  // What is cut from a line, and what is taken.

  lemma {:induction false} TrimLeftIs(s: string, parens: bool) returns (a: string)
    ensures s == a + TrimLeft(s, parens) && forall c :: c in a ==> Dropped(c, parens)
    ensures TrimLeft(s, parens) != "" ==> !Dropped(TrimLeft(s, parens)[0], parens)
  {
    if s != "" && Dropped(s[0], parens) {
      var rest := TrimLeftIs(s[1..], parens);
      a := [s[0]] + rest;
      assert s == [s[0]] + s[1..] == [s[0]] + (rest + TrimLeft(s[1..], parens)) == a + TrimLeft(s[1..], parens);
      assert TrimLeft(s, parens) == TrimLeft(s[1..], parens);
      hide Dropped, TrimLeft;
    } else {
      a := "";
    }
  }

  lemma {:induction false} TrimRightIs(s: string, parens: bool) returns (b: string)
    ensures s == TrimRight(s, parens) + b && forall c :: c in b ==> Dropped(c, parens)
    ensures var r := TrimRight(s, parens); r != "" ==> !Dropped(r[|r| - 1], parens)
    decreases |s|
  {
    if s != "" && Dropped(s[|s| - 1], parens) {
      var front := s[..|s| - 1];
      var rest := TrimRightIs(front, parens);
      b := rest + [s[|s| - 1]];
      assert s == front + [s[|s| - 1]] == (TrimRight(front, parens) + rest) + [s[|s| - 1]] == TrimRight(front, parens) + b;
      assert TrimRight(s, parens) == TrimRight(front, parens);
      hide Dropped, TrimRight;
    } else {
      b := "";
    }
  }

  lemma TrimmedIs(s: string, parens: bool) returns (a: string, b: string)
    ensures var r := TrimRight(TrimLeft(s, parens), parens);
            && s == a + r + b && (forall c :: c in a + b ==> Dropped(c, parens))
            && (r != "" ==> !Dropped(r[0], parens) && !Dropped(r[|r| - 1], parens))
  {
    a := TrimLeftIs(s, parens);
    var left := TrimLeft(s, parens);
    hide TrimLeft;
    b := TrimRightIs(left, parens);
    var r := TrimRight(left, parens);
    hide Dropped, TrimRight;
    assert r != "" ==> left[0] == r[0];
    assert s == a + (r + b) == a + r + b;
  }

  const SPACES: seq<char> := [' ', '\t', '\n', '\U{b}', '\U{c}', '\r', '\U{1c}', '\U{1d}', '\U{1e}', '\U{1f}']

  lemma SpacesAre(c: char)
    ensures IsSpace(c) <==> c in SPACES
  {
    if IsSpace(c) {
      var n := c as int;
      assert c == n as char;
      assert n == 32 || 9 <= n <= 13 || 28 <= n <= 31;
      assert SPACES[0] == ' ' && SPACES[1] == '\t' && SPACES[2] == '\n' && SPACES[3] == '\U{b}' && SPACES[4] == '\U{c}';
      assert SPACES[5] == '\r' && SPACES[6] == '\U{1c}' && SPACES[7] == '\U{1d}' && SPACES[8] == '\U{1e}' && SPACES[9] == '\U{1f}';
    }
  }

  /** A line is blank when there is nothing in it but these ten characters. */
  lemma BlankExactly(line: string)
    ensures IsBlank(line) <==> forall c :: c in line ==> c in SPACES
  {
    forall c
      ensures IsSpace(c) <==> c in SPACES
    {
      SpacesAre(c);
    }
    var a, b := TrimmedIs(line, false);
    hide SPACES, IsSpace, TrimLeft, TrimRight;
    if Strip(line) == "" {
      assert line == a + b;
    } else {
      assert line[|a|] == Strip(line)[0];
    }
  }

  /** What is left of a token: parentheses are cut after white space, and white space is cut once. */
  lemma StrippedIs(token: string) returns (a: string, p: string, q: string, b: string)
    ensures token == a + (p + Stripped(token) + q) + b
    ensures forall c :: c in a + b ==> c in SPACES
    ensures forall c :: c in p + q ==> c == '(' || c == ')'
    ensures var middle := p + Stripped(token) + q; middle != "" ==> middle[0] !in SPACES && middle[|middle| - 1] !in SPACES
    ensures Stripped(token) != "" ==> Stripped(token)[0] !in "()" && Stripped(token)[|Stripped(token)| - 1] !in "()"
  {
    forall c
      ensures IsSpace(c) <==> c in SPACES
    {
      SpacesAre(c);
    }
    a, b := TrimmedIs(token, false);
    p, q := TrimmedIs(Strip(token), true);
    hide SPACES, IsSpace, TrimLeft, TrimRight;
  }

  lemma {:induction false} SpanIs(s: string, comma: bool)
    ensures forall i :: 0 <= i < SpanTo(s, comma) ==> !Ends(s[i], comma)
    ensures SpanTo(s, comma) < |s| ==> Ends(s[SpanTo(s, comma)], comma)
  {
    if s != "" && !Ends(s[0], comma) {
      SpanIs(s[1..], comma);
      assert forall i :: 0 < i < |s| ==> s[i] == s[1..][i - 1];
    }
  }

  /** A complex token is two texts without a comma around one comma. */
  lemma PairExactly(s: string, a: string, b: string)
    ensures Pair(s) == Some((a, b)) <==> s == a + "," + b && ',' !in a && ',' !in b
  {
    if s == a + "," + b && ',' !in a && ',' !in b {
      PairOf(a, b);
    }
    if Pair(s) == Some((a, b)) {
      var n := SpanTo(s, true);
      SpanIs(s, true);
      SpanIs(s[n + 1..], true);
      assert s == s[..n] + [s[n]] + s[n + 1..];
    }
  }

  /** An index line is a text without white space, white space, and the rest, between white space. */
  lemma FieldsExactly(line: string, key: string, rest: string)
    ensures TwoFields(line) == Some((key, rest)) <==>
            exists indent, gap, trail ::
              && AllSpace(indent) && AllSpace(gap) && AllSpace(trail) && gap != ""
              && key != "" && (forall c :: c in key ==> !IsSpace(c)) && Tight(rest)
              && line == indent + (key + gap + rest) + trail
  {
    hide IsSpace;
    if indent, gap, trail :|
      && AllSpace(indent) && AllSpace(gap) && AllSpace(trail) && gap != ""
      && key != "" && (forall c :: c in key ==> !IsSpace(c)) && Tight(rest)
      && line == indent + (key + gap + rest) + trail {
      FieldsOf(indent, key, gap, rest, trail);
    }
    if TwoFields(line) == Some((key, rest)) {
      var indent, gap, trail := FieldsCut(line, key, rest);
    }
  }

  lemma StripIs(line: string) returns (indent: string, trail: string)
    ensures line == indent + Strip(line) + trail && AllSpace(indent) && AllSpace(trail)
    ensures Strip(line) != "" ==> Tight(Strip(line))
  {
    indent, trail := TrimmedIs(line, false);
    hide IsSpace, TrimLeft, TrimRight;
    assert forall c :: (c in indent ==> c in indent + trail) && (c in trail ==> c in indent + trail);
  }

  lemma FieldsCut(line: string, key: string, rest: string) returns (indent: string, gap: string, trail: string)
    requires TwoFields(line) == Some((key, rest))
    ensures AllSpace(indent) && AllSpace(gap) && AllSpace(trail) && gap != ""
    ensures key != "" && (forall c :: c in key ==> !IsSpace(c)) && Tight(rest)
    ensures line == indent + (key + gap + rest) + trail
  {
    indent, trail := StripIs(line);
    var s := Strip(line);
    var n := SpanTo(s, false);
    gap := CutGap(s, n, rest);
    assert s == s[..n] + s[n..] == key + (gap + rest) == key + gap + rest;
    hide Strip, SpanTo, IsSpace;
  }

  /** Between the first white space of a stripped line and the rest. */
  lemma CutGap(s: string, n: nat, rest: string) returns (gap: string)
    requires s != "" ==> Tight(s)
    requires n == SpanTo(s, false) && rest == TrimLeft(s[n..], false) && rest != ""
    ensures s[n..] == gap + rest && AllSpace(gap) && gap != "" && n > 0 && Tight(rest)
    ensures forall c :: c in s[..n] ==> !IsSpace(c)
  {
    SpanIs(s, false);
    gap := TrimLeftIs(s[n..], false);
    hide IsSpace, TrimLeft, SpanTo;
    assert n < |s| && s[n..][0] == s[n];
    assert gap + rest == s[n..];
    assert rest[|rest| - 1] == s[n..][|s| - n - 1] == s[|s| - 1];
  }
}
