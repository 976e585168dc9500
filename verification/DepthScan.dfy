/** The string-aware bracket scanner, against every text the JSON grammar of RFC 8259 generates. */
module DepthScan {
  // The scanner.

  datatype Mode = Outside | InString | Escaped

  datatype State = State(depth: int, mode: Mode)

  function Advance(s: State, c: char): State {
    match s.mode
    case Escaped => s.(mode := InString)
    case InString => if c == '\\' then s.(mode := Escaped) else if c == '"' then s.(mode := Outside) else s
    case Outside =>
      if c == '"' then s.(mode := InString)
      else if c == '{' || c == '[' then s.(depth := s.depth + 1)
      else if c == '}' || c == ']' then s.(depth := s.depth - 1)
      else s
  }

  predicate Opens(s: State, c: char) {
    s.mode.Outside? && (c == '{' || c == '[')
  }

  function Run(s: State, text: string): State
    decreases text
  {
    if text == "" then s else Run(Advance(s, text[0]), text[1..])
  }

  /** No bracket opened along the text goes beyond the limit. */
  predicate Within(s: State, text: string, limit: int)
    decreases text
  {
    text == "" ||
    ((Opens(s, text[0]) ==> s.depth + 1 <= limit) && Within(Advance(s, text[0]), text[1..], limit))
  }

  const START := State(0, Outside)

  method MaxJsonDepthWithin(text: string, limit: int) returns (within: bool)
    ensures within == Within(START, text, limit)
  {
    var depth, inString, escaped := 0, false, false;
    ghost var state := START;
    for k := 0 to |text|
      invariant escaped ==> inString
      invariant state == State(depth, if escaped then Escaped else if inString then InString else Outside)
      invariant Within(START, text, limit) == Within(state, text[k..], limit)
    {
      var ch := text[k];
      assert text[k..][1..] == text[k + 1..];
      state := Advance(state, ch);
      if inString {
        if escaped {
          escaped := false;
        } else if ch == '\\' {
          escaped := true;
        } else if ch == '"' {
          inString := false;
        }
        continue;
      }
      if ch == '"' {
        inString := true;
      } else if ch == '{' || ch == '[' {
        depth := depth + 1;
        if depth > limit {
          return false;
        }
      } else if ch == '}' || ch == ']' {
        depth := depth - 1;
      }
    }
    within := true;
  }

  // The grammar of section 2 to 7 of RFC 8259: every way to spell every value.

  datatype Unit =
    | Raw(c: char)           // unescaped
    | Short(c: char)         // \" \\ \/ \b \f \n \r \t
    | Hex(digits: string)    // \uXXXX

  datatype Node =
    | Literal(spelling: string)
    | Text(units: seq<Unit>)
    | Array(blank: string, items: seq<Element>)
    | Object(blank: string, entries: seq<Entry>)

  datatype Element = Element(before: string, node: Node, after: string)

  datatype Entry = Entry(before: string, key: seq<Unit>, after: string, value: Element)

  predicate IsHexDigit(c: char) {
    '0' <= c <= '9' || 'a' <= c <= 'f' || 'A' <= c <= 'F'
  }

  predicate ValidUnit(u: Unit) {
    match u
    case Raw(c) => c != '"' && c != '\\' && ' ' <= c
    case Short(c) => c == '"' || c == '\\' || c == '/' || c == 'b' || c == 'f' || c == 'n' || c == 'r' || c == 't'
    case Hex(digits) => |digits| == 4 && forall d :: d in digits ==> IsHexDigit(d)
  }

  predicate Blank(s: string) {
    forall c :: c in s ==> c == ' ' || c == '\t' || c == '\n' || c == '\r'
  }

  /** The characters of true, false, null and of numbers. */
  predicate LiteralChar(c: char) {
    'a' <= c <= 'z' || c == 'E' || '0' <= c <= '9' || c == '-' || c == '+' || c == '.'
  }

  predicate Valid(node: Node) {
    match node
    case Literal(spelling) => spelling != "" && forall c :: c in spelling ==> LiteralChar(c)
    case Text(units) => forall u :: u in units ==> ValidUnit(u)
    case Array(blank, items) => Blank(blank) && forall e :: e in items ==> ValidElement(e)
    case Object(blank, entries) =>
      Blank(blank) &&
      forall e :: e in entries ==>
        Blank(e.before) && Blank(e.after) && (forall u :: u in e.key ==> ValidUnit(u)) && ValidElement(e.value)
  }

  predicate ValidElement(e: Element) {
    Blank(e.before) && Valid(e.node) && Blank(e.after)
  }

  function PrintUnit(u: Unit): string {
    match u
    case Raw(c) => [c]
    case Short(c) => ['\\', c]
    case Hex(digits) => ['\\', 'u'] + digits
  }

  function PrintUnits(units: seq<Unit>): string {
    if units == [] then "" else PrintUnit(units[0]) + PrintUnits(units[1..])
  }

  function Quoted(units: seq<Unit>): string {
    ['"'] + PrintUnits(units) + ['"']
  }

  function Print(node: Node): string {
    match node
    case Literal(spelling) => spelling
    case Text(units) => Quoted(units)
    case Array(blank, items) => ['['] + blank + PrintItems(items) + [']']
    case Object(blank, entries) => ['{'] + blank + PrintEntries(entries) + ['}']
  }

  function PrintElement(e: Element): string {
    e.before + Print(e.node) + e.after
  }

  function PrintItems(items: seq<Element>): string {
    if items == [] then ""
    else PrintElement(items[0]) + (if |items| == 1 then "" else [',']) + PrintItems(items[1..])
  }

  function PrintEntry(e: Entry): string {
    e.before + Quoted(e.key) + e.after + [':'] + PrintElement(e.value)
  }

  function PrintEntries(entries: seq<Entry>): string {
    if entries == [] then ""
    else PrintEntry(entries[0]) + (if |entries| == 1 then "" else [',']) + PrintEntries(entries[1..])
  }

  function Max(a: nat, b: nat): nat {
    if a < b then b else a
  }

  /** How many arrays and objects enclose the innermost point of the value. */
  function BracketDepth(node: Node): nat {
    match node
    case Literal(_) => 0
    case Text(_) => 0
    case Array(_, items) => 1 + ItemsDepth(items)
    case Object(_, entries) => 1 + EntriesDepth(entries)
  }

  function ItemsDepth(items: seq<Element>): nat {
    if items == [] then 0 else Max(BracketDepth(items[0].node), ItemsDepth(items[1..]))
  }

  function EntriesDepth(entries: seq<Entry>): nat {
    if entries == [] then 0 else Max(BracketDepth(entries[0].value.node), EntriesDepth(entries[1..]))
  }

  // Scanning a printed value.

  /** Scanning the text from depth d comes back to depth d, and passes the limit only by nesting `extra` deeper. */
  ghost predicate Clears(text: string, extra: nat, d: int, limit: int) {
    && Run(State(d, Outside), text) == State(d, Outside)
    && (Within(State(d, Outside), text, limit) <==> extra == 0 || d + extra <= limit)
  }

  ghost predicate Balanced(text: string, extra: nat) {
    forall d: int, limit: int :: Clears(text, extra, d, limit)
  }

  lemma {:induction false} RunConcat(s: State, a: string, b: string, limit: int)
    ensures Run(s, a + b) == Run(Run(s, a), b)
    ensures Within(s, a + b, limit) <==> Within(s, a, limit) && Within(Run(s, a), b, limit)
    decreases a
  {
    if a == "" {
      assert a + b == b;
    } else {
      assert (a + b)[1..] == a[1..] + b;
      RunConcat(Advance(s, a[0]), a[1..], b, limit);
    }
  }

  lemma BalancedConcat(a: string, m: nat, b: string, n: nat)
    requires Balanced(a, m) && Balanced(b, n)
    ensures Balanced(a + b, Max(m, n))
  {
    forall d: int, limit: int
      ensures Clears(a + b, Max(m, n), d, limit)
    {
      assert Clears(a, m, d, limit) && Clears(b, n, d, limit);
      RunConcat(State(d, Outside), a, b, limit);
    }
  }

  predicate PlainChar(c: char) {
    LiteralChar(c) || c == ' ' || c == '\t' || c == '\n' || c == '\r' || c == ',' || c == ':'
  }

  lemma {:induction false} BalancedPlain(text: string)
    requires forall c :: c in text ==> PlainChar(c)
    ensures Balanced(text, 0)
  {
    if text != "" {
      assert PlainChar(text[0]) by { assert text[0] in text; }
      assert forall c :: c in text[1..] ==> c in text;
      BalancedPlain(text[1..]);
      forall d: int, limit: int
        ensures Clears(text, 0, d, limit)
      {
        assert Clears(text[1..], 0, d, limit);
        assert Advance(State(d, Outside), text[0]) == State(d, Outside);
      }
    }
  }

  lemma {:induction false} StringStays(d: int, text: string, limit: int)
    requires forall c :: c in text ==> c != '"' && c != '\\'
    ensures Run(State(d, InString), text) == State(d, InString) && Within(State(d, InString), text, limit)
  {
    if text != "" {
      assert text[0] in text && forall c :: c in text[1..] ==> c in text;
      StringStays(d, text[1..], limit);
    }
  }

  lemma UnitStays(d: int, u: Unit, limit: int)
    requires ValidUnit(u)
    ensures Run(State(d, InString), PrintUnit(u)) == State(d, InString) && Within(State(d, InString), PrintUnit(u), limit)
  {
    match u
    case Raw(c) => assert [c][1..] == "";
    case Short(c) =>
      var s := ['\\', c];
      assert s[1..] == [c] && [c][1..] == "";
      assert Run(State(d, InString), s) == Run(State(d, Escaped), [c]);
    case Hex(digits) =>
      var s := ['\\', 'u'] + digits;
      assert s[1..] == ['u'] + digits && s[1..][1..] == digits;
      StringStays(d, digits, limit);
      assert Run(State(d, InString), s) == Run(State(d, Escaped), s[1..]) == Run(State(d, InString), digits);
  }

  lemma {:induction false} UnitsStay(d: int, units: seq<Unit>, limit: int)
    requires forall u :: u in units ==> ValidUnit(u)
    ensures Run(State(d, InString), PrintUnits(units)) == State(d, InString)
    ensures Within(State(d, InString), PrintUnits(units), limit)
  {
    if units != [] {
      assert units[0] in units;
      UnitStays(d, units[0], limit);
      UnitsStay(d, units[1..], limit);
      RunConcat(State(d, InString), PrintUnit(units[0]), PrintUnits(units[1..]), limit);
    }
  }

  /** A string literal never counts, whatever brackets, quotes or escapes it contains. */
  lemma QuotedBalanced(units: seq<Unit>)
    requires forall u :: u in units ==> ValidUnit(u)
    ensures Balanced(Quoted(units), 0)
  {
    forall d: int, limit: int
      ensures Clears(Quoted(units), 0, d, limit)
    {
      var body := PrintUnits(units);
      var closing := ['"'];
      assert closing[1..] == "";
      UnitsStay(d, units, limit);
      RunConcat(State(d, InString), body, closing, limit);
      assert Quoted(units)[1..] == body + closing;
    }
  }

  lemma BracketedBalanced(open: char, body: string, close: char, extra: nat)
    requires (open == '[' && close == ']') || (open == '{' && close == '}')
    requires Balanced(body, extra)
    ensures Balanced([open] + body + [close], extra + 1)
  {
    var text, total := [open] + body + [close], extra + 1;
    forall d: int, limit: int
      ensures Clears(text, total, d, limit)
    {
      var inside := State(d + 1, Outside);
      assert Clears(body, extra, d + 1, limit);
      RunConcat(inside, body, [close], limit);
      assert text[1..] == body + [close];
      assert [close][1..] == "";
    }
  }

  lemma {:induction false} PrintBalanced(node: Node)
    requires Valid(node)
    ensures Balanced(Print(node), BracketDepth(node))
    decreases node, 0
  {
    hide Balanced;
    match node
    case Literal(spelling) => BalancedPlain(spelling);
    case Text(units) => QuotedBalanced(units);
    case Array(blank, items) =>
      BalancedPlain(blank);
      ItemsBalanced(items);
      BalancedConcat(blank, 0, PrintItems(items), ItemsDepth(items));
      BracketedBalanced('[', blank + PrintItems(items), ']', ItemsDepth(items));
      assert Print(node) == ['['] + (blank + PrintItems(items)) + [']'];
    case Object(blank, entries) =>
      BalancedPlain(blank);
      EntriesBalanced(entries);
      BalancedConcat(blank, 0, PrintEntries(entries), EntriesDepth(entries));
      BracketedBalanced('{', blank + PrintEntries(entries), '}', EntriesDepth(entries));
      assert Print(node) == ['{'] + (blank + PrintEntries(entries)) + ['}'];
  }

  lemma {:induction false} ElementBalanced(e: Element)
    requires ValidElement(e)
    ensures Balanced(PrintElement(e), BracketDepth(e.node))
    decreases e
  {
    BalancedPlain(e.before);
    PrintBalanced(e.node);
    BalancedPlain(e.after);
    BalancedConcat(e.before, 0, Print(e.node), BracketDepth(e.node));
    BalancedConcat(e.before + Print(e.node), BracketDepth(e.node), e.after, 0);
  }

  lemma SeparatorBalanced(last: bool)
    ensures Balanced(if last then "" else [','], 0)
  {
    BalancedPlain(if last then "" else [',']);
  }

  lemma {:induction false} ItemsBalanced(items: seq<Element>)
    requires forall e :: e in items ==> ValidElement(e)
    ensures Balanced(PrintItems(items), ItemsDepth(items))
    decreases items
  {
    if items == [] {
      BalancedPlain("");
    } else {
      var head, separator := PrintElement(items[0]), if |items| == 1 then "" else [','];
      var n := BracketDepth(items[0].node);
      assert items[0] in items;
      ElementBalanced(items[0]);
      SeparatorBalanced(|items| == 1);
      ItemsBalanced(items[1..]);
      BalancedConcat(head, n, separator, 0);
      BalancedConcat(head + separator, n, PrintItems(items[1..]), ItemsDepth(items[1..]));
    }
  }

  lemma {:induction false} EntryBalanced(e: Entry)
    requires Blank(e.before) && Blank(e.after) && (forall u :: u in e.key ==> ValidUnit(u)) && ValidElement(e.value)
    ensures Balanced(PrintEntry(e), BracketDepth(e.value.node))
    decreases e
  {
    BalancedPlain(e.before);
    QuotedBalanced(e.key);
    BalancedPlain(e.after);
    BalancedPlain([':']);
    ElementBalanced(e.value);
    BalancedConcat(e.before, 0, Quoted(e.key), 0);
    BalancedConcat(e.before + Quoted(e.key), 0, e.after, 0);
    BalancedConcat(e.before + Quoted(e.key) + e.after, 0, [':'], 0);
    BalancedConcat(e.before + Quoted(e.key) + e.after + [':'], 0, PrintElement(e.value), BracketDepth(e.value.node));
  }

  lemma {:induction false} EntriesBalanced(entries: seq<Entry>)
    requires forall e :: e in entries ==>
               Blank(e.before) && Blank(e.after) && (forall u :: u in e.key ==> ValidUnit(u)) && ValidElement(e.value)
    ensures Balanced(PrintEntries(entries), EntriesDepth(entries))
    decreases entries
  {
    if entries == [] {
      BalancedPlain("");
    } else {
      var head, separator := PrintEntry(entries[0]), if |entries| == 1 then "" else [','];
      var n := BracketDepth(entries[0].value.node);
      assert entries[0] in entries;
      EntryBalanced(entries[0]);
      SeparatorBalanced(|entries| == 1);
      EntriesBalanced(entries[1..]);
      BalancedConcat(head, n, separator, 0);
      BalancedConcat(head + separator, n, PrintEntries(entries[1..]), EntriesDepth(entries[1..]));
    }
  }

  /** For every JSON text and every limit: the scan accepts exactly when the bracket depth is within the limit.
      A value without brackets is accepted whatever the limit, even a negative one. */
  lemma ScanMeasuresBracketDepth(e: Element, limit: int)
    requires ValidElement(e)
    ensures Within(START, PrintElement(e), limit) <==> BracketDepth(e.node) == 0 || BracketDepth(e.node) <= limit
  {
    ElementBalanced(e);
    assert Clears(PrintElement(e), BracketDepth(e.node), 0, limit);
  }
}
