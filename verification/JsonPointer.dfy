/** JSON pointer evaluation, compared with sections 3 and 4 of RFC 6901. */
module JsonPointer {
  import opened Prelude
  import opened Json
  import opened Segments

  /** What the host knows about digits: str.isdigit, the value int() gives a character, and the longest numeral it reads. */
  datatype Unicode = Unicode(isDigit: char -> bool, decimal: char -> Option<nat>, longest: Option<nat>)

  predicate IsAsciiDigit(c: char) {
    '0' <= c <= '9'
  }

  ghost predicate Faithful(u: Unicode) {
    && (forall c :: IsAsciiDigit(c) ==> u.isDigit(c) && u.decimal(c) == Some((c - '0') as nat))
    && (forall c :: u.decimal(c).Some? ==> u.isDigit(c))
  }

  // The evaluator.

  /** str.replace of the two characters ~ and escape by one character. */
  function Replace(s: string, escape: char, substitute: char): string {
    if s == "" then ""
    else if |s| >= 2 && s[0] == '~' && s[1] == escape then [substitute] + Replace(s[2..], escape, substitute)
    else [s[0]] + Replace(s[1..], escape, substitute)
  }

  function Decode(token: string): string {
    Replace(Replace(token, '1', '/'), '0', '~')
  }

  function DecodeAll(tokens: seq<string>): seq<string> {
    if tokens == [] then [] else [Decode(tokens[0])] + DecodeAll(tokens[1..])
  }

  predicate IsDigits(u: Unicode, token: string) {
    token != "" && forall c :: c in token ==> u.isDigit(c)
  }

  predicate TooLong(u: Unicode, token: string) {
    u.longest.Some? && |token| > u.longest.value
  }

  /** int(token): no value stands for the ValueError of a digit that is not a decimal, or of too many digits. */
  function IntOf(u: Unicode, token: string): Option<nat> {
    if TooLong(u, token) then None else DecimalValue(u, token)
  }

  function DecimalValue(u: Unicode, token: string): Option<nat> {
    if token == "" then Some(0)
    else
      var n := |token| - 1;
      var high, low := DecimalValue(u, token[..n]), u.decimal(token[n]);
      if high.Some? && low.Some? then Some(10 * high.value + low.value) else None
  }

  datatype Outcome = Exists | Missing | Raises

  predicate LeadingZero(token: string) {
    |token| > 1 && token[0] == '0'
  }

  /** The walk of the evaluator over decoded tokens. */
  function Walk(u: Unicode, current: Json, tokens: seq<string>): Outcome {
    if tokens == [] then Exists
    else
      var token := tokens[0];
      match current
      case Obj(fields) => if token in fields then Walk(u, fields[token], tokens[1..]) else Missing
      case Arr(items) =>
        if !IsDigits(u, token) || LeadingZero(token) then Missing
        else
          var index := IntOf(u, token);
          if index.None? then Raises
          else if index.value < |items| then Walk(u, items[index.value], tokens[1..])
          else Missing
      case _ => Missing
  }

  function PointerTokens(pointer: string): seq<string>
    requires pointer != ""
  {
    DecodeAll(Split(pointer[1..]))
  }

  method JsonPointerExists(u: Unicode, document: Json, pointer: string) returns (outcome: Outcome)
    requires pointer != ""
    ensures outcome == Walk(u, document, PointerTokens(pointer))
  {
    var current := document;
    var parts := Split(pointer[1..]);
    for k := 0 to |parts|
      invariant Walk(u, document, DecodeAll(parts)) == Walk(u, current, DecodeAll(parts[k..]))
    {
      var token := Decode(parts[k]);
      assert DecodeAll(parts[k..]) == [token] + DecodeAll(parts[k + 1..]) by {
        assert parts[k..][1..] == parts[k + 1..];
      }
      match current {
        case Obj(fields) =>
          if token !in fields {
            return Missing;
          }
          current := fields[token];
        case Arr(items) =>
          if !IsDigits(u, token) || LeadingZero(token) {
            return Missing;
          }
          var index := IntOf(u, token);
          if index.None? {
            return Raises;
          }
          if index.value >= |items| {
            return Missing;
          }
          current := items[index.value];
        case _ =>
          return Missing;
      }
    }
    outcome := Exists;
  }

  // RFC 6901: section 3 renders tokens, section 4 evaluates them.

  function Encode(token: string): string {
    if token == "" then ""
    else (if token[0] == '~' then "~0" else if token[0] == '/' then "~1" else [token[0]]) + Encode(token[1..])
  }

  function Render(tokens: seq<string>): string {
    if tokens == [] then "" else "/" + Encode(tokens[0]) + Render(tokens[1..])
  }

  /** array-index = %x30 / ( %x31-39 *(%x30-39) ) */
  predicate IsArrayIndex(token: string) {
    token != "" && (forall c :: c in token ==> IsAsciiDigit(c)) && !LeadingZero(token)
  }

  function IndexValue(token: string): nat
    requires forall c :: c in token ==> IsAsciiDigit(c)
  {
    if token == "" then 0
    else
      var n := |token| - 1;
      assert IsAsciiDigit(token[n]) by { assert token[n] in token; }
      10 * IndexValue(token[..n]) + (token[n] - '0') as nat
  }

  /** The value one token refers to, if any. */
  function Child(current: Json, token: string): Option<Json> {
    match current
    case Obj(fields) => if token in fields then Some(fields[token]) else None
    case Arr(items) =>
      if IsArrayIndex(token) && IndexValue(token) < |items| then Some(items[IndexValue(token)]) else None
    case _ => None
  }

  predicate Resolves(document: Json, tokens: seq<string>) {
    tokens == [] || (Child(document, tokens[0]).Some? && Resolves(Child(document, tokens[0]).value, tokens[1..]))
  }

  // Split and the two replaces undo join and escape.

  lemma EncodedHasNoSlash(token: string)
    ensures '/' !in Encode(token)
  {
    if token != "" {
      EncodedHasNoSlash(token[1..]);
    }
  }

  /** The text between the two replaces: ~ is still escaped, / no longer is. */
  function HalfDecoded(token: string): string {
    if token == "" then "" else (if token[0] == '~' then "~0" else [token[0]]) + HalfDecoded(token[1..])
  }

  lemma {:induction false} ReplaceSlash(token: string)
    ensures Replace(Encode(token), '1', '/') == HalfDecoded(token)
  {
    if token != "" {
      var rest := Encode(token[1..]);
      ReplaceSlash(token[1..]);
      if token[0] == '~' {
        var s := "~0" + rest;
        assert s[1..] == "0" + rest && s[1..][1..] == rest;
        assert Replace(s, '1', '/') == ['~'] + Replace(s[1..], '1', '/');
      } else if token[0] == '/' {
        var s := "~1" + rest;
        assert s[2..] == rest;
      } else {
        assert ([token[0]] + rest)[1..] == rest;
      }
    }
  }

  lemma {:induction false} ReplaceTilde(token: string)
    ensures Replace(HalfDecoded(token), '0', '~') == token
  {
    if token != "" {
      var rest := HalfDecoded(token[1..]);
      ReplaceTilde(token[1..]);
      if token[0] == '~' {
        assert ("~0" + rest)[2..] == rest;
      } else {
        assert ([token[0]] + rest)[1..] == rest;
      }
    }
  }

  lemma DecodeEncode(token: string)
    ensures Decode(Encode(token)) == token
  {
    ReplaceSlash(token);
    ReplaceTilde(token);
  }

  function EncodeAll(tokens: seq<string>): seq<string> {
    if tokens == [] then [] else [Encode(tokens[0])] + EncodeAll(tokens[1..])
  }

  lemma RenderTail(tokens: seq<string>)
    requires tokens != []
    ensures Render(tokens) != "" && Render(tokens)[0] == '/'
    ensures Render(tokens)[1..] == Encode(tokens[0]) + Render(tokens[1..])
  {
    assert Render(tokens) == "/" + (Encode(tokens[0]) + Render(tokens[1..]));
  }

  lemma SplitTail(token: string, tail: string)
    requires '/' !in token && tail != "" && tail[0] == '/'
    ensures Split(token + tail) == [token] + Split(tail[1..])
  {
    SplitFirst(token, tail[1..]);
    assert token + "/" + tail[1..] == token + tail;
  }

  lemma {:induction false} SplitRendered(tokens: seq<string>)
    requires tokens != []
    ensures Render(tokens) != "" && Split(Render(tokens)[1..]) == EncodeAll(tokens)
  {
    var first, tail := Encode(tokens[0]), Render(tokens[1..]);
    RenderTail(tokens);
    EncodedHasNoSlash(tokens[0]);
    if |tokens| == 1 {
      assert first + tail == first;
      SplitOne(first);
    } else {
      SplitRendered(tokens[1..]);
      RenderTail(tokens[1..]);
      SplitTail(first, tail);
    }
  }

  lemma {:induction false} DecodeAllEncodeAll(tokens: seq<string>)
    ensures DecodeAll(EncodeAll(tokens)) == tokens
  {
    if tokens != [] {
      DecodeEncode(tokens[0]);
      DecodeAllEncodeAll(tokens[1..]);
      assert EncodeAll(tokens)[1..] == EncodeAll(tokens[1..]);
    }
  }

  lemma RenderedTokens(tokens: seq<string>)
    requires tokens != []
    ensures Render(tokens) != "" && PointerTokens(Render(tokens)) == tokens
  {
    SplitRendered(tokens);
    DecodeAllEncodeAll(tokens);
  }

  // The evaluator agrees with the RFC exactly when no token is a non-ASCII or overlong numeral.

  /** A token that passes isdigit and the leading-zero test but is no RFC 6901 array index, or is too long to be read. */
  predicate Misread(u: Unicode, token: string) {
    IsDigits(u, token) && !LeadingZero(token) && (IsForeign(token) || TooLong(u, token))
  }

  predicate IsForeign(token: string) {
    exists c :: c in token && !IsAsciiDigit(c)
  }

  predicate NoneMisread(u: Unicode, tokens: seq<string>) {
    forall t :: t in tokens ==> !Misread(u, t)
  }

  function Expected(document: Json, tokens: seq<string>): Outcome {
    if Resolves(document, tokens) then Exists else Missing
  }

  lemma {:induction false} AsciiValue(u: Unicode, token: string)
    requires Faithful(u) && forall c :: c in token ==> IsAsciiDigit(c)
    ensures DecimalValue(u, token) == Some(IndexValue(token))
  {
    if token != "" {
      AsciiValue(u, token[..|token| - 1]);
    }
  }

  lemma {:induction false} WalkResolves(u: Unicode, document: Json, tokens: seq<string>)
    requires Faithful(u) && NoneMisread(u, tokens)
    ensures Walk(u, document, tokens) == Expected(document, tokens)
    decreases |tokens|
  {
    if tokens != [] {
      if document.Arr? && IsDigits(u, tokens[0]) && !LeadingZero(tokens[0]) {
        assert !Misread(u, tokens[0]);
        AsciiValue(u, tokens[0]);
      }
      if Child(document, tokens[0]).Some? {
        WalkResolves(u, Child(document, tokens[0]).value, tokens[1..]);
      }
    }
  }

  /** A document that the evaluator walks to the end, one object per token. */
  function Nest(tokens: seq<string>): Json {
    if tokens == [] then Null else Obj(map[tokens[0] := Nest(tokens[1..])])
  }

  lemma {:induction false} WalkNest(u: Unicode, tokens: seq<string>)
    ensures Walk(u, Nest(tokens), tokens) == Exists
  {
    if tokens != [] {
      WalkNest(u, tokens[1..]);
    }
  }

  /** Objects down to the misread numeral, then an array just long enough for what is read, or empty if nothing is. */
  lemma {:induction false} MisreadSomewhere(u: Unicode, tokens: seq<string>) returns (document: Json)
    requires Faithful(u) && !NoneMisread(u, tokens)
    ensures Walk(u, document, tokens) != Expected(document, tokens)
    decreases |tokens|
  {
    var token := tokens[0];
    if Misread(u, token) {
      var index := IntOf(u, token);
      var length := if index.Some? then index.value + 1 else 0;
      WalkNest(u, tokens[1..]);
      document := Arr(seq(length, _ => Nest(tokens[1..])));
    } else {
      assert exists t :: t in tokens[1..] && Misread(u, t) by {
        var t :| t in tokens && Misread(u, t);
        assert t in tokens[1..];
      }
      var inner := MisreadSomewhere(u, tokens[1..]);
      document := Obj(map[token := inner]);
    }
  }

  /** For every nonempty token list: the rendered pointer is judged as the RFC judges it, on every document,
      if and only if no token is a foreign or overlong numeral. */
  lemma PointerAgreesWithRfc(u: Unicode, tokens: seq<string>)
    requires Faithful(u) && tokens != []
    ensures Render(tokens) != ""
    ensures (forall document :: Walk(u, document, PointerTokens(Render(tokens))) == Expected(document, tokens))
            <==> NoneMisread(u, tokens)
  {
    RenderedTokens(tokens);
    if NoneMisread(u, tokens) {
      forall document
        ensures Walk(u, document, tokens) == Expected(document, tokens)
      {
        WalkResolves(u, document, tokens);
      }
    } else {
      var document := MisreadSomewhere(u, tokens);
      assert Walk(u, document, tokens) != Expected(document, tokens);
    }
  }

  lemma {:induction false} EncodeLengthens(token: string)
    ensures |token| <= |Encode(token)|
  {
    if token != "" {
      EncodeLengthens(token[1..]);
    }
  }

  lemma {:induction false} TokensFit(tokens: seq<string>, k: nat)
    requires k < |tokens|
    ensures |tokens[k]| < |Render(tokens)|
    decreases |tokens|
  {
    RenderTail(tokens);
    EncodeLengthens(tokens[0]);
    if k > 0 {
      TokensFit(tokens[1..], k - 1);
    }
  }

  /** On a pointer that is no longer than the longest numeral, only foreign numerals are misread. */
  lemma ShortPointersHaveNoOverlongToken(u: Unicode, tokens: seq<string>)
    requires u.longest.Some? ==> |Render(tokens)| <= u.longest.value
    ensures NoneMisread(u, tokens) <==> forall t :: t in tokens ==> !(IsDigits(u, t) && !LeadingZero(t) && IsForeign(t))
  {
    forall t | t in tokens
      ensures !TooLong(u, t)
    {
      var k :| 0 <= k < |tokens| && tokens[k] == t;
      TokensFit(tokens, k);
    }
    hide TooLong, IsDigits, LeadingZero, IsForeign;
  }

  // A host that knows one more decimal, ARABIC-INDIC DIGIT THREE, and one digit that is no decimal, SUPERSCRIPT TWO.

  const THREE: char := '\U{0663}'
  const SUPERSCRIPT_TWO: char := '\U{00B2}'

  function SomeHost(): Unicode {
    Unicode(c => IsAsciiDigit(c) || c == THREE || c == SUPERSCRIPT_TWO,
            c => if IsAsciiDigit(c) then Some((c - '0') as nat) else if c == THREE then Some(3) else None,
            Some(4300))
  }

  /** The one token is no array index, but finds the fourth item; the other makes the evaluator raise on any array. */
  lemma ForeignNumeralsExist()
    ensures Faithful(SomeHost())
    ensures Walk(SomeHost(), Arr([Null, Null, Null, Null]), [[THREE]]) == Exists
    ensures Expected(Arr([Null, Null, Null, Null]), [[THREE]]) == Missing
    ensures Walk(SomeHost(), Arr([]), [[SUPERSCRIPT_TWO]]) == Raises
    ensures Expected(Arr([]), [[SUPERSCRIPT_TWO]]) == Missing
  {
    var u := SomeHost();
    assert [THREE][..0] == "" && [SUPERSCRIPT_TWO][..0] == "";
    assert DecimalValue(u, "") == Some(0) && DecimalValue(u, [THREE]) == Some(3);
    assert THREE in [THREE] && SUPERSCRIPT_TWO in [SUPERSCRIPT_TWO];
  }
}
