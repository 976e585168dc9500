/** Texts cut at slashes. */
module Segments {
  /** str.split("/"). */
  function Split(s: string): (parts: seq<string>)
    ensures parts != []
  {
    if s == "" then [""]
    else if s[0] == '/' then [""] + Split(s[1..])
    else
      var rest := Split(s[1..]);
      [[s[0]] + rest[0]] + rest[1..]
  }

  lemma SplitOne(token: string)
    requires '/' !in token
    ensures Split(token) == [token]
  {
    if token != "" {
      SplitOne(token[1..]);
      assert [token[0]] + token[1..] == token;
    }
  }

  lemma SplitFirst(token: string, rest: string)
    requires '/' !in token
    ensures Split(token + "/" + rest) == [token] + Split(rest)
  {
    if token == "" {
      assert ("" + "/" + rest)[1..] == rest;
    } else {
      var s := token + "/" + rest;
      SplitFirst(token[1..], rest);
      assert s[1..] == token[1..] + "/" + rest && s[0] == token[0] && token[0] in token;
      var tail := Split(s[1..]);
      assert tail[0] == token[1..] && tail[1..] == Split(rest);
      assert [token[0]] + token[1..] == token;
    }
  }
}
