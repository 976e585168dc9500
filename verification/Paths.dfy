/** Spellings of repository paths. */
module Paths {
  import opened Segments

  /** The segments that pathlib keeps: empty ones and single dots are dropped. */
  function Kept(segments: seq<string>): seq<string> {
    if segments == [] then []
    else if segments[0] == "" || segments[0] == "." then Kept(segments[1..])
    else [segments[0]] + Kept(segments[1..])
  }

  function Join(segments: seq<string>): string {
    if segments == [] then ""
    else if |segments| == 1 then segments[0]
    else segments[0] + "/" + Join(segments[1..])
  }

  /** How pathlib spells a relative path. */
  function Plain(path: string): string {
    Join(Kept(Split(path)))
  }

  predicate IsSegment(s: string) {
    s != "" && s != "." && '/' !in s
  }

  lemma {:induction false} PlainOfJoin(segments: seq<string>)
    requires segments != [] && forall s :: s in segments ==> IsSegment(s)
    ensures Split(Join(segments)) == segments && Plain(Join(segments)) == Join(segments)
  {
    assert segments[0] in segments;
    if |segments| == 1 {
      SplitOne(segments[0]);
    } else {
      PlainOfJoin(segments[1..]);
      SplitFirst(segments[0], Join(segments[1..]));
      assert segments == [segments[0]] + segments[1..];
    }
    KeepsAll(segments);
  }

  lemma {:induction false} KeepsAll(segments: seq<string>)
    requires forall s :: s in segments ==> IsSegment(s)
    ensures Kept(segments) == segments
  {
    if segments != [] {
      assert segments[0] in segments;
      KeepsAll(segments[1..]);
    }
  }

  /** `a/./b` and `a/b` are two spellings of one path. */
  lemma DotIsDropped(first: string, rest: string)
    requires IsSegment(first)
    ensures Plain(first + "/" + ("." + "/" + rest)) == Plain(first + "/" + rest)
    ensures first + "/" + ("." + "/" + rest) != first + "/" + rest
  {
    SplitFirst(first, "." + "/" + rest);
    SplitFirst(".", rest);
    SplitFirst(first, rest);
    var tail := Split(rest);
    assert ([first] + (["."] + tail))[1..] == ["."] + tail && ([first] + tail)[1..] == tail;
    assert (["."] + tail)[1..] == tail && Kept(["."] + tail) == Kept(tail);
    assert |first + "/" + ("." + "/" + rest)| > |first + "/" + rest|;
  }

  lemma {:induction false} SplitJoin(segments: seq<string>)
    requires segments != [] && forall s :: s in segments ==> '/' !in s
    ensures Split(Join(segments)) == segments
  {
    assert segments[0] in segments;
    if |segments| == 1 {
      SplitOne(segments[0]);
    } else {
      SplitJoin(segments[1..]);
      SplitFirst(segments[0], Join(segments[1..]));
      assert segments == [segments[0]] + segments[1..];
    }
  }

  lemma {:induction false} KeptConcat(a: seq<string>, b: seq<string>)
    ensures Kept(a + b) == Kept(a) + Kept(b)
  {
    if a == [] {
      assert a + b == b && Kept(a) + Kept(b) == Kept(b);
    } else {
      KeptConcat(a[1..], b);
      assert (a + b)[1..] == a[1..] + b && (a + b)[0] == a[0];
      assert Kept(a + b) == (if a[0] == "" || a[0] == "." then [] else [a[0]]) + (Kept(a[1..]) + Kept(b));
    }
  }

  lemma KeptOne(s: string)
    ensures Kept([s]) == if s == "" || s == "." then [] else [s]
  {
    assert [s][1..] == [];
  }

  lemma PlainOf(segments: seq<string>)
    requires segments != [] && forall s :: s in segments ==> '/' !in s
    ensures Plain(Join(segments)) == Join(Kept(segments))
  {
    SplitJoin(segments);
  }

  /** An empty segment or a dot anywhere in a path, with another segment beside it, makes no difference; any other does. */
  lemma SegmentIsDropped(a: seq<string>, s: string, b: seq<string>)
    requires a + b != [] && forall t :: t in a + [s] + b ==> '/' !in t
    ensures Plain(Join(a + [s] + b)) == Plain(Join(a + b)) <==> s == "" || s == "."
  {
    assert forall t :: t in a + b ==> t in a + [s] + b;
    PlainOf(a + [s] + b);
    PlainOf(a + b);
    KeptConcat(a + [s], b);
    KeptConcat(a, [s]);
    KeptConcat(a, b);
    KeptOne(s);
    KeptAre(a + b);
    KeptAre(a + [s] + b);
    hide *;
    if s == "" || s == "." {
      assert Kept(a) + [] == Kept(a);
    } else {
      JoinInjective(Kept(a + [s] + b), Kept(a + b));
    }
  }

  lemma {:induction false} KeptAre(segments: seq<string>)
    requires forall s :: s in segments ==> '/' !in s
    ensures forall s :: s in Kept(segments) ==> IsSegment(s)
  {
    if segments != [] {
      assert segments[0] in segments;
      KeptAre(segments[1..]);
    }
  }

  lemma JoinInjective(a: seq<string>, b: seq<string>)
    requires forall s :: s in a + b ==> IsSegment(s)
    requires |a| == |b| + 1
    ensures Join(a) != Join(b)
  {
    assert forall s :: (s in a ==> s in a + b) && (s in b ==> s in a + b);
    PlainOfJoin(a);
    if b != [] {
      PlainOfJoin(b);
    } else {
      assert a[0] in a;
    }
  }
}
