/** The Go string operations that the allowlist parser and the sign-in flow use. */
module Text {
  import opened Options

  /** unicode.IsSpace. */
  predicate IsSpace(c: char) {
    var u := c as int;
    || 9 <= u <= 13 || u == 0x20 || u == 0x85 || u == 0xA0 || u == 0x1680 || 0x2000 <= u <= 0x200A
    || u == 0x2028 || u == 0x2029 || u == 0x202F || u == 0x205F || u == 0x3000
  }

  /** The white space of Unicode, one by one. */
  const WHITE_SPACE := [0x9, 0xA, 0xB, 0xC, 0xD, 0x20, 0x85, 0xA0, 0x1680, 0x2000, 0x2001, 0x2002, 0x2003, 0x2004,
                        0x2005, 0x2006, 0x2007, 0x2008, 0x2009, 0x200A, 0x2028, 0x2029, 0x202F, 0x205F, 0x3000]

  lemma WhiteSpaceExactly(c: char)
    ensures IsSpace(c) <==> c as int in WHITE_SPACE
  {
  }

  function TrimLeft(s: string): string {
    if s != [] && IsSpace(s[0]) then TrimLeft(s[1..]) else s
  }

  function TrimRight(s: string): string {
    if s != [] && IsSpace(s[|s| - 1]) then TrimRight(s[..|s| - 1]) else s
  }

  function TrimSpace(s: string): string {
    TrimRight(TrimLeft(s))
  }

  /** strings.Split with a one-character separator. */
  function Split(s: string, sep: char): (parts: seq<string>)
    ensures |parts| >= 1
  {
    if s == [] then [[]]
    else
      var rest := Split(s[1..], sep);
      if s[0] == sep then [[]] + rest else [[s[0]] + rest[0]] + rest[1..]
  }

  /** strings.Cut at the first separator. */
  function Cut(s: string, sep: char): (r: Option<(string, string)>)
    ensures r.Some? ==> s == r.value.0 + [sep] + r.value.1 && sep !in r.value.0
    ensures r.None? <==> sep !in s
  {
    if s == [] then None
    else if s[0] == sep then Some(([], s[1..]))
    else
      match Cut(s[1..], sep)
      case None => None
      case Some((before, after)) => Some(([s[0]] + before, after))
  }

  /** A string without outer white space is untouched by trimming. */
  lemma TrimIsNoOp(s: string)
    requires s == [] || (!IsSpace(s[0]) && !IsSpace(s[|s| - 1]))
    ensures TrimSpace(s) == s
  {
  }

  lemma {:induction false} TrimRightKeepsFirst(s: string)
    requires s != [] && !IsSpace(s[0])
    ensures var t := TrimRight(s); t != [] && t[0] == s[0] && !IsSpace(t[|t| - 1])
  {
    if IsSpace(s[|s| - 1]) {
      TrimRightKeepsFirst(s[..|s| - 1]);
    }
  }

  lemma {:induction false} TrimLeftStartsOnText(s: string)
    ensures var t := TrimLeft(s); t == [] || !IsSpace(t[0])
  {
    if s != [] && IsSpace(s[0]) {
      TrimLeftStartsOnText(s[1..]);
    }
  }

  lemma TrimIsIdempotent(s: string)
    ensures TrimSpace(TrimSpace(s)) == TrimSpace(s)
  {
    TrimLeftStartsOnText(s);
    if TrimLeft(s) != [] {
      TrimRightKeepsFirst(TrimLeft(s));
    }
    TrimIsNoOp(TrimSpace(s));
  }

  ghost predicate IsBlank(s: string) {
    forall c | c in s :: IsSpace(c)
  }

  lemma {:induction false} TrimLeftOfBlank(s: string)
    ensures TrimLeft(s) == "" <==> IsBlank(s)
  {
    if s != [] && IsSpace(s[0]) {
      assert s == [s[0]] + s[1..];
      TrimLeftOfBlank(s[1..]);
    }
  }

  /** Trimming leaves nothing exactly of white space. */
  lemma BlankExactly(s: string)
    ensures TrimSpace(s) == "" <==> IsBlank(s)
  {
    TrimLeftOfBlank(s);
    TrimLeftStartsOnText(s);
    if TrimLeft(s) != [] {
      TrimRightKeepsFirst(TrimLeft(s));
    }
  }

  lemma {:induction false} TrimLeftOfPadded(a: string, s: string)
    requires IsBlank(a) && (s == [] || !IsSpace(s[0]))
    ensures TrimLeft(a + s) == s
  {
    if a == [] {
      assert a + s == s;
    } else {
      assert a[0] in a && (a + s)[1..] == a[1..] + s;
      assert forall c | c in a[1..] :: c in a;
      TrimLeftOfPadded(a[1..], s);
    }
  }

  lemma {:induction false} TrimRightOfPadded(s: string, b: string)
    requires IsBlank(b) && (s == [] || !IsSpace(s[|s| - 1]))
    ensures TrimRight(s + b) == s
  {
    if b == [] {
      assert s + b == s;
    } else {
      var n := |b| - 1;
      assert b[n] in b && (s + b)[..|s + b| - 1] == s + b[..n];
      assert forall c | c in b[..n] :: c in b;
      TrimRightOfPadded(s, b[..n]);
    }
  }

  /** Has no white space at either end. */
  predicate IsTrimmed(s: string) {
    s == [] || (!IsSpace(s[0]) && !IsSpace(s[|s| - 1]))
  }

  /** Trimming takes off the white space around a text, whatever there is of it, and nothing else. */
  lemma TrimTakesPadding(a: string, s: string, b: string)
    requires IsBlank(a) && IsBlank(b) && IsTrimmed(s)
    ensures TrimSpace(a + s + b) == s
  {
    if s == [] {
      assert IsBlank(a + s + b);
      BlankExactly(a + s + b);
    } else {
      assert a + s + b == a + (s + b);
      TrimLeftOfPadded(a, s + b);
      TrimRightOfPadded(s, b);
    }
  }

  lemma BlankConcat(a: string, b: string)
    requires IsBlank(a) && IsBlank(b)
    ensures IsBlank(a + b)
  {
  }

  lemma {:induction false} TrimLeftPads(s: string) returns (a: string)
    ensures IsBlank(a) && s == a + TrimLeft(s)
  {
    if s != [] && IsSpace(s[0]) {
      var rest := TrimLeftPads(s[1..]);
      BlankConcat([s[0]], rest);
      a := [s[0]] + rest;
      assert a + TrimLeft(s[1..]) == [s[0]] + (rest + TrimLeft(s[1..])) == s;
    } else {
      a := [];
    }
  }

  lemma {:induction false} TrimRightPads(s: string) returns (b: string)
    ensures IsBlank(b) && s == TrimRight(s) + b
  {
    if s != [] && IsSpace(s[|s| - 1]) {
      var rest := TrimRightPads(s[..|s| - 1]);
      BlankConcat(rest, [s[|s| - 1]]);
      b := rest + [s[|s| - 1]];
      assert TrimRight(s[..|s| - 1]) + b == (TrimRight(s[..|s| - 1]) + rest) + [s[|s| - 1]] == s;
    } else {
      b := [];
    }
  }

  /** Every text is its trimmed form with white space around it. */
  lemma TrimPads(s: string) returns (a: string, b: string)
    ensures IsBlank(a) && IsBlank(b) && s == a + TrimSpace(s) + b
    ensures IsTrimmed(TrimSpace(s))
  {
    a := TrimLeftPads(s);
    b := TrimRightPads(TrimLeft(s));
    TrimLeftStartsOnText(s);
    if TrimLeft(s) != [] {
      TrimRightKeepsFirst(TrimLeft(s));
    }
    assert s == a + (TrimSpace(s) + b);
  }

  /** White space added around a text makes no difference once it is trimmed. */
  lemma PaddingIsTrimmed(a: string, s: string, b: string)
    requires IsBlank(a) && IsBlank(b)
    ensures TrimSpace(a + s + b) == TrimSpace(s)
  {
    var front, back := TrimPads(s);
    assert a + s + b == (a + front) + TrimSpace(s) + (back + b);
    TrimTakesPadding(a + front, TrimSpace(s), back + b);
  }

  // ----- splitting and joining -----

  /** strings.Cut finds the first separator: a text without it, the separator, and the rest. */
  lemma {:induction false} CutAtFirst(before: string, sep: char, after: string)
    requires sep !in before
    ensures Cut(before + [sep] + after, sep) == Some((before, after))
  {
    var s := before + [sep] + after;
    if before != [] {
      assert s[1..] == before[1..] + [sep] + after;
      assert before[0] in before && forall c | c in before[1..] :: c in before;
      CutAtFirst(before[1..], sep, after);
      assert [before[0]] + before[1..] == before;
    }
  }

  function Joined(parts: seq<string>, sep: char): string {
    if parts == [] then "" else if |parts| == 1 then parts[0] else parts[0] + [sep] + Joined(parts[1..], sep)
  }

  ghost predicate FreeOf(parts: seq<string>, sep: char) {
    forall i | 0 <= i < |parts| :: sep !in parts[i]
  }

  /** Splitting loses nothing: the parts are free of the separator and, joined with it, give the text back. */
  lemma {:induction false} SplitJoins(s: string, sep: char)
    ensures FreeOf(Split(s, sep), sep) && Joined(Split(s, sep), sep) == s
  {
    if s != [] {
      SplitJoins(s[1..], sep);
      var rest, parts := Split(s[1..], sep), Split(s, sep);
      assert s == [s[0]] + s[1..];
      if s[0] == sep {
        assert parts[1..] == rest;
      } else {
        assert parts[1..] == rest[1..];
        assert Joined(parts, sep) == [s[0]] + Joined(rest, sep);
      }
    }
  }

  lemma {:induction false} SplitAtSeparator(part: string, sep: char, rest: string)
    requires sep !in part
    ensures Split(part + [sep] + rest, sep) == [part] + Split(rest, sep)
  {
    var s := part + [sep] + rest;
    if part != [] {
      assert s[1..] == part[1..] + [sep] + rest;
      assert part[0] in part && forall c | c in part[1..] :: c in part;
      SplitAtSeparator(part[1..], sep, rest);
      assert [part[0]] + part[1..] == part;
    } else {
      assert s[1..] == rest;
    }
  }

  lemma {:induction false} SplitOfOne(part: string, sep: char)
    requires sep !in part
    ensures Split(part, sep) == [part]
  {
    if part != [] {
      assert part[0] in part && forall c | c in part[1..] :: c in part;
      SplitOfOne(part[1..], sep);
      assert [part[0]] + part[1..] == part;
    }
  }

  /** Parts that were joined are split again. */
  lemma {:induction false} JoinSplits(parts: seq<string>, sep: char)
    requires parts != [] && FreeOf(parts, sep)
    ensures Split(Joined(parts, sep), sep) == parts
  {
    if |parts| == 1 {
      SplitOfOne(parts[0], sep);
    } else {
      assert FreeOf(parts[1..], sep);
      JoinSplits(parts[1..], sep);
      SplitAtSeparator(parts[0], sep, Joined(parts[1..], sep));
      assert [parts[0]] + parts[1..] == parts;
    }
  }

  /** Text before the first separator belongs to the first part. */
  lemma {:induction false} SplitAfter(a: string, s: string, sep: char)
    requires sep !in a
    ensures Split(a + s, sep) == [a + Split(s, sep)[0]] + Split(s, sep)[1..]
  {
    if a == [] {
      assert a + s == s && a + Split(s, sep)[0] == Split(s, sep)[0];
    } else {
      assert a[0] in a && (a + s)[1..] == a[1..] + s && forall c | c in a[1..] :: c in a;
      SplitAfter(a[1..], s, sep);
      assert [a[0]] + (a[1..] + Split(s, sep)[0]) == a + Split(s, sep)[0];
    }
  }

  function WithLast(parts: seq<string>, b: string): seq<string>
    requires parts != []
  {
    parts[..|parts| - 1] + [parts[|parts| - 1] + b]
  }

  function WithFirst(c: char, parts: seq<string>): seq<string>
    requires parts != []
  {
    [[c] + parts[0]] + parts[1..]
  }

  lemma LastOfLonger(part: string, rest: seq<string>, b: string)
    requires rest != []
    ensures WithLast([part] + rest, b) == [part] + WithLast(rest, b)
  {
  }

  lemma FirstAndLast(c: char, rest: seq<string>, b: string)
    requires rest != []
    ensures WithLast(WithFirst(c, rest), b) == WithFirst(c, WithLast(rest, b))
  {
    if |rest| == 1 {
      assert [c] + rest[0] + b == [c] + (rest[0] + b);
    }
  }

  lemma SplitNext(s: string, sep: char)
    requires s != []
    ensures Split(s, sep) == if s[0] == sep then [[]] + Split(s[1..], sep) else WithFirst(s[0], Split(s[1..], sep))
  {
  }

  /** Text after the last separator belongs to the last part. */
  lemma {:induction false} SplitBefore(s: string, b: string, sep: char)
    requires sep !in b
    ensures Split(s + b, sep) == WithLast(Split(s, sep), b)
  {
    if s == [] {
      assert s + b == b;
      SplitOfOne(b, sep);
      assert [] + b == b;
    } else {
      assert (s + b)[1..] == s[1..] + b && (s + b)[0] == s[0];
      SplitBefore(s[1..], b, sep);
      SplitNext(s, sep);
      SplitNext(s + b, sep);
      LastOfLonger([], Split(s[1..], sep), b);
      FirstAndLast(s[0], Split(s[1..], sep), b);
    }
  }
}
