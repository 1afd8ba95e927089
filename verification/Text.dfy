/** The string helpers of Go's `strings` package that the search service relies on. */
module Text {

  /** The code points `unicode.IsSpace` accepts. */
  predicate IsSpace(c: char) {
    || c == ' ' || '\t' <= c <= '\r' || c == '\U{85}' || c == '\U{A0}' || c == '\U{1680}'
    || '\U{2000}' <= c <= '\U{200A}' || c == '\U{2028}' || c == '\U{2029}' || c == '\U{202F}'
    || c == '\U{205F}' || c == '\U{3000}'
  }

  predicate IsQuote(c: char) { c == '"' || c == '\'' }

  predicate HasPrefix(s: string, prefix: string) { prefix <= s }

  predicate HasSuffix(s: string, suffix: string) {
    |suffix| <= |s| && s[|s| - |suffix|..] == suffix
  }

  /** Neither end of `s` is a character to cut. */
  predicate Clean(s: string, cut: char -> bool) {
    s == [] || (!cut(s[0]) && !cut(s[|s| - 1]))
  }

  function TrimLeft(s: string, cut: char -> bool): string {
    if s != [] && cut(s[0]) then TrimLeft(s[1..], cut) else s
  }

  function TrimRight(s: string, cut: char -> bool): string {
    if s != [] && cut(s[|s| - 1]) then TrimRight(s[..|s| - 1], cut) else s
  }

  /** What is left after cutting at the front starts with a character to keep, and nothing is lost behind it. */
  lemma {:induction false} TrimLeftEnds(s: string, cut: char -> bool)
    ensures var r := TrimLeft(s, cut); r == [] || (!cut(r[0]) && r[|r| - 1] == s[|s| - 1])
    ensures |TrimLeft(s, cut)| <= |s|
  {
    if s != [] && cut(s[0]) { TrimLeftEnds(s[1..], cut); }
  }

  lemma {:induction false} TrimRightEnds(s: string, cut: char -> bool)
    ensures var r := TrimRight(s, cut); r == [] || (!cut(r[|r| - 1]) && r[0] == s[0])
    ensures |TrimRight(s, cut)| <= |s|
  {
    if s != [] && cut(s[|s| - 1]) { TrimRightEnds(s[..|s| - 1], cut); }
  }

  function Trim(s: string, cut: char -> bool): (r: string)
    ensures Clean(r, cut)
    ensures Clean(s, cut) <==> r == s
  {
    TrimLeftEnds(s, cut);
    TrimRightEnds(TrimLeft(s, cut), cut);
    TrimRight(TrimLeft(s, cut), cut)
  }

  function TrimSpace(s: string): string { Trim(s, IsSpace) }

  /** Cutting all of `pad` away from the front leaves the rest to be cut on its own. */
  lemma {:induction false} TrimLeftPadding(pad: string, s: string, cut: char -> bool)
    requires forall c <- pad :: cut(c)
    ensures TrimLeft(pad + s, cut) == TrimLeft(s, cut)
  {
    if pad == [] {
      assert pad + s == s;
    } else {
      assert (pad + s)[1..] == pad[1..] + s;
      TrimLeftPadding(pad[1..], s, cut);
    }
  }

  lemma {:induction false} TrimRightPadding(s: string, pad: string, cut: char -> bool)
    requires forall c <- pad :: cut(c)
    ensures TrimRight(s + pad, cut) == TrimRight(s, cut)
  {
    if pad == [] {
      assert s + pad == s;
    } else {
      assert (s + pad)[..|s + pad| - 1] == s + pad[..|pad| - 1];
      TrimRightPadding(s, pad[..|pad| - 1], cut);
    }
  }

  /** Trimming removes padding from both ends of a clean string and nothing else. */
  lemma TrimPadded(before: string, s: string, after: string, cut: char -> bool)
    requires (forall c <- before :: cut(c)) && (forall c <- after :: cut(c))
    requires Clean(s, cut)
    ensures Trim(before + s + after, cut) == s
  {
    assert before + s + after == before + (s + after);
    TrimLeftPadding(before, s + after, cut);
    if s == [] {
      assert s + after == after + [];
      TrimLeftPadding(after, [], cut);
    } else {
      assert (s + after)[0] == s[0];
      TrimRightPadding(s, after, cut);
    }
  }

  /** A non-blank first character survives trimming. */
  lemma TrimKeepsHead(s: string, cut: char -> bool)
    requires s != [] && !cut(s[0])
    ensures Trim(s, cut) != [] && Trim(s, cut)[0] == s[0]
    ensures Trim(s, cut) == TrimRight(s, cut)
  {
    TrimRightEnds(s, cut);
    if TrimRight(s, cut) == [] { TrimRightEmpty(s, cut); }
  }

  lemma {:induction false} TrimRightEmpty(s: string, cut: char -> bool)
    requires TrimRight(s, cut) == []
    ensures forall c <- s :: cut(c)
  {
    if s != [] {
      TrimRightEmpty(s[..|s| - 1], cut);
      assert s == s[..|s| - 1] + [s[|s| - 1]];
    }
  }

  lemma {:induction false} TrimLeftEmpty(s: string, cut: char -> bool)
    requires TrimLeft(s, cut) == []
    ensures forall c <- s :: cut(c)
  {
    if s != [] {
      TrimLeftEmpty(s[1..], cut);
      assert s == [s[0]] + s[1..];
    }
  }

  /** A string with a character to keep does not trim to nothing. */
  lemma TrimKeepsSome(s: string, cut: char -> bool, c: char)
    requires c in s && !cut(c)
    ensures Trim(s, cut) != []
  {
    var r := TrimLeft(s, cut);
    if r == [] {
      TrimLeftEmpty(s, cut);
    } else {
      TrimLeftEnds(s, cut);
      if TrimRight(r, cut) == [] { TrimRightEmpty(r, cut); }
    }
  }

  /** Go measures strings in bytes; this is the length of the UTF-8 encoding. */
  function ByteLength(s: string): nat {
    if s == [] then 0 else
      (if s[0] < '\U{80}' then 1 else if s[0] < '\U{800}' then 2 else if s[0] < '\U{10000}' then 3 else 4)
      + ByteLength(s[1..])
  }

  function Count(s: string, c: char): nat {
    if s == [] then 0 else (if s[0] == c then 1 else 0) + Count(s[1..], c)
  }

  lemma {:induction false} CountAppend(a: string, b: string, c: char)
    ensures Count(a + b, c) == Count(a, c) + Count(b, c)
  {
    if a == [] {
      assert a + b == b;
    } else {
      assert (a + b)[1..] == a[1..] + b;
      CountAppend(a[1..], b, c);
    }
  }

  lemma {:induction false} CountZero(s: string, c: char)
    ensures Count(s, c) == 0 <==> c !in s
  {
    if s != [] { CountZero(s[1..], c); }
  }

  /** `strings.Split` for a one-character separator. */
  function Split(s: string, sep: char): (parts: seq<string>)
    ensures |parts| == Count(s, sep) + 1
  {
    if s == [] then [[]]
    else if s[0] == sep then [[]] + Split(s[1..], sep)
    else
      var rest := Split(s[1..], sep);
      [[s[0]] + rest[0]] + rest[1..]
  }

  function Join(parts: seq<string>, sep: string): string {
    if |parts| == 0 then [] else if |parts| == 1 then parts[0] else parts[0] + sep + Join(parts[1..], sep)
  }

  lemma JoinCons(head: string, rest: seq<string>, sep: string)
    requires rest != []
    ensures Join([head] + rest, sep) == head + sep + Join(rest, sep)
  {
    assert ([head] + rest)[1..] == rest;
  }

  lemma CountAround(a: string, c: char, b: string)
    ensures Count(a + [c] + b, c) == Count(a, c) + 1 + Count(b, c)
  {
    assert a + [c] + b == a + ([c] + b);
    CountAppend(a, [c] + b, c);
    assert ([c] + b)[1..] == b;
  }

  /** A separator-free head is the first part, and the text after the separator gives the others. */
  lemma {:induction false} SplitHead(head: string, sep: char, tail: string)
    requires sep !in head
    ensures Split(head + [sep] + tail, sep) == [head] + Split(tail, sep)
  {
    var s := head + [sep] + tail;
    if head == [] {
      assert s[1..] == tail;
    } else {
      assert s[1..] == head[1..] + [sep] + tail;
      SplitHead(head[1..], sep, tail);
      assert [s[0]] + head[1..] == head;
    }
  }

  lemma {:induction false} SplitWhole(s: string, sep: char)
    requires sep !in s
    ensures Split(s, sep) == [s]
  {
    if s != [] {
      SplitWhole(s[1..], sep);
      assert [s[0]] + s[1..] == s;
    }
  }

  lemma {:induction false} SplitJoin(parts: seq<string>, sep: char)
    requires |parts| > 0
    requires forall p <- parts :: sep !in p
    ensures Split(Join(parts, [sep]), sep) == parts
  {
    if |parts| == 1 {
      SplitWhole(parts[0], sep);
    } else {
      SplitHead(parts[0], sep, Join(parts[1..], [sep]));
      SplitJoin(parts[1..], sep);
    }
  }
}
