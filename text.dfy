/** Character classes and the Python `str` methods the bot relies on (strip, lower,
    startswith, find, rfind, split, join), over ASCII-style character predicates. */
module Text {

  /** Whitespace as `str.isspace`, `str.strip()`, `str.split()` and the regex `\s` see it,
      restricted to ASCII. */
  predicate IsSpace(c: char) {
    c == ' ' || c == '\t' || c == '\n' || c == '\r' || c == '\U{B}' || c == '\U{C}'
    || ('\U{1C}' <= c <= '\U{1F}')
  }

  predicate IsUpper(c: char) { 'A' <= c <= 'Z' }

  /** The regex class `\w`, ASCII only. */
  predicate IsWordChar(c: char) {
    ('a' <= c <= 'z') || ('A' <= c <= 'Z') || ('0' <= c <= '9') || c == '_'
  }

  /** Sentence-ending punctuation, the class `[.!?]`. */
  predicate IsTerminal(c: char) { c == '.' || c == '!' || c == '?' }

  predicate IsQuote(c: char) { c == '"' || c == '\'' }

  /** `str.lower()` restricted to ASCII letters. */
  function Lower(c: char): (l: char)
    ensures IsSpace(l) <==> IsSpace(c)
    ensures IsUpper(c) ==> l as int == c as int + 32
    ensures !IsUpper(c) ==> l == c
  {
    if 'A' <= c <= 'Z' then (c as int + 32) as char else c
  }

  function LowerStr(s: string): string {
    seq(|s|, i requires 0 <= i < |s| => Lower(s[i]))
  }

  /** The character classes whose maximal runs the regular expressions consume. */
  datatype CharClass = Space | NonSpace | Word | Except(c: char) | NonQuote

  predicate InClass(c: char, cls: CharClass) {
    match cls
    case Space => IsSpace(c)
    case NonSpace => !IsSpace(c)
    case Word => IsWordChar(c)
    case Except(d) => c != d
    case NonQuote => !IsQuote(c)
  }

  /** Length of the longest prefix of `s` whose characters all lie in `cls`. */
  function Span(s: string, cls: CharClass): (n: nat)
    ensures n <= |s|
  {
    if s == [] || !InClass(s[0], cls) then 0 else 1 + Span(s[1..], cls)
  }

  /** The run is all in `cls`, and the character after it, if any, is not. */
  lemma {:induction false} SpanFacts(s: string, cls: CharClass)
    ensures forall i :: 0 <= i < Span(s, cls) ==> InClass(s[i], cls)
    ensures Span(s, cls) < |s| ==> !InClass(s[Span(s, cls)], cls)
  {
    if s != [] && InClass(s[0], cls) {
      SpanFacts(s[1..], cls);
    }
  }

  /** The run of `cls` at the front of `a + b` stops inside `a`, or goes on into `b`. */
  lemma {:induction false} SpanConcat(a: string, b: string, cls: CharClass)
    ensures Span(a + b, cls) == if Span(a, cls) < |a| then Span(a, cls) else |a| + Span(b, cls)
  {
    if a != [] {
      assert (a + b)[0] == a[0];
      if InClass(a[0], cls) {
        assert (a + b)[1..] == a[1..] + b;
        SpanConcat(a[1..], b, cls);
      }
    } else {
      assert a + b == b;
    }
  }

  /** A run that is entirely in `cls` followed by a character outside it has exactly its length. */
  lemma {:induction false} SpanExact(a: string, b: string, cls: CharClass)
    requires forall i :: 0 <= i < |a| ==> InClass(a[i], cls)
    requires b != [] && !InClass(b[0], cls)
    ensures Span(a + b, cls) == |a|
  {
    if a == [] {
      assert a + b == b;
    } else {
      assert (a + b)[0] == a[0];
      assert (a + b)[1..] == a[1..] + b;
      SpanExact(a[1..], b, cls);
    }
  }

  /** Number of trailing whitespace characters. */
  function TrailingSpaces(s: string): (n: nat)
    ensures n <= |s|
    ensures forall i :: |s| - n <= i < |s| ==> IsSpace(s[i])
    ensures n < |s| ==> !IsSpace(s[|s| - 1 - n])
  {
    if s == [] || !IsSpace(s[|s| - 1]) then 0 else 1 + TrailingSpaces(s[..|s| - 1])
  }

  lemma {:induction false} TrailingSpacesConcat(a: string, b: string)
    requires a != [] && !IsSpace(a[|a| - 1])
    ensures TrailingSpaces(a + b) == TrailingSpaces(b) && TrailingSpaces(b) <= |b|
  {
    if b != [] {
      assert (a + b)[|a + b| - 1] == b[|b| - 1];
      if IsSpace(b[|b| - 1]) {
        assert (a + b)[..|a + b| - 1] == a + b[..|b| - 1];
        TrailingSpacesConcat(a, b[..|b| - 1]);
      }
    } else {
      assert a + b == a;
    }
  }

  /** `str.lstrip()`. */
  function LStrip(s: string): (r: string)
    ensures r == [] || !IsSpace(r[0])
  {
    SpanFacts(s, Space);
    s[Span(s, Space)..]
  }

  /** `str.rstrip()`. */
  function RStrip(s: string): (r: string)
    ensures r == [] || !IsSpace(r[|r| - 1])
  {
    s[..|s| - TrailingSpaces(s)]
  }

  /** `str.strip()`: the part between the first and the last non-whitespace character. */
  function Strip(s: string): (r: string)
    ensures r == [] || (!IsSpace(r[0]) && !IsSpace(r[|r| - 1]))
    ensures |r| <= |s|
  {
    RStrip(LStrip(s))
  }

  /** Strip's result is the slice `s[Span(s, Space) .. e]` of its argument. */
  lemma StripIsSlice(s: string)
    ensures Span(s, Space) + |Strip(s)| <= |s|
    ensures Strip(s) == s[Span(s, Space)..Span(s, Space) + |Strip(s)|]
  {
  }

  lemma LStripConcat(a: string, b: string)
    requires b != [] && !IsSpace(b[0])
    ensures LStrip(a + b) == LStrip(a) + b
  {
    SpanConcat(a, b, Space);
    if Span(a, Space) < |a| {
      assert (a + b)[Span(a, Space)..] == a[Span(a, Space)..] + b;
    } else {
      assert (a + b)[|a|..] == b;
    }
  }

  lemma RStripConcat(a: string, b: string)
    requires a != [] && !IsSpace(a[|a| - 1])
    ensures RStrip(a + b) == a + RStrip(b)
  {
    TrailingSpacesConcat(a, b);
    assert (a + b)[..|a + b| - TrailingSpaces(b)] == a + b[..|b| - TrailingSpaces(b)];
  }

  /** Stripping `a + m + b`, where `m` starts and ends with non-whitespace, leaves `m` whole. */
  lemma StripAround(a: string, m: string, b: string)
    requires m != [] && !IsSpace(m[0]) && !IsSpace(m[|m| - 1])
    ensures Strip(a + m + b) == LStrip(a) + m + RStrip(b)
  {
    assert a + m + b == a + (m + b);
    LStripConcat(a, m + b);
    assert LStrip(a) + (m + b) == (LStrip(a) + m) + b;
    RStripConcat(LStrip(a) + m, b);
  }

  /** Number of occurrences of `c` in `s`. */
  function Count(s: string, c: char): (n: nat)
    ensures n <= |s|
    ensures n == 0 <==> c !in s
  {
    if s == [] then 0 else (if s[0] == c then 1 else 0) + Count(s[1..], c)
  }

  lemma {:induction false} CountConcat(a: string, b: string, c: char)
    ensures Count(a + b, c) == Count(a, c) + Count(b, c)
  {
    if a == [] {
      assert a + b == b;
    } else {
      assert (a + b)[0] == a[0];
      assert (a + b)[1..] == a[1..] + b;
      CountConcat(a[1..], b, c);
    }
  }

  /** `p` occurs in `s` at index `j`. */
  predicate OccursAt(s: string, p: string, j: nat) {
    j + |p| <= |s| && s[j..j + |p|] == p
  }

  /** An occurrence in the tail is one place further along in the whole. */
  lemma OccursInTail(s: string, p: string, j: nat)
    requires s != []
    ensures OccursAt(s[1..], p, j) <==> OccursAt(s, p, j + 1)
  {
    if j + |p| <= |s[1..]| {
      assert s[1..][j..j + |p|] == s[j + 1..j + 1 + |p|];
    }
  }

  /** `s.find(p)`: the first index at which `p` occurs (`FindFirst`), or -1. */
  function Find(s: string, p: string): (r: int)
    ensures -1 <= r
    ensures r >= 0 ==> OccursAt(s, p, r) && r + |p| <= |s| && s[r..r + |p|] == p
  {
    if p <= s then
      assert s[0..|p|] == p;
      0
    else if s == [] then -1
    else
      var k := Find(s[1..], p);
      if k < 0 then -1
      else
        OccursInTail(s, p, k);
        k + 1
  }

  /** `find` gives the first occurrence, and -1 only when there is none. */
  lemma {:induction false} FindFirst(s: string, p: string)
    ensures Find(s, p) >= 0 ==> forall j :: 0 <= j < Find(s, p) ==> !OccursAt(s, p, j)
    ensures Find(s, p) == -1 ==> forall j :: 0 <= j <= |s| ==> !OccursAt(s, p, j)
  {
    FindFirstOf(s, p, Find(s, p));
  }

  /** `FindFirst` with the result of `find` passed in, by induction on the text. */
  lemma {:induction false} FindFirstOf(s: string, p: string, r: int)
    requires r == Find(s, p)
    ensures r >= 0 ==> forall j :: 0 <= j < r ==> !OccursAt(s, p, j)
    ensures r == -1 ==> forall j :: 0 <= j <= |s| ==> !OccursAt(s, p, j)
    decreases |s|
  {
    if !(p <= s) && s != [] {
      var k := Find(s[1..], p);
      FindFirstOf(s[1..], p, k);
      assert r == if k < 0 then -1 else k + 1;
      assert !OccursAt(s, p, 0);
      forall j | 1 <= j <= |s| ensures OccursAt(s, p, j) <==> OccursAt(s[1..], p, j - 1) {
        OccursInTail(s, p, j - 1);
      }
    }
  }

  /** Python's `p in s` for a string `p`. */
  predicate Contains(s: string, p: string) {
    Find(s, p) >= 0
  }

  lemma ContainsAt(s: string, p: string, i: nat)
    requires i + |p| <= |s| && s[i..i + |p|] == p
    ensures Contains(s, p)
  {
    assert OccursAt(s, p, i);
    FindFirst(s, p);
  }

  /** `s.rfind(c)` for one character: the last index holding `c`, or -1. */
  function RFind(s: string, c: char): (r: int)
    ensures -1 <= r < |s|
    ensures r >= 0 ==> s[r] == c
    ensures forall j :: r < j < |s| ==> s[j] != c
  {
    if s == [] then -1
    else if s[|s| - 1] == c then |s| - 1
    else RFind(s[..|s| - 1], c)
  }

  /** Python's `s[n:]` for `n >= 0`. */
  function Drop(s: string, n: nat): (r: string)
    ensures |r| <= |s| && r == s[|s| - |r|..]
  {
    if n <= |s| then s[n..] else []
  }

  /** Python's `s[:k]`, where a negative `k` counts from the end. */
  function PyPrefix(s: string, k: int): (r: string)
    ensures r <= s
    ensures 0 <= k <= |s| ==> r == s[..k]
  {
    if k >= 0 then s[..if k <= |s| then k else |s|]
    else s[..if |s| + k >= 0 then |s| + k else 0]
  }

  /** What occurs in a piece of `b` occurs in `b`. */
  lemma ContainsIn(b: string, q: nat, a: string, w: string)
    requires q + |a| <= |b| && b[q..q + |a|] == a && Contains(a, w)
    ensures Contains(b, w)
  {
    var r := Find(a, w);
    assert 0 <= r && r + |w| <= |a| && a[r..r + |w|] == w;
    assert q + r + |w| <= |b|;
    forall m | 0 <= m < |w| ensures b[q + r + m] == w[m] {
      assert w[m] == a[r..r + |w|][m] == a[r + m];
      assert a[r + m] == b[q..q + |a|][r + m];
    }
    assert b[q + r..q + r + |w|] == w;
    ContainsAt(b, w, q + r);
  }

  /** `s.split(sep)` for a one-character separator: never empty, pieces without `sep`. */
  function Split(s: string, sep: char): (parts: seq<string>)
    ensures |parts| >= 1
    ensures forall k :: 0 <= k < |parts| ==> sep !in parts[k]
    decreases |s|
  {
    if sep !in s then [s]
    else
      var i := FirstIndex(s, sep);
      [s[..i]] + Split(s[i + 1..], sep)
  }

  /** With a separator present, the first piece runs up to it and the split goes on after it. */
  lemma SplitCons(s: string, sep: char)
    requires sep in s
    ensures Split(s, sep) == [s[..FirstIndex(s, sep)]] + Split(s[FirstIndex(s, sep) + 1..], sep)
  {
  }

  /** Joining the pieces of a split gives back the string. */
  lemma {:induction false} SplitJoin(s: string, sep: char)
    ensures Join(Split(s, sep), sep) == s
    decreases |s|
  {
    if sep in s {
      var i := FirstIndex(s, sep);
      var tail := Split(s[i + 1..], sep);
      SplitJoin(s[i + 1..], sep);
      var parts := [s[..i]] + tail;
      assert Split(s, sep) == parts;
      assert parts[0] == s[..i] && parts[1..] == tail && |parts| > 1;
      assert Join(parts, sep) == s[..i] + [sep] + Join(tail, sep);
      assert s == s[..i] + [sep] + s[i + 1..];
    }
  }

  /** A split yields one piece more than there are separators. */
  lemma {:induction false} SplitCount(s: string, sep: char)
    ensures |Split(s, sep)| == Count(s, sep) + 1
    decreases |s|
  {
    if sep in s {
      var i := FirstIndex(s, sep);
      SplitCount(s[i + 1..], sep);
      assert s == s[..i] + ([sep] + s[i + 1..]);
      CountConcat(s[..i], [sep] + s[i + 1..], sep);
      CountConcat([sep], s[i + 1..], sep);
      assert Count(s[..i], sep) == 0;
      assert Count([sep], sep) == 1;
      assert Split(s, sep) == [s[..i]] + Split(s[i + 1..], sep);
    }
  }

  /** `sep.join(parts)`. */
  function Join(parts: seq<string>, sep: char): string {
    if parts == [] then []
    else if |parts| == 1 then parts[0]
    else parts[0] + [sep] + Join(parts[1..], sep)
  }

  /** Joining pieces that do not contain `sep` puts exactly one `sep` between each pair. */
  lemma {:induction false} JoinCount(parts: seq<string>, sep: char)
    requires parts != []
    requires forall k :: 0 <= k < |parts| ==> sep !in parts[k]
    ensures Count(Join(parts, sep), sep) == |parts| - 1
  {
    if |parts| > 1 {
      JoinCount(parts[1..], sep);
      CountConcat(parts[0], [sep], sep);
      CountConcat(parts[0] + [sep], Join(parts[1..], sep), sep);
    }
  }

  function FirstIndex(s: string, c: char): (i: nat)
    requires c in s
    ensures i < |s| && s[i] == c && c !in s[..i]
  {
    if s[0] == c then 0 else FirstIndex(s[1..], c) + 1
  }

  /** `s.split()`: the maximal runs of non-whitespace, in order. */
  function Words(s: string): (ws: seq<string>)
    ensures forall k :: 0 <= k < |ws| ==> ws[k] != []
    decreases |s|
  {
    var t := LStrip(s);
    if t == [] then []
    else
      var n := Span(t, NonSpace);
      [t[..n]] + Words(t[n..])
  }

  /** The first word of a string is its non-whitespace run after leading whitespace. */
  lemma FirstWord(s: string)
    requires LStrip(s) != []
    ensures Words(s) != [] && Words(s)[0] == LStrip(s)[..Span(LStrip(s), NonSpace)]
  {
  }

  /** What occurs in one of the parts occurs in their join. */
  lemma {:induction false} JoinContains(parts: seq<string>, k: nat, sep: char, w: string)
    requires k < |parts| && Contains(parts[k], w)
    ensures Contains(Join(parts, sep), w)
    decreases k
  {
    var j := Join(parts, sep);
    if |parts| == 1 {
    } else if k == 0 {
      assert j[0..|parts[0]|] == parts[0];
      ContainsIn(j, 0, parts[0], w);
    } else {
      var rest := Join(parts[1..], sep);
      JoinContains(parts[1..], k - 1, sep, w);
      assert j[|parts[0]| + 1..|parts[0]| + 1 + |rest|] == rest;
      ContainsIn(j, |parts[0]| + 1, rest, w);
    }
  }

  /** The words of `s` joined by single spaces begin with its first word. */
  lemma JoinStartsWithFirst(ws: seq<string>)
    requires ws != []
    ensures ws[0] <= Join(ws, ' ')
  {
  }
}
