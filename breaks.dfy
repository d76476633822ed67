/** `add_line_breaks` (tweet_generator.py:173-186): a paragraph break after each sentence
    that is followed by a capitalised one, also across a trailing emoji or hashtag. */
module Breaks {
  import opened Text
  import opened Regex
  import opened Options

  /** `add_line_breaks` only rewrites whitespace: with all whitespace deleted, the output
      reads as the input. */
  function AddLineBreaks(text: string): (r: string)
    ensures RemoveSpaces(r) == RemoveSpaces(text)
  {
    GapSubKeepsInk(SentenceGap, text);
    GapSubKeepsInk(TokenGap, Sub(SentenceGap, text));
    StripKeepsInk(Sub(TokenGap, Sub(SentenceGap, text)));
    Strip(Sub(TokenGap, Sub(SentenceGap, text)))
  }

  /** The text with every whitespace character deleted. */
  function RemoveSpaces(s: string): (r: string)
    ensures |r| <= |s|
  {
    if s == [] then [] else (if IsSpace(s[0]) then [] else [s[0]]) + RemoveSpaces(s[1..])
  }

  lemma {:induction false} RemoveSpacesConcat(a: string, b: string)
    ensures RemoveSpaces(a + b) == RemoveSpaces(a) + RemoveSpaces(b)
  {
    if a == [] {
      assert a + b == b;
    } else {
      assert (a + b)[0] == a[0];
      assert (a + b)[1..] == a[1..] + b;
      RemoveSpacesConcat(a[1..], b);
    }
  }

  lemma {:induction false} RemoveSpacesOfSpaces(s: string)
    requires forall i :: 0 <= i < |s| ==> IsSpace(s[i])
    ensures RemoveSpaces(s) == []
  {
    if s != [] {
      RemoveSpacesOfSpaces(s[1..]);
    }
  }

  lemma {:induction false} RemoveSpacesOfInk(s: string)
    requires forall i :: 0 <= i < |s| ==> !IsSpace(s[i])
    ensures RemoveSpaces(s) == s
  {
    if s != [] {
      RemoveSpacesOfInk(s[1..]);
    }
  }

  lemma RemoveSpacesSplit(s: string, i: nat)
    requires i <= |s|
    ensures RemoveSpaces(s) == RemoveSpaces(s[..i]) + RemoveSpaces(s[i..])
  {
    assert s == s[..i] + s[i..];
    RemoveSpacesConcat(s[..i], s[i..]);
  }

  lemma LStripKeepsInk(s: string)
    ensures RemoveSpaces(LStrip(s)) == RemoveSpaces(s)
  {
    var n := Span(s, Space);
    SpanFacts(s, Space);
    RemoveSpacesSplit(s, n);
    RemoveSpacesOfSpaces(s[..n]);
  }

  lemma RStripKeepsInk(s: string)
    ensures RemoveSpaces(RStrip(s)) == RemoveSpaces(s)
  {
    var n := |s| - TrailingSpaces(s);
    RemoveSpacesSplit(s, n);
    RemoveSpacesOfSpaces(s[n..]);
  }

  lemma StripKeepsInk(s: string)
    ensures RemoveSpaces(Strip(s)) == RemoveSpaces(s)
  {
    LStripKeepsInk(s);
    RStripKeepsInk(LStrip(s));
  }

  /** Rewriting the whitespace after a first character keeps the non-whitespace text. */
  lemma InkAfterFirst(c: char, w: string, y: string, w2: string, o: string)
    requires forall i :: 0 <= i < |w| ==> IsSpace(w[i])
    requires forall i :: 0 <= i < |w2| ==> IsSpace(w2[i])
    requires RemoveSpaces(o) == RemoveSpaces(y)
    ensures RemoveSpaces([c] + w + y) == RemoveSpaces([c] + w2 + o)
  {
    RemoveSpacesConcat([c] + w, y);
    RemoveSpacesConcat([c], w);
    RemoveSpacesOfSpaces(w);
    RemoveSpacesConcat([c] + w2, o);
    RemoveSpacesConcat([c], w2);
    RemoveSpacesOfSpaces(w2);
  }

  lemma SentenceHitKeepsInk(s: string)
    requires SentenceGapAt(s).Some?
    ensures RemoveSpaces(SentenceGapAt(s).value.out) == RemoveSpaces(s[..SentenceGapAt(s).value.len])
  {
    var n := Span(s[1..], Space);
    SpanFacts(s[1..], Space);
    var x := 1 + n;
    assert s[..x + 1] == [s[0]] + s[1..x] + [s[x]];
    assert [s[0], '\n', '\n', s[x]] == [s[0]] + ['\n', '\n'] + [s[x]];
    InkAfterFirst(s[0], s[1..x], [s[x]], ['\n', '\n'], [s[x]]);
  }

  /** A token is free of whitespace. */
  lemma TokenInk(v: string)
    ensures forall i :: 0 <= i < TokenLen(v) ==> !IsSpace(v[i])
  {
    if v != [] && !IsEmojiChar(v[0]) && v[0] == '#' {
      SpanFacts(v[1..], Word);
    }
  }

  lemma {:induction false} TokenRestKeepsInk(v: string)
    requires TokenRest(v).Some?
    ensures RemoveSpaces(TokenRest(v).value.out) == RemoveSpaces(v[..TokenRest(v).value.len])
  {
    var k := TokenLen(v);
    TokenInk(v);
    var w := Span(v[k..], Space);
    SpanFacts(v[k..], Space);
    var x := k + w;
    assert v[..x + 1] == v[..k] + v[k..x] + [v[x]];
    RemoveSpacesConcat(v[..k] + v[k..x], [v[x]]);
    RemoveSpacesConcat(v[..k], v[k..x]);
    RemoveSpacesOfSpaces(v[k..x]);
    RemoveSpacesConcat(v[..k] + ['\n', '\n'], [v[x]]);
    RemoveSpacesConcat(v[..k], ['\n', '\n']);
    RemoveSpacesOfSpaces(['\n', '\n']);
    assert TokenRest(v).value.len == x + 1;
    assert TokenRest(v).value.out == v[..k] + ['\n', '\n'] + [v[x]];
  }

  /** A prefix cut into its first character, a middle part and a head of the rest. */
  lemma TailOfConcat(u: string, r: string)
    requires u != []
    ensures (u + r)[0] == u[0] && (u + r)[1..] == u[1..] + r
  {
  }

  lemma Regroup(a: string, b: string, c: string)
    ensures a + (b + c) == (a + b) + c
  {
  }

  lemma PrefixPieces(s: string, t: nat, e: nat)
    requires 1 <= t <= e <= |s|
    ensures s[..e] == [s[0]] + s[1..t] + s[t..][..e - t]
  {
  }

  /** The first whitespace run of a token gap becomes one space. */
  lemma TokenHitAfterLead(c: char, w: string, v: string)
    requires !IsSpace(c) && AllSpace(w) && TokenRest(v).Some?
    ensures RemoveSpaces([c, ' '] + TokenRest(v).value.out)
            == RemoveSpaces([c] + w + v[..TokenRest(v).value.len])
  {
    var h := TokenRest(v).value;
    TokenRestKeepsInk(v);
    assert [c, ' '] + h.out == [c] + [' '] + h.out;
    InkAfterFirst(c, w, v[..h.len], [' '], h.out);
  }

  lemma {:induction false} TokenHitKeepsInk(s: string)
    requires TokenGapAt(s).Some?
    ensures RemoveSpaces(TokenGapAt(s).value.out) == RemoveSpaces(s[..TokenGapAt(s).value.len])
  {
    var t, h := TokenGapShape(s);
    TokenHitInPlace(s, t, h, TokenGapAt(s).value);
  }

  lemma TokenHitInPlace(s: string, t: nat, h: Hit, hit: Hit)
    requires 1 <= t && t + h.len <= |s| && !IsSpace(s[0]) && AllSpace(s[1..t])
    requires TokenRest(s[t..]) == Some(h) && hit == Hit(t + h.len, [s[0], ' '] + h.out)
    ensures hit.len <= |s| && RemoveSpaces(hit.out) == RemoveSpaces(s[..hit.len])
  {
    PrefixPieces(s, t, t + h.len);
    TokenHitAfterLead(s[0], s[1..t], s[t..]);
  }

  /** A token gap read as its sentence end, whitespace run `s[1..t]` and rest. */
  lemma TokenGapShape(s: string) returns (t: nat, h: Hit)
    requires TokenGapAt(s).Some?
    ensures 1 <= t && t + h.len <= |s| && !IsSpace(s[0]) && AllSpace(s[1..t])
    ensures TokenRest(s[t..]) == Some(h)
    ensures TokenGapAt(s).value == Hit(t + h.len, [s[0], ' '] + h.out)
  {
    t := 1 + Span(s[1..], Space);
    SpanFacts(s[1..], Space);
    h := TokenRest(s[t..]).value;
  }

  /** One replacement of either pattern keeps the non-whitespace characters it consumed. */
  lemma GapHitKeepsInk(p: Pattern, s: string)
    requires p == SentenceGap || p == TokenGap
    requires MatchAt(p, s).Some?
    ensures RemoveSpaces(MatchAt(p, s).value.out) == RemoveSpaces(s[..MatchAt(p, s).value.len])
  {
    if p == SentenceGap {
      SentenceHitKeepsInk(s);
    } else {
      TokenHitKeepsInk(s);
    }
  }

  lemma {:induction false} GapSubKeepsInk(p: Pattern, s: string)
    requires p == SentenceGap || p == TokenGap
    ensures RemoveSpaces(Sub(p, s)) == RemoveSpaces(s)
    decreases |s|
  {
    if s != [] {
      match MatchAt(p, s)
      case Some(h) =>
        GapHitKeepsInk(p, s);
        GapSubKeepsInk(p, s[h.len..]);
        RemoveSpacesConcat(h.out, Sub(p, s[h.len..]));
        RemoveSpacesSplit(s, h.len);
      case None =>
        GapSubKeepsInk(p, s[1..]);
        RemoveSpacesConcat([s[0]], Sub(p, s[1..]));
        RemoveSpacesSplit(s, 1);
    }
  }

  /** The whitespace run after the first character cannot go on into a sentence end. */
  lemma LeadSpanStops(u: string, r: string)
    requires u != [] && r != [] && IsTerminal(r[0])
    ensures (u + r)[0] == u[0]
    ensures Span((u + r)[1..], Space) == Span(u[1..], Space)
  {
    assert (u + r)[1..] == u[1..] + r;
    SpanConcat(u[1..], r, Space);
  }

  lemma {:induction false} SentenceGapStops(u: string, r: string)
    requires u != [] && r != [] && IsTerminal(r[0])
    ensures SentenceGapAt(u + r) == SentenceGapAt(u)
  {
    LeadSpanStops(u, r);
    var x := 1 + Span(u[1..], Space);
    if x < |u| {
      assert (u + r)[x] == u[x];
    }
  }

  lemma TokenLenStops(v: string, r: string)
    requires v != [] && r != [] && IsTerminal(r[0])
    ensures TokenLen(v + r) == TokenLen(v)
  {
    assert (v + r)[0] == v[0];
    assert (v + r)[1..] == v[1..] + r;
    SpanConcat(v[1..], r, Word);
  }

  lemma {:induction false} TokenRestStops(v: string, r: string)
    requires v != [] && r != [] && IsTerminal(r[0])
    ensures TokenRest(v + r) == TokenRest(v)
  {
    TokenLenStops(v, r);
    var k := TokenLen(v);
    if 0 < k {
      ConcatAt(v, r, k);
      SpanConcat(v[k..], r, Space);
    }
  }

  /** Two texts with the same first character, the same first whitespace run and the same
      remainder match after it have the same token gap at their front. */
  lemma TokenGapSameRest(u: string, s: string, t: nat)
    requires u != [] && s != [] && u[0] == s[0]
    requires t == 1 + Span(u[1..], Space) == 1 + Span(s[1..], Space)
    requires t < |u| && t < |s| && TokenRest(s[t..]) == TokenRest(u[t..])
    ensures TokenGapAt(s) == TokenGapAt(u)
  {
  }

  lemma {:induction false} TokenGapStops(u: string, r: string)
    requires u != [] && r != [] && IsTerminal(r[0])
    ensures TokenGapAt(u + r) == TokenGapAt(u)
  {
    LeadSpanStops(u, r);
    var t := 1 + Span(u[1..], Space);
    if t < |u| {
      assert (u + r)[t..] == u[t..] + r;
      TokenRestStops(u[t..], r);
      TokenGapSameRest(u, u + r, t);
    } else {
      assert TokenGapAt(u).None?;
      assert (u + r)[t..] == r;
      assert TokenLen(r) == 0;
    }
  }

  /** Always true: it carries no meaning of its own. It only names the split of a text
      into `u` and `r` as a trigger term, so that the quantifiers below are instantiated
      only where a proof mentions `SplitPoint(u, r)`. */
  ghost predicate SplitPoint(u: string, r: string) { true }

  /** Always true, like `SplitPoint`: a trigger term that names one text a pattern is
      tried on. */
  ghost predicate TriedOn(s: string) { true }

  /** A match of `p` never reaches across a sentence-ending character that follows it. */
  ghost predicate StopsBeforeTerminal(p: Pattern) {
    forall u: string, r: string {:trigger SplitPoint(u, r)} :: SplitPoint(u, r) ==>
      u != [] && r != [] && IsTerminal(r[0]) ==> MatchAt(p, u + r) == MatchAt(p, u)
  }

  /** Every match of `p` starts with a sentence-ending character. */
  ghost predicate StartsAtTerminal(p: Pattern) {
    forall s: string {:trigger TriedOn(s)} :: TriedOn(s) ==>
      MatchAt(p, s).Some? ==> IsTerminal(s[0])
  }

  lemma GapPatterns()
    ensures StopsBeforeTerminal(SentenceGap) && StopsBeforeTerminal(TokenGap)
    ensures StartsAtTerminal(SentenceGap) && StartsAtTerminal(TokenGap)
  {
    forall u: string, r: string | u != [] && r != [] && IsTerminal(r[0])
      ensures MatchAt(SentenceGap, u + r) == MatchAt(SentenceGap, u)
      ensures MatchAt(TokenGap, u + r) == MatchAt(TokenGap, u)
    {
      SentenceGapStops(u, r);
      TokenGapStops(u, r);
    }
  }

  /** One step of `SplitAtTerminal`: the match at the front is the same with or without `r`. */
  lemma HitStep(p: Pattern, u: string, r: string, h: Hit)
    requires u != [] && MatchAt(p, u + r) == Some(h) && MatchAt(p, u) == Some(h)
    requires Sub(p, u[h.len..] + r) == Sub(p, u[h.len..]) + Sub(p, r)
    ensures Sub(p, u + r) == Sub(p, u) + Sub(p, r)
  {
    SubReplacesBefore(p, u, r, h);
    SubReplacesOne(p, u, h);
    Regroup(h.out, Sub(p, u[h.len..]), Sub(p, r));
  }

  /** One step of `SplitAtTerminal`: neither text matches at the front. */
  lemma CopyStep(p: Pattern, u: string, r: string)
    requires u != [] && MatchAt(p, u + r).None? && MatchAt(p, u).None?
    requires Sub(p, u[1..] + r) == Sub(p, u[1..]) + Sub(p, r)
    ensures Sub(p, u + r) == Sub(p, u) + Sub(p, r)
  {
    var v := u[1..];
    SubCopiesOne(p, u + r);
    SubCopiesOne(p, u);
    TailOfConcat(u, r);
    Regroup([u[0]], Sub(p, v), Sub(p, r));
  }

  lemma {:induction false} SplitAtTerminal(p: Pattern, u: string, r: string)
    requires StopsBeforeTerminal(p)
    requires r != [] && IsTerminal(r[0])
    ensures Sub(p, u + r) == Sub(p, u) + Sub(p, r)
    decreases |u|
  {
    if u == [] {
      assert u + r == r;
    } else {
      assert SplitPoint(u, r);
      match MatchAt(p, u)
      case Some(h) =>
        SplitAtTerminal(p, u[h.len..], r);
        HitStep(p, u, r, h);
      case None =>
        SplitAtTerminal(p, u[1..], r);
        CopyStep(p, u, r);
    }
  }

  /** Text free of sentence-ending characters is copied through unchanged. */
  lemma {:induction false} CopiesNonTerminal(p: Pattern, u: string, r: string)
    requires StartsAtTerminal(p)
    requires NoTerminal(u)
    ensures Sub(p, u + r) == u + Sub(p, r)
    decreases |u|
  {
    if u == [] {
      assert u + r == r;
    } else {
      TailOfConcat(u, r);
      assert !IsTerminal(u[0]);
      assert TriedOn(u + r);
      NoTerminalTail(u);
      CopiesNonTerminal(p, u[1..], r);
      SubCopiesOne(p, u + r);
      ConsTail(u, Sub(p, r));
    }
  }

  /** Both passes split at a sentence-ending character. */
  lemma GapSubSplit(p: Pattern, u: string, r: string)
    requires p == SentenceGap || p == TokenGap
    requires r != [] && IsTerminal(r[0])
    ensures Sub(p, u + r) == Sub(p, u) + Sub(p, r)
  {
    GapPatterns();
    SplitAtTerminal(p, u, r);
  }

  /** Both passes copy text free of sentence-ending characters. */
  lemma GapSubCopies(p: Pattern, u: string, r: string)
    requires p == SentenceGap || p == TokenGap
    requires NoTerminal(u)
    ensures Sub(p, u + r) == u + Sub(p, r)
  {
    GapPatterns();
    CopiesNonTerminal(p, u, r);
  }

  /** A block that starts with a sentence end where `p` does not match, and holds no other
      sentence end, is copied through. */
  lemma GapBlockCopied(p: Pattern, sa: string, c: char, body: string, rest: string)
    requires p == SentenceGap || p == TokenGap
    requires IsTerminal(c) && MatchAt(p, [c] + body + rest).None? && NoTerminal(body)
    ensures Sub(p, sa + ([c] + body + rest)) == Sub(p, sa) + ([c] + body) + Sub(p, rest)
  {
    var q := [c] + body + rest;
    ConsRegroup(c, body, rest);
    GapSubSplit(p, sa, q);
    SubCopiesHead(p, c, body + rest);
    GapSubCopies(p, body, rest);
    Regroup([c], body, Sub(p, rest));
    Regroup(Sub(p, sa), [c] + body, Sub(p, rest));
  }

  /** A match at a sentence end is replaced, whatever precedes it. */
  lemma GapHitReplaced(p: Pattern, sa: string, q: string)
    requires p == SentenceGap || p == TokenGap
    requires q != [] && IsTerminal(q[0]) && MatchAt(p, q).Some?
    ensures Sub(p, sa + q) == Sub(p, sa) + MatchAt(p, q).value.out + Sub(p, q[MatchAt(p, q).value.len..])
  {
    var h := MatchAt(p, q).value;
    GapSubSplit(p, sa, q);
    assert Sub(p, q) == h.out + Sub(p, q[h.len..]);
    Regroup(Sub(p, sa), h.out, Sub(p, q[h.len..]));
  }

  predicate AllSpace(w: string) {
    forall i :: 0 <= i < |w| ==> IsSpace(w[i])
  }

  /** An emoji from the class, or a hashtag `#\w+`. */
  predicate IsToken(tok: string) {
    (|tok| == 1 && IsEmojiChar(tok[0]))
    || (|tok| >= 2 && tok[0] == '#' && forall i :: 1 <= i < |tok| ==> IsWordChar(tok[i]))
  }

  /** The non-whitespace text of both passes together is unchanged. */
  lemma PassesKeepInk(s: string)
    ensures RemoveSpaces(Sub(TokenGap, Sub(SentenceGap, s))) == RemoveSpaces(s)
  {
    GapSubKeepsInk(SentenceGap, s);
    GapSubKeepsInk(TokenGap, Sub(SentenceGap, s));
  }

  /** When the two passes turn `a`, a middle part and `b` into their images around a fixed
      `m` whose ends are not whitespace, the final strip leaves `m` between the ink of `a`
      and the ink of `b`. */
  lemma BreakShape(text: string, a: string, m: string, b: string)
    requires m != [] && !IsSpace(m[0]) && !IsSpace(m[|m| - 1])
    requires Sub(TokenGap, Sub(SentenceGap, text))
             == Sub(TokenGap, Sub(SentenceGap, a)) + m + Sub(TokenGap, Sub(SentenceGap, b))
    ensures exists pre, post :: AddLineBreaks(text) == pre + m + post
              && RemoveSpaces(pre) == RemoveSpaces(a) && RemoveSpaces(post) == RemoveSpaces(b)
  {
    var ta := Sub(TokenGap, Sub(SentenceGap, a));
    var tb := Sub(TokenGap, Sub(SentenceGap, b));
    StripAround(ta, m, tb);
    PassesKeepInk(a);
    PassesKeepInk(b);
    LStripKeepsInk(ta);
    RStripKeepsInk(tb);
    assert AddLineBreaks(text) == LStrip(ta) + m + RStrip(tb);
  }

  /** The sentence pass at a sentence end followed by whitespace and a capital. */
  lemma SentencePassBreaks(a: string, p: char, w: string, x: char, b: string)
    requires IsTerminal(p) && w != [] && AllSpace(w) && IsUpper(x)
    ensures Sub(SentenceGap, a + [p] + w + [x] + b)
            == Sub(SentenceGap, a) + [p, '\n', '\n', x] + Sub(SentenceGap, b)
  {
    var r := [p] + w + [x] + b;
    assert a + [p] + w + [x] + b == a + r;
    assert r[1..] == w + ([x] + b);
    SpanExact(w, [x] + b, Space);
    assert r[|w| + 2..] == b;
    assert SentenceGapAt(r) == Some(Hit(|w| + 2, [p, '\n', '\n', x]));
    GapHitReplaced(SentenceGap, a, r);
  }

  /** A paragraph break is not itself a token gap. */
  lemma BreakIsNoTokenGap(p: char, x: char, rest: string)
    requires IsUpper(x)
    ensures TokenGapAt([p, '\n', '\n', x] + rest).None?
  {
    BreakFront(p, x, rest);
  }

  lemma BreakFront(p: char, x: char, rest: string)
    requires IsUpper(x)
    ensures var q := [p, '\n', '\n', x] + rest;
      q[0] == p && Span(q[1..], Space) == 2 && q[3..] == [x] + rest
  {
    var q := [p, '\n', '\n', x] + rest;
    assert q[1..] == ['\n', '\n'] + ([x] + rest);
    SpanExact(['\n', '\n'], [x] + rest, Space);
    assert q[3..] == [x] + rest;
  }

  /** Where nothing matches, the substitution copies one character. */
  lemma SubReplacesOne(p: Pattern, s: string, h: Hit)
    requires s != [] && MatchAt(p, s) == Some(h)
    ensures Sub(p, s) == h.out + Sub(p, s[h.len..])
  {
  }

  /** A match that ends inside `u` is replaced in `u + r` as it is in `u`. */
  lemma SubReplacesBefore(p: Pattern, u: string, r: string, h: Hit)
    requires u != [] && MatchAt(p, u + r) == Some(h) && h.len <= |u|
    ensures Sub(p, u + r) == h.out + Sub(p, u[h.len..] + r)
  {
    assert (u + r)[h.len..] == u[h.len..] + r;
    SubReplacesOne(p, u + r, h);
  }

  lemma ConsRegroup(c: char, body: string, rest: string)
    ensures [c] + body + rest == [c] + (body + rest)
  {
  }

  lemma SubCopiesHead(p: Pattern, c: char, t: string)
    requires MatchAt(p, [c] + t).None?
    ensures Sub(p, [c] + t) == [c] + Sub(p, t)
  {
    assert ([c] + t)[1..] == t;
    SubCopiesOne(p, [c] + t);
  }

  lemma ConsTail(u: string, x: string)
    requires u != []
    ensures [u[0]] + (u[1..] + x) == u + x
  {
  }

  lemma NoTerminalTail(u: string)
    requires u != [] && NoTerminal(u)
    ensures NoTerminal(u[1..])
  {
    forall i | 0 <= i < |u[1..]| ensures !IsTerminal(u[1..][i]) {
      assert u[1..][i] == u[i + 1];
    }
  }

  /** Cutting `v + r` inside `v`. */
  lemma ConcatAt(v: string, r: string, k: nat)
    requires k <= |v|
    ensures (v + r)[k..] == v[k..] + r && (v + r)[..k] == v[..k]
    ensures forall i :: 0 <= i < |v| ==> (v + r)[i] == v[i]
    ensures r != [] ==> (v + r)[|v|] == r[0]
  {
  }

  lemma SubCopiesOne(p: Pattern, s: string)
    requires s != [] && MatchAt(p, s).None?
    ensures Sub(p, s) == [s[0]] + Sub(p, s[1..])
  {
  }

  /** The text holds none of `.`, `!` and `?`. */
  predicate NoTerminal(s: string) {
    forall i :: 0 <= i < |s| ==> !IsTerminal(s[i])
  }

  lemma NoTerminalConcat(a: string, b: string)
    requires NoTerminal(a) && NoTerminal(b)
    ensures NoTerminal(a + b)
  {
    assert forall i :: |a| <= i < |a + b| ==> (a + b)[i] == b[i - |a|];
  }

  /** The token pass leaves a paragraph break, and whatever follows it, alone. */
  lemma TokenPassKeepsBreak(sa: string, p: char, x: char, rest: string)
    requires IsTerminal(p) && IsUpper(x)
    ensures Sub(TokenGap, sa + [p, '\n', '\n', x] + rest)
            == Sub(TokenGap, sa) + [p, '\n', '\n', x] + Sub(TokenGap, rest)
  {
    var body := ['\n', '\n', x];
    assert [p] + body == [p, '\n', '\n', x];
    assert sa + [p, '\n', '\n', x] + rest == sa + ([p] + body + rest);
    BreakIsNoTokenGap(p, x, rest);
    assert NoTerminal(body);
    GapBlockCopied(TokenGap, sa, p, body, rest);
  }

  /** After the rewrite, a sentence-ending `p` followed by whitespace and the capital `x`
      is followed by exactly two newlines and `x`, and everything before and after keeps
      its non-whitespace text. */
  lemma SentenceBreak(a: string, p: char, w: string, x: char, b: string)
    requires IsTerminal(p) && w != [] && AllSpace(w) && IsUpper(x)
    ensures exists pre, post ::
              AddLineBreaks(a + [p] + w + [x] + b) == pre + [p, '\n', '\n', x] + post
              && RemoveSpaces(pre) == RemoveSpaces(a) && RemoveSpaces(post) == RemoveSpaces(b)
  {
    SentencePassBreaks(a, p, w, x, b);
    TokenPassKeepsBreak(Sub(SentenceGap, a), p, x, Sub(SentenceGap, b));
    BreakShape(a + [p] + w + [x] + b, a, [p, '\n', '\n', x], b);
  }

  /** The text between a sentence end and the capital of a token gap holds no sentence end. */
  lemma TokenGapBodyNoTerminal(w1: string, tok: string, w2: string, x: char)
    requires AllSpace(w1) && IsToken(tok) && AllSpace(w2) && IsUpper(x)
    ensures NoTerminal(w1 + tok + w2 + [x])
  {
    assert NoTerminal(w1) && NoTerminal(tok) && NoTerminal(w2) && NoTerminal([x]);
    NoTerminalConcat(w1, tok);
    NoTerminalConcat(w1 + tok, w2);
    NoTerminalConcat(w1 + tok + w2, [x]);
  }

  /** A token is exactly as long as `TokenLen` measures, whatever follows its whitespace. */
  lemma TokenLenExact(tok: string, w: string, rest: string)
    requires IsToken(tok) && w != [] && AllSpace(w)
    ensures TokenLen(tok + (w + rest)) == |tok|
  {
    var v := tok + (w + rest);
    assert v[0] == tok[0];
    if !IsEmojiChar(tok[0]) {
      assert v[1..] == tok[1..] + (w + rest);
      SpanExact(tok[1..], w + rest, Word);
    }
  }

  /** No sentence gap when the first character after the whitespace is not a capital. */
  lemma NoSentenceGapBefore(p: char, w: string, rest: string)
    requires w != [] && AllSpace(w)
    requires rest != [] && !IsSpace(rest[0]) && !IsUpper(rest[0])
    ensures SentenceGapAt([p] + w + rest).None?
  {
    var r := [p] + w + rest;
    assert r[1..] == w + rest;
    SpanExact(w, rest, Space);
    assert r[1 + |w|] == rest[0];
  }

  /** The sentence pass leaves a sentence end followed by a token alone. */
  lemma SentencePassSkipsToken(a: string, p: char, w1: string, tok: string, w2: string, x: char, b: string)
    requires IsTerminal(p) && w1 != [] && AllSpace(w1) && IsToken(tok)
    requires w2 != [] && AllSpace(w2) && IsUpper(x)
    ensures Sub(SentenceGap, a + [p] + w1 + tok + w2 + [x] + b)
            == Sub(SentenceGap, a) + ([p] + w1 + tok + w2 + [x]) + Sub(SentenceGap, b)
  {
    var mid := w1 + tok + w2 + [x];
    assert a + [p] + w1 + tok + w2 + [x] + b == a + ([p] + mid + b);
    assert [p] + mid == [p] + w1 + tok + w2 + [x];
    assert [p] + mid + b == [p] + w1 + (tok + w2 + [x] + b);
    NoSentenceGapBefore(p, w1, tok + w2 + [x] + b);
    TokenGapBodyNoTerminal(w1, tok, w2, x);
    GapBlockCopied(SentenceGap, a, p, mid, b);
  }

  /** The part of a token gap after its first whitespace run. */
  lemma TokenRestAt(tok: string, w: string, x: char, rest: string)
    requires IsToken(tok) && w != [] && AllSpace(w) && IsUpper(x)
    ensures TokenRest(tok + w + [x] + rest) == Some(Hit(|tok| + |w| + 1, tok + ['\n', '\n', x]))
  {
    var v := tok + w + [x] + rest;
    assert v == tok + (w + ([x] + rest));
    TokenLenExact(tok, w, [x] + rest);
    var k := |tok|;
    assert v[k..] == w + ([x] + rest);
    SpanExact(w, [x] + rest, Space);
    assert v[k + |w|] == x;
    assert v[..k] == tok;
  }

  lemma TokenGapAtBreak(p: char, w1: string, tok: string, w2: string, x: char, rest: string)
    requires IsTerminal(p) && w1 != [] && AllSpace(w1) && IsToken(tok)
    requires w2 != [] && AllSpace(w2) && IsUpper(x)
    ensures TokenGapAt([p] + w1 + tok + w2 + [x] + rest)
            == Some(Hit(1 + |w1| + |tok| + |w2| + 1, [p, ' '] + tok + ['\n', '\n', x]))
  {
    var q, h := TokenGapParts(p, w1, tok, w2, x, rest);
    OutRegroup(p, tok, x);
    TokenGapFromRest(q, |w1|, h, 1 + |w1| + |tok| + |w2| + 1, [p, ' '] + tok + ['\n', '\n', x]);
  }

  lemma OutRegroup(p: char, tok: string, x: char)
    ensures [p, ' '] + (tok + ['\n', '\n', x]) == [p, ' '] + tok + ['\n', '\n', x]
  {
  }

  lemma TokenGapParts(p: char, w1: string, tok: string, w2: string, x: char, rest: string)
      returns (q: string, h: Hit)
    requires IsTerminal(p) && w1 != [] && AllSpace(w1) && IsToken(tok)
    requires w2 != [] && AllSpace(w2) && IsUpper(x)
    ensures q == [p] + w1 + tok + w2 + [x] + rest
    ensures h == Hit(|tok| + |w2| + 1, tok + ['\n', '\n', x])
    ensures q[0] == p && 1 + |w1| < |q| && Span(q[1..], Space) == |w1|
    ensures TokenRest(q[1 + |w1|..]) == Some(h)
  {
    var t := tok + w2 + [x] + rest;
    q := [p] + w1 + t;
    GapFront(p, w1, t);
    TokenRestAt(tok, w2, x, rest);
    h := Hit(|tok| + |w2| + 1, tok + ['\n', '\n', x]);
    GapRegroup(p, w1, tok, w2, x, rest);
  }

  lemma BreakRegroup(sa: string, m: string, sb: string)
    ensures sa + m + sb == sa + (m + sb) && (m + sb)[|m|..] == sb
  {
  }

  lemma GapRegroup(p: char, w1: string, tok: string, w2: string, x: char, rest: string)
    ensures [p] + w1 + tok + w2 + [x] + rest == [p] + w1 + (tok + w2 + [x] + rest)
  {
  }

  /** The sentence end and the whitespace run at the front of a gap. */
  lemma GapFront(p: char, w: string, t: string)
    requires w != [] && AllSpace(w) && t != [] && !IsSpace(t[0])
    ensures ([p] + w + t)[0] == p && Span(([p] + w + t)[1..], Space) == |w|
    ensures ([p] + w + t)[1 + |w|..] == t
  {
    assert ([p] + w + t)[1..] == w + t;
    SpanExact(w, t, Space);
  }

  /** `TokenGapAt` read off its parts: the sentence end, the whitespace run, the rest. */
  lemma TokenGapFromRest(q: string, n: nat, h: Hit, len: nat, out: string)
    requires q != [] && IsTerminal(q[0]) && 0 < n && 1 + n < |q|
    requires Span(q[1..], Space) == n && TokenRest(q[1 + n..]) == Some(h)
    requires len == 1 + n + h.len && out == [q[0], ' '] + h.out
    ensures TokenGapAt(q) == Some(Hit(len, out))
  {
  }

  /** The token pass at a sentence end, a token and a capital. */
  lemma TokenPassBreaks(sa: string, p: char, w1: string, tok: string, w2: string, x: char, sb: string)
    requires IsTerminal(p) && w1 != [] && AllSpace(w1) && IsToken(tok)
    requires w2 != [] && AllSpace(w2) && IsUpper(x)
    ensures Sub(TokenGap, sa + ([p] + w1 + tok + w2 + [x]) + sb)
            == Sub(TokenGap, sa) + ([p, ' '] + tok + ['\n', '\n', x]) + Sub(TokenGap, sb)
  {
    var q := [p] + w1 + tok + w2 + [x] + sb;
    BreakRegroup(sa, [p] + w1 + tok + w2 + [x], sb);
    TokenGapAtBreak(p, w1, tok, w2, x, sb);
    GapHitReplaced(TokenGap, sa, q);
  }

  /** With an emoji or hashtag between the sentence end `p` and the capital `x`, the result
      reads `p`, one space, the token, two newlines, `x`. */
  lemma TokenBreak(a: string, p: char, w1: string, tok: string, w2: string, x: char, b: string)
    requires IsTerminal(p) && w1 != [] && AllSpace(w1) && IsToken(tok)
    requires w2 != [] && AllSpace(w2) && IsUpper(x)
    ensures exists pre, post ::
              AddLineBreaks(a + [p] + w1 + tok + w2 + [x] + b)
                == pre + ([p, ' '] + tok + ['\n', '\n', x]) + post
              && RemoveSpaces(pre) == RemoveSpaces(a) && RemoveSpaces(post) == RemoveSpaces(b)
  {
    SentencePassSkipsToken(a, p, w1, tok, w2, x, b);
    TokenPassBreaks(Sub(SentenceGap, a), p, w1, tok, w2, x, Sub(SentenceGap, b));
    BreakShape(a + [p] + w1 + tok + w2 + [x] + b, a, [p, ' '] + tok + ['\n', '\n', x], b);
  }

  /** Every replacement writes a newline. */
  lemma GapHitHasNewline(p: Pattern, s: string)
    requires p == SentenceGap || p == TokenGap
    requires MatchAt(p, s).Some?
    ensures '\n' in MatchAt(p, s).value.out
  {
    if p == SentenceGap {
      assert MatchAt(p, s).value.out[1] == '\n';
    } else {
      var t := 1 + Span(s[1..], Space);
      var h := TokenRest(s[t..]).value;
      var k := TokenLen(s[t..]);
      assert h.out[k] == '\n';
      assert MatchAt(p, s).value.out[2 + k] == '\n';
    }
  }

  /** A pass whose output holds no newline replaced nothing. */
  lemma {:induction false} GapSubNoNewline(p: Pattern, s: string)
    requires p == SentenceGap || p == TokenGap
    requires '\n' !in Sub(p, s)
    ensures Sub(p, s) == s
    decreases |s|
  {
    if s != [] {
      if MatchAt(p, s).Some? {
        GapHitHasNewline(p, s);
        assert false;
      } else {
        assert Sub(p, s) == [s[0]] + Sub(p, s[1..]);
        GapSubNoNewline(p, s[1..]);
      }
    }
  }

  /** When neither pass writes a newline, `add_line_breaks` only strips. */
  lemma NoBreakIsStrip(s: string)
    requires '\n' !in Sub(TokenGap, Sub(SentenceGap, s))
    ensures AddLineBreaks(s) == Strip(s)
  {
    GapSubNoNewline(TokenGap, Sub(SentenceGap, s));
    GapSubNoNewline(SentenceGap, s);
  }
}
