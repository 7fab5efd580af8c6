/** Text primitives shared by every parser: Python's `str.strip`, `str.split()`,
    `' '.join`, substring tests, and the two helpers `clean_text` and
    `is_postal_code` that parse_postal_codes.py, simple_column_parser.py and
    column_aware_parser.py each define identically. */
module Text {

  /** Whitespace for `\s`, `str.strip()` and `str.split()`, modelled as the ASCII six
      (Python also counts Unicode whitespace such as U+0085 and U+00A0). */
  predicate IsSpace(c: char) {
    c == ' ' || c == '\t' || c == '\n' || c == '\r' || c == '\U{000B}' || c == '\U{000C}'
  }

  /** `\d` restricted to the ASCII digits. */
  predicate IsDigit(c: char) {
    '0' <= c <= '9'
  }

  /** `\w`: ASCII letters and digits, the underscore and the Polish diacritic letters. */
  predicate IsWordChar(c: char) {
    ('a' <= c <= 'z') || ('A' <= c <= 'Z') || IsDigit(c) || c == '_' ||
    c in {'ą', 'ć', 'ę', 'ł', 'ń', 'ó', 'ś', 'ź', 'ż', 'Ą', 'Ć', 'Ę', 'Ł', 'Ń', 'Ó', 'Ś', 'Ź', 'Ż'}
  }

  predicate NoSpace(s: string) {
    forall i :: 0 <= i < |s| ==> !IsSpace(s[i])
  }

  predicate AllSpace(s: string) {
    forall i :: 0 <= i < |s| ==> IsSpace(s[i])
  }

  predicate HasDigit(s: string) {
    exists i :: 0 <= i < |s| && IsDigit(s[i])
  }

  // ---------------------------------------------------------------------------
  // strip

  /** Leading whitespace removed (`str.lstrip()`). */
  function TrimStart(s: string): (r: string)
    ensures |r| <= |s|
    ensures r == [] || !IsSpace(r[0])
  {
    if s != [] && IsSpace(s[0]) then TrimStart(s[1..]) else s
  }

  /** TrimStart removes a whitespace prefix. */
  lemma {:induction false} TrimStartSpec(s: string)
    ensures var r := TrimStart(s);
      && r == s[|s| - |r|..]
      && forall i :: 0 <= i < |s| - |r| ==> IsSpace(s[i])
    decreases |s|
  {
    if s != [] && IsSpace(s[0]) {
      TrimStartSpec(s[1..]);
    }
  }

  /** Trailing whitespace removed (`str.rstrip()`). */
  function TrimEnd(s: string): (r: string)
    ensures |r| <= |s|
    ensures r == [] || !IsSpace(r[|r| - 1])
  {
    if s != [] && IsSpace(s[|s| - 1]) then TrimEnd(s[..|s| - 1]) else s
  }

  /** TrimEnd removes a whitespace suffix. */
  lemma {:induction false} TrimEndSpec(s: string)
    ensures var r := TrimEnd(s);
      && r == s[..|r|]
      && forall i :: |r| <= i < |s| ==> IsSpace(s[i])
    decreases |s|
  {
    if s != [] && IsSpace(s[|s| - 1]) {
      TrimEndSpec(s[..|s| - 1]);
    }
  }

  /** `str.strip()`. */
  function Strip(s: string): string {
    TrimEnd(TrimStart(s))
  }

  predicate IsStripped(s: string) {
    s == [] || (!IsSpace(s[0]) && !IsSpace(s[|s| - 1]))
  }

  lemma StripShape(s: string)
    ensures IsStripped(Strip(s))
  {
    var t := TrimStart(s);
    var r := TrimEnd(t);
    if r != [] {
      TrimEndSpec(t);
      assert r[0] == t[0];
    }
  }

  lemma StrippedFixed(s: string)
    requires IsStripped(s)
    ensures Strip(s) == s
  {
  }

  lemma StripIdempotent(s: string)
    ensures Strip(Strip(s)) == Strip(s)
  {
    StripShape(s);
    StrippedFixed(Strip(s));
  }

  lemma {:induction false} TrimStartPrependSpaces(a: string, y: string)
    requires AllSpace(a)
    ensures TrimStart(a + y) == TrimStart(y)
    decreases |a|
  {
    if a == [] {
      assert a + y == y;
    } else {
      assert (a + y)[0] == a[0];
      assert (a + y)[1..] == a[1..] + y;
      assert AllSpace(a[1..]) by {
        forall i | 0 <= i < |a| - 1 ensures IsSpace(a[1..][i]) {
          assert a[1..][i] == a[i + 1];
        }
      }
      TrimStartPrependSpaces(a[1..], y);
      assert TrimStart(a + y) == TrimStart((a + y)[1..]);
    }
  }

  lemma {:induction false} TrimStartAppend(x: string, b: string)
    requires TrimStart(x) != []
    ensures TrimStart(x + b) == TrimStart(x) + b
    decreases |x|
  {
    assert x != [];
    assert (x + b)[0] == x[0];
    if IsSpace(x[0]) {
      assert (x + b)[1..] == x[1..] + b;
      TrimStartAppend(x[1..], b);
    }
  }

  lemma {:induction false} TrimEndAppendSpaces(y: string, b: string)
    requires AllSpace(b)
    ensures TrimEnd(y + b) == TrimEnd(y)
    decreases |b|
  {
    if b == [] {
      assert y + b == y;
    } else {
      var yb := y + b;
      assert yb[|yb| - 1] == b[|b| - 1];
      assert IsSpace(yb[|yb| - 1]);
      assert yb[..|yb| - 1] == y + b[..|b| - 1];
      assert AllSpace(b[..|b| - 1]) by {
        forall i | 0 <= i < |b| - 1 ensures IsSpace(b[i]) {
        }
      }
      TrimEndAppendSpaces(y, b[..|b| - 1]);
      assert TrimEnd(yb) == TrimEnd(yb[..|yb| - 1]);
    }
  }

  /** A trailing separator never survives `strip`. */
  lemma StripAppendSpace(x: string)
    ensures Strip(x + " ") == Strip(x)
  {
    var t := TrimStart(x);
    if t != [] {
      TrimStartAppend(x, " ");
      assert AllSpace(" ");
      TrimEndAppendSpaces(t, " ");
    } else {
      TrimStartSpec(x);
      assert AllSpace(x);
      TrimStartPrependSpaces(x, " ");
      assert TrimStart(" ") == TrimStart([]);
    }
  }

  /** A leading separator never survives `strip`. */
  lemma StripPrependSpace(x: string)
    ensures Strip(" " + x) == Strip(x)
  {
    TrimStartPrependSpaces(" ", x);
  }

  // ---------------------------------------------------------------------------
  // split and join

  function Flush(w: string): seq<string> {
    if w == [] then [] else [w]
  }

  /** `str.split()` over `s`, with the word `w` already in progress. */
  function SplitFrom(s: string, w: string): seq<string>
    decreases |s|
  {
    if s == [] then Flush(w)
    else if IsSpace(s[0]) then Flush(w) + SplitFrom(s[1..], [])
    else SplitFrom(s[1..], w + [s[0]])
  }

  /** `str.split()` with no argument: the maximal runs of non-whitespace. */
  function Split(s: string): seq<string> {
    SplitFrom(s, [])
  }

  /** A token of `str.split()`: non-empty and free of whitespace. */
  predicate IsToken(w: string) {
    w != [] && NoSpace(w)
  }

  predicate AllTokens(ws: seq<string>) {
    forall i :: 0 <= i < |ws| ==> IsToken(ws[i])
  }

  /** `sep.join(ws)`. */
  function Join(ws: seq<string>, sep: string): string {
    if |ws| == 0 then "" else if |ws| == 1 then ws[0] else ws[0] + sep + Join(ws[1..], sep)
  }

  lemma {:induction false} SplitFromTokens(s: string, w: string)
    requires NoSpace(w)
    ensures AllTokens(SplitFrom(s, w))
    decreases |s|
  {
    if s != [] {
      if IsSpace(s[0]) {
        SplitFromTokens(s[1..], []);
      } else {
        SplitFromTokens(s[1..], w + [s[0]]);
      }
    }
  }

  /** Every piece `split()` returns is a token. */
  lemma SplitTokens(s: string)
    ensures AllTokens(Split(s))
  {
    SplitFromTokens(s, []);
  }

  lemma {:induction false} SplitFromSpace(a: string, c: char, b: string, w: string)
    requires IsSpace(c)
    ensures SplitFrom(a + [c] + b, w) == SplitFrom(a, w) + Split(b)
    decreases |a|
  {
    var s := a + [c] + b;
    if a == [] {
      assert s[1..] == b;
    } else {
      assert s[0] == a[0];
      assert s[1..] == a[1..] + [c] + b;
      if IsSpace(a[0]) {
        SplitFromSpace(a[1..], c, b, []);
      } else {
        SplitFromSpace(a[1..], c, b, w + [a[0]]);
      }
    }
  }

  /** Whitespace between two texts separates their words: `split` distributes over it. */
  lemma SplitAround(a: string, c: char, b: string)
    requires IsSpace(c)
    ensures Split(a + [c] + b) == Split(a) + Split(b)
  {
    SplitFromSpace(a, c, b, []);
  }

  lemma {:induction false} SplitFromWord(x: string, w: string)
    requires NoSpace(x)
    ensures SplitFrom(x, w) == Flush(w + x)
    decreases |x|
  {
    if x == [] {
      assert w + x == w;
    } else {
      assert !IsSpace(x[0]);
      assert w + x == (w + [x[0]]) + x[1..];
      SplitFromWord(x[1..], w + [x[0]]);
    }
  }

  /** A single token splits to itself. */
  lemma SplitToken(w: string)
    requires IsToken(w)
    ensures Split(w) == [w]
  {
    SplitFromWord(w, []);
    assert [] + w == w;
  }

  lemma {:induction false} SplitAllSpace(s: string)
    requires AllSpace(s)
    ensures Split(s) == []
    decreases |s|
  {
    if s != [] {
      SplitAllSpace(s[1..]);
    }
  }

  lemma {:induction false} SplitTrimStart(s: string)
    ensures Split(TrimStart(s)) == Split(s)
    decreases |s|
  {
    if s != [] && IsSpace(s[0]) {
      assert TrimStart(s) == TrimStart(s[1..]);
      assert Split(s) == Split(s[1..]);
      SplitTrimStart(s[1..]);
    }
  }

  lemma {:induction false} SplitTrimEnd(s: string)
    ensures Split(TrimEnd(s)) == Split(s)
    decreases |s|
  {
    if s != [] && IsSpace(s[|s| - 1]) {
      var p := s[..|s| - 1];
      assert s == p + [s[|s| - 1]] + [];
      SplitAround(p, s[|s| - 1], []);
      SplitTrimEnd(p);
    }
  }

  /** Stripping does not change the words. */
  lemma SplitStrip(s: string)
    ensures Split(Strip(s)) == Split(s)
  {
    SplitTrimEnd(TrimStart(s));
    SplitTrimStart(s);
  }

  /** Joining tokens with single spaces and splitting again gives the tokens back. */
  lemma {:induction false} SplitJoin(ws: seq<string>)
    requires AllTokens(ws)
    ensures Split(Join(ws, " ")) == ws
    decreases |ws|
  {
    if |ws| == 1 {
      SplitToken(ws[0]);
    } else if |ws| > 1 {
      SplitAround(ws[0], ' ', Join(ws[1..], " "));
      assert ws[0] + " " + Join(ws[1..], " ") == ws[0] + [' '] + Join(ws[1..], " ");
      SplitToken(ws[0]);
      SplitJoin(ws[1..]);
    }
  }

  lemma {:induction false} JoinAppend(ws: seq<string>, x: string, sep: string)
    ensures Join(ws + [x], sep) == if ws == [] then x else Join(ws, sep) + sep + x
    decreases |ws|
  {
    if |ws| > 1 {
      assert (ws + [x])[1..] == ws[1..] + [x];
      JoinAppend(ws[1..], x, sep);
    } else if |ws| == 1 {
      assert (ws + [x])[1..] == [x];
    }
  }

  lemma {:induction false} JoinConcat(a: seq<string>, b: seq<string>, sep: string)
    requires a != [] && b != []
    ensures Join(a + b, sep) == Join(a, sep) + sep + Join(b, sep)
    decreases |a|
  {
    if |a| == 1 {
      assert (a + b)[1..] == b;
    } else {
      assert (a + b)[1..] == a[1..] + b;
      JoinConcat(a[1..], b, sep);
    }
  }

  lemma {:induction false} JoinTokensNoSpaceEnds(ws: seq<string>)
    requires AllTokens(ws) && ws != []
    ensures var j := Join(ws, " "); j != [] && !IsSpace(j[0]) && !IsSpace(j[|j| - 1])
    decreases |ws|
  {
    if |ws| > 1 {
      JoinTokensNoSpaceEnds(ws[1..]);
      var j := Join(ws, " ");
      assert j[0] == ws[0][0];
      var t := Join(ws[1..], " ");
      assert j[|j| - 1] == t[|t| - 1];
    }
  }

  // ---------------------------------------------------------------------------
  // clean_text

  /** `re.sub(r'\s+', ' ', s)`: every maximal whitespace run becomes one space. */
  function Collapse(s: string): string
    decreases |s|
  {
    if s == [] then []
    else if IsSpace(s[0]) then " " + Collapse(TrimStart(s[1..]))
    else [s[0]] + Collapse(s[1..])
  }

  /** Index of the first whitespace character, or |s| when there is none. */
  function WordEnd(s: string): (k: nat)
    ensures k <= |s| && NoSpace(s[..k]) && (k < |s| ==> IsSpace(s[k]))
  {
    if s == [] || IsSpace(s[0]) then 0 else 1 + WordEnd(s[1..])
  }

  lemma {:induction false} CollapseWordPrefix(w: string, x: string)
    requires NoSpace(w)
    ensures Collapse(w + x) == w + Collapse(x)
    decreases |w|
  {
    if w == [] {
      assert w + x == x;
    } else {
      assert !IsSpace(w[0]);
      assert (w + x)[0] == w[0];
      assert (w + x)[1..] == w[1..] + x;
      CollapseWordPrefix(w[1..], x);
    }
  }

  lemma {:induction false} SplitFromNonEmpty(s: string, w: string)
    requires w != []
    ensures SplitFrom(s, w) != []
    decreases |s|
  {
    if s != [] && !IsSpace(s[0]) {
      SplitFromNonEmpty(s[1..], w + [s[0]]);
    }
  }

  lemma ConcatAssoc(a: string, b: string, c: string)
    ensures a + (b + c) == a + b + c
  {
  }

  lemma CollapseSpaceStep(c: char, rest: string)
    requires IsSpace(c)
    ensures Collapse([c] + rest) == " " + Collapse(TrimStart(rest))
  {
    assert ([c] + rest)[1..] == rest;
  }

  /** A stripped text with no whitespace inside is one token. */
  lemma CollapseSingleWord(t: string)
    requires t != [] && NoSpace(t)
    ensures Collapse(t) == Join(Split(t), " ")
  {
    CollapseWordPrefix(t, []);
    assert t + [] == t;
    SplitToken(t);
  }

  lemma SplitWordThenRest(w: string, c: char, rest: string)
    requires IsToken(w) && IsSpace(c) && TrimStart(rest) != []
    ensures Split(w + [c] + rest) == [w] + Split(TrimStart(rest))
    ensures Split(TrimStart(rest)) != []
  {
    SplitAround(w, c, rest);
    SplitToken(w);
    SplitTrimStart(rest);
    var t' := TrimStart(rest);
    assert [] + [t'[0]] == [t'[0]];
    SplitFromNonEmpty(t'[1..], [t'[0]]);
  }

  /** Index where the last run of non-whitespace starts: |s| when `s` is empty or
      ends in whitespace. */
  function LastWordStart(s: string): (k: nat)
    ensures k <= |s| && NoSpace(s[k..]) && (k > 0 ==> IsSpace(s[k - 1]))
    decreases |s|
  {
    if s == [] || IsSpace(s[|s| - 1]) then |s|
    else
      var k := LastWordStart(s[..|s| - 1]);
      assert s[k..] == s[..|s| - 1][k..] + [s[|s| - 1]];
      k
  }

  /** Text that is empty or ends in whitespace keeps its words apart from a word
      that follows it. */
  lemma SplitBeforeWord(p: string, w: string)
    requires p == [] || IsSpace(p[|p| - 1])
    ensures Split(p + w) == Split(p) + Split(w)
  {
    if p != [] {
      var p0 := p[..|p| - 1];
      assert p + w == p0 + [p[|p| - 1]] + w;
      assert p == p0 + [p[|p| - 1]] + [];
      SplitAround(p0, p[|p| - 1], w);
      SplitAround(p0, p[|p| - 1], []);
      assert Split([]) == [];
    } else {
      assert p + w == w;
      assert Split([]) == [];
    }
  }

  /** A token followed by text that is empty or starts with whitespace is a word
      of its own. */
  lemma SplitAfterWord(w: string, q: string)
    requires IsToken(w) && (q == [] || IsSpace(q[0]))
    ensures Split(w + q) == [w] + Split(q)
  {
    SplitToken(w);
    if q == [] {
      assert w + q == w;
    } else {
      assert w + q == w + [q[0]] + q[1..];
      assert q == [] + [q[0]] + q[1..];
      SplitAround(w, q[0], q[1..]);
      SplitAround([], q[0], q[1..]);
      assert Split([]) == [];
    }
  }

  /** Text ending in a non-whitespace character written directly before text
      starting with one: the last word of the first and the first word of the
      second become one word, and every other word stays as it was. */
  lemma SplitGlued(x: string, y: string)
    requires x != [] && !IsSpace(x[|x| - 1]) && y != [] && !IsSpace(y[0])
    ensures var xs := Split(x); var ys := Split(y);
      && xs != [] && ys != []
      && Split(x + y) == xs[..|xs| - 1] + [xs[|xs| - 1] + ys[0]] + ys[1..]
  {
    var k := LastWordStart(x);
    var m := WordEnd(y);
    assert k < |x| && m > 0;
    var p, u := x[..k], x[k..];
    var v, q := y[..m], y[m..];
    assert x == p + u && y == v + q;
    LastWordSplit(p, u);
    SplitAfterWord(v, q);
    GluedSplit(p, u, v, q);
    Regroup(p, u, v, q);
    var xs := Split(x);
    assert xs[..|xs| - 1] == Split(p);
  }

  lemma Regroup(p: string, u: string, v: string, q: string)
    ensures (p + u) + (v + q) == p + (u + v + q)
  {
  }

  lemma LastWordSplit(p: string, u: string)
    requires (p == [] || IsSpace(p[|p| - 1])) && IsToken(u)
    ensures Split(p + u) == Split(p) + [u]
  {
    SplitBeforeWord(p, u);
    SplitAfterWord(u, []);
    assert u + [] == u;
    assert Split([]) == [];
  }

  lemma GluedSplit(p: string, u: string, v: string, q: string)
    requires (p == [] || IsSpace(p[|p| - 1])) && IsToken(u) && IsToken(v)
    requires q == [] || IsSpace(q[0])
    ensures Split(p + (u + v + q)) == Split(p) + [u + v] + Split(q)
  {
    SplitBeforeWord(p, u + v + q);
    assert IsToken(u + v);
    assert u + v + q == (u + v) + q;
    SplitAfterWord(u + v, q);
  }

  /** On text with no whitespace at either end, collapsing runs is joining the words. */
  lemma {:induction false} CollapseStripped(t: string)
    requires IsStripped(t)
    ensures Collapse(t) == Join(Split(t), " ")
    decreases |t|
  {
    if t != [] {
      var k := WordEnd(t);
      if k == |t| {
        assert t[..k] == t;
        CollapseSingleWord(t);
      } else {
        RestStripped(t, k);
        CollapseStripped(TrimStart(t[k + 1..]));
        CollapseStep(t, k);
      }
    }
  }

  /** What follows the first word and the space after it, once trimmed, is
      stripped and shorter. */
  lemma RestStripped(t: string, k: nat)
    requires IsStripped(t) && t != [] && k == WordEnd(t) < |t|
    ensures var t' := TrimStart(t[k + 1..]); t' != [] && IsStripped(t') && |t'| < |t|
  {
    var rest := t[k + 1..];
    assert k + 1 < |t| && rest[|rest| - 1] == t[|t| - 1];
    var t' := TrimStart(rest);
    TrimStartSpec(rest);
    assert t' != [] && t'[|t'| - 1] == rest[|rest| - 1];
  }

  /** One step of CollapseStripped: the first word, one space, and the collapse of
      the trimmed rest. */
  lemma CollapseStep(t: string, k: nat)
    requires IsStripped(t) && t != [] && k == WordEnd(t) < |t|
    requires var t' := TrimStart(t[k + 1..]); t' != [] && Collapse(t') == Join(Split(t'), " ")
    ensures Collapse(t) == Join(Split(t), " ")
  {
    var w := t[..k];
    var c := t[k];
    var rest := t[k + 1..];
    var tail := [c] + rest;
    assert t[k..] == tail;
    assert t == w + tail;
    var t' := TrimStart(rest);
    CollapseSpaceStep(c, rest);
    CollapseWordPrefix(w, tail);
    var j := Join(Split(t'), " ");
    assert Collapse(t) == w + (" " + j);
    ConcatAssoc(w, " ", j);
    ConcatAssoc(w, [c], rest);
    SplitWordThenRest(w, c, rest);
    JoinConcat([w], Split(t'), " ");
  }

  /** `clean_text`: "" for empty input, otherwise strip and collapse whitespace runs
      (parse_postal_codes.py:12-16). */
  function CleanText(s: string): (r: string)
    ensures r == Join(Split(s), " ")
    ensures Split(r) == Split(s)
  {
    SplitTokens(s);
    SplitJoin(Split(s));
    StripShape(s);
    CollapseStripped(Strip(s));
    SplitStrip(s);
    if s == "" then "" else Collapse(Strip(s))
  }

  /** Cleaning is idempotent. */
  lemma CleanTextIdempotent(s: string)
    ensures CleanText(CleanText(s)) == CleanText(s)
  {
  }

  /** A cleaned text has no whitespace at its ends and no run of two separators. */
  lemma CleanTextShape(s: string)
    ensures var r := CleanText(s); IsStripped(r) && forall i :: 0 <= i < |r| - 1 ==> !(IsSpace(r[i]) && IsSpace(r[i + 1]))
  {
    SplitTokens(s);
    if Split(s) != [] {
      JoinTokensNoSpaceEnds(Split(s));
    }
    JoinTokensSpacing(Split(s));
  }

  lemma {:induction false} JoinTokensSpacing(ws: seq<string>)
    requires AllTokens(ws)
    ensures var r := Join(ws, " "); forall i :: 0 <= i < |r| - 1 ==> !(IsSpace(r[i]) && IsSpace(r[i + 1]))
    ensures var r := Join(ws, " "); forall i :: 0 <= i < |r| ==> (IsSpace(r[i]) ==> r[i] == ' ')
    decreases |ws|
  {
    if |ws| > 1 {
      JoinTokensSpacing(ws[1..]);
      JoinTokensNoSpaceEnds(ws[1..]);
      var t := Join(ws[1..], " ");
      var r := Join(ws, " ");
      assert r == ws[0] + " " + t;
      forall i | 0 <= i < |r| - 1
        ensures !(IsSpace(r[i]) && IsSpace(r[i + 1]))
      {
        if i < |ws[0]| {
          assert r[i] == ws[0][i];
        } else if i == |ws[0]| {
          assert r[i + 1] == t[0];
        } else {
          assert r[i] == t[i - |ws[0]| - 1] && r[i + 1] == t[i - |ws[0]|];
        }
      }
      forall i | 0 <= i < |r|
        ensures IsSpace(r[i]) ==> r[i] == ' '
      {
        if i < |ws[0]| {
          assert r[i] == ws[0][i];
        } else if i > |ws[0]| {
          assert r[i] == t[i - |ws[0]| - 1];
        }
      }
    }
  }

  // ---------------------------------------------------------------------------
  // substring tests

  predicate StartsWith(s: string, p: string) {
    |p| <= |s| && s[..|p|] == p
  }

  predicate EndsWith(s: string, p: string) {
    |p| <= |s| && s[|s| - |p|..] == p
  }

  /** Python's `p in s` for strings. */
  predicate Contains(s: string, p: string)
    decreases |s|
  {
    StartsWith(s, p) || (s != [] && Contains(s[1..], p))
  }

  /** A pattern holding a character the text lacks cannot occur in it. */
  lemma {:induction false} MissingCharNotContained(s: string, p: string, c: char)
    requires c in p && c !in s
    ensures !Contains(s, p)
    decreases |s|
  {
    if s != [] {
      MissingCharNotContained(s[1..], p, c);
    }
  }

  /** `any(pattern in s for pattern in patterns)`. */
  predicate ContainsAny(s: string, patterns: seq<string>) {
    exists k :: 0 <= k < |patterns| && Contains(s, patterns[k])
  }

  // ---------------------------------------------------------------------------
  // is_postal_code

  /** `^\d{2}-\d{3}$` on a text without a trailing newline. */
  predicate IsPostalPattern(s: string) {
    |s| == 6 && IsDigit(s[0]) && IsDigit(s[1]) && s[2] == '-' &&
    IsDigit(s[3]) && IsDigit(s[4]) && IsDigit(s[5])
  }

  /** `is_postal_code`: the stripped text is two digits, a hyphen and three digits
      (parse_postal_codes.py:18-22). */
  function IsPostalCode(text: string): (b: bool)
    ensures b <==> text != "" && IsPostalPattern(Strip(text))
    ensures IsToken(text) ==> (b <==> IsPostalPattern(text))
  {
    assert IsToken(text) ==> Strip(text) == text by {
      if IsToken(text) { StrippedFixed(text); }
    }
    if text == "" then false else IsPostalPattern(Strip(text))
  }
}
