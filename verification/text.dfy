/** The string primitives the server leans on from Rust's standard library:
    `split_whitespace`, `trim`, `starts_with`, `split(char)`, the decimal
    formatting of `{len}` and `str::parse::<usize>`. */
module Text {
  import opened Wrappers

  /** Rust's `char::is_whitespace`, which `split_whitespace` and `trim` use:
      the Unicode White_Space property, listed explicitly. Its ASCII part is
      tab, line feed, vertical tab, form feed, carriage return and space. */
  predicate IsWhitespace(c: char) {
    || ('\t' <= c <= '\r')
    || c == ' '
    || c == '\U{0085}'
    || c == '\U{00A0}'
    || c == '\U{1680}'
    || ('\U{2000}' <= c <= '\U{200A}')
    || c == '\U{2028}'
    || c == '\U{2029}'
    || c == '\U{202F}'
    || c == '\U{205F}'
    || c == '\U{3000}'
  }

  predicate AllWhitespace(s: string) {
    forall i :: 0 <= i < |s| ==> IsWhitespace(s[i])
  }

  /** A non-empty run of non-whitespace characters: what `split_whitespace`
      yields. */
  predicate IsWord(s: string) {
    |s| > 0 && forall i :: 0 <= i < |s| ==> !IsWhitespace(s[i])
  }

  predicate AllWords(ts: seq<string>) {
    forall i :: 0 <= i < |ts| ==> IsWord(ts[i])
  }

  // The scanning functions below keep their contracts free of quantifiers;
  // what holds of every character they pass over is stated separately, in
  // the `...Span` lemmas.

  /** Length of the longest whitespace prefix of `s`. */
  function LeadingWhitespace(s: string): (n: nat)
    ensures n <= |s|
  {
    if |s| == 0 || !IsWhitespace(s[0]) then 0
    else 1 + LeadingWhitespace(s[1..])
  }

  lemma {:induction false} LeadingWhitespaceSpan(s: string)
    ensures AllWhitespace(s[..LeadingWhitespace(s)])
    ensures LeadingWhitespace(s) < |s| ==> !IsWhitespace(s[LeadingWhitespace(s)])
    decreases |s|
  {
    if |s| > 0 && IsWhitespace(s[0]) {
      var m := LeadingWhitespace(s[1..]);
      LeadingWhitespaceSpan(s[1..]);
      assert s[..1 + m] == [s[0]] + s[1..][..m];
    }
  }

  /** Length of the longest non-whitespace prefix of `s`. */
  function WordLength(s: string): (n: nat)
    ensures n <= |s|
    ensures n < |s| ==> IsWhitespace(s[n])
  {
    if |s| == 0 || IsWhitespace(s[0]) then 0
    else 1 + WordLength(s[1..])
  }

  lemma {:induction false} WordLengthSpan(s: string)
    ensures forall i :: 0 <= i < WordLength(s) ==> !IsWhitespace(s[i])
    decreases |s|
  {
    if |s| > 0 && !IsWhitespace(s[0]) {
      WordLengthSpan(s[1..]);
      assert forall i :: 1 <= i < WordLength(s) ==> s[i] == s[1..][i - 1];
    }
  }

  /** Length of the longest whitespace suffix of `s`. */
  function TrailingWhitespace(s: string): (n: nat)
    ensures n <= |s|
    ensures n < |s| ==> !IsWhitespace(s[|s| - n - 1])
  {
    if |s| == 0 || !IsWhitespace(s[|s| - 1]) then 0
    else
      var m := TrailingWhitespace(s[..|s| - 1]);
      assert 1 + m < |s| ==> s[|s| - (1 + m) - 1] == s[..|s| - 1][|s| - 1 - m - 1];
      1 + m
  }

  lemma {:induction false} TrailingWhitespaceSpan(s: string)
    ensures AllWhitespace(s[|s| - TrailingWhitespace(s)..])
    decreases |s|
  {
    if |s| > 0 && IsWhitespace(s[|s| - 1]) {
      var p := s[..|s| - 1];
      var m := TrailingWhitespace(p);
      TrailingWhitespaceSpan(p);
      var k := |s| - (1 + m);
      forall j | 0 <= j < 1 + m
        ensures IsWhitespace(s[k..][j])
      {
        if j < m {
          assert s[k..][j] == p[|p| - m..][j];
        }
      }
    }
  }

  /** `str::split_whitespace`: the maximal non-whitespace runs of `s`, in
      order. */
  function SplitWhitespace(s: string): (tokens: seq<string>)
    decreases |s|
  {
    var n := LeadingWhitespace(s);
    if n == |s| then []
    else
      var w := WordLength(s[n..]);
      [s[n..n + w]] + SplitWhitespace(s[n + w..])
  }

  /** Every token is a word: non-empty and free of whitespace. */
  lemma {:induction false} SplitWhitespaceWords(s: string)
    ensures AllWords(SplitWhitespace(s))
    decreases |s|
  {
    var n := LeadingWhitespace(s);
    if n < |s| {
      var w := WordLength(s[n..]);
      SplitWhitespaceStep(s, n, w);
      LeadingWhitespaceSpan(s);
      WordAt(s, n);
      SplitWhitespaceWords(s[n + w..]);
      AllWordsCons(s[n..n + w], SplitWhitespace(s[n + w..]));
    }
  }

  /** The word starting at a non-whitespace position. */
  lemma WordAt(s: string, n: nat)
    requires n < |s| && !IsWhitespace(s[n])
    ensures IsWord(s[n..n + WordLength(s[n..])])
  {
    var t := s[n..];
    WordLengthSpan(t);
    assert forall i :: 0 <= i < WordLength(t) ==> s[n..n + WordLength(t)][i] == t[i];
  }

  lemma AllWordsCons(t: string, ts: seq<string>)
    requires IsWord(t) && AllWords(ts)
    ensures AllWords([t] + ts)
  {
    assert forall i :: 1 <= i < |[t] + ts| ==> ([t] + ts)[i] == ts[i - 1];
  }

  /** A string has no tokens exactly when it is all whitespace. */
  lemma BlankIffNoTokens(s: string)
    ensures SplitWhitespace(s) == [] <==> AllWhitespace(s)
  {
    if AllWhitespace(s) {
      LeadingWhitespaceAll(s);
    } else {
      LeadingWhitespaceSpan(s);
      assert s[..|s|] == s;
      assert LeadingWhitespace(s) < |s|;
    }
  }

  /** Gaps fit a token list when each is whitespace and every gap strictly
      between two tokens is non-empty; the first and last may be empty. */
  predicate ValidGaps(gaps: seq<string>) {
    && (forall i :: 0 <= i < |gaps| ==> AllWhitespace(gaps[i]))
    && (forall i :: 0 < i < |gaps| - 1 ==> |gaps[i]| > 0)
  }

  /** Lays tokens out with the given whitespace around and between them:
      `gaps[0] + ts[0] + gaps[1] + ... + ts[k-1] + gaps[k]`. */
  function Render(ts: seq<string>, gaps: seq<string>): string
    requires |gaps| == |ts| + 1
    decreases |ts|
  {
    if |ts| == 0 then gaps[0]
    else gaps[0] + ts[0] + Render(ts[1..], gaps[1..])
  }

  /** The whitespace `SplitWhitespace` discards, gap by gap. */
  function Gaps(s: string): (gaps: seq<string>)
    decreases |s|
  {
    var n := LeadingWhitespace(s);
    if n == |s| then [s[..n]]
    else
      var w := WordLength(s[n..]);
      [s[..n]] + Gaps(s[n + w..])
  }

  /** The gaps of a string fit its tokens. */
  lemma {:induction false} GapsValid(s: string)
    ensures ValidGaps(Gaps(s))
    decreases |s|
  {
    var n := LeadingWhitespace(s);
    LeadingWhitespaceSpan(s);
    if n < |s| {
      var w := WordLength(s[n..]);
      GapsStep(s, n, w);
      GapsValid(s[n + w..]);
      GapAfterWord(s, n, w);
      ValidGapsCons(s[..n], Gaps(s[n + w..]));
    }
  }

  /** One step of `Gaps`: the leading whitespace, then the gaps after the
      word that follows it. */
  lemma GapsStep(s: string, n: nat, w: nat)
    requires LeadingWhitespace(s) == n < |s|
    requires WordLength(s[n..]) == w
    ensures Gaps(s) == [s[..n]] + Gaps(s[n + w..])
  {
  }

  /** The gap after a word that more tokens follow is not empty. */
  lemma GapAfterWord(s: string, n: nat, w: nat)
    requires n < |s| && w == WordLength(s[n..])
    ensures var rest := Gaps(s[n + w..]); |rest| > 1 ==> |rest[0]| > 0
  {
    var t := s[n + w..];
    if |Gaps(t)| > 1 {
      assert IsWhitespace(s[n..][w]);
    }
  }

  lemma ValidGapsCons(g: string, rest: seq<string>)
    requires AllWhitespace(g) && ValidGaps(rest)
    requires |rest| > 1 ==> |rest[0]| > 0
    ensures ValidGaps([g] + rest)
  {
    assert forall i :: 0 < i < |[g] + rest| ==> ([g] + rest)[i] == rest[i - 1];
  }

  lemma {:induction false} LeadingWhitespaceAll(g: string)
    requires AllWhitespace(g)
    ensures LeadingWhitespace(g) == |g|
    decreases |g|
  {
    if |g| > 0 {
      LeadingWhitespaceAll(g[1..]);
    }
  }

  lemma {:induction false} LeadingWhitespaceBeforeWord(g: string, t: string)
    requires AllWhitespace(g)
    requires |t| > 0 && !IsWhitespace(t[0])
    ensures LeadingWhitespace(g + t) == |g|
    decreases |g|
  {
    if |g| > 0 {
      assert (g + t)[1..] == g[1..] + t;
      LeadingWhitespaceBeforeWord(g[1..], t);
    } else {
      assert g + t == t;
    }
  }

  lemma {:induction false} WordLengthBeforeGap(t: string, r: string)
    requires forall i :: 0 <= i < |t| ==> !IsWhitespace(t[i])
    requires |r| == 0 || IsWhitespace(r[0])
    ensures WordLength(t + r) == |t|
    decreases |t|
  {
    if |t| > 0 {
      var tr := t + r;
      assert tr[0] == t[0] && !IsWhitespace(tr[0]);
      assert tr[1..] == t[1..] + r;
      assert forall i :: 0 <= i < |t[1..]| ==> t[1..][i] == t[i + 1];
      WordLengthBeforeGap(t[1..], r);
    } else {
      assert t + r == r;
    }
  }

  /** A rendering starts with whitespace (or is empty) unless its first gap is
      empty and it has tokens. */
  lemma RenderStartsWithGap(ts: seq<string>, gaps: seq<string>)
    requires |gaps| == |ts| + 1 && ValidGaps(gaps)
    requires |gaps[0]| > 0 || |ts| == 0
    ensures var s := Render(ts, gaps); |s| == 0 || IsWhitespace(s[0])
  {
  }

  /** Whitespace, a word, then something that does not continue the word:
      the word is the first token and splitting resumes after it. */
  lemma SplitAfterWord(g: string, t: string, r: string)
    requires AllWhitespace(g) && IsWord(t)
    requires |r| == 0 || IsWhitespace(r[0])
    ensures SplitWhitespace(g + (t + r)) == [t] + SplitWhitespace(r)
  {
    var s := g + (t + r);
    ConcatSlices(g, t, r);
    LeadingWhitespaceBeforeWord(g, t + r);
    WordLengthBeforeGap(t, r);
    SplitWhitespaceStep(s, |g|, |t|);
  }

  /** One step of `SplitWhitespace`: skip the leading whitespace, take the
      word that follows. */
  lemma SplitWhitespaceStep(s: string, n: nat, w: nat)
    requires LeadingWhitespace(s) == n < |s|
    requires WordLength(s[n..]) == w
    ensures SplitWhitespace(s) == [s[n..n + w]] + SplitWhitespace(s[n + w..])
  {
  }

  lemma ConcatSlices<T>(a: seq<T>, b: seq<T>, c: seq<T>)
    ensures (a + (b + c))[|a|..] == b + c
    ensures (a + (b + c))[|a|..|a| + |b|] == b
    ensures (a + (b + c))[|a| + |b|..] == c
  {
  }

  lemma Regroup<T>(a: seq<T>, b: seq<T>, c: seq<T>)
    ensures a + b + c == a + (b + c)
  {
  }

  lemma ValidGapsTail(gaps: seq<string>)
    requires |gaps| > 0 && ValidGaps(gaps)
    ensures ValidGaps(gaps[1..])
  {
    forall i | 0 < i < |gaps[1..]| - 1
      ensures |gaps[1..][i]| > 0
    {
      assert gaps[1..][i] == gaps[i + 1];
    }
  }

  lemma AllWordsTail(ts: seq<string>)
    requires |ts| > 0 && AllWords(ts)
    ensures AllWords(ts[1..])
  {
    forall i | 0 <= i < |ts[1..]|
      ensures IsWord(ts[1..][i])
    {
      assert ts[1..][i] == ts[i + 1];
    }
  }

  /** Splitting a rendering gives back exactly the rendered tokens: the
      layout around and between the words never matters. */
  lemma {:induction false} SplitRender(ts: seq<string>, gaps: seq<string>)
    requires |gaps| == |ts| + 1 && ValidGaps(gaps) && AllWords(ts)
    ensures SplitWhitespace(Render(ts, gaps)) == ts
    decreases |ts|
  {
    var s := Render(ts, gaps);
    if |ts| == 0 {
      LeadingWhitespaceAll(s);
    } else {
      var g, t := gaps[0], ts[0];
      var r := Render(ts[1..], gaps[1..]);
      ValidGapsTail(gaps);
      AllWordsTail(ts);
      RenderStartsWithGap(ts[1..], gaps[1..]);
      Regroup(g, t, r);
      SplitAfterWord(g, t, r);
      SplitRender(ts[1..], gaps[1..]);
      assert [t] + ts[1..] == ts;
    }
  }

  lemma SliceThree(s: string, i: nat, j: nat)
    requires i <= j <= |s|
    ensures s == s[..i] + s[i..j] + s[j..]
  {
  }

  /** Every string is the rendering of its own tokens with its own gaps. */
  lemma {:induction false} RenderSplit(s: string)
    ensures |Gaps(s)| == |SplitWhitespace(s)| + 1
    ensures Render(SplitWhitespace(s), Gaps(s)) == s
    decreases |s|
  {
    var n := LeadingWhitespace(s);
    if n == |s| {
      assert s[..n] == s;
    } else {
      var w := WordLength(s[n..]);
      var rest := s[n + w..];
      RenderSplit(rest);
      var a, b := s[..n], s[n..n + w];
      var ts := [b] + SplitWhitespace(rest);
      var gaps := [a] + Gaps(rest);
      assert ts == SplitWhitespace(s);
      assert gaps == Gaps(s);
      assert ts[1..] == SplitWhitespace(rest);
      assert gaps[1..] == Gaps(rest);
      assert gaps[0] == a && ts[0] == b;
      assert Render(ts, gaps) == a + b + Render(ts[1..], gaps[1..]);
      SliceThree(s, n, n + w);

    }
  }

  /** `str::trim_start`. */
  function TrimStart(s: string): string {
    s[LeadingWhitespace(s)..]
  }

  /** `str::trim_end`. */
  function TrimEnd(s: string): string {
    s[..|s| - TrailingWhitespace(s)]
  }

  /** `str::trim`: neither end of the result is whitespace; `TrimDecomposes`
      shows that it is `s` less a whitespace prefix and a whitespace suffix. */
  function Trim(s: string): (r: string)
    ensures |r| == 0 || (!IsWhitespace(r[0]) && !IsWhitespace(r[|r| - 1]))
    ensures |r| <= |s|
    ensures AllWhitespace(s) <==> |r| == 0
  {
    var n := LeadingWhitespace(s);
    LeadingWhitespaceSpan(s);
    TrailingWhitespaceSpan(s[n..]);
    assert s[..|s|] == s;
    TrimEnd(TrimStart(s))
  }

  lemma {:induction false} TrailingWhitespaceAfterWord(t: string, g: string)
    requires AllWhitespace(g)
    requires |t| > 0 && !IsWhitespace(t[|t| - 1])
    ensures TrailingWhitespace(t + g) == |g|
    decreases |g|
  {
    if |g| > 0 {
      assert (t + g)[..|t + g| - 1] == t + g[..|g| - 1];
      TrailingWhitespaceAfterWord(t, g[..|g| - 1]);
    } else {
      assert t + g == t;
    }
  }

  /** Trim removes exactly the whitespace padding around a trimmed core;
      `TrimDecomposes` gives every string such a decomposition. */
  lemma TrimPadded(a: string, r: string, b: string)
    requires AllWhitespace(a) && AllWhitespace(b)
    requires |r| > 0 && !IsWhitespace(r[0]) && !IsWhitespace(r[|r| - 1])
    ensures Trim(a + r + b) == r
  {
    var s := a + r + b;
    assert s == a + (r + b);
    LeadingWhitespaceBeforeWord(a, r + b);
    assert TrimStart(s) == r + b;
    TrailingWhitespaceAfterWord(r, b);
  }

  /** Every string is its trimmed form with whitespace before and after. */
  lemma TrimDecomposes(s: string)
    ensures var n := LeadingWhitespace(s); var k := n + |Trim(s)|;
      && k <= |s|
      && AllWhitespace(s[..n]) && AllWhitespace(s[k..])
      && s == s[..n] + Trim(s) + s[k..]
  {
    LeadingWhitespaceSpan(s);
    TrimSuffixWhitespace(s);
    TrimRecombines(s);
  }

  lemma TrimSuffixWhitespace(s: string)
    ensures var k := LeadingWhitespace(s) + |Trim(s)|; k <= |s| && AllWhitespace(s[k..])
  {
    var n := LeadingWhitespace(s);
    var k := TrimAsSlice(s);
    SuffixOfSuffix(s, n, k);
  }

  lemma TrimRecombines(s: string)
    ensures var n := LeadingWhitespace(s); var k := n + |Trim(s)|;
      k <= |s| && s == s[..n] + Trim(s) + s[k..]
  {
    var n := LeadingWhitespace(s);
    var k := TrimAsSlice(s);
    SliceThree(s, n, k);
  }

  /** The trimmed form is the slice between the leading whitespace and the
      trailing whitespace of what follows it. */
  lemma TrimAsSlice(s: string) returns (k: nat)
    ensures LeadingWhitespace(s) <= k <= |s| && Trim(s) == s[LeadingWhitespace(s)..k]
    ensures AllWhitespace(s[LeadingWhitespace(s)..][k - LeadingWhitespace(s)..])
  {
    var n := LeadingWhitespace(s);
    var t := s[n..];
    TrailingWhitespaceSpan(t);
    k := |s| - TrailingWhitespace(t);
  }

  lemma SuffixOfSuffix<T>(s: seq<T>, n: nat, k: nat)
    requires n <= k <= |s|
    ensures s[n..][k - n..] == s[k..]
  {
  }

  predicate StartsWith(s: string, prefix: string) {
    |prefix| <= |s| && s[..|prefix|] == prefix
  }

  /** Position of the first `c` in `s`. */
  function IndexOf(s: string, c: char): (r: Option<nat>)
    ensures r.None? ==> c !in s
    ensures r.Some? ==> r.value < |s| && s[r.value] == c && c !in s[..r.value]
  {
    if |s| == 0 then None
    else if s[0] == c then Some(0)
    else
      match IndexOf(s[1..], c)
      case None => None
      case Some(i) =>
        assert s[..i + 1] == [s[0]] + s[1..][..i];
        Some(i + 1)
  }

  /** Inverse of `Split`: the fields glued back together with `sep`. */
  function Join(fields: seq<string>, sep: char): string
    requires |fields| >= 1
    decreases |fields|
  {
    if |fields| == 1 then fields[0]
    else fields[0] + [sep] + Join(fields[1..], sep)
  }

  /** `str::split(sep)` with a character pattern: the pieces between
      successive occurrences of `sep`; there is always at least one. */
  function Split(s: string, sep: char): (fields: seq<string>)
    ensures |fields| >= 1
    ensures forall i :: 0 <= i < |fields| ==> sep !in fields[i]
    ensures Join(fields, sep) == s
    decreases |s|
  {
    match IndexOf(s, sep)
    case None => [s]
    case Some(i) =>
      var rest := Split(s[i + 1..], sep);
      assert ([s[..i]] + rest)[1..] == rest;
      assert s == s[..i] + [sep] + s[i + 1..];
      [s[..i]] + rest
  }

  /** Splitting a join of separator-free fields gives the fields back. */
  lemma {:induction false} SplitJoin(fields: seq<string>, sep: char)
    requires |fields| >= 1
    requires forall i :: 0 <= i < |fields| ==> sep !in fields[i]
    ensures Split(Join(fields, sep), sep) == fields
    decreases |fields|
  {
    var s := Join(fields, sep);
    if |fields| == 1 {
      assert sep !in fields[0];
    } else {
      var rest := Join(fields[1..], sep);
      assert s == fields[0] + ([sep] + rest);
      assert sep !in fields[0];
      assert s[|fields[0]|] == sep;
      assert s[..|fields[0]|] == fields[0];
      assert IndexOf(s, sep) == Some(|fields[0]|);
      assert s[|fields[0]| + 1..] == rest;
      SplitJoin(fields[1..], sep);
    }
  }

  /** Two separator-free fields around one separator split back apart. */
  lemma SplitPair(a: string, b: string, sep: char)
    requires sep !in a && sep !in b
    ensures Split(a + [sep] + b, sep) == [a, b]
  {
    assert [a, b][1..] == [b];
    SplitJoin([a, b], sep);
  }

  predicate IsDigit(c: char) {
    '0' <= c <= '9'
  }

  predicate AllDigits(s: string) {
    forall i :: 0 <= i < |s| ==> IsDigit(s[i])
  }

  function DigitChar(d: nat): (c: char)
    requires d < 10
    ensures IsDigit(c)
  {
    ('0' as int + d) as char
  }

  function DigitValue(c: char): (d: nat)
    requires IsDigit(c)
    ensures d < 10 && DigitChar(d) == c
  {
    c as int - '0' as int
  }

  /** The value of a string of decimal digits (0 for the empty string). */
  function DigitsValue(s: string): nat
    requires AllDigits(s)
    decreases |s|
  {
    if |s| == 0 then 0
    else 10 * DigitsValue(s[..|s| - 1]) + DigitValue(s[|s| - 1])
  }

  /** Rust's `{}` formatting of an unsigned integer: decimal digits, no sign,
      no leading zeros. */
  function Decimal(n: nat): (s: string)
    ensures |s| > 0 && AllDigits(s)
    ensures |s| > 1 ==> s[0] != '0'
    decreases n
  {
    if n < 10 then [DigitChar(n)]
    else Decimal(n / 10) + [DigitChar(n % 10)]
  }

  lemma {:induction false} DecimalValue(n: nat)
    ensures DigitsValue(Decimal(n)) == n
    decreases n
  {
    var s := Decimal(n);
    if n >= 10 {
      DecimalValue(n / 10);
      assert s[..|s| - 1] == Decimal(n / 10);
    }
  }

  /** `usize::MAX` on a 64-bit target. */
  const USIZE_MAX: nat := 0xFFFF_FFFF_FFFF_FFFF

  /** `str::parse::<usize>`: an optional `+`, then one or more ASCII digits,
      with a value that fits in `usize`; anything else is an error (`None`). */
  function ParseUsize(s: string): (r: Option<nat>)
    ensures r.Some? ==> r.value <= USIZE_MAX
    ensures r.Some? ==> |s| > 0 && (AllDigits(s) || (|s| > 1 && s[0] == '+' && AllDigits(s[1..])))
    ensures |s| > 0 && AllDigits(s) ==>
      r == (if DigitsValue(s) <= USIZE_MAX then Some(DigitsValue(s)) else None)
    ensures |s| > 1 && s[0] == '+' && AllDigits(s[1..]) ==>
      r == (if DigitsValue(s[1..]) <= USIZE_MAX then Some(DigitsValue(s[1..])) else None)
  {
    if |s| == 0 then None
    else
      var digits := if s[0] == '+' then s[1..] else s;
      if |digits| == 0 || !AllDigits(digits) then None
      else if DigitsValue(digits) > USIZE_MAX then None
      else Some(DigitsValue(digits))
  }

  /** What `{}` prints, `parse::<usize>` reads back. */
  lemma ParseDecimal(n: nat)
    requires n <= USIZE_MAX
    ensures ParseUsize(Decimal(n)) == Some(n)
    ensures ParseUsize("+" + Decimal(n)) == Some(n)
  {
    DecimalValue(n);
    assert ("+" + Decimal(n))[1..] == Decimal(n);
  }

  /** A leading zero does not change the value of a digit string. */
  lemma {:induction false} LeadingZeroValue(s: string)
    requires AllDigits(s)
    ensures AllDigits("0" + s) && DigitsValue("0" + s) == DigitsValue(s)
    decreases |s|
  {
    var z := "0" + s;
    assert forall i :: 0 < i < |z| ==> z[i] == s[i - 1];
    if |s| > 0 {
      LeadingZeroValue(s[..|s| - 1]);
      assert z[..|z| - 1] == "0" + s[..|s| - 1];
      assert z[|z| - 1] == s[|s| - 1];
    }
  }

  /** `parse::<usize>` ignores leading zeros and an explicit `+`: `"007"`,
      `"+07"` and `"7"` read the same. */
  lemma ParseLeadingZero(s: string)
    requires |s| > 0 && AllDigits(s)
    ensures ParseUsize("0" + s) == ParseUsize(s)
    ensures ParseUsize("+" + s) == ParseUsize(s)
  {
    LeadingZeroValue(s);
    assert ("+" + s)[1..] == s;
  }
}
