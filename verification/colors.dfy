/** `hexToRgba`: the channels of a cell colour, read from its `#rrggbb` text
    (a "simple color" in the sense of section 2.3.6 of the WHATWG HTML Living
    Standard), with a transparency passed through.  The text is cut into
    pairs of word characters by a global `\w\w` match and each pair is read
    by `parseInt(pair, 16)`. */
module Colors {
  import opened Seqs

  /** A character `\w` matches: an ASCII letter, digit or underscore. */
  predicate IsWordChar(c: char) {
    ('a' <= c <= 'z') || ('A' <= c <= 'Z') || ('0' <= c <= '9') || c == '_'
  }

  predicate IsHexDigit(c: char) {
    ('0' <= c <= '9') || ('a' <= c <= 'f') || ('A' <= c <= 'F')
  }

  function HexVal(c: char): (v: nat)
    requires IsHexDigit(c)
    ensures v < 16
  {
    if '0' <= c <= '9' then (c - '0') as nat
    else if 'a' <= c <= 'f' then (c - 'a') as nat + 10
    else (c - 'A') as nat + 10
  }

  /** The lower-case hexadecimal digit of `v`. */
  function HexDigit(v: nat): (c: char)
    requires v < 16
    ensures IsHexDigit(c) && HexVal(c) == v
    ensures !('A' <= c <= 'F')
  {
    if v < 10 then ('0' as int + v) as char else ('a' as int + v - 10) as char
  }

  /** `s.match(/\w\w/g)`: scanning left to right, every two consecutive word
      characters form a match and the scan resumes after them; any other
      position is skipped one character at a time. */
  function WordPairs(s: string): (r: seq<string>)
    ensures forall i :: 0 <= i < |r| ==> |r[i]| == 2 && IsWordChar(r[i][0]) && IsWordChar(r[i][1])
    ensures 2 * |r| <= |s|
    decreases |s|
  {
    if |s| < 2 then []
    else if IsWordChar(s[0]) && IsWordChar(s[1]) then [s[..2]] + WordPairs(s[2..])
    else WordPairs(s[1..])
  }

  /** No match of `\w\w` starts at a position from `lo` up to before `hi`. */
  predicate NoPairIn(s: string, lo: int, hi: int) {
    forall q :: 0 <= lo <= q < hi && q + 1 < |s| ==> !(IsWordChar(s[q]) && IsWordChar(s[q + 1]))
  }

  /** `r` is what a left-to-right scan of `s` from `lo` finds, described by
      where the matches start: each match is the two word characters at its
      offset, the matches do not overlap, and no match could start at any
      position the scan stepped over, before, between or after them. */
  predicate GreedyFrom(s: string, lo: nat, offs: seq<nat>, r: seq<string>) {
    && PairsAt(s, lo, offs, r)
    && Spaced(s, offs)
    && NoPairIn(s, lo, if |offs| == 0 then |s| else offs[0])
    && (|offs| > 0 ==> NoPairIn(s, offs[|offs| - 1] + 2, |s|))
  }

  /** Each `r[i]` is the two word characters at `offs[i]`, at or after `lo`. */
  predicate PairsAt(s: string, lo: nat, offs: seq<nat>, r: seq<string>) {
    && |offs| == |r|
    && forall i :: 0 <= i < |offs| ==>
      && lo <= offs[i] && offs[i] + 2 <= |s|
      && IsWordChar(s[offs[i]]) && IsWordChar(s[offs[i] + 1])
      && r[i] == s[offs[i]..offs[i] + 2]
  }

  /** Consecutive offsets do not overlap and no match starts between them. */
  predicate Spaced(s: string, offs: seq<nat>) {
    forall i :: 0 <= i < |offs| - 1 ==>
      offs[i] + 2 <= offs[i + 1] && NoPairIn(s, offs[i] + 2, offs[i + 1])
  }

  /** A match at `lo` followed by the scan from `lo + 2`. */
  lemma MatchStep(s: string, lo: nat, rest: seq<nat>, r: seq<string>)
    requires lo + 2 <= |s| && IsWordChar(s[lo]) && IsWordChar(s[lo + 1])
    requires GreedyFrom(s, lo + 2, rest, r)
    ensures GreedyFrom(s, lo, [lo] + rest, [s[lo..lo + 2]] + r)
  {
    MatchPairs(s, lo, rest, r);
    MatchSpaced(s, lo, rest);
  }

  lemma MatchPairs(s: string, lo: nat, rest: seq<nat>, r: seq<string>)
    requires lo + 2 <= |s| && IsWordChar(s[lo]) && IsWordChar(s[lo + 1])
    requires PairsAt(s, lo + 2, rest, r)
    ensures PairsAt(s, lo, [lo] + rest, [s[lo..lo + 2]] + r)
  {
    var offs, q := [lo] + rest, [s[lo..lo + 2]] + r;
    forall i | 0 < i < |offs|
      ensures lo <= offs[i] && offs[i] + 2 <= |s|
      ensures IsWordChar(s[offs[i]]) && IsWordChar(s[offs[i] + 1]) && q[i] == s[offs[i]..offs[i] + 2]
    {
      assert offs[i] == rest[i - 1] && q[i] == r[i - 1];
    }
  }

  lemma MatchSpaced(s: string, lo: nat, rest: seq<nat>)
    requires Spaced(s, rest)
    requires |rest| > 0 ==> lo + 2 <= rest[0] && NoPairIn(s, lo + 2, rest[0])
    ensures Spaced(s, [lo] + rest)
  {
    var offs := [lo] + rest;
    forall i | 0 < i < |offs| - 1
      ensures offs[i] + 2 <= offs[i + 1] && NoPairIn(s, offs[i] + 2, offs[i + 1])
    {
      assert offs[i] == rest[i - 1] && offs[i + 1] == rest[i];
    }
  }

  /** A position where no match starts, followed by the scan from `lo + 1`. */
  lemma SkipStep(s: string, lo: nat, rest: seq<nat>, r: seq<string>)
    requires lo + 1 < |s| && !(IsWordChar(s[lo]) && IsWordChar(s[lo + 1]))
    requires GreedyFrom(s, lo + 1, rest, r)
    ensures GreedyFrom(s, lo, rest, r)
  {
  }

  /** The matches of the scan from `lo` start at the returned offsets. */
  lemma {:induction false} WordPairsFromGreedy(s: string, lo: nat) returns (offs: seq<nat>)
    requires lo <= |s|
    ensures GreedyFrom(s, lo, offs, WordPairs(s[lo..]))
    decreases |s| - lo
  {
    var t := s[lo..];
    if |t| < 2 {
      offs := [];
    } else if IsWordChar(t[0]) && IsWordChar(t[1]) {
      var rest := WordPairsFromGreedy(s, lo + 2);
      assert t[..2] == s[lo..lo + 2] && t[2..] == s[lo + 2..];
      MatchStep(s, lo, rest, WordPairs(s[lo + 2..]));
      offs := [lo] + rest;
    } else {
      var rest := WordPairsFromGreedy(s, lo + 1);
      assert t[1..] == s[lo + 1..];
      SkipStep(s, lo, rest, WordPairs(s[lo + 1..]));
      offs := rest;
    }
  }

  /** `WordPairs` is the left-to-right non-overlapping scan: its matches are
      the pairs at a sequence of offsets the scan would stop at. */
  lemma WordPairsGreedy(s: string)
    ensures exists offs :: GreedyFrom(s, 0, offs, WordPairs(s))
  {
    var offs := WordPairsFromGreedy(s, 0);
    assert s[0..] == s;
  }

  /** `parseInt(p, 16)` for two word characters: a leading `0x` is dropped
      as a radix prefix, then the longest run of hexadecimal digits is read;
      `None` stands for `NaN`, when that run is empty. */
  function ParseHexPair(p: string): (v: Option<nat>)
    requires |p| == 2
    ensures v.Some? ==> v.value < 256
    ensures v.Some? <==> IsHexDigit(p[0]) && !(p[0] == '0' && (p[1] == 'x' || p[1] == 'X'))
    ensures IsHexDigit(p[0]) && IsHexDigit(p[1]) ==> v == Some(16 * HexVal(p[0]) + HexVal(p[1]))
  {
    if p[0] == '0' && (p[1] == 'x' || p[1] == 'X') then None
    else if !IsHexDigit(p[0]) then None
    else if !IsHexDigit(p[1]) then Some(HexVal(p[0]))
    else Some(16 * HexVal(p[0]) + HexVal(p[1]))
  }

  /** The three channels and the transparency; a channel is `None` when the
      program would print `NaN` or `undefined` for it. */
  datatype Rgba = Rgba(r: Option<nat>, g: Option<nat>, b: Option<nat>, alpha: real)

  /** The `i`-th destructured channel: `undefined` past the matches. */
  function Channel(pairs: seq<string>, i: nat): (v: Option<nat>)
    requires forall k :: 0 <= k < |pairs| ==> |pairs[k]| == 2
    ensures v.Some? ==> v.value < 256
    ensures i >= |pairs| ==> v.None?
  {
    if i < |pairs| then ParseHexPair(pairs[i]) else None
  }

  /** `hexToRgba(hex, alpha)`; `None` when the text holds no pair at all, where
      the program throws because the match is `null`. */
  function HexToRgba(hex: string, alpha: real): (c: Option<Rgba>)
    ensures c.None? <==> |WordPairs(hex)| == 0
    ensures c.Some? ==> c.value.alpha == alpha
    ensures c.Some? ==> c.value.r.Some? ==> c.value.r.value < 256
    ensures c.Some? ==> c.value.g.Some? ==> c.value.g.value < 256
    ensures c.Some? ==> c.value.b.Some? ==> c.value.b.value < 256
  {
    var pairs := WordPairs(hex);
    if |pairs| == 0 then None
    else Some(Rgba(Channel(pairs, 0), Channel(pairs, 1), Channel(pairs, 2), alpha))
  }

  /** A simple colour: `#` followed by six hexadecimal digits. */
  predicate IsSimpleColor(s: string) {
    |s| == 7 && s[0] == '#' && forall i :: 1 <= i < 7 ==> IsHexDigit(s[i])
  }

  /** The value of the two digits at positions `i` and `i + 1`. */
  function PairAt(s: string, i: nat): nat
    requires i + 1 < |s| && IsHexDigit(s[i]) && IsHexDigit(s[i + 1])
  {
    16 * HexVal(s[i]) + HexVal(s[i + 1])
  }

  /** On a simple colour the match cuts exactly the three digit pairs. */
  lemma WordPairsOfSimpleColor(s: string)
    requires IsSimpleColor(s)
    ensures WordPairs(s) == [s[1..3], s[3..5], s[5..7]]
  {
    assert !IsWordChar(s[0]);
    var t, u, w := s[1..], s[3..], s[5..];
    assert IsWordChar(t[0]) && IsWordChar(t[1]) && IsWordChar(u[0]) && IsWordChar(u[1]);
    assert IsWordChar(w[0]) && IsWordChar(w[1]);
    assert t[..2] == s[1..3] && t[2..] == u;
    assert u[..2] == s[3..5] && u[2..] == w;
    assert w[..2] == s[5..7] && w[2..] == [];
    calc {
      WordPairs(s);
      WordPairs(t);
      [s[1..3]] + WordPairs(u);
      [s[1..3]] + ([s[3..5]] + WordPairs(w));
      [s[1..3]] + ([s[3..5]] + ([s[5..7]] + WordPairs([])));
    }
  }

  /** On a simple colour every channel is the value of its digit pair, and
      the transparency is passed through. */
  lemma SimpleColorChannels(s: string, alpha: real)
    requires IsSimpleColor(s)
    ensures HexToRgba(s, alpha) ==
      Some(Rgba(Some(PairAt(s, 1)), Some(PairAt(s, 3)), Some(PairAt(s, 5)), alpha))
  {
    WordPairsOfSimpleColor(s);
  }

  /** The lower-case simple colour of three channels. */
  function ToHex(r: nat, g: nat, b: nat): (s: string)
    requires r < 256 && g < 256 && b < 256
    ensures IsSimpleColor(s)
  {
    ['#', HexDigit(r / 16), HexDigit(r % 16), HexDigit(g / 16), HexDigit(g % 16),
     HexDigit(b / 16), HexDigit(b % 16)]
  }

  /** Reading back a written colour gives its channels. */
  lemma ToHexRoundTrip(r: nat, g: nat, b: nat, alpha: real)
    requires r < 256 && g < 256 && b < 256
    ensures HexToRgba(ToHex(r, g, b), alpha) == Some(Rgba(Some(r), Some(g), Some(b), alpha))
  {
    SimpleColorChannels(ToHex(r, g, b), alpha);
  }

  predicate IsLowerSimpleColor(s: string) {
    IsSimpleColor(s) && forall i :: 1 <= i < 7 ==> !('A' <= s[i] <= 'F')
  }

  lemma HexDigitOfVal(c: char)
    requires IsHexDigit(c) && !('A' <= c <= 'F')
    ensures HexDigit(HexVal(c)) == c
  {
  }

  lemma PairDigits(s: string, i: nat)
    requires i + 1 < |s| && IsHexDigit(s[i]) && IsHexDigit(s[i + 1])
    requires !('A' <= s[i] <= 'F') && !('A' <= s[i + 1] <= 'F')
    ensures PairAt(s, i) < 256
    ensures HexDigit(PairAt(s, i) / 16) == s[i] && HexDigit(PairAt(s, i) % 16) == s[i + 1]
  {
    assert PairAt(s, i) / 16 == HexVal(s[i]);
    assert PairAt(s, i) % 16 == HexVal(s[i + 1]);
    HexDigitOfVal(s[i]);
    HexDigitOfVal(s[i + 1]);
  }

  /** Writing back the channels read from a lower-case simple colour gives
      the same text, which is the form a colour input produces. */
  lemma {:induction false} ParseRoundTrip(s: string)
    requires IsLowerSimpleColor(s)
    ensures ToHex(PairAt(s, 1), PairAt(s, 3), PairAt(s, 5)) == s
  {
    PairDigits(s, 1);
    PairDigits(s, 3);
    PairDigits(s, 5);
    assert ToHex(PairAt(s, 1), PairAt(s, 3), PairAt(s, 5))[0] == s[0];
  }

  /** The default cell colour reads as (194, 211, 243). */
  lemma DefaultColorExample()
    ensures HexToRgba("#c2d3f3", 0.5) == Some(Rgba(Some(194), Some(211), Some(243), 0.5))
  {
    SimpleColorChannels("#c2d3f3", 0.5);
  }

  /** A pair that only starts with a hexadecimal digit reads as that digit,
      and the radix prefix `0x` reads as `NaN`. */
  lemma ParsePrefixExamples()
    ensures ParseHexPair("cz") == Some(12)
    ensures ParseHexPair("0x") == None
    ensures ParseHexPair("zc") == None
  {
  }
}
