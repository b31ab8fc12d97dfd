/** The four masking passes of `transform` (src/transformer.ts:86-108): each
    is a global regex replacement whose callback records the matched span and
    returns the next placeholder of its kind. The regexes are written out here
    as scanners that say where a match starting at a given position ends. */
module Scanners {
  import opened Text
  import opened Placeholders

  /** `s[i]` is `a` and `s[i + 1]` is `b`. */
  predicate PairAt(s: string, i: int, a: char, b: char) {
    0 <= i && i + 1 < |s| && s[i] == a && s[i + 1] == b
  }

  // ---------------------------------------------------------------------
  // Block comments: /\/\*[\s\S]*?\*\//g

  /** `s[i..e]` is what the block-comment regex matches at `i`: it opens with
      the slash-star pair and ends at the first star-slash pair after it. */
  predicate IsBlockCommentAt(s: string, i: int, e: int) {
    PairAt(s, i, '/', '*') && i + 4 <= e <= |s| && PairAt(s, e - 2, '*', '/')
    && forall q :: i + 2 <= q < e - 2 ==> !PairAt(s, q, '*', '/')
  }

  /** Just past the first star-slash pair that starts at or after `j`. */
  function CloseBlock(s: string, j: nat): (r: Option<nat>)
    ensures r.Some? ==> j + 2 <= r.value <= |s|
    decreases |s| - j
  {
    if j + 2 > |s| then None
    else if s[j] == '*' && s[j + 1] == '/' then Some(j + 2)
    else CloseBlock(s, j + 1)
  }

  /** `CloseBlock` finds the first closing pair, and finds none only when
      there is none. */
  lemma {:induction false} CloseBlockFirst(s: string, j: nat)
    ensures var r := CloseBlock(s, j);
      (r.Some? ==> PairAt(s, r.value - 2, '*', '/') && forall q :: j <= q < r.value - 2 ==> !PairAt(s, q, '*', '/'))
      && (r.None? ==> forall q :: j <= q ==> !PairAt(s, q, '*', '/'))
    decreases |s| - j
  {
    if j + 2 <= |s| && !(s[j] == '*' && s[j + 1] == '/') {
      CloseBlockFirst(s, j + 1);
    }
  }

  /** The end of the block comment that starts at `i`, if one does: the lazy
      `[\s\S]*?` stops at the first closing pair, across line ends. */
  function BlockCommentEnd(s: string, i: nat): (r: Option<nat>)
    ensures r.Some? ==> PairAt(s, i, '/', '*') && i + 4 <= r.value <= |s|
  {
    if PairAt(s, i, '/', '*') then
      CloseBlock(s, i + 2)
    else
      None
  }

  lemma BlockCommentEndMatches(s: string, i: nat)
    ensures forall e :: BlockCommentEnd(s, i) == Some(e) <==> IsBlockCommentAt(s, i, e)
  {
    CloseBlockFirst(s, i + 2);
  }

  // ---------------------------------------------------------------------
  // Line comments: /\/\/.*$/gm

  /** The first line terminator at or after `j`, or the end of the text. */
  function LineEnd(s: string, j: nat): (e: nat)
    requires j <= |s|
    ensures j <= e <= |s|
    decreases |s| - j
  {
    if j == |s| || IsLineTerminator(s[j]) then j else LineEnd(s, j + 1)
  }

  /** `LineEnd` stops at the first line terminator. */
  lemma {:induction false} LineEndFirst(s: string, j: nat)
    requires j <= |s|
    ensures var e := LineEnd(s, j);
      (forall q :: j <= q < e ==> !IsLineTerminator(s[q])) && (e == |s| || IsLineTerminator(s[e]))
    decreases |s| - j
  {
    if j < |s| && !IsLineTerminator(s[j]) {
      LineEndFirst(s, j + 1);
    }
  }

  /** `s[i..e]` is what the line-comment regex matches at `i`: the greedy `.*`
      runs to the next line terminator, which `$` (multiline) stops before. */
  predicate IsLineCommentAt(s: string, i: int, e: int) {
    PairAt(s, i, '/', '/') && i + 2 <= e <= |s|
    && (forall q :: i <= q < e ==> !IsLineTerminator(s[q]))
    && (e == |s| || IsLineTerminator(s[e]))
  }

  function LineCommentEnd(s: string, i: nat): (r: Option<nat>)
    ensures r.Some? ==> PairAt(s, i, '/', '/') && i + 2 <= r.value <= |s|
  {
    if PairAt(s, i, '/', '/') then
      Some(LineEnd(s, i + 2))
    else
      None
  }

  lemma LineCommentEndMatches(s: string, i: nat)
    ensures forall e :: LineCommentEnd(s, i) == Some(e) <==> IsLineCommentAt(s, i, e)
  {
    if PairAt(s, i, '/', '/') {
      LineEndFirst(s, i + 2);
    }
  }

  // ---------------------------------------------------------------------
  // Template and quoted literals: /`(?:[^`\\]|\\.)*`/g and
  // /(["'])(?:(?!\1)[^\\]|\\.)*\1/g

  /** `x` is a run of what the literal regexes allow between the delimiters:
      a character that is neither the delimiter `q` nor a backslash (line ends
      included), or a backslash followed by any character but a line
      terminator. */
  predicate IsLiteralBody(q: char, x: string)
    decreases |x|
  {
    if x == [] then true
    else if x[0] == '\\' then |x| >= 2 && !IsLineTerminator(x[1]) && IsLiteralBody(q, x[2..])
    else x[0] != q && IsLiteralBody(q, x[1..])
  }

  /** Scanning a literal body from `j`: just past the closing delimiter `q`,
      if the body is well formed up to one. */
  function LiteralEnd(s: string, q: char, j: nat): (r: Option<nat>)
    requires j <= |s|
    ensures r.Some? ==> j < r.value <= |s| && s[r.value - 1] == q
    decreases |s| - j
  {
    if j == |s| then None
    else if s[j] == q then Some(j + 1)
    else if s[j] == '\\' then
      if j + 1 < |s| && !IsLineTerminator(s[j + 1]) then
        LiteralEnd(s, q, j + 2)
      else
        None
    else
      LiteralEnd(s, q, j + 1)
  }

  /** `LiteralEnd` stops exactly where the body scanned from `j` closes. */
  lemma LiteralEndMatches(s: string, q: char, j: nat)
    requires q != '\\'
    requires j <= |s|
    ensures var r := LiteralEnd(s, q, j);
      (r.Some? ==> IsLiteralBody(q, s[j..r.value - 1]))
      && forall e :: j < e <= |s| && s[e - 1] == q && IsLiteralBody(q, s[j..e - 1]) ==> r == Some(e)
  {
    LiteralEndSound(s, q, j);
    LiteralEndFirst(s, q, j);
  }

  /** What `LiteralEnd` passes over is a well-formed body. */
  lemma {:induction false} LiteralEndSound(s: string, q: char, j: nat)
    requires j <= |s|
    ensures var r := LiteralEnd(s, q, j);
      r.Some? ==> IsLiteralBody(q, s[j..r.value - 1])
    decreases |s| - j
  {
    if j < |s| {
      if s[j] == q {
        assert s[j..j] == [];
      } else if s[j] == '\\' {
        if j + 1 < |s| && !IsLineTerminator(s[j + 1]) {
          LiteralEndSound(s, q, j + 2);
          var r := LiteralEnd(s, q, j + 2);
          if r.Some? {
            LiteralBodyEscape(q, s, j, r.value - 1);
          }
        }
      } else {
        LiteralEndSound(s, q, j + 1);
        var r := LiteralEnd(s, q, j + 1);
        if r.Some? {
          LiteralBodyChar(q, s, j, r.value - 1);
        }
      }
    }
  }

  lemma LiteralBodyEscape(q: char, s: string, j: nat, f: nat)
    requires j + 2 <= f <= |s| && s[j] == '\\' && !IsLineTerminator(s[j + 1])
    requires IsLiteralBody(q, s[j + 2..f])
    ensures IsLiteralBody(q, s[j..f])
  {
    assert s[j..f][2..] == s[j + 2..f];
  }

  lemma LiteralBodyChar(q: char, s: string, j: nat, f: nat)
    requires j + 1 <= f <= |s| && s[j] != '\\' && s[j] != q
    requires IsLiteralBody(q, s[j + 1..f])
    ensures IsLiteralBody(q, s[j..f])
  {
    assert s[j..f][1..] == s[j + 1..f];
  }

  /** No closing delimiter after a well-formed body comes before the one
      `LiteralEnd` stops at. */
  lemma {:induction false} LiteralEndFirst(s: string, q: char, j: nat)
    requires q != '\\'
    requires j <= |s|
    ensures forall e :: j < e <= |s| && s[e - 1] == q && IsLiteralBody(q, s[j..e - 1]) ==> LiteralEnd(s, q, j) == Some(e)
    decreases |s| - j
  {
    if j < |s| && s[j] != q {
      if s[j] == '\\' {
        if j + 1 < |s| && !IsLineTerminator(s[j + 1]) {
          LiteralEndFirst(s, q, j + 2);
        }
      } else {
        LiteralEndFirst(s, q, j + 1);
      }
    }
  }

  /** `s[i..e]` is what a literal regex matches at `i` when it opens with the
      delimiter `s[i]`. */
  predicate IsLiteralAt(s: string, i: int, e: int) {
    0 <= i < |s| && i + 2 <= e <= |s| && s[i] != '\\' && s[e - 1] == s[i] && IsLiteralBody(s[i], s[i + 1..e - 1])
  }

  // ---------------------------------------------------------------------
  // The four passes

  /** The masking passes, in the order `transform` runs them. */
  datatype Pass = BlockComment | LineComment | TemplateLiteral | QuotedString

  /** Which counter and placeholder a pass uses. */
  function KindOf(p: Pass): Kind {
    if p == BlockComment || p == LineComment then Comment else Str
  }

  /** The character a match of pass `p` can start with. */
  predicate IsOpener(p: Pass, c: char) {
    match p
    case BlockComment => c == '/'
    case LineComment => c == '/'
    case TemplateLiteral => c == '`'
    case QuotedString => c == '"' || c == '\''
  }

  /** `s[i..e]` is what the regex of pass `p` matches at position `i`. */
  predicate Matches(p: Pass, s: string, i: int, e: int) {
    match p
    case BlockComment => IsBlockCommentAt(s, i, e)
    case LineComment => IsLineCommentAt(s, i, e)
    case TemplateLiteral => IsLiteralAt(s, i, e) && s[i] == '`'
    case QuotedString => IsLiteralAt(s, i, e) && (s[i] == '"' || s[i] == '\'')
  }

  /** Where the match of pass `p` that starts at `i` ends, if there is one.
      An unterminated comment or literal is no match at all. */
  function MatchEnd(p: Pass, s: string, i: nat): (r: Option<nat>)
    requires i < |s|
    ensures r.Some? ==> i < r.value <= |s| && IsOpener(p, s[i])
  {
    match p
    case BlockComment => BlockCommentEnd(s, i)
    case LineComment => LineCommentEnd(s, i)
    case TemplateLiteral => if s[i] == '`' then LiteralEnd(s, '`', i + 1) else None
    case QuotedString => if s[i] == '"' || s[i] == '\'' then LiteralEnd(s, s[i], i + 1) else None
  }

  /** `MatchEnd` finds exactly the match the pass's regex makes at `i`. */
  lemma MatchEndMatches(p: Pass, s: string, i: nat)
    requires i < |s|
    ensures forall e :: MatchEnd(p, s, i) == Some(e) <==> Matches(p, s, i, e)
  {
    match p
    case BlockComment => BlockCommentEndMatches(s, i);
    case LineComment => LineCommentEndMatches(s, i);
    case TemplateLiteral => if s[i] == '`' { LiteralEndMatches(s, '`', i + 1); }
    case QuotedString => if s[i] == '"' || s[i] == '\'' { LiteralEndMatches(s, s[i], i + 1); }
  }

  /** The text and the recorded spans of one masking pass over `s[i..]`. */
  datatype Masked = Masked(text: string, spans: seq<string>)

  /** `s.replace(regex, match => { list.push(match); return placeholder })`
      from position `i` on, where the list already holds `n` spans: every
      match, tried left to right, is swapped for the placeholder numbered by
      its position in the list and appended to the spans. */
  function MaskFrom(p: Pass, s: string, i: nat, n: nat): (m: Masked)
    requires i <= |s|
    ensures m.text == [] <==> i == |s|
    decreases |s| - i
  {
    if i == |s| then Masked([], [])
    else match MatchEnd(p, s, i)
      case Some(j) =>
        var rest := MaskFrom(p, s, j, n + 1);
        Masked(Placeholder(KindOf(p), n) + rest.text, [s[i..j]] + rest.spans)
      case None =>
        var rest := MaskFrom(p, s, i + 1, n);
        Masked([s[i]] + rest.text, rest.spans)
  }

  /** The whole of one masking pass, with the list holding `n` spans before it. */
  function Mask(p: Pass, s: string, n: nat): Masked {
    MaskFrom(p, s, 0, n)
  }
}
