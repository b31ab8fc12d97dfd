/** `transform` (src/transformer.ts:80-127): mask comments and string-like
    literals, rewrite keywords and then type names, and put the masked spans
    back, strings first and comments last. */
module Transformer {
  import opened Text
  import opened Placeholders
  import opened Scanners
  import opened Masking
  import opened Rules

  /** The text after the four masking passes, with the two lists the
      callbacks filled. */
  datatype Masks = Masks(text: string, strings: seq<string>, comments: seq<string>)

  /** The four masking passes in their order. Block and line comments share
      the `comments` counter, templates and quoted strings the `strings`
      counter, so each pass numbers on from where the one before stopped. */
  function MaskAll(s: string): Masks {
    var block := Mask(BlockComment, s, 0);
    var line := Mask(LineComment, block.text, |block.spans|);
    var template := Mask(TemplateLiteral, line.text, 0);
    var quoted := Mask(QuotedString, template.text, |template.spans|);
    Masks(quoted.text, template.spans + quoted.spans, block.spans + line.spans)
  }

  /** Every rule of `KEYWORDS`, then every rule of `TYPES`. */
  function Rewrite(t: string): string {
    TablesWellFormed();
    ApplyRules(TYPES, ApplyRules(KEYWORDS, t))
  }

  /** What `transform(s)` returns. */
  function Transformed(s: string): string {
    var m := MaskAll(s);
    Restore(Comment, m.comments, Restore(Str, m.strings, Rewrite(m.text)))
  }

  /** `transform`, step by step: each pass reassigns `result`, the masking
      passes append their spans to the two lists, and the two tables are run
      rule by rule. */
  method Transform(source: string) returns (result: string)
    ensures result == Transformed(source)
  {
    var strings: seq<string> := [];
    var comments: seq<string> := [];
    result := source;

    var block := Mask(BlockComment, result, |comments|);
    result, comments := block.text, comments + block.spans;
    var line := Mask(LineComment, result, |comments|);
    result, comments := line.text, comments + line.spans;
    var template := Mask(TemplateLiteral, result, |strings|);
    result, strings := template.text, strings + template.spans;
    var quoted := Mask(QuotedString, result, |strings|);
    result, strings := quoted.text, strings + quoted.spans;
    assert [] + block.spans == block.spans && [] + template.spans == template.spans;
    MaskAllStages(source, block, line, template, quoted);

    TablesWellFormed();
    ghost var masked := result;
    result := RunRules(KEYWORDS, result);
    result := RunRules(TYPES, result);
    assert result == Rewrite(masked);

    result := Restore(Str, strings, result);
    TransformedStages(source, Masks(masked, strings, comments), Rewrite(masked), result);
    result := Restore(Comment, comments, result);
  }

  /** `for (const [pattern, replacement] of rules) result = result.replace(pattern, replacement)`:
      the rules run one at a time, in table order, each on what the ones
      before it produced. */
  method RunRules(rules: seq<Rule>, text: string) returns (result: string)
    requires Patterns(rules)
    ensures result == ApplyRules(rules, text)
  {
    result := text;
    var k := 0;
    while k < |rules|
      invariant k <= |rules|
      invariant Patterns(rules[..k])
      invariant result == ApplyRules(rules[..k], text)
    {
      var rule := rules[k];
      assert rules[..k + 1][..k] == rules[..k];
      result := ReplaceAll(result, rule.pattern, rule.replacement);
      k := k + 1;
    }
    assert rules[..k] == rules;
  }

  /** Every entry of `comments` is a whole block or line comment, and every
      entry of `strings` a whole template or quoted literal. */
  lemma MaskedSpans(s: string)
    ensures forall d :: 0 <= d < |MaskAll(s).comments| ==>
      IsSpanOf(BlockComment, MaskAll(s).comments[d]) || IsSpanOf(LineComment, MaskAll(s).comments[d])
    ensures forall d :: 0 <= d < |MaskAll(s).strings| ==>
      IsSpanOf(TemplateLiteral, MaskAll(s).strings[d]) || IsSpanOf(QuotedString, MaskAll(s).strings[d])
  {
    var block := Mask(BlockComment, s, 0);
    var line := Mask(LineComment, block.text, |block.spans|);
    var template := Mask(TemplateLiteral, line.text, 0);
    var quoted := Mask(QuotedString, template.text, |template.spans|);
    MaskSpansMatch(BlockComment, s, 0, 0);
    MaskSpansMatch(LineComment, block.text, 0, |block.spans|);
    MaskSpansMatch(TemplateLiteral, line.text, 0, 0);
    MaskSpansMatch(QuotedString, template.text, 0, |template.spans|);
    SpansOfBoth(BlockComment, LineComment, block.spans, line.spans);
    SpansOfBoth(TemplateLiteral, QuotedString, template.spans, quoted.spans);
  }

  lemma SpansOfBoth(p1: Pass, p2: Pass, sp1: seq<string>, sp2: seq<string>)
    requires forall d :: 0 <= d < |sp1| ==> IsSpanOf(p1, sp1[d])
    requires forall d :: 0 <= d < |sp2| ==> IsSpanOf(p2, sp2[d])
    ensures forall d :: 0 <= d < |sp1 + sp2| ==> IsSpanOf(p1, (sp1 + sp2)[d]) || IsSpanOf(p2, (sp1 + sp2)[d])
  {
  }

  /** `MaskAll` one pass at a time. */
  lemma MaskAllStages(s: string, block: Masked, line: Masked, template: Masked, quoted: Masked)
    requires block == Mask(BlockComment, s, 0) && line == Mask(LineComment, block.text, |block.spans|)
    requires template == Mask(TemplateLiteral, line.text, 0)
    requires quoted == Mask(QuotedString, template.text, |template.spans|)
    ensures MaskAll(s) == Masks(quoted.text, template.spans + quoted.spans, block.spans + line.spans)
  {
  }

  /** `Transformed` one stage at a time. */
  lemma TransformedStages(s: string, m: Masks, r: string, u: string)
    requires MaskAll(s) == m && Rewrite(m.text) == r && Restore(Str, m.strings, r) == u
    ensures Transformed(s) == Restore(Comment, m.comments, u)
  {
  }

  // ---------------------------------------------------------------------
  // The rewriting passes and the placeholders

  /** A stretch of ASCII text, such as a placeholder, is never altered by
      the two tables and no rule matches across it. */
  lemma RewriteKeepsAscii(a: string, w: string, b: string)
    requires w != [] && AllAscii(w)
    ensures Rewrite(a + w + b) == Rewrite(a) + w + Rewrite(b)
  {
    TablesWellFormed();
    AsciiUntouchable(w, KEYWORDS);
    AsciiUntouchable(w, TYPES);
    ApplyRulesKeeps(KEYWORDS, a, w, b);
    ApplyRulesKeeps(TYPES, ApplyRules(KEYWORDS, a), w, ApplyRules(KEYWORDS, b));
  }

  /** ASCII text comes through the two tables unchanged. */
  lemma RewriteAscii(w: string)
    requires AllAscii(w)
    ensures Rewrite(w) == w
  {
    TablesWellFormed();
    AsciiUnchanged(KEYWORDS, w);
    AsciiUnchanged(TYPES, w);
  }

  /** A word that `KEYWORDS` turns into ASCII is left there by `TYPES`. */
  lemma RewriteKeyword(w: string, out: string)
    requires Patterns(KEYWORDS) && ApplyRules(KEYWORDS, w) == out && AllAscii(out)
    ensures Rewrite(w) == out
  {
    TypesWellFormed();
    AsciiUnchanged(TYPES, out);
  }

  lemma PlaceholderAscii(k: Kind, n: nat)
    ensures Placeholder(k, n) != [] && AllAscii(Placeholder(k, n))
  {
    PlaceholderChars(k, n);
  }

  /** The keyword and type passes do not destroy a placeholder: one between
      two stretches of text comes out as it went in, and the text on either
      side is rewritten on its own. */
  lemma PlaceholderSurvives(k: Kind, n: nat, a: string, b: string)
    ensures Rewrite(a + Placeholder(k, n) + b) == Rewrite(a) + Placeholder(k, n) + Rewrite(b)
  {
    PlaceholderAscii(k, n);
    RewriteKeepsAscii(a, Placeholder(k, n), b);
  }

  /** The keyword and type passes create no placeholder: every replacement
      is free of capital letters, digits and underscores, so a placeholder
      body in the output was already in the input. */
  lemma RewriteCreatesNoBody(k: Kind, t: string)
    requires NoBody(k, t)
    ensures NoBody(k, Rewrite(t))
  {
    TablesWellFormed();
    TablesMarkFree();
    ApplyRulesNoBody(k, KEYWORDS, t);
    ApplyRulesNoBody(k, TYPES, ApplyRules(KEYWORDS, t));
  }

  // ---------------------------------------------------------------------
  // The round trip

  /** Source in which no keyword or type pattern occurs outside the masked
      spans, no placeholder body is written out, and no masked span holds a
      placeholder of its own kind, comes out of `transform` as it went in:
      strings are put back before comments, the reverse of the masking
      order, so a comment's or literal's text comes back exactly. */
  lemma RoundTrip(s: string)
    requires NoBody(Comment, s) && NoBody(Str, s)
    requires Clean(Str, MaskAll(s).strings) && Clean(Comment, MaskAll(s).comments)
    requires forall i :: 0 <= i < |KEYWORDS| ==> !Occurs(MaskAll(s).text, KEYWORDS[i].pattern)
    requires forall i :: 0 <= i < |TYPES| ==> !Occurs(MaskAll(s).text, TYPES[i].pattern)
    ensures Transformed(s) == s
  {
    var m := MaskAll(s);
    TablesWellFormed();
    ApplyRulesAbsent(KEYWORDS, m.text);
    ApplyRulesAbsent(TYPES, m.text);
    assert Rewrite(m.text) == m.text;
    var u := StringsRestored(s);
    CommentsRestored(s, u);
  }

  /** The restoring pass for strings undoes the two literal passes. */
  lemma StringsRestored(s: string) returns (u: string)
    requires NoBody(Str, s) && Clean(Str, MaskAll(s).strings)
    ensures u == Mask(LineComment, Mask(BlockComment, s, 0).text, |Mask(BlockComment, s, 0).spans|).text
    ensures Restore(Str, MaskAll(s).strings, MaskAll(s).text) == u
  {
    var block := Mask(BlockComment, s, 0);
    var line := Mask(LineComment, block.text, |block.spans|);
    var template := Mask(TemplateLiteral, line.text, 0);
    var quoted := Mask(QuotedString, template.text, |template.spans|);
    var strings := template.spans + quoted.spans;
    assert MaskAll(s).strings == strings && MaskAll(s).text == quoted.text;
    u := line.text;
    NoBodyKept(BlockComment, s, 0, Str);
    NoBodyKept(LineComment, block.text, |block.spans|, Str);
    CleanListed(Str, template.spans, quoted.spans);
    RestoreAfterTwoMasks(TemplateLiteral, QuotedString, Str, line.text, 0, template, quoted, strings);
  }

  /** The restoring pass for comments then undoes the two comment passes. */
  lemma CommentsRestored(s: string, u: string)
    requires NoBody(Comment, s) && Clean(Comment, MaskAll(s).comments)
    requires u == Mask(LineComment, Mask(BlockComment, s, 0).text, |Mask(BlockComment, s, 0).spans|).text
    ensures Restore(Comment, MaskAll(s).comments, u) == s
  {
    var block := Mask(BlockComment, s, 0);
    var line := Mask(LineComment, block.text, |block.spans|);
    var comments := block.spans + line.spans;
    assert MaskAll(s).comments == comments;
    CleanListed(Comment, block.spans, line.spans);
    RestoreAfterTwoMasks(BlockComment, LineComment, Comment, s, 0, block, line, comments);
  }

  // ---------------------------------------------------------------------
  // Whole sources

  /** No character of `s` can open a comment or a literal. */
  predicate Plain(s: string) {
    forall q :: 0 <= q < |s| ==> s[q] != '/' && s[q] != '`' && s[q] != '"' && s[q] != '\''
  }

  /** Source with nothing to mask, and no placeholder body written out, is
      only rewritten. */
  lemma PlainTransformed(s: string)
    requires Plain(s) && NoBody(Str, s) && NoBody(Comment, s)
    ensures Transformed(s) == Rewrite(s)
  {
    var r := Rewrite(s);
    MaskNothing(BlockComment, s, 0);
    MaskNothing(LineComment, s, 0);
    MaskNothing(TemplateLiteral, s, 0);
    MaskNothing(QuotedString, s, 0);
    assert MaskAll(s) == Masks(s, [], []);
    RewriteCreatesNoBody(Str, s);
    RewriteCreatesNoBody(Comment, s);
    RestoreIdentity(Str, [], r);
    RestoreIdentity(Comment, [], r);
  }

  /** Source that is one quoted string literal comes back unchanged: its
      text is masked before the keyword pass and put back after it. */
  lemma QuotedStringKept(s: string)
    requires Matches(QuotedString, s, 0, |s|)
    requires forall q :: 0 <= q < |s| ==> s[q] != '/' && s[q] != '`'
    requires NoBody(Comment, s)
    ensures Transformed(s) == s
  {
    var p := Placeholder(Str, 0);
    MatchEndMatches(QuotedString, s, 0);
    QuotedMasks(s);
    PlaceholderAscii(Str, 0);
    RewriteAscii(p);
    RestorePlaceholder(Str, [s], 0);
    TransformedStages(s, Masks(p, [s], []), p, s);
    RestoreIdentity(Comment, [], s);
  }

  /** Source made of a quoted literal between two stretches with nothing to
      mask: the two stretches are rewritten, each on its own, and the literal
      comes back as it was, keywords inside included. */
  lemma LiteralBetween(a: string, lit: string, b: string)
    requires Plain(a) && Plain(b)
    requires Matches(QuotedString, lit, 0, |lit|)
    requires forall q :: 0 <= q < |lit| ==> lit[q] != '/' && lit[q] != '`'
    requires NoBody(Str, a) && NoBody(Comment, a) && NoBody(Str, b) && NoBody(Comment, b)
    requires NoBody(Comment, lit)
    ensures Transformed(a + lit + b) == Rewrite(a) + lit + Rewrite(b)
  {
    var p := Placeholder(Str, 0);
    var ra, rb := Rewrite(a), Rewrite(b);
    LiteralBetweenMasks(a, lit, b);
    PlaceholderSurvives(Str, 0, a, b);
    RewriteCreatesNoBody(Str, a);
    RewriteCreatesNoBody(Str, b);
    RestoreAroundPlaceholder(Str, [lit], ra, 0, rb);
    RestoreIdentity(Str, [lit], rb);
    TransformedStages(a + lit + b, Masks(a + p + b, [lit], []), ra + p + rb, ra + lit + rb);
    LiteralBetweenClean(a, lit, b);
    RestoreIdentity(Comment, [], ra + lit + rb);
  }

  /** The rewritten stretches and the literal between them hold no comment
      body, since the literal opens and closes with a quote. */
  lemma LiteralBetweenClean(a: string, lit: string, b: string)
    requires Matches(QuotedString, lit, 0, |lit|)
    requires NoBody(Comment, a) && NoBody(Comment, b) && NoBody(Comment, lit)
    ensures NoBody(Comment, Rewrite(a) + lit + Rewrite(b))
  {
    RewriteCreatesNoBody(Comment, a);
    RewriteCreatesNoBody(Comment, b);
    NoBodyJoin(Comment, Rewrite(a), lit);
    NoBodyJoin(Comment, Rewrite(a) + lit, Rewrite(b));
  }

  /** The masking passes over a quoted literal between two stretches with
      nothing to mask. */
  lemma LiteralBetweenMasks(a: string, lit: string, b: string)
    requires Plain(a) && Plain(b)
    requires Matches(QuotedString, lit, 0, |lit|)
    requires forall q :: 0 <= q < |lit| ==> lit[q] != '/' && lit[q] != '`'
    ensures MaskAll(a + lit + b) == Masks(a + Placeholder(Str, 0) + b, [lit], [])
  {
    var s := a + lit + b;
    forall q | 0 <= q < |s| ensures s[q] != '/' && s[q] != '`' {
      if q < |a| {
        assert s[q] == a[q];
      } else if q < |a| + |lit| {
        assert s[q] == lit[q - |a|];
      } else {
        assert s[q] == b[q - |a| - |lit|];
      }
    }
    NoCommentOrTemplate(s);
    QuotedBetween(a, lit, b);
    MaskAllStages(s, Masked(s, []), Masked(s, []), Masked(s, []), Masked(a + Placeholder(Str, 0) + b, [lit]));
    assert [] + [lit] == [lit];
  }

  /** The quoted-string pass takes the literal and copies what is around it. */
  lemma QuotedBetween(a: string, lit: string, b: string)
    requires Plain(a) && Plain(b)
    requires Matches(QuotedString, lit, 0, |lit|)
    ensures Mask(QuotedString, a + lit + b, 0) == Masked(a + Placeholder(Str, 0) + b, [lit])
  {
    var s := a + lit + b;
    var j := |a| + |lit|;
    QuotedShift(a, lit, b);
    MatchEndMatches(QuotedString, s, |a|);
    forall q | 0 <= q < |a| ensures !IsOpener(QuotedString, s[q]) {
      assert s[q] == a[q];
    }
    forall q | j <= q < |s| ensures !IsOpener(QuotedString, s[q]) {
      assert s[q] == b[q - j];
    }
    MaskSkip(QuotedString, s, j, |s|, 1);
    assert s[j..|s|] == b;
    assert MaskFrom(QuotedString, s, j, 1) == Masked(b, []);
    MaskTake(QuotedString, s, |a|, 0);
    assert s[|a|..j] == lit;
    assert MaskFrom(QuotedString, s, |a|, 0) == Masked(Placeholder(Str, 0) + b, [lit]);
    MaskSkip(QuotedString, s, 0, |a|, 0);
    assert s[0..|a|] == a;
    Assoc(a, Placeholder(Str, 0), b);
  }

  /** A quoted literal is still a match after text is put around it. */
  lemma QuotedShift(a: string, lit: string, b: string)
    requires Matches(QuotedString, lit, 0, |lit|)
    ensures Matches(QuotedString, a + lit + b, |a|, |a| + |lit|)
  {
    var s := a + lit + b;
    assert s[|a|] == lit[0] && s[|a| + |lit| - 1] == lit[|lit| - 1];
    assert s[|a| + 1..|a| + |lit| - 1] == lit[1..|lit| - 1];
  }

  /** The masking passes over one quoted string literal. */
  lemma QuotedMasks(s: string)
    requires s != [] && MatchEnd(QuotedString, s, 0) == Some(|s|)
    requires forall q :: 0 <= q < |s| ==> s[q] != '/' && s[q] != '`'
    ensures MaskAll(s) == Masks(Placeholder(Str, 0), [s], [])
  {
    NoCommentOrTemplate(s);
    WholeMatch(QuotedString, s, 0);
    MaskAllStages(s, Masked(s, []), Masked(s, []), Masked(s, []), Masked(Placeholder(Str, 0), [s]));
    assert [] + [s] == [s];
  }

  /** Text without slashes and backticks goes through the first three
      passes unchanged. */
  lemma NoCommentOrTemplate(s: string)
    requires forall q :: 0 <= q < |s| ==> s[q] != '/' && s[q] != '`'
    ensures Mask(BlockComment, s, 0) == Masked(s, [])
    ensures Mask(LineComment, s, 0) == Masked(s, [])
    ensures Mask(TemplateLiteral, s, 0) == Masked(s, [])
  {
    MaskNothing(BlockComment, s, 0);
    MaskNothing(LineComment, s, 0);
    MaskNothing(TemplateLiteral, s, 0);
  }

  /** A pass whose regex matches the whole text at its start turns it into
      the next placeholder of its kind. */
  lemma WholeMatch(p: Pass, s: string, n: nat)
    requires s != [] && MatchEnd(p, s, 0) == Some(|s|)
    ensures Mask(p, s, n) == Masked(Placeholder(KindOf(p), n), [s])
  {
    MaskTake(p, s, 0, n);
    assert s[0..|s|] == s;
  }

  /** Source that is one line comment, with no star in it, comes back
      unchanged. */
  lemma LineCommentKept(s: string)
    requires IsLineCommentAt(s, 0, |s|)
    requires forall q :: 0 <= q < |s| ==> s[q] != '*'
    ensures Transformed(s) == s
  {
    var p := Placeholder(Comment, 0);
    LineCommentEndMatches(s, 0);
    LineCommentMasks(s);
    PlaceholderAscii(Comment, 0);
    RewriteAscii(p);
    PlaceholderNoOtherBody(Comment, 0);
    RestoreIdentity(Str, [], p);
    TransformedStages(s, Masks(p, [], [s]), p, p);
    RestorePlaceholder(Comment, [s], 0);
  }

  /** A placeholder holds no body of the other kind. */
  lemma PlaceholderNoOtherBody(k: Kind, n: nat)
    ensures NoBody(Other(k), Placeholder(k, n))
  {
    var p := Placeholder(k, n);
    PlaceholderChars(k, n);
    forall q | 0 <= q < |p| ensures !BodyAt(Other(k), p, q) {
      if q + |Name(Other(k))| <= |p| {
        assert p[q..q + |Name(Other(k))|][0] == p[q];
      }
    }
  }

  /** The literal passes copy a placeholder. */
  lemma PlaceholderNotLiteral(k: Kind, n: nat)
    ensures Mask(TemplateLiteral, Placeholder(k, n), 0) == Masked(Placeholder(k, n), [])
    ensures Mask(QuotedString, Placeholder(k, n), 0) == Masked(Placeholder(k, n), [])
  {
    var p := Placeholder(k, n);
    PlaceholderChars(k, n);
    forall q | 0 <= q < |p| ensures !IsOpener(TemplateLiteral, p[q]) && !IsOpener(QuotedString, p[q]) {
    }
    MaskNothing(TemplateLiteral, p, 0);
    MaskNothing(QuotedString, p, 0);
  }

  /** The masking passes over one line comment. */
  lemma LineCommentMasks(s: string)
    requires s != [] && MatchEnd(LineComment, s, 0) == Some(|s|)
    requires forall q :: 0 <= q < |s| ==> s[q] != '*'
    ensures MaskAll(s) == Masks(Placeholder(Comment, 0), [], [s])
  {
    var p := Placeholder(Comment, 0);
    NoStarNoBlock(s);
    WholeMatch(LineComment, s, 0);
    PlaceholderNotLiteral(Comment, 0);
    MaskAllStages(s, Masked(s, []), Masked(p, [s]), Masked(p, []), Masked(p, []));
    assert [] + [s] == [s];
  }

  /** Text without a star holds no block comment. */
  lemma NoStarNoBlock(s: string)
    requires forall q :: 0 <= q < |s| ==> s[q] != '*'
    ensures Mask(BlockComment, s, 0) == Masked(s, [])
  {
    forall q | 0 <= q < |s| ensures MatchEnd(BlockComment, s, q).None? {
    }
    MaskNoMatch(BlockComment, s, 0, 0);
    assert s[0..] == s;
  }
}
