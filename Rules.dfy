/** The keyword and type tables of the rewriter (src/transformer.ts:2-78) and
    what applying them does: each rule is a global regex made of one literal
    Japanese word, so `result.replace(pattern, replacement)` replaces every
    occurrence, left to right and without overlaps, and the rules run one
    after another (src/transformer.ts:111-118). */
module Rules {
  import opened Text
  import opened Placeholders

  datatype Rule = Rule(pattern: string, replacement: string)

  // The `KEYWORDS` table, in declaration order, in the groups its source
  // comments give it.

  /** Compound keywords, listed first so that they win over their parts. */
  const COMPOUND: seq<Rule> := [
    Rule("そうでなければもし", "else if"),
    Rule("そうでなければ", "else"),
    Rule("の中の", "of")
  ]

  const BASIC: seq<Rule> := [
    Rule("関数", "function"),
    Rule("定数", "const"),
    Rule("変数", "let"),
    Rule("もし", "if"),
    Rule("繰り返し", "for"),
    Rule("各々", "for"),
    Rule("間", "while"),
    Rule("戻す", "return"),
    Rule("抜ける", "break"),
    Rule("続ける", "continue")
  ]

  const CLASSES: seq<Rule> := [
    Rule("クラス", "class"),
    Rule("拡張", "extends"),
    Rule("実装", "implements"),
    Rule("構築", "constructor"),
    Rule("自分", "this"),
    Rule("新規", "new"),
    Rule("静的", "static"),
    Rule("公開", "public"),
    Rule("非公開", "private"),
    Rule("保護", "protected")
  ]

  const VALUES: seq<Rule> := [
    Rule("真", "true"),
    Rule("偽", "false"),
    Rule("無", "null"),
    Rule("未定義", "undefined")
  ]

  const ASYNC: seq<Rule> := [
    Rule("非同期", "async"),
    Rule("待機", "await")
  ]

  const EXCEPTIONS: seq<Rule> := [
    Rule("試行", "try"),
    Rule("捕捉", "catch"),
    Rule("最後に", "finally"),
    Rule("投げる", "throw")
  ]

  const MODULES: seq<Rule> := [
    Rule("型", "type"),
    Rule("接点", "interface"),
    Rule("出力", "export"),
    Rule("入力", "import"),
    Rule("から", "from"),
    Rule("として", "as"),
    Rule("既定", "default")
  ]

  const OPERATORS: seq<Rule> := [
    Rule("かつ", "&&"),
    Rule("または", "||"),
    Rule("ではない", "!"),
    Rule("である", "==="),
    Rule("でない", "!==")
  ]

  const BUILTINS: seq<Rule> := [
    Rule("表示", "console.log")
  ]

  /** The `KEYWORDS` table. */
  const KEYWORDS: seq<Rule> :=
    COMPOUND + BASIC + CLASSES + VALUES + ASYNC + EXCEPTIONS + MODULES + OPERATORS + BUILTINS

  /** The `TYPES` table, in declaration order. */
  const TYPES: seq<Rule> := [
    Rule("文字列", "string"),
    Rule("数値", "number"),
    Rule("真偽値", "boolean"),
    Rule("無効", "void"),
    Rule("何でも", "any"),
    Rule("不明", "unknown"),
    Rule("絶対無", "never"),
    Rule("物体", "object")
  ]

  // ---------------------------------------------------------------------
  // One rule: a global replacement of a literal word

  /** `s.replace(/pat/g, rep)` for a pattern made of literal characters:
      every occurrence, found left to right, is replaced, and the scan goes
      on after the occurrence, so occurrences never overlap. */
  function ReplaceAll(s: string, pat: string, rep: string): string
    requires |pat| > 0
    decreases |s|
  {
    if s == [] then []
    else if StartsAt(s, 0, pat) then rep + ReplaceAll(s[|pat|..], pat, rep)
    else [s[0]] + ReplaceAll(s[1..], pat, rep)
  }

  /** Text in which the word does not occur is left as it is. */
  lemma {:induction false} ReplaceAllAbsent(s: string, pat: string, rep: string)
    requires |pat| > 0 && !Occurs(s, pat)
    ensures ReplaceAll(s, pat, rep) == s
    decreases |s|
  {
    if s != [] {
      assert !StartsAt(s, 0, pat);
      assert !Occurs(s[1..], pat) by {
        forall i | 0 <= i <= |s[1..]| ensures !StartsAt(s[1..], i, pat) {
          assert !StartsAt(s, i + 1, pat);
          if i + |pat| <= |s[1..]| {
            assert s[1..][i..i + |pat|] == s[i + 1..i + 1 + |pat|];
          }
        }
      }
      ReplaceAllAbsent(s[1..], pat, rep);
    }
  }

  /** A word that is the whole text is replaced whole. */
  lemma ReplaceAllWhole(pat: string, rep: string)
    requires |pat| > 0
    ensures ReplaceAll(pat, pat, rep) == rep
  {
    assert pat[..|pat|] == pat;
    assert pat[|pat|..] == [];
  }

  /** No occurrence of the word straddles position `|a|` of `a + b`. */
  predicate NoneAcross(a: string, b: string, pat: string) {
    forall d :: 0 <= d < |a| && |a| < d + |pat| ==> !StartsAt(a + b, d, pat)
  }

  lemma NoneAcrossTail(a: string, b: string, pat: string, m: nat)
    requires m <= |a| && NoneAcross(a, b, pat)
    ensures NoneAcross(a[m..], b, pat)
  {
    assert a[m..] + b == (a + b)[m..];
    forall d | 0 <= d < |a[m..]| && |a[m..]| < d + |pat| ensures !StartsAt(a[m..] + b, d, pat) {
      assert !StartsAt(a + b, d + m, pat);
      if d + |pat| <= |a[m..] + b| {
        assert (a[m..] + b)[d..d + |pat|] == (a + b)[d + m..d + m + |pat|];
      }
    }
  }

  /** Replacing in `a + b` is replacing in `a` and in `b` when no occurrence
      straddles the join. */
  lemma {:induction false} ReplaceAllSplit(a: string, b: string, pat: string, rep: string)
    requires |pat| > 0 && NoneAcross(a, b, pat)
    ensures ReplaceAll(a + b, pat, rep) == ReplaceAll(a, pat, rep) + ReplaceAll(b, pat, rep)
    decreases |a|
  {
    if a == [] {
      assert a + b == b;
    } else {
      var s := a + b;
      if StartsAt(s, 0, pat) {
        assert |pat| <= |a|;
        assert a[..|pat|] == s[..|pat|];
        assert StartsAt(a, 0, pat);
        assert s[|pat|..] == a[|pat|..] + b;
        NoneAcrossTail(a, b, pat, |pat|);
        ReplaceAllSplit(a[|pat|..], b, pat, rep);
      } else {
        if |pat| <= |a| {
          assert a[..|pat|] == s[..|pat|];
        }
        assert !StartsAt(a, 0, pat);
        assert s[1..] == a[1..] + b;
        NoneAcrossTail(a, b, pat, 1);
        ReplaceAllSplit(a[1..], b, pat, rep);
      }
    }
  }

  /** `c` is not one of the characters of `pat`. */
  predicate NotIn(c: char, pat: string) {
    forall j :: 0 <= j < |pat| ==> pat[j] != c
  }

  /** No character of `w` is a character of `pat`. */
  predicate Disjoint(w: string, pat: string) {
    forall i :: 0 <= i < |w| ==> NotIn(w[i], pat)
  }

  lemma DisjointTail(w: string, pat: string)
    requires w != [] && Disjoint(w, pat)
    ensures Disjoint(w[1..], pat)
  {
    forall i | 0 <= i < |w[1..]| ensures NotIn(w[1..][i], pat) {
      assert w[1..][i] == w[i + 1];
    }
  }

  /** Text made of characters that the word does not contain is copied. */
  lemma {:induction false} ReplaceAllDisjoint(w: string, b: string, pat: string, rep: string)
    requires |pat| > 0 && Disjoint(w, pat)
    ensures ReplaceAll(w + b, pat, rep) == w + ReplaceAll(b, pat, rep)
    decreases |w|
  {
    if w == [] {
      assert w + b == b;
    } else {
      assert [w[0]] + w[1..] == w;
      var s := w + b;
      assert s[0] == w[0];
      assert NotIn(w[0], pat);
      if |pat| <= |s| {
        assert s[0..0 + |pat|][0] == w[0];
      }
      assert !StartsAt(s, 0, pat);
      assert s[1..] == w[1..] + b;
      DisjointTail(w, pat);
      ReplaceAllDisjoint(w[1..], b, pat, rep);
      var r := ReplaceAll(b, pat, rep);
      calc {
        ReplaceAll(s, pat, rep);
        [w[0]] + ReplaceAll(w[1..] + b, pat, rep);
        [w[0]] + (w[1..] + r);
        w + r;
      }
    }
  }

  /** A stretch of characters the word does not contain passes through a
      replacement untouched, and splits it in two. */
  lemma ReplaceAllKeeps(a: string, w: string, b: string, pat: string, rep: string)
    requires |pat| > 0 && w != [] && Disjoint(w, pat)
    ensures ReplaceAll(a + w + b, pat, rep) == ReplaceAll(a, pat, rep) + w + ReplaceAll(b, pat, rep)
  {
    assert a + w + b == a + (w + b);
    assert (w + b)[0] == w[0];
    KeepsNoStraddle(a, w + b, pat);
    ReplaceAllSplit(a, w + b, pat, rep);
    ReplaceAllDisjoint(w, b, pat, rep);
  }

  /** No occurrence starts in `a` and runs into text whose first character
      is not in the pattern. */
  lemma KeepsNoStraddle(a: string, c: string, pat: string)
    requires c != [] && NotIn(c[0], pat)
    ensures NoneAcross(a, c, pat)
  {
    forall d | 0 <= d < |a| && |a| < d + |pat| ensures !StartsAt(a + c, d, pat) {
      if d + |pat| <= |a + c| {
        assert (a + c)[d..d + |pat|][|a| - d] == (a + c)[|a|] == c[0];
      }
    }
  }

  /** A replacement creates no occurrence, at the front of its output, of a
      word that contains no first character of the replacement text. */
  lemma {:induction false} ReplaceAllNoNewStart(x: string, pat: string, rep: string, w: string)
    requires |pat| > 0 && rep != [] && !StartsAt(x, 0, w)
    requires forall j :: 0 <= j < |w| ==> w[j] != rep[0]
    ensures !StartsAt(ReplaceAll(x, pat, rep), 0, w)
    decreases |x|
  {
    var r := ReplaceAll(x, pat, rep);
    if x == [] {
      assert x[0..0] == [];
    } else if StartsAt(x, 0, pat) {
      assert x[0..0] == [];
      if |w| <= |r| {
        assert r[0..|w|][0] == rep[0];
      }
    } else {
      assert x[0..0] == [];
      var r' := ReplaceAll(x[1..], pat, rep);
      assert r == [x[0]] + r';
      if |w| <= |r| && x[0] == w[0] {
        if |w| <= |x| {
          assert x[0..|w|] == [x[0]] + x[1..][0..|w| - 1];
        }
        assert w == [w[0]] + w[1..];
        assert !StartsAt(x[1..], 0, w[1..]);
        ReplaceAllNoNewStart(x[1..], pat, rep, w[1..]);
        assert r[0..|w|] == [x[0]] + r'[0..|w| - 1];
      } else if |w| <= |r| {
        assert r[0..|w|][0] == x[0];
      }
    }
  }

  /** The replacement is global: when the replacement text shares no
      character with the word, no occurrence of the word is left. */
  lemma {:induction false} ReplaceAllRemoves(s: string, pat: string, rep: string)
    requires |pat| > 0 && rep != [] && Disjoint(rep, pat)
    ensures !Occurs(ReplaceAll(s, pat, rep), pat)
    decreases |s|
  {
    var r := ReplaceAll(s, pat, rep);
    if s == [] {
      assert !StartsAt(r, 0, pat);
    } else if StartsAt(s, 0, pat) {
      var r' := ReplaceAll(s[|pat|..], pat, rep);
      ReplaceAllRemoves(s[|pat|..], pat, rep);
      assert r == rep + r';
      forall d | 0 <= d <= |r| ensures !StartsAt(r, d, pat) {
        if d + |pat| <= |r| {
          if d < |rep| {
            assert r[d..d + |pat|][0] == rep[d];
            assert NotIn(rep[d], pat);
          } else {
            assert r[d..d + |pat|] == r'[d - |rep|..d - |rep| + |pat|];
            assert !StartsAt(r', d - |rep|, pat);
          }
        }
      }
    } else {
      var r' := ReplaceAll(s[1..], pat, rep);
      ReplaceAllRemoves(s[1..], pat, rep);
      assert r == [s[0]] + r';
      forall d | 1 <= d <= |r| ensures !StartsAt(r, d, pat) {
        if d + |pat| <= |r| {
          assert r[d..d + |pat|] == r'[d - 1..d - 1 + |pat|];
          assert !StartsAt(r', d - 1, pat);
        }
      }
      assert NotIn(rep[0], pat);
      ReplaceAllNoNewStart(s, pat, rep, pat);
    }
  }

  /** An occurrence of a word whose first character appears nowhere else in
      it is replaced in place, whatever surrounds it: no occurrence can
      straddle its front edge. */
  lemma ReplaceAllWord(a: string, pat: string, b: string, rep: string)
    requires |pat| > 0 && NotIn(pat[0], pat[1..])
    ensures ReplaceAll(a + pat + b, pat, rep) == ReplaceAll(a, pat, rep) + rep + ReplaceAll(b, pat, rep)
  {
    var t := pat + b;
    assert a + pat + b == a + t;
    forall d | 0 <= d < |a| && |a| < d + |pat| ensures !StartsAt(a + t, d, pat) {
      if d + |pat| <= |a + t| {
        assert (a + t)[d..d + |pat|][|a| - d] == t[0] == pat[0];
        assert pat[1..][|a| - d - 1] == pat[|a| - d];
      }
    }
    ReplaceAllSplit(a, t, pat, rep);
    assert t[..|pat|] == pat && t[|pat|..] == b;
  }

  /** When the output of a replacement whose text starts with a character
      no placeholder uses begins with `m` placeholder characters, those `m`
      characters were copied from the start of the input. */
  lemma {:induction false} ReplaceAllMarkRun(s: string, pat: string, rep: string, m: nat)
    requires |pat| > 0 && rep != [] && !IsMarkChar(rep[0])
    requires m <= |ReplaceAll(s, pat, rep)|
    requires forall j :: 0 <= j < m ==> IsMarkChar(ReplaceAll(s, pat, rep)[j])
    ensures m <= |s| && forall j :: 0 <= j < m ==> s[j] == ReplaceAll(s, pat, rep)[j]
    decreases |s|
  {
    if m > 0 {
      var r := ReplaceAll(s, pat, rep);
      if StartsAt(s, 0, pat) {
        MarkRunHead(r, m);
        assert false;
      }
      var rest := ReplaceAll(s[1..], pat, rep);
      assert r == [s[0]] + rest;
      forall j | 0 <= j < m - 1 ensures IsMarkChar(rest[j]) {
        assert rest[j] == r[j + 1];
      }
      ReplaceAllMarkRun(s[1..], pat, rep, m - 1);
      forall j | 1 <= j < m ensures s[j] == r[j] {
        assert s[1..][j - 1] == s[j] && rest[j - 1] == r[j];
      }
    }
  }

  lemma MarkRunHead(t: string, m: nat)
    requires 0 < m <= |t| && forall j :: 0 <= j < m ==> IsMarkChar(t[j])
    ensures IsMarkChar(t[0])
  {
  }

  /** A replacement whose text holds no placeholder character creates no
      placeholder body: every body in the output was already in the input. */
  lemma {:induction false} ReplaceAllNoBody(k: Kind, s: string, pat: string, rep: string)
    requires |pat| > 0 && rep != [] && MarkFree(rep) && NoBody(k, s)
    ensures NoBody(k, ReplaceAll(s, pat, rep))
    decreases |s|
  {
    if s != [] {
      var r := ReplaceAll(s, pat, rep);
      if StartsAt(s, 0, pat) {
        var rest := ReplaceAll(s[|pat|..], pat, rep);
        NoBodySuffix(k, s, |pat|);
        ReplaceAllNoBody(k, s[|pat|..], pat, rep);
        assert r == rep + rest;
        forall q | 0 <= q < |r| ensures !BodyAt(k, r, q) {
          if q < |rep| {
            if BodyAt(k, r, q) {
              BodyFirstChar(k, r, q);
              assert false;
            }
          } else {
            BodyInTail(k, rep, rest, q, q - |rep|);
          }
        }
      } else {
        var rest := ReplaceAll(s[1..], pat, rep);
        NoBodySuffix(k, s, 1);
        ReplaceAllNoBody(k, s[1..], pat, rep);
        assert r == [s[0]] + rest;
        forall q | 0 <= q < |r| ensures !BodyAt(k, r, q) {
          if q == 0 {
            if BodyAt(k, r, 0) {
              BodyMarkChars(k, r, 0);
              ReplaceAllMarkRun(s, pat, rep, |Name(k)| + 2);
              BodySame(k, r, s);
              assert false;
            }
          } else {
            BodyInTail(k, [s[0]], rest, q, q - 1);
          }
        }
      }
    }
  }

  // ---------------------------------------------------------------------
  // A table of rules

  /** Every pattern is a non-empty word. */
  predicate Patterns(rules: seq<Rule>) {
    forall i :: 0 <= i < |rules| ==> |rules[i].pattern| > 0
  }

  /** The rules applied one after the other, each to the output of the ones
      before it: the loop `for (const [p, r] of rules) result = result.replace(p, r)`
      after its first `|rules|` rounds. */
  function ApplyRules(rules: seq<Rule>, s: string): string
    requires Patterns(rules)
    decreases |rules|
  {
    if rules == [] then s
    else
      var last := rules[|rules| - 1];
      ReplaceAll(ApplyRules(rules[..|rules| - 1], s), last.pattern, last.replacement)
  }

  /** Running two tables is running their concatenation. */
  lemma {:induction false} ApplyRulesConcat(r1: seq<Rule>, r2: seq<Rule>, s: string)
    requires Patterns(r1) && Patterns(r2)
    ensures Patterns(r1 + r2)
    ensures ApplyRules(r1 + r2, s) == ApplyRules(r2, ApplyRules(r1, s))
    decreases |r2|
  {
    assert Patterns(r1 + r2) by {
      forall i | 0 <= i < |r1 + r2| ensures |(r1 + r2)[i].pattern| > 0 {
        if i < |r1| {
          assert (r1 + r2)[i] == r1[i];
        } else {
          assert (r1 + r2)[i] == r2[i - |r1|];
        }
      }
    }
    if r2 == [] {
      assert r1 + r2 == r1;
    } else {
      var front := r2[..|r2| - 1];
      assert (r1 + r2)[..|r1 + r2| - 1] == r1 + front;
      assert (r1 + r2)[|r1 + r2| - 1] == r2[|r2| - 1];
      ApplyRulesConcat(r1, front, s);
    }
  }

  /** Text in which no pattern of the table occurs comes through unchanged. */
  lemma {:induction false} ApplyRulesAbsent(rules: seq<Rule>, s: string)
    requires Patterns(rules)
    requires forall i :: 0 <= i < |rules| ==> !Occurs(s, rules[i].pattern)
    ensures ApplyRules(rules, s) == s
    decreases |rules|
  {
    if rules != [] {
      var front := rules[..|rules| - 1];
      var last := rules[|rules| - 1];
      ApplyRulesAbsent(front, s);
      ReplaceAllAbsent(s, last.pattern, last.replacement);
    }
  }

  /** No character of `w` occurs in any pattern of the table. */
  predicate Untouchable(w: string, rules: seq<Rule>) {
    forall i :: 0 <= i < |rules| ==> Disjoint(w, rules[i].pattern)
  }

  /** A stretch of characters that no pattern contains is never altered by a
      table, and no match is made across it. */
  lemma {:induction false} ApplyRulesKeeps(rules: seq<Rule>, a: string, w: string, b: string)
    requires Patterns(rules) && w != [] && Untouchable(w, rules)
    ensures ApplyRules(rules, a + w + b) == ApplyRules(rules, a) + w + ApplyRules(rules, b)
    decreases |rules|
  {
    if rules != [] {
      var front := rules[..|rules| - 1];
      var last := rules[|rules| - 1];
      ApplyRulesKeeps(front, a, w, b);
      ReplaceAllKeeps(ApplyRules(front, a), w, ApplyRules(front, b), last.pattern, last.replacement);
    }
  }

  /** A word that is the pattern of rule `i`, and in which no earlier pattern
      occurs, becomes that rule's replacement once the table has run, when
      the replacement is made of characters no pattern contains. */
  lemma ApplyRulesWord(rules: seq<Rule>, i: nat, w: string)
    requires Patterns(rules) && i < |rules| && rules[i].pattern == w
    requires forall j :: 0 <= j < i ==> !Occurs(w, rules[j].pattern)
    requires Untouchable(rules[i].replacement, rules)
    ensures ApplyRules(rules, w) == rules[i].replacement
  {
    var before := rules[..i];
    var after := rules[i + 1..];
    var rep := rules[i].replacement;
    assert rules == before + [rules[i]] + after;
    assert Patterns(before) && Patterns([rules[i]]) && Patterns(after);
    ApplyRulesConcat(before, [rules[i]], w);
    ApplyRulesConcat(before + [rules[i]], after, w);
    ApplyRulesAbsent(before, w);
    assert ApplyRules([rules[i]], w) == ReplaceAll(ApplyRules([], w), w, rep);
    ReplaceAllWhole(w, rep);
    UntouchableAll(rules, after, rep);
  }

  /** Rule `i` is the only one that finds anything: the rules before it do
      not occur in the input, and the rules after it do not occur in what
      rule `i` made of it. */
  lemma ApplyRulesOneFires(rules: seq<Rule>, i: nat, w: string, v: string)
    requires Patterns(rules) && i < |rules|
    requires forall j :: 0 <= j < i ==> !Occurs(w, rules[j].pattern)
    requires ReplaceAll(w, rules[i].pattern, rules[i].replacement) == v
    requires forall j :: i < j < |rules| ==> !Occurs(v, rules[j].pattern)
    ensures ApplyRules(rules, w) == v
  {
    var before := rules[..i];
    var after := rules[i + 1..];
    assert rules == before + [rules[i]] + after;
    assert Patterns(before) && Patterns([rules[i]]) && Patterns(after);
    ApplyRulesConcat(before, [rules[i]], w);
    ApplyRulesConcat(before + [rules[i]], after, w);
    ApplyRulesAbsent(before, w);
    assert ApplyRules([rules[i]], w) == ReplaceAll(ApplyRules([], w), rules[i].pattern, rules[i].replacement);
    forall j | 0 <= j < |after| ensures !Occurs(v, after[j].pattern) {
      assert after[j] == rules[i + 1 + j];
    }
    ApplyRulesAbsent(after, v);
  }

  /** A word does not occur in text that lacks one of its characters. */
  lemma CharMissing(w: string, pat: string, j: nat)
    requires j < |pat| && NotIn(pat[j], w)
    ensures !Occurs(w, pat)
  {
    forall d | 0 <= d <= |w| ensures !StartsAt(w, d, pat) {
      if d + |pat| <= |w| {
        assert w[d..d + |pat|][j] == w[d + j];
      }
    }
  }

  /** A word does not occur in text made of characters it does not contain. */
  lemma DisjointAbsent(w: string, pat: string)
    requires |pat| > 0 && Disjoint(w, pat)
    ensures !Occurs(w, pat)
  {
    forall d | 0 <= d <= |w| ensures !StartsAt(w, d, pat) {
      if d + |pat| <= |w| {
        assert w[d..d + |pat|][0] == w[d];
        assert NotIn(w[d], pat);
      }
    }
  }

  /** Text made only of characters no pattern contains is left as it is. */
  lemma UntouchableAll(rules: seq<Rule>, part: seq<Rule>, w: string)
    requires Patterns(part) && Untouchable(w, rules)
    requires forall j :: 0 <= j < |part| ==> part[j] in rules
    ensures ApplyRules(part, w) == w
  {
    forall j | 0 <= j < |part| ensures !Occurs(w, part[j].pattern) {
      var k :| 0 <= k < |rules| && rules[k] == part[j];
      DisjointAbsent(w, rules[k].pattern);
    }
    ApplyRulesAbsent(part, w);
  }

  /** The pattern of the first rule of a well-formed table, when its first
      character appears nowhere else in it, is consumed by that rule before
      any later rule sees its parts: it comes out as the rule's replacement,
      and the text on either side is rewritten on its own. */
  lemma ApplyRulesFirstWord(rules: seq<Rule>, a: string, b: string)
    requires rules != [] && WellFormed(rules)
    requires NotIn(rules[0].pattern[0], rules[0].pattern[1..])
    ensures Patterns(rules)
    ensures ApplyRules(rules, a + rules[0].pattern + b)
      == ApplyRules(rules, a) + rules[0].replacement + ApplyRules(rules, b)
  {
    var first := rules[..1];
    var rest := rules[1..];
    var r := rules[0];
    assert rules == first + rest;
    assert WellFormed(rest) by {
      forall i | 0 <= i < |rest| ensures rest[i] == rules[i + 1] {
      }
    }
    AsciiUntouchable(r.replacement, rest);
    forall x: string ensures ApplyRules(rules, x) == ApplyRules(rest, ReplaceAll(x, r.pattern, r.replacement)) {
      ApplyRulesConcat(first, rest, x);
      assert first[..0] == [];
    }
    ReplaceAllWord(a, r.pattern, b, r.replacement);
    ApplyRulesKeeps(rest, ReplaceAll(a, r.pattern, r.replacement), r.replacement, ReplaceAll(b, r.pattern, r.replacement));
  }

  /** Every replacement is non-empty and holds no placeholder character. */
  predicate MarkFreeReplacements(rules: seq<Rule>) {
    forall i :: 0 <= i < |rules| ==> rules[i].replacement != [] && MarkFree(rules[i].replacement)
  }

  /** A table whose replacements hold no placeholder character creates no
      placeholder body. */
  lemma {:induction false} ApplyRulesNoBody(k: Kind, rules: seq<Rule>, s: string)
    requires Patterns(rules) && MarkFreeReplacements(rules) && NoBody(k, s)
    ensures NoBody(k, ApplyRules(rules, s))
    decreases |rules|
  {
    if rules != [] {
      var front := rules[..|rules| - 1];
      var last := rules[|rules| - 1];
      assert Patterns(front) && MarkFreeReplacements(front) by {
        forall i | 0 <= i < |front| ensures front[i] == rules[i] {
        }
      }
      ApplyRulesNoBody(k, front, s);
      ReplaceAllNoBody(k, ApplyRules(front, s), last.pattern, last.replacement);
    }
  }

  // ---------------------------------------------------------------------
  // The two tables

  predicate AllAscii(w: string) {
    forall j :: 0 <= j < |w| ==> IsAscii(w[j])
  }

  predicate NoAscii(w: string) {
    forall j :: 0 <= j < |w| ==> !IsAscii(w[j])
  }

  /** Every pattern is a non-empty word of non-ASCII characters, and every
      replacement a non-empty run of ASCII characters. */
  predicate WellFormed(rules: seq<Rule>) {
    forall i :: 0 <= i < |rules| ==>
      rules[i].pattern != [] && NoAscii(rules[i].pattern)
      && rules[i].replacement != [] && AllAscii(rules[i].replacement)
  }

  lemma WellFormedConcat(a: seq<Rule>, b: seq<Rule>)
    requires WellFormed(a) && WellFormed(b)
    ensures WellFormed(a + b)
  {
    forall i | 0 <= i < |a + b|
      ensures (a + b)[i].pattern != [] && NoAscii((a + b)[i].pattern)
      ensures (a + b)[i].replacement != [] && AllAscii((a + b)[i].replacement)
    {
      if i < |a| {
        assert (a + b)[i] == a[i];
      } else {
        assert (a + b)[i] == b[i - |a|];
      }
    }
  }

  lemma CompoundWellFormed()
    ensures WellFormed(COMPOUND)
  {
  }

  lemma BasicWellFormed()
    ensures WellFormed(BASIC)
  {
  }

  lemma ClassesWellFormed()
    ensures WellFormed(CLASSES)
  {
  }

  lemma ValuesWellFormed()
    ensures WellFormed(VALUES)
  {
  }

  lemma AsyncExceptionsWellFormed()
    ensures WellFormed(ASYNC) && WellFormed(EXCEPTIONS)
  {
  }

  lemma ModulesWellFormed()
    ensures WellFormed(MODULES)
  {
  }

  lemma OperatorsWellFormed()
    ensures WellFormed(OPERATORS) && WellFormed(BUILTINS)
  {
  }

  lemma TypesWellFormed()
    ensures WellFormed(TYPES)
  {
  }

  /** Both tables rewrite Japanese words to ASCII TypeScript. */
  lemma TablesWellFormed()
    ensures WellFormed(KEYWORDS) && WellFormed(TYPES)
  {
    CompoundWellFormed();
    BasicWellFormed();
    ClassesWellFormed();
    ValuesWellFormed();
    AsyncExceptionsWellFormed();
    ModulesWellFormed();
    OperatorsWellFormed();
    TypesWellFormed();
    WellFormedConcat(COMPOUND, BASIC);
    WellFormedConcat(COMPOUND + BASIC, CLASSES);
    WellFormedConcat(COMPOUND + BASIC + CLASSES, VALUES);
    WellFormedConcat(COMPOUND + BASIC + CLASSES + VALUES, ASYNC);
    WellFormedConcat(COMPOUND + BASIC + CLASSES + VALUES + ASYNC, EXCEPTIONS);
    WellFormedConcat(COMPOUND + BASIC + CLASSES + VALUES + ASYNC + EXCEPTIONS, MODULES);
    WellFormedConcat(COMPOUND + BASIC + CLASSES + VALUES + ASYNC + EXCEPTIONS + MODULES, OPERATORS);
    WellFormedConcat(COMPOUND + BASIC + CLASSES + VALUES + ASYNC + EXCEPTIONS + MODULES + OPERATORS, BUILTINS);
  }

  lemma MarkFreeConcat(a: seq<Rule>, b: seq<Rule>)
    requires MarkFreeReplacements(a) && MarkFreeReplacements(b)
    ensures MarkFreeReplacements(a + b)
  {
    forall i | 0 <= i < |a + b|
      ensures (a + b)[i].replacement != [] && MarkFree((a + b)[i].replacement)
    {
      if i < |a| {
        assert (a + b)[i] == a[i];
      } else {
        assert (a + b)[i] == b[i - |a|];
      }
    }
  }

  lemma KeywordGroupsMarkFree()
    ensures MarkFreeReplacements(COMPOUND) && MarkFreeReplacements(BASIC) && MarkFreeReplacements(CLASSES)
  {
    BasicMarkFree();
    ClassesMarkFree();
  }

  lemma BasicMarkFree()
    ensures MarkFreeReplacements(BASIC)
  {
  }

  lemma ClassesMarkFree()
    ensures MarkFreeReplacements(CLASSES)
  {
  }

  lemma ValueGroupsMarkFree()
    ensures MarkFreeReplacements(VALUES) && MarkFreeReplacements(ASYNC) && MarkFreeReplacements(EXCEPTIONS)
  {
  }

  lemma OperatorGroupsMarkFree()
    ensures MarkFreeReplacements(MODULES) && MarkFreeReplacements(OPERATORS) && MarkFreeReplacements(BUILTINS)
  {
  }

  /** Every replacement in both tables is lower-case TypeScript or an
      operator: none holds a capital letter, a digit or an underscore. */
  lemma TablesMarkFree()
    ensures MarkFreeReplacements(KEYWORDS) && MarkFreeReplacements(TYPES)
  {
    KeywordGroupsMarkFree();
    ValueGroupsMarkFree();
    OperatorGroupsMarkFree();
    MarkFreeConcat(COMPOUND, BASIC);
    MarkFreeConcat(COMPOUND + BASIC, CLASSES);
    MarkFreeConcat(COMPOUND + BASIC + CLASSES, VALUES);
    MarkFreeConcat(COMPOUND + BASIC + CLASSES + VALUES, ASYNC);
    MarkFreeConcat(COMPOUND + BASIC + CLASSES + VALUES + ASYNC, EXCEPTIONS);
    MarkFreeConcat(COMPOUND + BASIC + CLASSES + VALUES + ASYNC + EXCEPTIONS, MODULES);
    MarkFreeConcat(COMPOUND + BASIC + CLASSES + VALUES + ASYNC + EXCEPTIONS + MODULES, OPERATORS);
    MarkFreeConcat(COMPOUND + BASIC + CLASSES + VALUES + ASYNC + EXCEPTIONS + MODULES + OPERATORS, BUILTINS);
  }

  /** ASCII text is out of reach of a well-formed table. */
  lemma AsciiUntouchable(w: string, rules: seq<Rule>)
    requires WellFormed(rules) && AllAscii(w)
    ensures Patterns(rules) && Untouchable(w, rules)
  {
    forall i, k, j | 0 <= i < |rules| && 0 <= k < |w| && 0 <= j < |rules[i].pattern|
      ensures rules[i].pattern[j] != w[k]
    {
      assert !IsAscii(rules[i].pattern[j]) && IsAscii(w[k]);
    }
  }

  /** ASCII text comes through a well-formed table unchanged. */
  lemma AsciiUnchanged(rules: seq<Rule>, w: string)
    requires WellFormed(rules) && AllAscii(w)
    ensures Patterns(rules) && ApplyRules(rules, w) == w
  {
    AsciiUntouchable(w, rules);
    UntouchableAll(rules, rules, w);
  }

  /** Running `KEYWORDS` is running its groups one after the other. */
  lemma KeywordsByGroup(w: string)
    ensures Patterns(KEYWORDS)
    ensures ApplyRules(KEYWORDS, w)
      == ApplyRules(BUILTINS, ApplyRules(OPERATORS, ApplyRules(MODULES, ApplyRules(EXCEPTIONS,
           ApplyRules(ASYNC, ApplyRules(VALUES, ApplyRules(CLASSES, ApplyRules(BASIC,
           ApplyRules(COMPOUND, w)))))))))
  {
    TablesWellFormed();
    CompoundWellFormed();
    BasicWellFormed();
    ClassesWellFormed();
    ValuesWellFormed();
    AsyncExceptionsWellFormed();
    ModulesWellFormed();
    OperatorsWellFormed();
    var g1 := COMPOUND + BASIC;
    var g2 := g1 + CLASSES;
    var g3 := g2 + VALUES;
    var g4 := g3 + ASYNC;
    var g5 := g4 + EXCEPTIONS;
    var g6 := g5 + MODULES;
    var g7 := g6 + OPERATORS;
    WellFormedConcat(COMPOUND, BASIC);
    WellFormedConcat(g1, CLASSES);
    WellFormedConcat(g2, VALUES);
    WellFormedConcat(g3, ASYNC);
    WellFormedConcat(g4, EXCEPTIONS);
    WellFormedConcat(g5, MODULES);
    WellFormedConcat(g6, OPERATORS);
    ApplyRulesConcat(COMPOUND, BASIC, w);
    ApplyRulesConcat(g1, CLASSES, w);
    ApplyRulesConcat(g2, VALUES, w);
    ApplyRulesConcat(g3, ASYNC, w);
    ApplyRulesConcat(g4, EXCEPTIONS, w);
    ApplyRulesConcat(g5, MODULES, w);
    ApplyRulesConcat(g6, OPERATORS, w);
    ApplyRulesConcat(g7, BUILTINS, w);
  }

  /** Every pattern of `rules` is longer than `w`, or as long as `w` but a
      different word, or begins with a character `w` does not contain. */
  predicate Unreached(w: string, rules: seq<Rule>) {
    forall i :: 0 <= i < |rules| ==>
      rules[i].pattern != []
      && (|rules[i].pattern| > |w| || (|rules[i].pattern| == |w| && rules[i].pattern != w)
          || NotIn(rules[i].pattern[0], w))
  }

  /** No pattern that cannot reach a word occurs in it. */
  lemma UnreachedAbsent(w: string, rules: seq<Rule>)
    requires Unreached(w, rules)
    ensures forall i :: 0 <= i < |rules| ==> !Occurs(w, rules[i].pattern)
  {
    forall i, d | 0 <= i < |rules| && 0 <= d <= |w| ensures !StartsAt(w, d, rules[i].pattern) {
      var pat := rules[i].pattern;
      assert pat != [] && (|pat| > |w| || (|pat| == |w| && pat != w) || NotIn(pat[0], w));
      if d + |pat| <= |w| {
        assert w[d..d + |pat|][0] == w[d];
        if |pat| == |w| {
          assert w[d..d + |pat|] == w;
        }
      }
    }
  }

  /** A table leaves alone a word that none of its patterns can reach. */
  lemma UnreachedUnchanged(w: string, rules: seq<Rule>)
    requires Unreached(w, rules)
    ensures Patterns(rules) && ApplyRules(rules, w) == w
  {
    UnreachedAbsent(w, rules);
    ApplyRulesAbsent(rules, w);
  }

  /** Every pattern of `rules` begins with a character of `f`. */
  predicate FirstsIn(rules: seq<Rule>, f: set<char>) {
    forall i :: 0 <= i < |rules| ==> rules[i].pattern != [] && rules[i].pattern[0] in f
  }

  /** No character of `w` is in `f`. */
  predicate Avoids(w: string, f: set<char>) {
    forall j :: 0 <= j < |w| ==> w[j] !in f
  }

  // The first characters of the patterns of each group: a word containing
  // none of them is out of the group's reach (`AvoidsUnchanged`).
  const COMPOUND_FIRSTS: set<char> := {'そ', 'の'}
  const BASIC_FIRSTS: set<char> := {'関', '定', '変', 'も', '繰', '各', '間', '戻', '抜', '続'}
  const CLASSES_FIRSTS: set<char> := {'ク', '拡', '実', '構', '自', '新', '静', '公', '非', '保'}
  const VALUES_FIRSTS: set<char> := {'真', '偽', '無', '未'}
  const ASYNC_FIRSTS: set<char> := {'非', '待'}
  const EXCEPTIONS_FIRSTS: set<char> := {'試', '捕', '最', '投'}
  const MODULES_FIRSTS: set<char> := {'型', '接', '出', '入', 'か', 'と', '既'}
  const OPERATORS_FIRSTS: set<char> := {'か', 'ま', 'で'}
  const BUILTINS_FIRSTS: set<char> := {'表'}
  const TYPES_FIRSTS: set<char> := {'文', '数', '真', '無', '何', '不', '絶', '物'}

  /** A table leaves alone a word that contains no first character of any
      of its patterns. */
  lemma AvoidsUnchanged(rules: seq<Rule>, f: set<char>, w: string)
    requires FirstsIn(rules, f) && Avoids(w, f)
    ensures Patterns(rules) && ApplyRules(rules, w) == w
  {
    forall i | 0 <= i < |rules| ensures NotIn(rules[i].pattern[0], w) {
      assert rules[i].pattern[0] in f;
    }
    UnreachedUnchanged(w, rules);
  }

  lemma CompoundSkips(w: string)
    requires Avoids(w, COMPOUND_FIRSTS)
    ensures Patterns(COMPOUND) && ApplyRules(COMPOUND, w) == w
  {
    AvoidsUnchanged(COMPOUND, COMPOUND_FIRSTS, w);
  }

  lemma BasicSkips(w: string)
    requires Avoids(w, BASIC_FIRSTS)
    ensures Patterns(BASIC) && ApplyRules(BASIC, w) == w
  {
    AvoidsUnchanged(BASIC, BASIC_FIRSTS, w);
  }

  lemma ClassesSkips(w: string)
    requires Avoids(w, CLASSES_FIRSTS)
    ensures Patterns(CLASSES) && ApplyRules(CLASSES, w) == w
  {
    AvoidsUnchanged(CLASSES, CLASSES_FIRSTS, w);
  }

  lemma ValuesSkips(w: string)
    requires Avoids(w, VALUES_FIRSTS)
    ensures Patterns(VALUES) && ApplyRules(VALUES, w) == w
  {
    AvoidsUnchanged(VALUES, VALUES_FIRSTS, w);
  }

  lemma AsyncSkips(w: string)
    requires Avoids(w, ASYNC_FIRSTS)
    ensures Patterns(ASYNC) && ApplyRules(ASYNC, w) == w
  {
    AvoidsUnchanged(ASYNC, ASYNC_FIRSTS, w);
  }

  lemma ExceptionsSkips(w: string)
    requires Avoids(w, EXCEPTIONS_FIRSTS)
    ensures Patterns(EXCEPTIONS) && ApplyRules(EXCEPTIONS, w) == w
  {
    AvoidsUnchanged(EXCEPTIONS, EXCEPTIONS_FIRSTS, w);
  }

  lemma ModulesSkips(w: string)
    requires Avoids(w, MODULES_FIRSTS)
    ensures Patterns(MODULES) && ApplyRules(MODULES, w) == w
  {
    AvoidsUnchanged(MODULES, MODULES_FIRSTS, w);
  }

  lemma OperatorsSkips(w: string)
    requires Avoids(w, OPERATORS_FIRSTS)
    ensures Patterns(OPERATORS) && ApplyRules(OPERATORS, w) == w
  {
    AvoidsUnchanged(OPERATORS, OPERATORS_FIRSTS, w);
  }

  lemma BuiltinsSkips(w: string)
    requires Avoids(w, BUILTINS_FIRSTS)
    ensures Patterns(BUILTINS) && ApplyRules(BUILTINS, w) == w
  {
    AvoidsUnchanged(BUILTINS, BUILTINS_FIRSTS, w);
  }

  lemma TypesSkips(w: string)
    requires Avoids(w, TYPES_FIRSTS)
    ensures Patterns(TYPES) && ApplyRules(TYPES, w) == w
  {
    AvoidsUnchanged(TYPES, TYPES_FIRSTS, w);
  }

  /** ASCII text comes through every group after `BASIC` unchanged. */
  lemma AsciiAfterBasic(w: string)
    requires AllAscii(w)
    ensures Patterns(CLASSES) && Patterns(VALUES) && Patterns(ASYNC) && Patterns(EXCEPTIONS)
    ensures Patterns(MODULES) && Patterns(OPERATORS) && Patterns(BUILTINS)
    ensures ApplyRules(CLASSES, w) == w && ApplyRules(VALUES, w) == w && ApplyRules(ASYNC, w) == w
    ensures ApplyRules(EXCEPTIONS, w) == w && ApplyRules(MODULES, w) == w
    ensures ApplyRules(OPERATORS, w) == w && ApplyRules(BUILTINS, w) == w
  {
    ClassesWellFormed();
    ValuesWellFormed();
    AsyncExceptionsWellFormed();
    ModulesWellFormed();
    OperatorsWellFormed();
    AsciiUnchanged(CLASSES, w);
    AsciiUnchanged(VALUES, w);
    AsciiUnchanged(ASYNC, w);
    AsciiUnchanged(EXCEPTIONS, w);
    AsciiUnchanged(MODULES, w);
    AsciiUnchanged(OPERATORS, w);
    AsciiUnchanged(BUILTINS, w);
  }

  /** A word followed through the groups of `KEYWORDS`, one group at a time. */
  lemma KeywordsChain(w: string, w1: string, w2: string, w3: string, w4: string, w5: string,
                      w6: string, w7: string, w8: string, out: string)
    requires Patterns(COMPOUND) && Patterns(BASIC) && Patterns(CLASSES) && Patterns(VALUES)
    requires Patterns(ASYNC) && Patterns(EXCEPTIONS) && Patterns(MODULES) && Patterns(OPERATORS)
    requires Patterns(BUILTINS)
    requires ApplyRules(COMPOUND, w) == w1 && ApplyRules(BASIC, w1) == w2
    requires ApplyRules(CLASSES, w2) == w3 && ApplyRules(VALUES, w3) == w4
    requires ApplyRules(ASYNC, w4) == w5 && ApplyRules(EXCEPTIONS, w5) == w6
    requires ApplyRules(MODULES, w6) == w7 && ApplyRules(OPERATORS, w7) == w8
    requires ApplyRules(BUILTINS, w8) == out
    ensures Patterns(KEYWORDS) && ApplyRules(KEYWORDS, w) == out
  {
    KeywordsByGroup(w);
  }

  /** A word in which no pattern of `KEYWORDS` can start. */
  lemma KeywordsSkip(w: string)
    requires Avoids(w, COMPOUND_FIRSTS) && Avoids(w, BASIC_FIRSTS) && Avoids(w, CLASSES_FIRSTS)
    requires Avoids(w, VALUES_FIRSTS) && Avoids(w, ASYNC_FIRSTS) && Avoids(w, EXCEPTIONS_FIRSTS)
    requires Avoids(w, MODULES_FIRSTS) && Avoids(w, OPERATORS_FIRSTS) && Avoids(w, BUILTINS_FIRSTS)
    ensures Patterns(KEYWORDS) && ApplyRules(KEYWORDS, w) == w
  {
    CompoundSkips(w);
    BasicSkips(w);
    ClassesSkips(w);
    ValuesSkips(w);
    AsyncSkips(w);
    ExceptionsSkips(w);
    ModulesSkips(w);
    OperatorsSkips(w);
    BuiltinsSkips(w);
    KeywordsChain(w, w, w, w, w, w, w, w, w, w);
  }

  /** A word that is the pattern of rule `i` of `BASIC`, and that neither
      the compound keywords nor the earlier rules of `BASIC` reach, comes out
      of `KEYWORDS` as that rule's replacement. */
  lemma KeywordsViaBasic(w: string, i: nat)
    requires i < |BASIC| && BASIC[i].pattern == w
    requires Avoids(w, COMPOUND_FIRSTS) && Unreached(w, BASIC[..i])
    ensures Patterns(KEYWORDS) && ApplyRules(KEYWORDS, w) == BASIC[i].replacement
  {
    var out := BASIC[i].replacement;
    BasicWellFormed();
    AsciiUntouchable(out, BASIC);
    UnreachedAbsent(w, BASIC[..i]);
    assert forall j :: 0 <= j < i ==> BASIC[..i][j] == BASIC[j];
    ApplyRulesWord(BASIC, i, w);
    CompoundSkips(w);
    AsciiAfterBasic(out);
    KeywordsChain(w, w, out, out, out, out, out, out, out, out);
  }

  /** `MODULES` leaves alone a two-character word other than `から` that
      contains no other first character of its patterns. */
  lemma ModulesSkipPair(w: string)
    requires |w| == 2 && w != "から" && Avoids(w, {'型', '接', '出', '入', 'と', '既'})
    ensures Patterns(MODULES) && ApplyRules(MODULES, w) == w
  {
    var f: set<char> := {'型', '接', '出', '入', 'と', '既'};
    ModulesShape();
    forall i | 0 <= i < |MODULES|
      ensures MODULES[i].pattern != []
      ensures (|MODULES[i].pattern| == |w| && MODULES[i].pattern != w) || NotIn(MODULES[i].pattern[0], w)
    {
      if i != 4 {
        var c := MODULES[i].pattern[0];
        assert c in f;
        forall j | 0 <= j < |w| ensures w[j] != c {
          assert w[j] !in f;
        }
      }
    }
    UnreachedUnchanged(w, MODULES);
  }

  /** `から` is the one pattern of `MODULES` whose first character is shared
      with `OPERATORS`. */
  lemma ModulesShape()
    ensures |MODULES| == 7 && MODULES[4].pattern == "から"
    ensures forall i :: 0 <= i < |MODULES| ==> MODULES[i].pattern != []
    ensures forall i :: 0 <= i < |MODULES| && i != 4 ==> MODULES[i].pattern[0] in {'型', '接', '出', '入', 'と', '既'}
  {
  }

  /** The groups before `OPERATORS` leave alone a two-character word other
      than `から` that contains none of their first characters but `か`. */
  lemma BeforeOperatorsSkip(w: string)
    requires |w| == 2 && w != "から"
    requires Avoids(w, COMPOUND_FIRSTS) && Avoids(w, BASIC_FIRSTS) && Avoids(w, CLASSES_FIRSTS)
    requires Avoids(w, VALUES_FIRSTS) && Avoids(w, ASYNC_FIRSTS) && Avoids(w, EXCEPTIONS_FIRSTS)
    requires Avoids(w, {'型', '接', '出', '入', 'と', '既'})
    ensures Patterns(COMPOUND) && Patterns(BASIC) && Patterns(CLASSES) && Patterns(VALUES)
    ensures Patterns(ASYNC) && Patterns(EXCEPTIONS) && Patterns(MODULES)
    ensures ApplyRules(COMPOUND, w) == w && ApplyRules(BASIC, w) == w && ApplyRules(CLASSES, w) == w
    ensures ApplyRules(VALUES, w) == w && ApplyRules(ASYNC, w) == w && ApplyRules(EXCEPTIONS, w) == w
    ensures ApplyRules(MODULES, w) == w
  {
    CompoundSkips(w);
    BasicSkips(w);
    ClassesSkips(w);
    ValuesSkips(w);
    AsyncSkips(w);
    ExceptionsSkips(w);
    ModulesSkipPair(w);
  }

  /** The pattern of the first rule of `OPERATORS` comes out of that group
      as the rule's replacement, which is ASCII. */
  lemma OperatorsFirstWord(w: string)
    requires OPERATORS[0].pattern == w
    ensures Patterns(OPERATORS) && ApplyRules(OPERATORS, w) == OPERATORS[0].replacement
    ensures AllAscii(OPERATORS[0].replacement)
  {
    OperatorsWellFormed();
    AsciiUntouchable(OPERATORS[0].replacement, OPERATORS);
    ApplyRulesWord(OPERATORS, 0, w);
  }

  /** A two-character word that is the pattern of the first rule of
      `OPERATORS`, and that no earlier rule reaches, comes out of `KEYWORDS`
      as that rule's replacement. */
  lemma KeywordsViaOperators(w: string)
    requires OPERATORS[0].pattern == w && |w| == 2 && w != "から"
    requires Avoids(w, COMPOUND_FIRSTS) && Avoids(w, BASIC_FIRSTS) && Avoids(w, CLASSES_FIRSTS)
    requires Avoids(w, VALUES_FIRSTS) && Avoids(w, ASYNC_FIRSTS) && Avoids(w, EXCEPTIONS_FIRSTS)
    requires Avoids(w, {'型', '接', '出', '入', 'と', '既'})
    ensures Patterns(KEYWORDS) && ApplyRules(KEYWORDS, w) == OPERATORS[0].replacement
  {
    var out := OPERATORS[0].replacement;
    BeforeOperatorsSkip(w);
    OperatorsFirstWord(w);
    OperatorsWellFormed();
    AsciiUnchanged(BUILTINS, out);
    KeywordsChain(w, w, w, w, w, w, w, w, out, out);
  }

  /** A word that is the pattern of the `BUILTINS` rule, and that no earlier
      rule reaches, comes out of `KEYWORDS` as its replacement. */
  lemma KeywordsViaBuiltins(w: string)
    requires BUILTINS[0].pattern == w
    requires Avoids(w, COMPOUND_FIRSTS) && Avoids(w, BASIC_FIRSTS) && Avoids(w, CLASSES_FIRSTS)
    requires Avoids(w, VALUES_FIRSTS) && Avoids(w, ASYNC_FIRSTS) && Avoids(w, EXCEPTIONS_FIRSTS)
    requires Avoids(w, MODULES_FIRSTS) && Avoids(w, OPERATORS_FIRSTS)
    ensures Patterns(KEYWORDS) && ApplyRules(KEYWORDS, w) == BUILTINS[0].replacement
  {
    var out := BUILTINS[0].replacement;
    OperatorsWellFormed();
    AsciiUntouchable(out, BUILTINS);
    ApplyRulesWord(BUILTINS, 0, w);
    CompoundSkips(w);
    BasicSkips(w);
    ClassesSkips(w);
    ValuesSkips(w);
    AsyncSkips(w);
    ExceptionsSkips(w);
    ModulesSkips(w);
    OperatorsSkips(w);
    KeywordsChain(w, w, w, w, w, w, w, w, w, out);
  }

  lemma ConstWord()
    ensures Patterns(KEYWORDS) && ApplyRules(KEYWORDS, "定数") == "const"
  {
    KeywordsViaBasic("定数", 1);
  }

  lemma IfWord()
    ensures Patterns(KEYWORDS) && ApplyRules(KEYWORDS, "もし") == "if"
  {
    KeywordsViaBasic("もし", 3);
  }

  lemma AndWord()
    ensures Patterns(KEYWORDS) && ApplyRules(KEYWORDS, "かつ") == "&&"
  {
    KeywordsViaOperators("かつ");
  }

  lemma PrintWord()
    ensures Patterns(KEYWORDS) && ApplyRules(KEYWORDS, "表示") == "console.log"
  {
    KeywordsViaBuiltins("表示");
  }

  /** `文字列` is no keyword, and the type table turns it into `string`. */
  lemma StringTypeWord()
    ensures Patterns(KEYWORDS) && ApplyRules(KEYWORDS, "文字列") == "文字列"
    ensures Patterns(TYPES) && ApplyRules(TYPES, "文字列") == "string"
  {
    KeywordsSkip("文字列");
    TypesWellFormed();
    AsciiUntouchable("string", TYPES);
    ApplyRulesWord(TYPES, 0, "文字列");
  }

  /** `そうでなければもし` is consumed whole, before `そうでなければ` and
      `もし` can take it apart: it becomes `else if`, never `else` followed
      by `if`, and what stands on either side is rewritten on its own. */
  lemma ElseIfCompound(a: string, b: string)
    ensures Patterns(KEYWORDS)
    ensures ApplyRules(KEYWORDS, a + "そうでなければもし" + b)
      == ApplyRules(KEYWORDS, a) + "else if" + ApplyRules(KEYWORDS, b)
  {
    TablesWellFormed();
    assert KEYWORDS[0] == Rule("そうでなければもし", "else if");
    ApplyRulesFirstWord(KEYWORDS, a, b);
  }

  /** The first two groups leave alone a word that avoids their first
      characters. */
  lemma FrontSkip(w: string)
    requires Avoids(w, COMPOUND_FIRSTS) && Avoids(w, BASIC_FIRSTS)
    ensures Patterns(COMPOUND) && ApplyRules(COMPOUND, w) == w
    ensures Patterns(BASIC) && ApplyRules(BASIC, w) == w
  {
    CompoundSkips(w);
    BasicSkips(w);
  }

  /** The last four groups of `KEYWORDS`, and `TYPES`, leave alone a word
      that avoids their first characters. */
  lemma BackSkip(v: string)
    requires Avoids(v, EXCEPTIONS_FIRSTS) && Avoids(v, MODULES_FIRSTS) && Avoids(v, OPERATORS_FIRSTS)
    requires Avoids(v, BUILTINS_FIRSTS) && Avoids(v, TYPES_FIRSTS)
    ensures Patterns(EXCEPTIONS) && ApplyRules(EXCEPTIONS, v) == v
    ensures Patterns(MODULES) && ApplyRules(MODULES, v) == v
    ensures Patterns(OPERATORS) && ApplyRules(OPERATORS, v) == v
    ensures Patterns(BUILTINS) && ApplyRules(BUILTINS, v) == v
    ensures Patterns(TYPES) && ApplyRules(TYPES, v) == v
  {
    ExceptionsSkips(v);
    ModulesSkips(v);
    OperatorsSkips(v);
    BuiltinsSkips(v);
    TypesSkips(v);
  }

  /** A word that only `CLASSES` and nothing after it changes, followed
      through both tables. */
  lemma KeywordsViaClasses(w: string, v: string)
    requires Avoids(w, COMPOUND_FIRSTS) && Avoids(w, BASIC_FIRSTS)
    requires Patterns(CLASSES) && ApplyRules(CLASSES, w) == v
    requires Avoids(v, VALUES_FIRSTS) && Patterns(ASYNC) && ApplyRules(ASYNC, v) == v
    requires Avoids(v, EXCEPTIONS_FIRSTS) && Avoids(v, MODULES_FIRSTS) && Avoids(v, OPERATORS_FIRSTS)
    requires Avoids(v, BUILTINS_FIRSTS) && Avoids(v, TYPES_FIRSTS)
    ensures Patterns(KEYWORDS) && ApplyRules(KEYWORDS, w) == v
    ensures Patterns(TYPES) && ApplyRules(TYPES, v) == v
  {
    FrontSkip(w);
    ValuesSkips(v);
    BackSkip(v);
    KeywordsChain(w, w, w, v, v, v, v, v, v, v);
  }

  /** A word that only `VALUES` and nothing after it changes, followed
      through both tables. */
  lemma KeywordsViaValues(w: string, v: string)
    requires Avoids(w, COMPOUND_FIRSTS) && Avoids(w, BASIC_FIRSTS) && Avoids(w, CLASSES_FIRSTS)
    requires Patterns(VALUES) && ApplyRules(VALUES, w) == v
    requires Avoids(v, ASYNC_FIRSTS)
    requires Avoids(v, EXCEPTIONS_FIRSTS) && Avoids(v, MODULES_FIRSTS) && Avoids(v, OPERATORS_FIRSTS)
    requires Avoids(v, BUILTINS_FIRSTS) && Avoids(v, TYPES_FIRSTS)
    ensures Patterns(KEYWORDS) && ApplyRules(KEYWORDS, w) == v
    ensures Patterns(TYPES) && ApplyRules(TYPES, v) == v
  {
    FrontSkip(w);
    ClassesSkips(w);
    AsyncSkips(v);
    BackSkip(v);
    KeywordsChain(w, w, w, w, v, v, v, v, v, v);
  }

  /** The rules of `CLASSES` before `公開` cannot reach `非公開`. */
  lemma ClassesBeforePublic()
    ensures forall j :: 0 <= j < 7 ==> !Occurs("非公開", CLASSES[j].pattern)
  {
    assert Unreached("非公開", CLASSES[..7]);
    UnreachedAbsent("非公開", CLASSES[..7]);
    assert forall j :: 0 <= j < 7 ==> CLASSES[..7][j] == CLASSES[j];
  }

  /** `公開` (rule 7 of `CLASSES`) fires inside `非公開` before rule 8,
      whose pattern is `非公開`, gets to it. */
  lemma ClassesPrivate()
    ensures Patterns(CLASSES) && ApplyRules(CLASSES, "非公開") == "非public"
  {
    ClassesWellFormed();
    ClassesBeforePublic();
    assert "非公開" == "非" + "公開" + "";
    ReplaceAllWord("非", "公開", "", "public");
    assert ReplaceAll("非", "公開", "public") == "非";
    assert "非" + "public" + "" == "非public";
    CharMissing("非public", CLASSES[8].pattern, 1);
    CharMissing("非public", CLASSES[9].pattern, 0);
    ApplyRulesOneFires(CLASSES, 7, "非公開", "非public");
  }

  /** Compound-before-part ordering is not kept throughout the table:
      `非公開` comes out of `KEYWORDS` as `非public`, not as `private`, and
      the type table leaves that alone. */
  lemma PrivateSplit()
    ensures Patterns(KEYWORDS) && ApplyRules(KEYWORDS, "非公開") == "非public"
    ensures Patterns(TYPES) && ApplyRules(TYPES, "非public") == "非public"
  {
    PrivateAvoids();
    ClassesPrivate();
    AsyncKeepsPrivate();
    KeywordsViaClasses("非公開", "非public");
  }

  /** Which groups' first characters `非公開` and `非public` avoid. */
  lemma PrivateAvoids()
    ensures Avoids("非公開", COMPOUND_FIRSTS) && Avoids("非公開", BASIC_FIRSTS)
    ensures Avoids("非public", VALUES_FIRSTS) && Avoids("非public", EXCEPTIONS_FIRSTS)
    ensures Avoids("非public", MODULES_FIRSTS) && Avoids("非public", OPERATORS_FIRSTS)
    ensures Avoids("非public", BUILTINS_FIRSTS) && Avoids("非public", TYPES_FIRSTS)
  {
  }

  /** `ASYNC` leaves `非public` alone, though `非同期` starts with `非`. */
  lemma AsyncKeepsPrivate()
    ensures Patterns(ASYNC) && ApplyRules(ASYNC, "非public") == "非public"
  {
    AsyncExceptionsWellFormed();
    CharMissing("非public", ASYNC[0].pattern, 1);
    CharMissing("非public", ASYNC[1].pattern, 0);
    ApplyRulesAbsent(ASYNC, "非public");
  }

  /** `無` (rule 2 of `VALUES`) fires inside `無効`. */
  lemma ValuesVoid()
    ensures Patterns(VALUES) && ApplyRules(VALUES, "無効") == "null効"
  {
    ValuesWellFormed();
    CharMissing("無効", VALUES[0].pattern, 0);
    CharMissing("無効", VALUES[1].pattern, 0);
    assert "無効" == "" + "無" + "効";
    ReplaceAllWord("", "無", "効", "null");
    assert ReplaceAll("", "無", "null") == "";
    assert ReplaceAll("効", "無", "null") == "効";
    assert "" + "null" + "効" == "null効";
    CharMissing("null効", VALUES[3].pattern, 0);
    ApplyRulesOneFires(VALUES, 2, "無効", "null効");
  }

  /** All of `KEYWORDS` runs before any rule of `TYPES`: `無効`, which the
      type table would turn into `void`, has lost its `無` to `null` by then,
      and comes out as `null効`. */
  lemma VoidShadowed()
    ensures Patterns(KEYWORDS) && ApplyRules(KEYWORDS, "無効") == "null効"
    ensures Patterns(TYPES) && ApplyRules(TYPES, "null効") == "null効"
  {
    VoidAvoids();
    ValuesVoid();
    KeywordsViaValues("無効", "null効");
  }

  /** Which groups' first characters `無効` and `null効` avoid. */
  lemma VoidAvoids()
    ensures Avoids("無効", COMPOUND_FIRSTS) && Avoids("無効", BASIC_FIRSTS) && Avoids("無効", CLASSES_FIRSTS)
    ensures Avoids("null効", ASYNC_FIRSTS) && Avoids("null効", EXCEPTIONS_FIRSTS)
    ensures Avoids("null効", MODULES_FIRSTS) && Avoids("null効", OPERATORS_FIRSTS)
    ensures Avoids("null効", BUILTINS_FIRSTS) && Avoids("null効", TYPES_FIRSTS)
  {
  }

  /** `真` and `偽` (rules 0 and 1 of `VALUES`) both fire inside `真偽値`. */
  lemma ValuesBoolean()
    ensures Patterns(VALUES) && ApplyRules(VALUES, "真偽値") == "truefalse値"
  {
    ValuesWellFormed();
    assert VALUES == VALUES[..2] + VALUES[2..];
    ValuesFrontBoolean();
    ValuesBackBoolean();
    ApplyRulesConcat(VALUES[..2], VALUES[2..], "真偽値");
  }

  lemma ValuesFrontBoolean()
    ensures Patterns(VALUES[..2]) && ApplyRules(VALUES[..2], "真偽値") == "truefalse値"
  {
    var front := VALUES[..2];
    assert front == [Rule("真", "true"), Rule("偽", "false")];
    TrueFires();
    FalseFires();
    assert front[..1] == [Rule("真", "true")];
    assert ApplyRules(front[..1], "真偽値") == "true偽値";
  }

  lemma ValuesBackBoolean()
    ensures Patterns(VALUES[2..]) && ApplyRules(VALUES[2..], "truefalse値") == "truefalse値"
  {
    var back := VALUES[2..];
    ValuesWellFormed();
    assert |back| == 2 && back[0] == VALUES[2] && back[1] == VALUES[3];
    CharMissing("truefalse値", back[0].pattern, 0);
    CharMissing("truefalse値", back[1].pattern, 0);
    ApplyRulesAbsent(back, "truefalse値");
  }

  lemma TrueFires()
    ensures ReplaceAll("真偽値", "真", "true") == "true偽値"
  {
    assert "真偽値" == "" + "真" + "偽値";
    ReplaceAllWord("", "真", "偽値", "true");
    CharMissing("偽値", "真", 0);
    ReplaceAllAbsent("偽値", "真", "true");
    assert ReplaceAll("", "真", "true") == "";
    assert "" + "true" + "偽値" == "true偽値";
  }

  lemma FalseFires()
    ensures ReplaceAll("true偽値", "偽", "false") == "truefalse値"
  {
    assert "true偽値" == "true" + "偽" + "値";
    ReplaceAllWord("true", "偽", "値", "false");
    CharMissing("true", "偽", 0);
    ReplaceAllAbsent("true", "偽", "false");
    CharMissing("値", "偽", 0);
    ReplaceAllAbsent("値", "偽", "false");
    assert "true" + "false" + "値" == "truefalse値";
  }

  /** `真偽値`, which the type table would turn into `boolean`, has lost its
      `真` and `偽` to `true` and `false` by then, and comes out as
      `truefalse値`. */
  lemma BooleanShadowed()
    ensures Patterns(KEYWORDS) && ApplyRules(KEYWORDS, "真偽値") == "truefalse値"
    ensures Patterns(TYPES) && ApplyRules(TYPES, "truefalse値") == "truefalse値"
  {
    BooleanAvoids();
    ValuesBoolean();
    KeywordsViaValues("真偽値", "truefalse値");
  }

  /** Which groups' first characters `真偽値` and `truefalse値` avoid. */
  lemma BooleanAvoids()
    ensures Avoids("真偽値", COMPOUND_FIRSTS) && Avoids("真偽値", BASIC_FIRSTS) && Avoids("真偽値", CLASSES_FIRSTS)
    ensures Avoids("truefalse値", ASYNC_FIRSTS) && Avoids("truefalse値", EXCEPTIONS_FIRSTS)
    ensures Avoids("truefalse値", MODULES_FIRSTS) && Avoids("truefalse値", OPERATORS_FIRSTS)
    ensures Avoids("truefalse値", BUILTINS_FIRSTS) && Avoids("truefalse値", TYPES_FIRSTS)
  {
  }

  /** `無` (rule 2 of `VALUES`) fires inside `絶対無`. */
  lemma ValuesNever()
    ensures Patterns(VALUES) && ApplyRules(VALUES, "絶対無") == "絶対null"
  {
    ValuesWellFormed();
    CharMissing("絶対無", VALUES[0].pattern, 0);
    CharMissing("絶対無", VALUES[1].pattern, 0);
    assert "絶対無" == "絶対" + "無" + "";
    ReplaceAllWord("絶対", "無", "", "null");
    CharMissing("絶対", "無", 0);
    ReplaceAllAbsent("絶対", "無", "null");
    assert ReplaceAll("", "無", "null") == "";
    assert "絶対" + "null" + "" == "絶対null";
    CharMissing("絶対null", VALUES[3].pattern, 0);
    ApplyRulesOneFires(VALUES, 2, "絶対無", "絶対null");
  }

  /** `TYPES` leaves `絶対null` alone: its rule for `絶対無` needs the `無`. */
  lemma TypesKeepNeverNull()
    ensures Patterns(TYPES) && ApplyRules(TYPES, "絶対null") == "絶対null"
  {
    TypesWellFormed();
    forall i | 0 <= i < |TYPES| ensures !Occurs("絶対null", TYPES[i].pattern) {
      if i == 6 {
        CharMissing("絶対null", TYPES[i].pattern, 2);
      } else {
        CharMissing("絶対null", TYPES[i].pattern, 0);
      }
    }
    ApplyRulesAbsent(TYPES, "絶対null");
  }

  /** `絶対無`, which the type table would turn into `never`, has lost its
      `無` to `null` by then, and comes out as `絶対null`. */
  lemma NeverShadowed()
    ensures Patterns(KEYWORDS) && ApplyRules(KEYWORDS, "絶対無") == "絶対null"
    ensures Patterns(TYPES) && ApplyRules(TYPES, "絶対null") == "絶対null"
  {
    var v := "絶対null";
    NeverAvoids();
    FrontSkip("絶対無");
    ClassesSkips("絶対無");
    ValuesNever();
    AsyncSkips(v);
    ExceptionsSkips(v);
    ModulesSkips(v);
    OperatorsSkips(v);
    BuiltinsSkips(v);
    KeywordsChain("絶対無", "絶対無", "絶対無", "絶対無", v, v, v, v, v, v);
    TypesKeepNeverNull();
  }

  /** Which groups' first characters `絶対無` and `絶対null` avoid. */
  lemma NeverAvoids()
    ensures Avoids("絶対無", COMPOUND_FIRSTS) && Avoids("絶対無", BASIC_FIRSTS) && Avoids("絶対無", CLASSES_FIRSTS)
    ensures Avoids("絶対null", ASYNC_FIRSTS) && Avoids("絶対null", EXCEPTIONS_FIRSTS)
    ensures Avoids("絶対null", MODULES_FIRSTS) && Avoids("絶対null", OPERATORS_FIRSTS)
    ensures Avoids("絶対null", BUILTINS_FIRSTS)
  {
  }
}
