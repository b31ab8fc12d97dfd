/** Whole sources through `transform`, worked out from the model. */
module Examples {
  import opened Text
  import opened Placeholders
  import opened Scanners
  import opened Masking
  import opened Rules
  import opened Transformer

  /** `定数 x = 1;` becomes `const x = 1;`. */
  lemma ConstDeclaration()
    ensures Transformed("定数 x = 1;") == "const x = 1;"
  {
    ConstDeclarationRewrite();
    NoCapitalsNoBody(Str, "定数 x = 1;");
    NoCapitalsNoBody(Comment, "定数 x = 1;");
    PlainTransformed("定数 x = 1;");
  }

  lemma ConstDeclarationRewrite()
    ensures Rewrite("定数 x = 1;") == "const x = 1;"
  {
    assert "定数 x = 1;" == "定数" + " x = 1;" + "";
    RewriteKeepsAscii("定数", " x = 1;", "");
    RewriteAscii("");
    ConstWord();
    RewriteKeyword("定数", "const");
  }

  /** `もし (a かつ b) { 表示(a); }` becomes `if (a && b) { console.log(a); }`. */
  lemma IfStatement()
    ensures Transformed("もし (a かつ b) { 表示(a); }") == "if (a && b) { console.log(a); }"
  {
    IfStatementRewrite();
    IfStatementPlain();
    NoCapitalsNoBody(Str, "もし (a かつ b) { 表示(a); }");
    NoCapitalsNoBody(Comment, "もし (a かつ b) { 表示(a); }");
    PlainTransformed("もし (a かつ b) { 表示(a); }");
  }

  lemma IfStatementPlain()
    ensures Plain("もし (a かつ b) { 表示(a); }") && NoCapitals("もし (a かつ b) { 表示(a); }")
  {
  }

  lemma IfStatementRewrite()
    ensures Rewrite("もし (a かつ b) { 表示(a); }") == "if (a && b) { console.log(a); }"
  {
    IfRewrite();
    AndRewrite();
    RewriteJoin("もし", " (a ", "かつ b) { 表示(a); }", "if", "&& b) { console.log(a); }");
    IfStatementPieces();
  }

  lemma IfStatementPieces()
    ensures "もし (a かつ b) { 表示(a); }" == "もし" + " (a " + "かつ b) { 表示(a); }"
    ensures "if (a && b) { console.log(a); }" == "if" + " (a " + "&& b) { console.log(a); }"
  {
  }

  lemma AndRewrite()
    ensures Rewrite("かつ b) { 表示(a); }") == "&& b) { console.log(a); }"
  {
    AndWordRewrite();
    PrintRewrite();
    RewriteJoin("かつ", " b) { ", "表示(a); }", "&&", "console.log(a); }");
    AndPieces();
  }

  lemma AndPieces()
    ensures "かつ b) { 表示(a); }" == "かつ" + " b) { " + "表示(a); }"
    ensures "&& b) { console.log(a); }" == "&&" + " b) { " + "console.log(a); }"
  {
  }

  lemma PrintRewrite()
    ensures Rewrite("表示(a); }") == "console.log(a); }"
  {
    PrintWordRewrite();
    RewriteAscii("");
    RewriteJoin("表示", "(a); }", "", "console.log", "");
    PrintPieces();
  }

  lemma PrintPieces()
    ensures "表示(a); }" == "表示" + "(a); }" + ""
    ensures "console.log(a); }" == "console.log" + "(a); }" + ""
  {
  }

  lemma IfRewrite()
    ensures Rewrite("もし") == "if"
  {
    IfWord();
    RewriteKeyword("もし", "if");
  }

  lemma AndWordRewrite()
    ensures Rewrite("かつ") == "&&"
  {
    AndWord();
    RewriteKeyword("かつ", "&&");
  }

  lemma PrintWordRewrite()
    ensures Rewrite("表示") == "console.log"
  {
    PrintWord();
    RewriteKeyword("表示", "console.log");
  }

  /** Rewriting goes around an ASCII run, whatever is on either side of it. */
  lemma RewriteJoin(a: string, w: string, b: string, ra: string, rb: string)
    requires Rewrite(a) == ra && Rewrite(b) == rb && w != [] && AllAscii(w)
    ensures Rewrite(a + w + b) == ra + w + rb
  {
    RewriteKeepsAscii(a, w, b);
  }

  /** A string literal keeps its Japanese text: `"文字列"` is unchanged. */
  lemma StringLiteralKept()
    ensures Transformed("\"文字列\"") == "\"文字列\""
  {
    var s := "\"文字列\"";
    StringLiteralMatch();
    NoCapitalsNoBody(Comment, s);
    QuotedStringKept(s);
  }

  /** The quoted-string regex matches the whole of `"文字列"`. */
  lemma StringLiteralMatch()
    ensures Matches(QuotedString, "\"文字列\"", 0, 5)
  {
    var s := "\"文字列\"";
    var body := s[1..|s| - 1];
    assert body == "文字列";
    assert IsLiteralBody('"', body[3..]) by { assert body[3..] == []; }
    assert IsLiteralBody('"', body[2..]);
    assert IsLiteralBody('"', body[1..]);
    assert IsLiteralBody('"', body);
  }

  /** `表示("文字列")` becomes `console.log("文字列")`: the keyword outside
      the literal is rewritten, and the type name inside it is kept. */
  lemma PrintStringLiteral()
    ensures Transformed("表示(\"文字列\")") == "console.log(\"文字列\")"
  {
    var lit := "\"文字列\"";
    StringLiteralMatch();
    PrintCallPieces();
    NoCapitalsNoBody(Str, "表示(");
    NoCapitalsNoBody(Comment, "表示(");
    NoCapitalsNoBody(Str, ")");
    NoCapitalsNoBody(Comment, ")");
    NoCapitalsNoBody(Comment, lit);
    PrintOpenRewrite();
    RewriteAscii(")");
    LiteralBetween("表示(", lit, ")");
  }

  lemma PrintCallPieces()
    ensures "表示(\"文字列\")" == "表示(" + "\"文字列\"" + ")"
    ensures "console.log(\"文字列\")" == "console.log(" + "\"文字列\"" + ")"
    ensures Plain("表示(") && Plain(")")
  {
  }

  lemma PrintOpenRewrite()
    ensures Rewrite("表示(") == "console.log("
  {
    PrintWordRewrite();
    RewriteAscii("");
    RewriteJoin("表示", "(", "", "console.log", "");
    assert "表示(" == "表示" + "(" + "";
    assert "console.log(" == "console.log" + "(" + "";
  }

  /** A comment keeps its Japanese text: `// 表示 は関数です` is unchanged. */
  lemma LineCommentUnchanged()
    ensures Transformed("// 表示 は関数です") == "// 表示 は関数です"
  {
    var s := "// 表示 は関数です";
    assert IsLineCommentAt(s, 0, |s|);
    LineCommentKept(s);
  }

  /** Outside a literal, `文字列` is a type name: it becomes `string`. */
  lemma StringType()
    ensures Transformed("文字列") == "string"
  {
    StringTypeWord();
    assert Rewrite("文字列") == "string";
    NoCapitalsNoBody(Str, "文字列");
    NoCapitalsNoBody(Comment, "文字列");
    PlainTransformed("文字列");
  }

  /** `そうでなければもし (x)` becomes `else if (x)`. */
  lemma ElseIf()
    ensures Transformed("そうでなければもし (x)") == "else if (x)"
  {
    ElseIfRewrite();
    NoCapitalsNoBody(Str, "そうでなければもし (x)");
    NoCapitalsNoBody(Comment, "そうでなければもし (x)");
    PlainTransformed("そうでなければもし (x)");
  }

  lemma ElseIfRewrite()
    ensures Rewrite("そうでなければもし (x)") == "else if (x)"
  {
    ElseIfKeywords();
    RewriteKeyword("そうでなければもし (x)", "else if (x)");
  }

  lemma ElseIfKeywords()
    ensures Patterns(KEYWORDS) && ApplyRules(KEYWORDS, "そうでなければもし (x)") == "else if (x)"
  {
    TablesWellFormed();
    AsciiUnchanged(KEYWORDS, "");
    AsciiUnchanged(KEYWORDS, " (x)");
    ElseIfCompound("", " (x)");
    ElseIfPieces();
  }

  lemma ElseIfPieces()
    ensures "そうでなければもし (x)" == "" + "そうでなければもし" + " (x)"
    ensures "else if (x)" == "" + "else if" + " (x)"
  {
  }

  /** `非公開` loses its `公開` to `public` before its own rule is reached. */
  lemma PrivateModifier()
    ensures Transformed("非公開") == "非public"
  {
    PrivateSplit();
    assert Rewrite("非公開") == "非public";
    NoCapitalsNoBody(Str, "非公開");
    NoCapitalsNoBody(Comment, "非公開");
    PlainTransformed("非公開");
  }

  /** `無効` loses its `無` to `null` before the type table is reached. */
  lemma VoidType()
    ensures Transformed("無効") == "null効"
  {
    VoidShadowed();
    assert Rewrite("無効") == "null効";
    NoCapitalsNoBody(Str, "無効");
    NoCapitalsNoBody(Comment, "無効");
    PlainTransformed("無効");
  }

  /** `真偽値` loses its `真` and `偽` to `true` and `false` before the type
      table is reached. */
  lemma BooleanType()
    ensures Transformed("真偽値") == "truefalse値"
  {
    BooleanShadowed();
    assert Rewrite("真偽値") == "truefalse値";
    NoCapitalsNoBody(Str, "真偽値");
    NoCapitalsNoBody(Comment, "真偽値");
    PlainTransformed("真偽値");
  }

  /** `絶対無` loses its `無` to `null` before the type table is reached. */
  lemma NeverType()
    ensures Transformed("絶対無") == "絶対null"
  {
    NeverShadowed();
    assert Rewrite("絶対無") == "絶対null";
    NoCapitalsNoBody(Str, "絶対無");
    NoCapitalsNoBody(Comment, "絶対無");
    PlainTransformed("絶対無");
  }

  // ---------------------------------------------------------------------
  // Masks inside masks are not restored

  /** A block comment inside a line comment is masked first, so the line
      comment records its placeholder, and restoring the line comment does
      not look inside what it puts back: the placeholder text is left in
      the output. */
  lemma NestedComment()
    ensures Transformed("// see /* x */") == "// see __COMMENT_0__"
  {
    NestedCommentBlock();
    NestedCommentLine();
    CommentInLineComment("// see /* x */", "/* x */", "// see " + Placeholder(Comment, 0));
    NestedCommentText();
  }

  lemma NestedCommentText()
    ensures "// see " + Placeholder(Comment, 0) == "// see __COMMENT_0__"
  {
    assert Placeholder(Comment, 0) == "__COMMENT_0__";
  }

  /** A source whose block-comment pass leaves one placeholder inside a
      line that the line-comment pass then takes whole comes out as that
      line, with the placeholder in it. */
  lemma CommentInLineComment(s: string, inner: string, line: string)
    requires Mask(BlockComment, s, 0) == Masked(line, [inner])
    requires Mask(LineComment, line, 1) == Masked(Placeholder(Comment, 1), [line])
    ensures Transformed(s) == line
  {
    CommentInLineCommentMasks(s, inner, line);
    MaskedLineComment(s, [inner, line], 1);
  }

  lemma CommentInLineCommentMasks(s: string, inner: string, line: string)
    requires Mask(BlockComment, s, 0) == Masked(line, [inner])
    requires Mask(LineComment, line, 1) == Masked(Placeholder(Comment, 1), [line])
    ensures MaskAll(s) == Masks(Placeholder(Comment, 1), [], [inner, line])
  {
    var p1 := Placeholder(Comment, 1);
    assert [inner] + [line] == [inner, line];
    PlaceholderNotLiteral(Comment, 1);
    MaskAllStages(s, Masked(line, [inner]), Masked(p1, [line]), Masked(p1, []), Masked(p1, []));
  }

  /** A source masked down to one comment placeholder comes out as the
      comment that placeholder names. */
  lemma MaskedLineComment(s: string, comments: seq<string>, n: nat)
    requires n < |comments|
    requires MaskAll(s) == Masks(Placeholder(Comment, n), [], comments)
    ensures Transformed(s) == comments[n]
  {
    var p := Placeholder(Comment, n);
    PlaceholderAscii(Comment, n);
    RewriteAscii(p);
    PlaceholderNoOtherBody(Comment, n);
    RestoreIdentity(Str, [], p);
    RestorePlaceholder(Comment, comments, n);
    TransformedStages(s, Masks(p, [], comments), p, p);
  }

  /** The block-comment pass over `// see /* x */`. */
  lemma NestedCommentBlock()
    ensures Mask(BlockComment, "// see /* x */", 0) == Masked("// see " + Placeholder(Comment, 0), ["/* x */"])
  {
    var s := "// see /* x */";
    NestedCommentPieces();
    NestedCommentOpens();
    MaskSkipNone(BlockComment, s, 0, 7, 0);
    MaskTake(BlockComment, s, 7, 0);
  }

  lemma NestedCommentPieces()
    ensures var s := "// see /* x */"; |s| == 14 && s[0..7] == "// see " && s[7..14] == "/* x */"
  {
  }

  /** No block comment opens before position 7; the one there ends the text. */
  lemma NestedCommentOpens()
    ensures forall q :: 0 <= q < 7 ==> MatchEnd(BlockComment, "// see /* x */", q).None?
    ensures MatchEnd(BlockComment, "// see /* x */", 7) == Some(14)
  {
    var s := "// see /* x */";
    assert CloseBlock(s, 12) == Some(14);
    assert CloseBlock(s, 10) == CloseBlock(s, 11) == CloseBlock(s, 12);
    assert CloseBlock(s, 9) == CloseBlock(s, 10);
  }

  /** The line-comment pass then takes the whole line, placeholder and all. */
  lemma NestedCommentLine()
    ensures var t := "// see " + Placeholder(Comment, 0);
      Mask(LineComment, t, 1) == Masked(Placeholder(Comment, 1), [t])
  {
    var t := "// see " + Placeholder(Comment, 0);
    PlaceholderChars(Comment, 0);
    forall q | 0 <= q < |t| ensures !IsLineTerminator(t[q]) {
      if q >= 7 {
        assert t[q] == Placeholder(Comment, 0)[q - 7];
      }
    }
    LineCommentWhole(t);
    WholeMatch(LineComment, t, 1);
  }

  /** A line with no line terminator in it that opens with two slashes is
      one line comment. */
  lemma LineCommentWhole(t: string)
    requires PairAt(t, 0, '/', '/')
    requires forall q :: 0 <= q < |t| ==> !IsLineTerminator(t[q])
    ensures MatchEnd(LineComment, t, 0) == Some(|t|)
  {
    LineEndFirst(t, 2);
  }


  /** A `/*` inside a line comment opens a block comment that runs to the
      next `*/`, across the line break, so the block pass takes the break
      and the line pass then takes `定数` with the rest of the line. */
  lemma SwallowedBreak()
    ensures Transformed("// a /* b\n*/ 定数") == "// a __COMMENT_0__ 定数"
  {
    SwallowedBlock();
    SwallowedLine();
    CommentInLineComment("// a /* b\n*/ 定数", "/* b\n*/", "// a " + Placeholder(Comment, 0) + " 定数");
    SwallowedText();
  }

  lemma SwallowedText()
    ensures "// a " + Placeholder(Comment, 0) + " 定数" == "// a __COMMENT_0__ 定数"
  {
    assert Placeholder(Comment, 0) == "__COMMENT_0__";
  }

  lemma SwallowedPieces()
    ensures var s := "// a /* b\n*/ 定数";
      |s| == 15 && s[0..5] == "// a " && s[5..12] == "/* b\n*/" && s[12..15] == " 定数"
      && (forall q :: 12 <= q < 15 ==> s[q] != '/')
  {
  }

  /** No block comment opens before position 5; the one there ends at 12. */
  lemma SwallowedOpens()
    ensures forall q :: 0 <= q < 5 ==> MatchEnd(BlockComment, "// a /* b\n*/ 定数", q).None?
    ensures MatchEnd(BlockComment, "// a /* b\n*/ 定数", 5) == Some(12)
  {
    var s := "// a /* b\n*/ 定数";
    assert CloseBlock(s, 10) == Some(12);
    assert CloseBlock(s, 7) == CloseBlock(s, 8) == CloseBlock(s, 9) == CloseBlock(s, 10);
  }

  /** The block-comment pass over `// a /* b⏎*/ 定数`. */
  lemma SwallowedBlock()
    ensures Mask(BlockComment, "// a /* b\n*/ 定数", 0)
      == Masked("// a " + Placeholder(Comment, 0) + " 定数", ["/* b\n*/"])
  {
    var s := "// a /* b\n*/ 定数";
    SwallowedPieces();
    SwallowedOpens();
    MaskSkipNone(BlockComment, s, 0, 5, 0);
    MaskTake(BlockComment, s, 5, 0);
    MaskSkip(BlockComment, s, 12, 15, 1);
    Assoc("// a ", Placeholder(Comment, 0), " 定数");
  }

  /** The line-comment pass then takes the whole line, `定数` included. */
  lemma SwallowedLine()
    ensures var t := "// a " + Placeholder(Comment, 0) + " 定数";
      Mask(LineComment, t, 1) == Masked(Placeholder(Comment, 1), [t])
  {
    var t := "// a " + Placeholder(Comment, 0) + " 定数";
    var w := |Placeholder(Comment, 0)|;
    PlaceholderChars(Comment, 0);
    forall q | 0 <= q < |t| ensures !IsLineTerminator(t[q]) {
      if 5 <= q < 5 + w {
        assert t[q] == Placeholder(Comment, 0)[q - 5];
      }
    }
    LineCommentWhole(t);
    WholeMatch(LineComment, t, 1);
  }

  /** A template literal inside a quoted string is masked first, so the
      quoted string records its placeholder, and restoring the quoted string
      does not look inside it: the placeholder text is left in the output. */
  lemma NestedString()
    ensures Transformed("'a `b` c'") == "'a __STRING_0__ c'"
  {
    NestedStringPieces();
    NestedStringClean();
    NestedStringTemplate();
    NestedStringQuoted();
    StringInString("'a `b` c'", "`b`", "'a " + Placeholder(Str, 0) + " c'");
    NestedStringText();
  }

  lemma NestedStringClean()
    ensures NoBody(Comment, "'a " + Placeholder(Str, 0) + " c'")
  {
    var lit := "'a " + Placeholder(Str, 0) + " c'";
    PlaceholderChars(Str, 0);
    forall q | 0 <= q < |lit| ensures lit[q] != Name(Comment)[0] {
      if 3 <= q < |lit| - 3 {
        assert lit[q] == Placeholder(Str, 0)[q - 3];
      }
    }
    MissingInitial(Comment, lit);
  }

  lemma NestedStringText()
    ensures "'a " + Placeholder(Str, 0) + " c'" == "'a __STRING_0__ c'"
  {
    assert Placeholder(Str, 0) == "__STRING_0__";
  }

  /** A source with no slash whose template pass leaves one placeholder
      inside a literal that the quoted-string pass then takes whole comes
      out as that literal, with the placeholder in it. */
  lemma StringInString(s: string, inner: string, lit: string)
    requires forall q :: 0 <= q < |s| ==> s[q] != '/'
    requires Mask(TemplateLiteral, s, 0) == Masked(lit, [inner])
    requires Mask(QuotedString, lit, 1) == Masked(Placeholder(Str, 1), [lit])
    requires NoBody(Comment, lit)
    ensures Transformed(s) == lit
  {
    StringInStringMasks(s, inner, lit);
    MaskedString(s, [inner, lit], 1);
  }

  lemma StringInStringMasks(s: string, inner: string, lit: string)
    requires forall q :: 0 <= q < |s| ==> s[q] != '/'
    requires Mask(TemplateLiteral, s, 0) == Masked(lit, [inner])
    requires Mask(QuotedString, lit, 1) == Masked(Placeholder(Str, 1), [lit])
    ensures MaskAll(s) == Masks(Placeholder(Str, 1), [inner, lit], [])
  {
    assert [inner] + [lit] == [inner, lit];
    MaskNothing(BlockComment, s, 0);
    MaskNothing(LineComment, s, 0);
    MaskAllStages(s, Masked(s, []), Masked(s, []), Masked(lit, [inner]), Masked(Placeholder(Str, 1), [lit]));
  }

  /** A source masked down to one string placeholder comes out as the
      literal that placeholder names, when that holds no comment body. */
  lemma MaskedString(s: string, strings: seq<string>, n: nat)
    requires n < |strings| && NoBody(Comment, strings[n])
    requires MaskAll(s) == Masks(Placeholder(Str, n), strings, [])
    ensures Transformed(s) == strings[n]
  {
    var p := Placeholder(Str, n);
    PlaceholderAscii(Str, n);
    RewriteAscii(p);
    RestorePlaceholder(Str, strings, n);
    TransformedStages(s, Masks(p, strings, []), p, strings[n]);
    RestoreIdentity(Comment, [], strings[n]);
  }

  /** The template pass over `'a `b` c'`. */
  lemma NestedStringTemplate()
    ensures Mask(TemplateLiteral, "'a `b` c'", 0) == Masked("'a " + Placeholder(Str, 0) + " c'", ["`b`"])
  {
    var s := "'a `b` c'";
    NestedStringMid();
    NestedStringPieces();
    MaskSkip(TemplateLiteral, s, 0, 3, 0);
    Assoc("'a ", Placeholder(Str, 0), " c'");
  }

  /** From the opening backquote on, the template pass takes `` `b` `` and
      copies the rest. */
  lemma NestedStringMid()
    ensures MaskFrom(TemplateLiteral, "'a `b` c'", 3, 0) == Masked(Placeholder(Str, 0) + " c'", ["`b`"])
  {
    var s := "'a `b` c'";
    NestedStringTail();
    NestedStringMatch();
    MaskTake(TemplateLiteral, s, 3, 0);
    NestedStringPieces();
  }

  /** After the template literal no backquote is left. */
  lemma NestedStringTail()
    ensures MaskFrom(TemplateLiteral, "'a `b` c'", 6, 1) == Masked(" c'", [])
  {
    var s := "'a `b` c'";
    NestedStringPieces();
    MaskSkip(TemplateLiteral, s, 6, 9, 1);
  }

  /** The template scanner takes exactly `` `b` `` at index 3. */
  lemma NestedStringMatch()
    ensures MatchEnd(TemplateLiteral, "'a `b` c'", 3) == Some(6)
  {
    var s := "'a `b` c'";
    NestedStringPieces();
  }

  lemma NestedStringPieces()
    ensures var s := "'a `b` c'";
      |s| == 9 && s[0..3] == "'a " && s[3..6] == "`b`" && s[6..9] == " c'"
      && (forall q :: 0 <= q < 3 ==> s[q] != '`') && (forall q :: 6 <= q < 9 ==> s[q] != '`')
      && (forall q :: 0 <= q < |s| ==> s[q] != '/')
  {
  }

  /** The quoted-string pass then takes the whole literal. */
  lemma NestedStringQuoted()
    ensures var lit := "'a " + Placeholder(Str, 0) + " c'";
      Mask(QuotedString, lit, 1) == Masked(Placeholder(Str, 1), [lit])
  {
    var lit := "'a " + Placeholder(Str, 0) + " c'";
    var body := lit[1..|lit| - 1];
    PlaceholderChars(Str, 0);
    forall q | 0 <= q < |body| ensures body[q] != '\'' && body[q] != '\\' {
      assert body[q] == lit[q + 1];
      if 2 <= q < |body| - 2 {
        assert lit[q + 1] == Placeholder(Str, 0)[q - 2];
      }
    }
    PlainBody('\'', body);
    LiteralEndMatches(lit, '\'', 1);
    WholeMatch(QuotedString, lit, 1);
  }

  /** Text with neither the delimiter nor a backslash is a literal body. */
  lemma {:induction false} PlainBody(q: char, x: string)
    requires forall j :: 0 <= j < |x| ==> x[j] != q && x[j] != '\\'
    ensures IsLiteralBody(q, x)
    decreases |x|
  {
    if x != [] {
      PlainBody(q, x[1..]);
    }
  }

  // ---------------------------------------------------------------------
  // Line comments are masked before quoted strings

  /** Two slashes inside a string literal open a line comment, because
      line comments are masked before quoted strings: the rest of the line,
      closing quote and code included, is masked with them, so the keyword
      `定数` after the literal is never rewritten. */
  lemma SlashesInString()
    ensures Transformed("\"a//b\"; 定数") == "\"a//b\"; 定数"
  {
    var s := "\"a//b\"; 定数";
    SlashesPieces();
    SlashesLine();
    SlashesMasked();
    OneCommentMasked(s, "\"a", s[2..]);
  }

  lemma SlashesPieces()
    ensures var s := "\"a//b\"; 定数";
      |s| == 10 && s[..2] == "\"a" && s[..2] + s[2..] == s && PairAt(s, 2, '/', '/')
      && (forall q :: 0 <= q < 2 ==> s[q] != '/')
      && (forall q :: 0 <= q < |s| ==> s[q] != '*' && !IsLineTerminator(s[q]))
  {
  }

  /** The line-comment pass takes everything from the slashes on. */
  lemma SlashesLine()
    ensures var s := "\"a//b\"; 定数";
      Mask(BlockComment, s, 0) == Masked(s, [])
      && Mask(LineComment, s, 0) == Masked("\"a" + Placeholder(Comment, 0), [s[2..]])
  {
    var s := "\"a//b\"; 定数";
    SlashesPieces();
    NoStarNoBlock(s);
    MaskSkip(LineComment, s, 0, 2, 0);
    LineEndFirst(s, 4);
    assert MatchEnd(LineComment, s, 2) == Some(|s|);
    MaskTake(LineComment, s, 2, 0);
    assert s[0..2] == s[..2] && s[2..|s|] == s[2..];
    assert Placeholder(Comment, 0) + [] == Placeholder(Comment, 0);
  }

  /** What is left opens a quote that never closes: the literal passes find
      nothing. */
  lemma SlashesMasked()
    ensures var t := "\"a" + Placeholder(Comment, 0);
      Mask(TemplateLiteral, t, 0) == Masked(t, []) && Mask(QuotedString, t, 0) == Masked(t, [])
      && AllAscii(t) && NoBody(Str, t)
  {
    var t := "\"a" + Placeholder(Comment, 0);
    SlashesRest();
    MaskNothing(TemplateLiteral, t, 0);
    assert LiteralEnd(t, t[0], 1).None?;
    MaskNoMatch(QuotedString, t, 0, 0);
    MissingInitial(Str, t);
  }

  lemma SlashesRest()
    ensures var t := "\"a" + Placeholder(Comment, 0);
      t[0] == '"' && t[1] == 'a'
      && (forall q :: 0 <= q < |t| ==> !IsOpener(TemplateLiteral, t[q]) && IsAscii(t[q]) && t[q] != Name(Str)[0])
      && (forall q :: 1 <= q < |t| ==> !IsOpener(QuotedString, t[q]))
  {
    var t := "\"a" + Placeholder(Comment, 0);
    PlaceholderChars(Comment, 0);
    forall q | 2 <= q < |t|
      ensures IsMarkChar(t[q]) && t[q] != Name(Str)[0]
    {
      assert t[q] == Placeholder(Comment, 0)[q - 2];
    }
  }

  /** A source `x + c` in which only the line-comment pass finds something,
      the comment `c` after the text `x`, comes out as it went in when the
      masked text is ASCII, holds no string body and `x` no underscore. */
  lemma OneCommentMasked(s: string, x: string, c: string)
    requires x + c == s && forall q :: 0 <= q < |x| ==> x[q] != '_'
    requires Mask(BlockComment, s, 0) == Masked(s, [])
    requires Mask(LineComment, s, 0) == Masked(x + Placeholder(Comment, 0), [c])
    requires var t := x + Placeholder(Comment, 0);
      Mask(TemplateLiteral, t, 0) == Masked(t, []) && Mask(QuotedString, t, 0) == Masked(t, [])
      && AllAscii(t) && NoBody(Str, t)
    ensures Transformed(s) == s
  {
    var t := x + Placeholder(Comment, 0);
    assert [] + [c] == [c];
    MaskAllStages(s, Masked(s, []), Masked(t, [c]), Masked(t, []), Masked(t, []));
    RewriteAscii(t);
    RestoreIdentity(Str, [], t);
    TransformedStages(s, Masks(t, [], [c]), t, t);
    RestoreAfterPrefix(Comment, [c], x, 0);
  }
}
