# A Dafny model of the jts `transform` rewriter

`transform` (src/transformer.ts:80-127) turns TypeScript written with Japanese
keywords into plain TypeScript. It works on one string, in eight passes:

1. Block comments `/* … */` are swapped for `__COMMENT_k__`.
2. Line comments `// …` are swapped for `__COMMENT_k__`.
3. Template literals are swapped for `__STRING_k__`.
4. Quoted strings are swapped for `__STRING_k__`.
5. The 46 `KEYWORDS` rules run in table order as global substring replacements.
6. The 8 `TYPES` rules run the same way.
7. Every `__STRING_k__` is replaced by `strings[k]`.
8. Every `__COMMENT_k__` is replaced by `comments[k]`.

In steps 1–4, `k` is the span's index in its list. Block and line comments
share the `comments` list, and templates and quoted strings share the `strings`
list.

The model follows the code module by module:

- `Text`: characters, substrings, and the decimal digits written into a
  placeholder and read back by `parseInt`.
- `Placeholders`: the placeholder text, the restoring regex
  `/__KIND_(\d+)__/` as a scanner (`MarkAt`), and the restoring pass
  (`Restore`). `Restore` is one left-to-right pass. The text it puts in is
  never scanned again. For an index past the end of the list the callback
  returns the value `undefined`, and `String.prototype.replace` puts in its
  text, `undefined`.
- `Scanners`: the four masking regexes as scanners (`BlockCommentEnd`,
  `LineCommentEnd`, `LiteralEnd`). `Matches` is an independent description of
  what each regex matches. `MaskFrom` models `String.prototype.replace` with a
  global regex and a callback that pushes the match.
- `Masking`: what one masking pass keeps, takes and numbers, and why restoring
  undoes it.
- `Rules`: the two tables, `ReplaceAll` (leftmost, non-overlapping, literal
  global replacement), and `ApplyRules` (the rules in order, each on the
  previous one's output).
- `Transformer`: `Transformed`, the function that says what `transform`
  returns, and `Transform`, a method that reassigns `result` pass by pass and
  runs both tables with a `while` loop (`RunRules`). It also holds the round
  trip and whole-source lemmas.
- `Examples`: concrete sources worked through the whole model.

The model does what the code does, including behaviour the code's comments
do not intend. These behaviours are stated as lemmas:

- Restoring is not nested. In `// see /* x */` the line comment captures the
  block comment's placeholder, so the output is `// see __COMMENT_0__`.
  In `'a `b` c'` the output is `'a __STRING_0__ c'`.
- Line comments are masked before quoted strings. So `"a//b"; 定数` loses its
  closing quote and the rest of the line to a line comment, and `定数` is not
  rewritten.
- Compound-before-atomic ordering holds only for `そうでなければもし`.
  `公開` fires before `非公開` (`非公開` becomes `非public`). All of `KEYWORDS`
  runs before `TYPES`, so `無効` becomes `null効`, `真偽値` becomes
  `truefalse値`, and `絶対無` becomes `絶対null`.
- Block comments are masked before line comments. A `/*` inside a line
  comment therefore opens a block comment that runs to the next `*/`, which
  may be lines later. In `// a /* b⏎*/ 定数` the line break is swallowed, `定数`
  is not rewritten, and the output is `// a __COMMENT_0__ 定数`.
- An unterminated literal or block comment is simply not masked, and no error
  is raised.

The round trip holds under three conditions:

- The source holds no placeholder body (`COMMENT_` or `STRING_` followed by a
  digit). Excluding only `__COMMENT_` is not enough: the closing `__` of one
  placeholder, a raw `STRING_5`, and the opening `__` of the next placeholder
  would form a new placeholder.
- No masked span holds such a body of its own kind.
- No keyword or type pattern occurs outside the masked spans.

Under these conditions `transform` returns its input unchanged.

The keyword and type passes never create a placeholder body, because every
replacement is lower-case TypeScript or an operator. So plain code around a
quoted literal is rewritten while the literal comes back as it was:
`表示("文字列")` becomes `console.log("文字列")`.

## Model

| member | source | states |
|---|---|---|
| `Text.NatToDecimal` | src/transformer.ts:89 | the index written into a placeholder is a non-empty run of decimal digits, with no leading zero |
| `Text.DecimalRoundTrip` | src/transformer.ts:121 | `parseInt` of the decimal digits written for index `n` gives back `n` |
| `Placeholders.MarkAt` | src/transformer.ts:121 | a result is a match of `__KIND_<digits>__` at the start of the text, carrying the decimal value of its digits; no result means no length matches there |
| `Placeholders.PlaceholderMark` | src/transformer.ts:89-121 | the restoring regex reads a written placeholder back with its own index and its whole length, whatever follows it |
| `Placeholders.MarkPrefixUnique` | src/transformer.ts:121 | at most one match length is possible at a position, because the digits end at the first underscore |
| `Placeholders.RestorePlaceholder` | src/transformer.ts:121 | a lone placeholder restores to its list entry, or to `undefined` when the index is past the end |
| `Placeholders.RestoreIdentity` | src/transformer.ts:121-124 | text holding no placeholder body comes through the restoring pass unchanged |
| `Placeholders.RestoreThrough` | src/transformer.ts:121-124 | a stretch at which no placeholder starts is copied, and restoring continues after it |
| `Placeholders.RestoreAfterPrefix` | src/transformer.ts:121-124 | a placeholder after underscore-free text is restored to its list entry, and the text before it is kept |
| `Scanners.BlockCommentEnd` | src/transformer.ts:87 | a block comment match starts with `/*` and is at least four characters long |
| `Scanners.BlockCommentEndMatches` | src/transformer.ts:87 | the block scanner ends at `e` exactly when `/*` … first `*/` spans `[i, e)`, across lines |
| `Scanners.LineCommentEnd` | src/transformer.ts:93 | a line comment match starts with `//` |
| `Scanners.LineCommentEndMatches` | src/transformer.ts:93 | the line scanner ends at `e` exactly when `//` runs up to, but not including, the next line terminator or the end |
| `Scanners.LiteralEnd` | src/transformer.ts:99-105 | a literal match ends just past a closing delimiter equal to the opening one |
| `Scanners.LiteralEndMatches` | src/transformer.ts:99-105 | the literal scanner stops just past the first unescaped closing delimiter after a well-formed body, and finds nothing when there is none |
| `Scanners.MatchEnd` | src/transformer.ts:87-105 | a match of any pass is non-empty, stays inside the text and starts with that pass's opening character |
| `Scanners.MatchEndMatches` | src/transformer.ts:87-105 | for each of the four passes, the scanner finds `e` exactly when the regex matches `[i, e)` |
| `Scanners.MaskFrom` | src/transformer.ts:87-108 | a pass leaves text behind exactly when it has text left to scan; what it keeps, takes and numbers is stated by the `Masking` rows below |
| `Masking.MaskNothing` | src/transformer.ts:87-108 | a pass over text with no opening character returns the text and records nothing |
| `Masking.MaskSkip` | src/transformer.ts:87-108 | a stretch with no opening character is copied, and masking continues after it with the same counter |
| `Masking.MaskSpansMatch` | src/transformer.ts:88-106 | every span a pass pushes is a whole match of that pass's regex |
| `Masking.NoBodyKept` | src/transformer.ts:87-108 | a pass of one kind creates no placeholder body of the other kind |
| `Masking.BodiesInMarksAfterMask` | src/transformer.ts:89-107 | after a pass, every placeholder body of its kind sits inside a whole placeholder |
| `Masking.RestoreMasked` | src/transformer.ts:87-124 | when each placeholder's list entry is the span it replaced, restoring the masked text gives what restoring the unmasked text gives |
| `Masking.RestoreAfterMask` | src/transformer.ts:88-124 | restoring undoes one masking pass over text with no placeholder body of its kind |
| `Masking.RestoreAfterTwoMasks` | src/transformer.ts:87-124 | restoring undoes two passes that share one counter, such as block then line comments |
| `Masking.CleanListed` | src/transformer.ts:88-107 | a body-free list split into two runs holds the first run from index 0 and the second from the first run's length; `Masking.RestoreAfterTwoMasks` and `Transformer.CommentsRestored` use it to show that each placeholder names its own span |
| `Masking.RestoreAroundPlaceholder` | src/transformer.ts:121-124 | body-free text before a placeholder is copied, the placeholder is restored to its entry, and restoring goes on after it |
| `Masking.NoBodyJoin` | src/transformer.ts:121-124 | two body-free texts joined next to a character no placeholder uses hold no body across the seam |
| `Rules.ReplaceAllAbsent` | src/transformer.ts:112 | a replacement leaves alone text in which its pattern does not occur |
| `Rules.ReplaceAllRemoves` | src/transformer.ts:112 | after a replacement whose output shares no character with the pattern, the pattern occurs nowhere |
| `Rules.ReplaceAllSplit` | src/transformer.ts:112 | with no occurrence across the seam, replacing in `a + b` is replacing in `a` and in `b` |
| `Rules.ReplaceAllWord` | src/transformer.ts:112 | when the pattern's first character does not recur in it, an occurrence is replaced, and each side is replaced on its own |
| `Rules.ReplaceAllKeeps` | src/transformer.ts:112 | a stretch sharing no character with the pattern is kept and splits the replacement in two |
| `Rules.ReplaceAllNoBody` | src/transformer.ts:112 | a replacement whose text has no capital letter, digit or underscore creates no placeholder body |
| `Rules.ApplyRulesConcat` | src/transformer.ts:111-118 | running two tables one after the other is running their concatenation |
| `Rules.ApplyRulesAbsent` | src/transformer.ts:111-118 | a table leaves alone text in which none of its patterns occurs |
| `Rules.ApplyRulesKeeps` | src/transformer.ts:111-118 | a stretch no rule can touch is kept, and the text on either side is rewritten on its own |
| `Rules.ApplyRulesOneFires` | src/transformer.ts:111-113 | when only rule `i` finds its pattern, and nothing later finds one in its output, the table's result is that rule's output |
| `Rules.ApplyRulesFirstWord` | src/transformer.ts:111-113 | the first rule's pattern becomes its replacement, and the text on either side is rewritten on its own |
| `Rules.ApplyRulesNoBody` | src/transformer.ts:111-118 | a table whose replacements have no capital letter, digit or underscore creates no placeholder body |
| `Rules.TablesWellFormed` | src/transformer.ts:2-78 | every pattern is non-empty and non-ASCII, and every replacement is ASCII |
| `Rules.TablesMarkFree` | src/transformer.ts:2-78 | every replacement in both tables is non-empty and has no capital letter, digit or underscore |
| `Rules.AsciiUnchanged` | src/transformer.ts:2-78 | ASCII text comes through a well-formed table unchanged |
| `Rules.KeywordsByGroup` | src/transformer.ts:2-66 | `KEYWORDS` runs as its nine commented groups, one after the other |
| `Rules.ElseIfCompound` | src/transformer.ts:4-12 | `そうでなければもし` becomes `else if` as a whole, never `else` then `if` |
| `Rules.PrivateSplit` | src/transformer.ts:28-29 | `公開` fires first, so `非公開` becomes `非public`, which `TYPES` keeps |
| `Rules.VoidShadowed` | src/transformer.ts:35-73 | `無` in `KEYWORDS` fires before `TYPES`, so `無効` becomes `null効` |
| `Rules.BooleanShadowed` | src/transformer.ts:33-72 | `真` and `偽` in `KEYWORDS` fire before `TYPES`, so `真偽値` becomes `truefalse値` |
| `Rules.NeverShadowed` | src/transformer.ts:35-76 | `無` in `KEYWORDS` fires before `TYPES`, so `絶対無` becomes `絶対null`, which `TYPES` keeps |
| `Rules.ConstWord` | src/transformer.ts:10 | `定数` becomes `const` |
| `Rules.IfWord` | src/transformer.ts:12 | `もし` becomes `if` |
| `Rules.AndWord` | src/transformer.ts:58 | `かつ` becomes `&&` |
| `Rules.PrintWord` | src/transformer.ts:65 | `表示` becomes `console.log` |
| `Rules.StringTypeWord` | src/transformer.ts:70 | `KEYWORDS` keeps `文字列`, and `TYPES` turns it into `string` |
| `Transformer.Transform` | src/transformer.ts:80-127 | the eight passes, run step by step, return `Transformed(source)` |
| `Transformer.RunRules` | src/transformer.ts:111-118 | the `for` loop over a table returns the rules applied in order, each to the previous one's output |
| `Transformer.MaskedSpans` | src/transformer.ts:87-108 | every entry of `comments` is a whole block or line comment, and every entry of `strings` is a whole template or quoted literal |
| `Transformer.RewriteKeepsAscii` | src/transformer.ts:111-118 | the keyword and type passes keep any ASCII stretch, and no rule matches across it |
| `Transformer.PlaceholderSurvives` | src/transformer.ts:89-118 | the keyword and type passes do not destroy a placeholder: it comes out as it went in, and the text on either side is rewritten on its own |
| `Transformer.RewriteCreatesNoBody` | src/transformer.ts:111-118 | the keyword and type passes create no placeholder body |
| `Transformer.StringsRestored` | src/transformer.ts:99-121 | restoring strings undoes the template and quoted-string passes |
| `Transformer.CommentsRestored` | src/transformer.ts:87-124 | restoring comments then undoes the block and line comment passes |
| `Transformer.RoundTrip` | src/transformer.ts:80-127 | with no placeholder body in the source or in a span, and no pattern outside the spans, `transform` returns its input |
| `Transformer.PlainTransformed` | src/transformer.ts:80-127 | source with nothing to mask and no placeholder body is only rewritten |
| `Transformer.QuotedStringKept` | src/transformer.ts:105-121 | a source that is one quoted literal with no `/` and no backquote in it comes back unchanged, keywords inside included |
| `Transformer.LiteralBetween` | src/transformer.ts:80-127 | in source made of a quoted literal between two stretches with nothing to mask, the stretches are rewritten and the literal comes back as it was |
| `Transformer.QuotedBetween` | src/transformer.ts:105-108 | the quoted-string pass takes a literal as span 0 and copies the text on either side |
| `Transformer.LineCommentKept` | src/transformer.ts:93-124 | a source that is one line comment without a star comes back unchanged |
| `Examples.ConstDeclaration` | src/transformer.ts:10 | `定数 x = 1;` becomes `const x = 1;` |
| `Examples.IfStatement` | src/transformer.ts:12-65 | `もし (a かつ b) { 表示(a); }` becomes `if (a && b) { console.log(a); }` |
| `Examples.StringLiteralKept` | src/transformer.ts:105-121 | `"文字列"` is unchanged |
| `Examples.LineCommentUnchanged` | src/transformer.ts:93-124 | `// 表示 は関数です` is unchanged |
| `Examples.PrintStringLiteral` | src/transformer.ts:65-121 | `表示("文字列")` becomes `console.log("文字列")` |
| `Examples.StringType` | src/transformer.ts:70 | a bare `文字列` becomes `string` |
| `Examples.ElseIf` | src/transformer.ts:4-12 | `そうでなければもし (x)` becomes `else if (x)` |
| `Examples.PrivateModifier` | src/transformer.ts:28-29 | `非公開` becomes `非public` |
| `Examples.VoidType` | src/transformer.ts:35-73 | `無効` becomes `null効` |
| `Examples.BooleanType` | src/transformer.ts:33-72 | `真偽値` becomes `truefalse値` |
| `Examples.NeverType` | src/transformer.ts:35-76 | `絶対無` becomes `絶対null` |
| `Examples.NestedComment` | src/transformer.ts:87-124 | `// see /* x */` becomes `// see __COMMENT_0__`, because restoring is not nested |
| `Examples.NestedString` | src/transformer.ts:99-121 | `'a `b` c'` becomes `'a __STRING_0__ c'` |
| `Examples.SwallowedBreak` | src/transformer.ts:87-124 | in `// a /* b⏎*/ 定数` the `/*` opens a block comment that takes the line break, so the line comment then takes `定数` and the output is `// a __COMMENT_0__ 定数` |
| `Examples.SlashesInString` | src/transformer.ts:93-108 | in `"a//b"; 定数` the `//` starts a line comment that takes the rest of the line, so `定数` stays |

## Left out

- src/cli.ts is not part of this model. It does file and process I/O: argument
  handling, finding the runner, temporary files, and `execSync`.
- src/runtime.ts is not part of this model. Its aliases pass straight through
  to built-in `Array` and `String` methods that cannot be seen here.
- Text encoding: a Dafny `char` is a Unicode scalar value, and JavaScript
  strings are UTF-16 code units. Every pattern and opening character is in the
  Basic Multilingual Plane, where the two agree. A character outside that plane
  is one `char` here but two code units there.
- The regex engine in general: only the four masking regexes and the
  restoring regex are modelled, as scanners. The table patterns are literal
  substrings. JavaScript `.` is taken to exclude `\n`, `\r`, U+2028 and
  U+2029.
- `parseInt` is exact on any digit string. JavaScript loses precision above
  2^53, where an index would be far past any list.
- `Transformer.RoundTrip`: its preconditions are stronger than "no
  `__STRING_`/`__COMMENT_` text". Source that spells out `STRING_5` between two
  comments can form a placeholder from the neighbouring placeholders'
  underscores.
- Nested masks are not restored. A span that captured another span's
  placeholder keeps it, as `Examples.NestedComment` and `Examples.NestedString`
  show. The round trip therefore requires that no span hold a placeholder of
  its own kind.
