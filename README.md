# HTML tag commenter: a Dafny model

The tag-toggle editor extension offers one command. It finds the HTML element
whose opening delimiter is at or just left of the cursor, and it wraps that
delimiter in `<!-- ... -->`. When the element is not self-closing, the
command also wraps the closing delimiter that balances it. This project
models the extension's core in `extension.js` and proves its properties:

- `findTagAtPosition`: the locator;
- `findClosingTag`: the depth-counting matcher;
- `isSelfClosingTag`: the void-element test;
- `commentOutTag`: the edits it asks the editor to make.

Modules, one file each:

- `Text` (`text.dfy`) covers characters, the `\w` and `\s` classes, ASCII
  lower-casing and the line-addressed `Document`. On lines without
  characters above U+FFFF, one `char` is one UTF-16 code unit, so string
  indices are the editor's columns.
- `Tags` (`tags.dfy`) holds the `TagSpan` and `TagInfo` records, the 14
  void elements, the first capture of `<(\w+)` (`TagNameIn`) and the
  self-closing test.
- `Matcher` (`matcher.dfy`) holds `FindClosingTag`, an imperative method with
  the source's two nested loops. It is proved against a depth
  specification:
  - `Delta` is +1 at a `<name` opener that is not `</`, -1 at a `</name>`
    closer, and 0 elsewhere.
  - `Net` sums `Delta` over a column range.
  - `Carry` is the depth at the start of a line, and `Depth` the depth
    before a column.
  - The answer is the first closer at which the depth drops to 0
    (`IsMatchingCloser`). There is none exactly when the depth stays
    positive to the end (`NoMatchingCloser`).
- `Locator` (`locator.dfy`) holds `FindTagAtPosition`, an imperative method
  with the source's backward scan for `<` and forward scan for `>`. It is
  proved against `IsLocated` and `NotLocatable`, which name the nearest
  qualifying `<`, the first `>` after it, the captured name, the
  self-closing decision and the matcher's answer.
- `Commenter` (`commenter.dfy`) holds the edit list of `commentOutTag`. The
  editor applies it through `ApplyEdits`, back to front, so every offset
  still refers to the original text. The module proves the effect on the
  document and that the edits lose nothing.
- `Examples` (`examples.dfy`) works through small documents.

The backward scan skips a `<` whose *preceding* character is `/`, exactly
as the code does. That test does not recognise a closing delimiter `</x>`,
whose `/` follows the `<`. With the cursor inside `</div>`, the scan stops
at that `<`. The delimiter then holds no `<\w`, and nothing is located
(`Examples.CursorOnCloserFindsNothing`). A `<` written right after a `/`,
as in `a/<b>`, is never chosen (`Examples.OpenerAfterSlashIsSkipped`). The
model keeps both behaviours as written.

## Model

| member | source | states |
|---|---|---|
| Text.IsWordChar | extension.js:66 | definition: the `\w` class of `<(\w+)`, the ASCII letters, the digits and `_` |
| Text.IsSpace | extension.js:125 | definition: the `\s` class of the opener pattern, the ECMAScript white space and line terminators: tab, LF, VT, FF, CR, space, U+00A0, U+1680, U+2000 to U+200A, U+2028, U+2029, U+202F, U+205F, U+3000 and U+FEFF |
| Text.LowerChar | extension.js:212 | ASCII capitals map to their lower-case letter (32 code points up); every other character is kept |
| Text.Lower | extension.js:212 | lower-casing keeps the length and lowers each character independently |
| Tags.NameStart | extension.js:66 | the result is the leftmost index at or after `k` where `<\w` matches, or there is none |
| Tags.WordRun | extension.js:66 | the result is the maximal run of word characters starting at `i`: a slice of the input, all `\w`, followed by a non-word character or the end |
| Tags.IsVoidElement | extension.js:195-213 | definition: the name, lower-cased, is one of the 14 void elements `area` to `wbr` |
| Tags.TagNameIn | extension.js:66-70 | there is no match exactly when no `<` in the delimiter is followed by a word character; a captured name is a non-empty run of `\w` |
| Tags.TagNameCapture | extension.js:66-70 | `TagNameIn` answers `name` exactly when `<(\w+)` captures `name`: the leftmost `<\w` is at some `k` and `name` is the whole run of word characters after that `<`, ended by a non-word character or the end |
| Tags.CaptureIsTagName | extension.js:66-70 | a capture at the leftmost `<\w` determines the answer of `TagNameIn` |
| Tags.WordRunUnique | extension.js:66 | any run of word characters at `i` that ends at a non-word character or the end is the captured run |
| Tags.NameAfterBracket | extension.js:65-70 | a delimiter that starts with `<name` followed by a non-word character captures exactly `name` |
| Tags.LowerMatchesIgnoringCase | extension.js:212 | for a lower-case target, comparing after `toLowerCase` is the same as comparing ignoring ASCII case |
| Tags.VoidElementsAreLowerCase | extension.js:196-211 | every listed void element is already lower case |
| Tags.VoidElementIgnoresCase | extension.js:195-213 | a name is a void element exactly when it equals one of the 14 listed names, ignoring case |
| Tags.HasSelfCloseMarker | extension.js:73 | definition: `/>` occurs somewhere in the text |
| Tags.SelfClosing | extension.js:73 | definition: the delimiter contains `/>` or its name is a void element |
| Tags.SelfCloseMarkerIsAtEnd | extension.js:73 | in a delimiter whose only `>` is its last character, `/>` occurs exactly when the character before that `>` is `/` |
| Matcher.IsOpenerAt | extension.js:123-126 | definition: `<name` starts at the column and is followed by a whitespace character or `>` |
| Matcher.IsCloserAt | extension.js:127 | definition: `</name>` starts at the column |
| Matcher.StartsClosing | extension.js:129 | definition: `</` starts at the column |
| Matcher.Delta | extension.js:121-142 | definition: at a `<`, +1 when an opener matches and the text there does not start with `</`, else -1 when a closer matches, else 0; 0 at every other column |
| Matcher.DepthStep | extension.js:120-135 | examining one column changes the depth by exactly that column's `Delta` |
| Matcher.CarryNext | extension.js:145-147 | the depth at the start of the next line equals the depth at the end of this one |
| Matcher.FindClosingTag | extension.js:111-151 | a returned span is the matching closer: a `</name>` after the start that brings the depth to 0 while it stayed positive before; `null` means the depth stays positive through the rest of the document |
| Matcher.CloserSpanText | extension.js:131-140 | a matched closer lies at or after the start, fits on its line, reads exactly `</name>` and is 3 characters longer than the name |
| Matcher.CloserText | extension.js:127 | a closer at a column is the text `</name>` there |
| Matcher.MatchingCloserUnique | extension.js:111-151 | from the same start at most one span satisfies the matching-closer specification |
| Matcher.MatchExcludesNoCloser | extension.js:111-151 | a document with a matching closer is never one where the depth stays positive to the end |
| Matcher.OpenerNotCloser | extension.js:123-129 | for a tag name, an opener never starts with `</` and no column is both an opener and a closer |
| Matcher.DeltaCounts | extension.js:120-135 | `Delta` is +1 exactly at an opener and -1 exactly at a closer |
| Matcher.NetCountsOpenersAndClosers | extension.js:120-135 | over any column range, the depth change is the number of `<name` openers minus the number of `</name>` closers |
| Matcher.NetFlat | extension.js:121 | columns that hold no `<` leave the depth unchanged |
| Examples.NestedDivBrackets | extension.js:121-135 | in `<div><div>x</div></div>`, column 5 opens and columns 11 and 17 close, and no other column after 5 holds `<` |
| Examples.NestedDivExample | extension.js:111-151 | after the first `<div>` of `<div><div>x</div></div>`, the answer is the outer `</div>` at column 17, not the inner one |
| Locator.FindTagAtPosition | extension.js:35-109 | a returned tag satisfies `IsLocated` (nearest `<` not after `/`, first `>`, captured name, self-closing decision, matching closer); `null` means one of the four failure cases of `NotLocatable` |
| Locator.IsOpenBracket | extension.js:46 | definition: the column holds `<` and is the first column or does not follow `/` |
| Locator.ScanFails | extension.js:55-62 | a `<` with no `>` after it gives `null` |
| Locator.ScanUnresolvable | extension.js:66-68 | no name in the delimiter gives `null`, and so does a non-self-closing tag without a closer (extension.js:94-97) |
| Locator.ScanLocates | extension.js:73-108 | the facts gathered by the scans make the returned record the located tag |
| Locator.NearestOpenUnique | extension.js:45-50 | the backward scan's `<` is determined by the line and the cursor |
| Locator.FirstGtUnique | extension.js:55-60 | the forward scan's `>` is determined by the start column |
| Locator.LocatedUnique | extension.js:35-109 | the located tag is determined by the document and the cursor |
| Locator.LocatedExcludesNotLocatable | extension.js:35-109 | a cursor that locates a tag is not a `null` case, so the two outcomes of the locator exclude each other |
| Locator.ScanSucceeds | extension.js:45-108 | when the nearest `<` and its first `>` delimit a resolvable tag, the locator does not return `null` |
| Locator.LocatedOpenSpan | extension.js:45-79 | the opening span is on the cursor's line and starts at or before the cursor at a `<` not after `/`; it ends just after its only `>`, is at least 2 wide, and its name is `\w+` |
| Locator.SelfClosingAtEnd | extension.js:73 | for a delimiter ending at its first `>`, the `/>` test looks only at the character before that `>` |
| Locator.LocatedSelfClosing | extension.js:73 | a located tag is self-closing exactly when its delimiter ends in `/>` or its name is a void element |
| Locator.LocatedCloseSpan | extension.js:73-108 | a located tag has a closer exactly when it is not self-closing; the closer follows the opening span and reads `</name>` |
| Commenter.SpanText | extension.js:159-162 | the span's text has the span's width and holds, in order, the characters of its line from the span's start |
| Commenter.Wrap | extension.js:171 | the wrapper is nine characters longer than its text, starts with `<!-- `, ends with ` -->` and holds the text unchanged between the two |
| Commenter.ApplyEdits | extension.js:156-192 | applying ordered edits keeps the number of lines, and every line that no edit addresses is unchanged |
| Commenter.ApplyEdit | extension.js:164-172 | definition: one range replacement, which splices the replacement into the edit's line in place of its span and leaves the other lines as they are |
| Commenter.Splice | extension.js:164-172 | a replacement changes the line length by the replacement's length minus the span's |
| Commenter.CommentOutEdits | extension.js:153-193 | the opening span is always rewritten, and the closing span too exactly when the tag is not self-closing and has one; each replacement is its own span's original text wrapped in a comment |
| Commenter.CommentOut | extension.js:153-193 | definition: the document after the editor applies the comment-out edits of the tag |
| Commenter.CommentOutEffect | extension.js:156-192 | the new document is the old one with the opening span wrapped and, when rewritten, the closing span wrapped (on its own line or on the same line); every other line is unchanged |
| Commenter.CommentOutOpenOnly | extension.js:158-172 | with no closing span to rewrite, only the opening line changes, by wrapping the opening span |
| Commenter.CommentOutSameLine | extension.js:164-190 | with both spans on one line, rewriting the later span first leaves the earlier one's offsets valid, and the line ends up with both wrapped |
| Commenter.SpliceLaterFirst | extension.js:164-190 | on one line, replacing the later span by its wrapper first keeps the earlier span's text at its offsets, and then wrapping it leaves both spans wrapped |
| Commenter.UncommentAt | extension.js:171 | wrapping adds 9 characters, and replacing the wrapped span by its original text gives the line back |
| Commenter.ApplyOne | extension.js:156-192 | a single edit is applicable and applies as itself |
| Commenter.ApplyTwo | extension.js:156-192 | two ordered edits are applicable and apply later-first, leaving the earlier span valid |
| Commenter.CommentOutReversible | extension.js:153-193 | commenting out loses nothing: restoring each wrapped span (shifted by 9 when it follows the opening one on its line) gives back the original document |
| Commenter.ReversibleOpenOnly | extension.js:158-172 | reversibility when only the opening delimiter is wrapped |
| Commenter.ReversibleTwoLines | extension.js:156-192 | reversibility when the delimiters are on different lines |
| Commenter.UncommentSecond | extension.js:182-190 | on a line with both spans wrapped, removing the second wrapper at its shifted offsets leaves only the first |
| Commenter.ReversibleOneLine | extension.js:156-192 | reversibility when both delimiters are on one line |
| Commenter.ShapedTagEdits | extension.js:153-193 | for a tag whose closer follows the opening span and reads `</name>`, the spans are well formed and the second edit is `<!-- </name> -->` |
| Commenter.LocatedTagEdits | extension.js:20-28 | a tag returned by the locator can be commented out: one edit when self-closing, two otherwise; the first keeps the delimiter as written, the second is `<!-- </name> -->` |
| Examples.DivName | extension.js:66-73 | `<div>` captures `div` and is not self-closing |
| Examples.NestedDivLocated | extension.js:35-109 | with the cursor in the first `<div>` of `<div><div>x</div></div>`, the located tag closes at column 17 |
| Examples.ImgName | extension.js:66-70 | `<img src="a.png">` captures `img` |
| Examples.ImgIsVoid | extension.js:195-213 | `img` is a void element |
| Examples.ImgLocated | extension.js:73-84 | `<img src="a.png">` is located as self-closing with no closer |
| Examples.UpperCaseImgLocated | extension.js:73-84 | `<IMG>` is self-closing, because the void test lower-cases the name |
| Examples.UpperCaseImgCommented | extension.js:158-172 | commenting out `<IMG>` gives `<!-- <IMG> -->`, keeping the spelling |
| Examples.WholeLineCommented | extension.js:171 | wrapping a span that is the whole line turns the line into `<!-- line -->` |
| Examples.OpenerAfterSlashIsSkipped | extension.js:45-52 | in `a/<b>x</b>` with the cursor on `b`, the `<` after `/` is skipped and nothing is located |
| Examples.CursorOnCloserFindsNothing | extension.js:45-68 | with the cursor inside `</div>`, the delimiter found has no name and nothing is located |
| Examples.SectionAcrossLines | extension.js:111-151 | `<section>` on line 0 is balanced by `</section>` on line 2, across an unrelated `<p>...</p>` line |
| Examples.ParagraphWrapped | extension.js:171-189 | both delimiters of `<p>x</p>` wrapped give `<!-- <p> -->x<!-- </p> -->` |
| Examples.ParagraphCommented | extension.js:153-193 | commenting out `<p>x</p>` on one line gives `<!-- <p> -->x<!-- </p> -->` |

## Left out

- `activate`, `deactivate` and the exports (extension.js:4-33, 215-220) are left out. They register the command and read the active editor and the cursor, which is host-editor I/O. The model starts from a document and a position.
- `showErrorMessage` (extension.js:12, 23, 95) is left out because it is UI output. The `null` results that trigger it are modelled.
- `editor.edit` runs asynchronously in the host editor. It is modelled by `ApplyEdits`, which applies ordered, non-overlapping edits back to front. The editor's rejection of overlapping edits and the promise it returns are not modelled.
- `document.lineAt` throws on a line outside the document. `Locator.FindTagAtPosition` therefore requires `pos.line < |doc|`, and a column past the end of the line is handled like the source handles it.
- Matcher.FindClosingTag: requires the name to be a `\w+` run, which is what its only caller passes. Names holding regular-expression metacharacters are not modelled.
- Text.Lower: lowers only ASCII letters. Tag names are `\w+` runs, and on those full Unicode lower-casing agrees with it.
- Columns are UTF-16 code units in the extension, while a `char` here is one Unicode scalar value. Lines holding a character above U+FFFF are not represented, because the columns the extension computes on such lines cannot be expressed.
- Restoring commented delimiters is not an operation of the extension. `RestoreEdits` exists only to state that commenting out loses nothing.
