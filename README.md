# FormatHtml in Dafny

A model of the `FormatHtml` class, a single forward pass that re-indents
HTML. It scans the input one byte at a time and appends to an output
string. Four mode flags decide which handler sees the current byte:

- `in_comment`;
- `in_tag`;
- `inline_tag`;
- `in_content`, which means running text goes on.

An indent depth, never negative, sets how many indent units follow each
line break it emits. Small lookahead helpers classify what starts at the
cursor: a comment opener, a closing tag or declaration, an inline tag, a
void tag, or an empty element's closing tag.

The project has five modules:

- `HtmlText` (`html_text.dfy`) holds the character classes, the two tag-name
  lists and the read-only lookahead scans as pure functions. These are the
  tag-name readers behind `isInlineTag`, `isClosedTag` and `getCurrentTag`,
  plus `isEndTag`'s forward scan, `isTagEmpty`'s backward scan, `strpos` and
  the doctype test. Lemmas characterise each scan.
- `Scanner` (`scanner.dfy`) holds the scan as a value: `Scan` carries the
  fields the pass updates. It has one function per handler, `Step` (one
  iteration of the main loop) and `Run` (the loop to the end of the input).
- `Formatting` (`format_html.dfy`) is the class `FormatHtml`, with the PHP
  fields and one method per PHP method. The lookahead helpers are proved
  equal to the `HtmlText` functions; the name readers and the `isEndTag`
  and `isTagEmpty` scans are loop methods, as in the source, and
  `IsComment` and `IsEndComment` are single comparisons. The handlers are proved
  to move the object's fields exactly as the `Scanner` functions say.
  `Process`, the main loop, ends in the state `Run` predicts.
  `AppHtmlFormatter` is the global helper: a fresh object per call.
- `Properties` (`properties.dfy`) proves what each step does in each mode,
  what whole stretches of a run do, and how the doctype prefix behaves.
  A run stretch is a comment, a tag, an inline element or a stretch of
  text.
- `Documents` (`documents.dfy`) takes documents built from block elements,
  inline elements and text, written out as HTML. It proves exactly what the
  formatter makes of them:
  - every block element opens a line of its own, indented by its nesting
    depth, and ends running text, so whatever follows it starts a new line;
  - its closing tag gets a line of its own unless the element is empty;
  - text comes out with `\r`, `\n` and `\t` dropped, on a new line unless
    running text already goes on; after it, running text goes on;
  - an inline element is copied exactly as written, on a new line unless
    running text already goes on, and leaves running text as it found it,
    so text right after an inline element that starts a block still gets a
    new line.

Where the code and its evident intent disagree, the model follows the
code:

- The void-tag test reads the tag name up to whitespace only, so `>` becomes
  part of the name. A bare `<br>` or `<hr>` is therefore never void and does
  raise the depth, although void elements are evidently meant never to raise
  it (the void list at FormatHtml.php:339-346 names `br` and `hr`). `HtmlText.VoidNeedsWhitespace` states this behaviour.
- After `-->` the cursor moves by three, and the loop's own increment moves
  it once more. The byte right after a comment is therefore never copied
  (`Properties.CommentCloses`).
- A doctype anywhere in the input makes the pass copy everything up to the
  first `>` of the whole input, wherever that `>` is. With no `>` at all
  the copied prefix is one byte long, as PHP's `false + 1` is 1.
- `<!` counts as a closing tag: any `<!` other than `<!--`, such as a second
  doctype, takes the closing-tag branch and lowers the depth.
- `Process` resets only the output and the cursor. The flags and the depth
  keep whatever the object held, and `Fix`/`Process` are specified from the
  object's old state.

## Model

| member | source | states |
|---|---|---|
| Formatting.FormatHtml.constructor | FormatHtml.php:23-53 | a new formatter has all four flags off, cursor and depth 0, empty output and a tab as indent unit |
| Formatting.FormatHtml.Fix | FormatHtml.php:64-67 | same result and same new fields as Process on the same arguments |
| Formatting.FormatHtml.Process | FormatHtml.php:78-122 | the indent unit becomes the requested number of spaces (unchanged for tabs); the depth stays non-negative; the final fields are the run of the main loop from the doctype start; the returned string is the final output |
| Formatting.FormatHtml.Advance | FormatHtml.php:94-118 | one loop iteration runs exactly the first handler whose mode is on (comment, tag, inline, default), then moves the cursor one on; depth stays non-negative |
| Formatting.FormatHtml.ParseContent | FormatHtml.php:101-117 | the default branch: control characters change nothing, `<` ends running text unless the tag is inline and goes to parseTag, text outside running text gets a line break and indent first, then the byte is copied |
| Formatting.FormatHtml.ParseComment | FormatHtml.php:124-133 | at `-->` exactly `-->` is appended, comment mode ends and the cursor jumps three; elsewhere the byte is copied and nothing else changes |
| Formatting.FormatHtml.IsEndComment | FormatHtml.php:138-141 | true exactly when `-->` starts at the cursor, reads past the end counting as no match |
| Formatting.FormatHtml.ParseInnerTag | FormatHtml.php:143-151 | the byte is copied verbatim; `>` ends tag mode; nothing else changes |
| Formatting.FormatHtml.ParseInnerInlineTag | FormatHtml.php:153-162 | the byte is copied verbatim; `>` ends inline mode and lowers the depth by one, not below zero |
| Formatting.FormatHtml.DecrementTabs | FormatHtml.php:164-170 | the depth becomes max(depth - 1, 0) and so stays non-negative |
| Formatting.FormatHtml.IsInlineTag | FormatHtml.php:175-229 | true exactly when the name read at the cursor, with every `<` and `/` dropped and ended by whitespace or `>`, is one of the 30 inline names |
| Formatting.FormatHtml.ParseTag | FormatHtml.php:231-255 | comment opener: line break and indent, comment mode; closing tag or declaration: tag mode, inline mode off, depth down one (floor 0), line break unless inline or empty; opening tag: tag mode, line break unless in running text or inline, depth up one unless void, inline mode on for inline names |
| Formatting.FormatHtml.IsComment | FormatHtml.php:260-263 | true exactly when `<!--` starts at the cursor |
| Formatting.FormatHtml.IsEndTag | FormatHtml.php:268-285 | agrees with the forward scan that finds `</` or `<!` before the first `>` |
| Formatting.FormatHtml.IsTagEmpty | FormatHtml.php:290-308 | agrees with the backward scan: whitespace skipped, another byte than `>` gives false, the start of the input gives true, and after `>` the names of the two tags are compared |
| Formatting.FormatHtml.GetCurrentTag | FormatHtml.php:315-332 | the name read from the given position with every `<` dropped, ended by whitespace, `>` or the end |
| Formatting.FormatHtml.IsClosedTag | FormatHtml.php:337-367 | true exactly when the name read at the cursor, with every `<` dropped and ended by whitespace only, is one of the six void names |
| Formatting.AppHtmlFormatter | helper.php:13-18 | the output of a newly constructed formatter on the input, which is Scanner's Formatted |
| HtmlText.NameFrom | FormatHtml.php:212-222 | the name read never holds a skipped or a stop character |
| HtmlText.NameFromReads | FormatHtml.php:212-222 | skipped bytes, then a name, then a stop byte or the end: the reader returns exactly that name |
| HtmlText.NameFromHas | FormatHtml.php:350-360 | a byte that is neither skipped nor a stop, with no stop before it, ends up in the name |
| HtmlText.VoidNeedsWhitespace | FormatHtml.php:350-366 | a tag whose first `>` comes before any whitespace, such as a bare `<br>`, is never void |
| HtmlText.InlineNameAgrees | FormatHtml.php:212-222 | where the whitespace-ended name holds no `/` and no `>`, the inline reader and the void reader read the same name |
| HtmlText.InlineNotVoid | FormatHtml.php:248-253 | no tag is both inline and void, so an inline opening tag always raises the depth |
| HtmlText.OpeningTagName | FormatHtml.php:212-222 | for `<name` followed by whitespace, `>` or the end, isInlineTag and getCurrentTag both read `name` |
| HtmlText.VoidTagName | FormatHtml.php:350-366 | for `<name` followed by whitespace or the end, isClosedTag reads `name` and is true iff it is a void name |
| HtmlText.ClosingTagName | FormatHtml.php:292 | for `</name` followed by whitespace, `>` or the end, isInlineTag and getCurrentTag(i+2) both read `name` |
| HtmlText.EndTagFromIff | FormatHtml.php:268-285 | the forward scan is true iff `</` or `<!` occurs at or after the cursor with no `>` before it |
| HtmlText.ScanSkipsSpace | FormatHtml.php:296-301 | outside a tag, the backward scan passes over whitespace unchanged |
| HtmlText.ScanSkipsTagBody | FormatHtml.php:302-304 | inside a tag, the backward scan passes over bytes other than `<` unchanged |
| HtmlText.TagEmptyAfterSpaceOnly | FormatHtml.php:295-307 | only whitespace before the closing tag: empty |
| HtmlText.TagEmptyAfterText | FormatHtml.php:299-300 | last non-whitespace byte before the closing tag is not `>`: not empty |
| HtmlText.TagEmptyAfterTag | FormatHtml.php:302-303 | last non-whitespace byte is `>` of a tag starting at p: empty iff getCurrentTag(i+2) equals getCurrentTag(p+1) |
| HtmlText.TagEmptyAfterStrayGt | FormatHtml.php:295-307 | last non-whitespace byte is a `>` with no `<` before it: empty |
| HtmlText.IndexOf | FormatHtml.php:90 | strpos: the first position holding the byte, or the length when there is none |
| Scanner.Step | FormatHtml.php:94-118 | one iteration keeps the depth non-negative, moves the cursor by 1 or 4 and only appends to the output |
| Scanner.Run | FormatHtml.php:94-119 | the loop ends at or past the end of the input with a non-negative depth and an output that extends the one it started from |
| Properties.StepAdvance | FormatHtml.php:124-133 | the cursor moves by 4 exactly when a comment closes at it, otherwise by 1, so the loop terminates |
| Properties.CommentModeCopies | FormatHtml.php:130-131 | comment mode away from `-->`: the byte is copied, nothing else changes |
| Properties.CommentCloses | FormatHtml.php:126-129 | comment mode at `-->`: exactly `-->` is appended, comment mode ends, the next byte looked at is four on |
| Properties.TagModeCopies | FormatHtml.php:143-151 | tag mode copies the byte, including control characters; `>` and only `>` ends tag mode |
| Properties.InlineModeCopies | FormatHtml.php:153-162 | inline mode copies the byte; `>` ends inline mode and lowers the depth (floor 0) |
| Properties.DefaultDropsControl | FormatHtml.php:102-104 | default mode on `\r`, `\n` or `\t`: nothing is appended and only the cursor moves |
| Properties.DefaultText | FormatHtml.php:111-117 | default mode on text: a line break and indent come first unless running text goes on; running text is then on |
| Properties.CommentOpens | FormatHtml.php:233-235 | default mode at `<!--`: line break and indent, then `<`, comment mode on, depth unchanged |
| Properties.ClosingDefault | FormatHtml.php:106-110 | default mode at a closing tag or `<!`, before the cursor moves: tag mode on, inline mode off, running text kept only for inline tags, depth down (floor 0), a line break at the new depth unless inline or empty, then `<` |
| Properties.ClosingTagOpens | FormatHtml.php:236-242 | a whole step at a closing tag: tag mode on, inline mode off, depth down (floor 0), line break unless inline or empty, running text kept only for inline tags |
| Properties.OpeningDefault | FormatHtml.php:106-110 | default mode at an opening tag, before the cursor moves: tag mode on, inline mode iff an inline name, running text kept only for inline tags, depth up one unless void, a line break at the old depth unless an inline tag inside running text, then `<` |
| Properties.OpeningTagOpens | FormatHtml.php:243-254 | a whole step at an opening tag: tag mode on, inline mode iff inline name, depth up one unless void, line break unless an inline tag inside running text |
| Properties.CommentCopied | FormatHtml.php:124-133 | from inside a comment, everything through the next `-->` is copied verbatim and the run resumes four past it |
| Properties.TagCopied | FormatHtml.php:143-151 | from inside a tag, everything through the next `>` is copied verbatim and tag mode ends |
| Properties.InlineCopied | FormatHtml.php:153-162 | in inline mode, everything through the next `>` is copied verbatim, then inline mode ends one level up |
| Properties.InlineOpens | FormatHtml.php:244-253 | an inline opening tag sets tag and inline mode together and raises the depth by one |
| Properties.OpeningNotEnd | FormatHtml.php:268-285 | `<name>` with a plain name is neither a comment opener nor a closing tag |
| Properties.BlockOpenTag | FormatHtml.php:243-254 | a block opening tag `<name>` comes out on a new line at the current depth, verbatim, and raises the depth |
| Properties.BlockCloseTag | FormatHtml.php:236-242 | a block closing tag `</name>` comes out verbatim one level up, on a new line unless the element is empty |
| Properties.InlineElement | FormatHtml.php:153-162 | an inline element `<x ...>...</x>` is copied verbatim with depth and running text unchanged, on a new line only outside running text |
| Properties.RemoveStripped | FormatHtml.php:102-104 | what is left of text after dropping `\r`, `\n`, `\t` holds none of them and is no longer |
| Properties.TextRun | FormatHtml.php:102-117 | a stretch of text with no `<` comes out without control characters, after a line break and indent unless running text goes on or nothing is left |
| Properties.PlainTextRun | FormatHtml.php:94-119 | input with no `<` comes out, from the initial fields, as one line of its text without control characters, or as nothing |
| Properties.PlainTextFormatted | FormatHtml.php:78-122 | the same for the whole pass on a fresh formatter |
| Properties.NoDoctypeWithoutLt | FormatHtml.php:89 | an input without `<` holds no doctype |
| Properties.DoctypePrefix | FormatHtml.php:89-92 | with a doctype anywhere, the output starts with the input through its first `>` (one byte when there is none) and the loop starts right after |
| Properties.NoDoctypeStart | FormatHtml.php:87-92 | without a doctype the loop starts at 0 with empty output |
| Properties.NoLtStart | FormatHtml.php:87-94 | without any `<`, the pass is the main loop from the initial fields |
| Documents.RenderAllFollowed | FormatHtml.php:89 | a written document holds no `<!`, hence no doctype |
| Documents.FollowedNoDoctype | FormatHtml.php:89 | text where every `<` is followed by something other than `!` has no doctype |
| Documents.ClosingEmpty | FormatHtml.php:290-308 | a block element's closing tag is empty exactly when the element has no children |
| Documents.ClosingAfterChild | FormatHtml.php:295-304 | a closing tag right after a child node (text, or another closing tag) is not empty |
| Documents.RunText | FormatHtml.php:102-117 | text in a document comes out without control characters, on a new line unless running text goes on, and running text is then on |
| Documents.RunInline | FormatHtml.php:153-162 | an inline element in a document is copied as written, on a new line unless running text goes on |
| Documents.RunElement | FormatHtml.php:236-254 | a block element: opening tag on a new line at its depth, children one level deeper, closing tag back at its depth on a new line unless the element is empty |
| Documents.RunNode | FormatHtml.php:94-118 | any node of a document comes out as its formatted form |
| Documents.RunForest | FormatHtml.php:94-118 | a sequence of nodes comes out as their formatted forms one after the other |
| Documents.FormattedDocument | FormatHtml.php:78-122 | the whole pass on a written well-formed document equals `PrettyAll`: every block opening tag on a new line at its nesting depth, its closing tag on a new line at that depth unless the element has no children, text with control characters dropped and inline elements copied as written, each on a new line unless running text precedes it |

## Left out

- The PCRE engine: `/<\!doctype/i` is a caseless substring test with ASCII case folding, `/\s/` the six ASCII whitespace bytes, `/[\r\n\t]/` a fixed set.
- Encodings: input and output are sequences of characters, one per PHP byte; there is no UTF-8 handling.
- PHP warnings for string offsets read past the end: such comparisons are "no match", as PHP's comparison with an empty string is.
- The `null` output of a pass that appends nothing is the empty string.
- Formatting.FormatHtml.Process: the indent length is a natural number; a negative length, an error in `str_repeat`, is not modelled.
- Idempotence and well-formed output for arbitrary input are not claimed; the source does not promise them. `Documents.FormattedDocument` states the output only for documents written from the `Documents.Node` datatype.
- Documents.FormattedDocument: it covers documents whose tags have plain names and no attributes, whose text is non-empty, has no `<` and does not end in whitespace or `>`, and whose inline elements hold only text with no `<` and no `>`. Comments, void tags, attributes and nested inline elements inside a document are covered step by step by the `Properties` lemmas only.
