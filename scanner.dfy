/** The formatter's scan as a pure state machine: one function per handler
    of the main loop, the loop step that dispatches between them, and the
    run of the loop to the end of the input. */
module Scanner {
  import opened HtmlText

  /** The fields the scan updates: the four mode flags, the cursor, the
      indent depth and the output built so far. */
  datatype Scan = Scan(inTag: bool, inComment: bool, inContent: bool, inlineTag: bool,
                       i: nat, depth: int, out: string)

  /** The fields of a newly constructed formatter. */
  const Fresh: Scan := Scan(false, false, false, false, 0, 0, [])

  /** str_repeat. */
  function Repeat(u: string, n: nat): string {
    if n == 0 then [] else u + Repeat(u, n - 1)
  }

  /** The indent unit: `indentLength` spaces, or the unit already held. */
  function IndentUnit(useSpaces: bool, indentLength: nat, current: string): string {
    if useSpaces then Repeat(" ", indentLength) else current
  }

  /** A line break followed by `depth` indent units. */
  function NewLine(u: string, depth: nat): string {
    "\n" + Repeat(u, depth)
  }

  /** decrementTabs: one level less, never below zero. */
  function Decrement(depth: int): int {
    if depth - 1 < 0 then 0 else depth - 1
  }

  /** parseComment. */
  function CommentStep(s: string, st: Scan): Scan
    requires st.i < |s|
  {
    if EndCommentAt(s, st.i) then st.(inComment := false, out := st.out + "-->", i := st.i + 3)
    else st.(out := st.out + [s[st.i]])
  }

  /** parseInnerTag. */
  function InnerTagStep(s: string, st: Scan): Scan
    requires st.i < |s|
  {
    if s[st.i] == '>' then st.(inTag := false, out := st.out + ">")
    else st.(out := st.out + [s[st.i]])
  }

  /** parseInnerInlineTag. */
  function InlineStep(s: string, st: Scan): Scan
    requires st.i < |s|
  {
    if s[st.i] == '>' then st.(inlineTag := false, depth := Decrement(st.depth), out := st.out + ">")
    else st.(out := st.out + [s[st.i]])
  }

  /** parseTag: a comment opener, a closing tag or declaration, or an
      opening tag starts at the cursor. */
  function TagStep(s: string, u: string, st: Scan): Scan
    requires st.i < |s| && st.depth >= 0
  {
    if CommentAt(s, st.i) then
      st.(out := st.out + NewLine(u, st.depth), inComment := true)
    else if EndTagFrom(s, st.i) then
      var d := Decrement(st.depth);
      st.(inTag := true, inlineTag := false, depth := d,
          out := if !IsInlineAt(s, st.i) && !TagEmpty(s, st.i) then st.out + NewLine(u, d) else st.out)
    else
      st.(inTag := true,
          out := if !st.inContent && !st.inlineTag then st.out + NewLine(u, st.depth) else st.out,
          depth := if !IsClosedAt(s, st.i) then st.depth + 1 else st.depth,
          inlineTag := if IsInlineAt(s, st.i) then true else st.inlineTag)
  }

  /** The last branch of the loop body: no comment, tag or inline mode. */
  function DefaultStep(s: string, u: string, st: Scan): Scan
    requires st.i < |s| && st.depth >= 0
  {
    var c := s[st.i];
    if c in Stripped then st
    else if c == '<' then
      var st1 := if !IsInlineAt(s, st.i) then st.(inContent := false) else st;
      var st2 := TagStep(s, u, st1);
      st2.(out := st2.out + [c])
    else if !st.inContent then
      var o := if !st.inlineTag then st.out + NewLine(u, st.depth) else st.out;
      st.(out := o + [c], inContent := true)
    else st.(out := st.out + [c])
  }

  /** One iteration of the main loop: the first handler whose mode is on,
      then the loop's own increment of the cursor. */
  function Step(s: string, u: string, st: Scan): (r: Scan)
    requires st.i < |s| && st.depth >= 0
    ensures r.depth >= 0
    ensures r.i == st.i + 1 || r.i == st.i + 4
    ensures st.out <= r.out
  {
    var h := if st.inComment then CommentStep(s, st)
             else if st.inTag then InnerTagStep(s, st)
             else if st.inlineTag then InlineStep(s, st)
             else DefaultStep(s, u, st);
    h.(i := h.i + 1)
  }

  /** The main loop from `st` to the end of the input. */
  function Run(s: string, u: string, st: Scan): (r: Scan)
    requires st.depth >= 0
    ensures r.depth >= 0
    ensures r.i >= |s|
    ensures st.out <= r.out
    decreases |s| - st.i
  {
    if st.i >= |s| then st else Run(s, u, Step(s, u, st))
  }

  /** A run that has not reached the end is the run from the next step. */
  lemma RunUnfolds(s: string, u: string, st: Scan)
    requires st.i < |s| && st.depth >= 0
    ensures Run(s, u, st) == Run(s, u, Step(s, u, st))
  {
  }

  /** Where the main loop starts: past the first `>` of the input when a
      doctype occurs anywhere (position 1 when there is no `>`, as
      `false + 1` is), and at 0 otherwise. */
  function ScanStart(s: string): (k: nat)
    ensures k <= |s|
  {
    if HasDoctype(s) then
      var g := IndexOf(s, '>');
      if g < |s| then g + 1 else 1
    else 0
  }

  /** The state before the main loop: output reset to the copied prefix,
      cursor at the scan start, flags and depth as they were. */
  function Begin(s: string, st: Scan): Scan {
    var k := ScanStart(s);
    st.(i := k, out := s[..k])
  }

  /** fix on a newly constructed formatter. */
  function Formatted(s: string, useSpaces: bool, indentLength: nat): string {
    Run(s, IndentUnit(useSpaces, indentLength, "\t"), Begin(s, Fresh)).out
  }
}
