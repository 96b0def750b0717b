/** What the scan promises: how one step of the main loop acts in each
    mode, and what whole stretches of the run do (verbatim copying of
    comments, tags and inline content, dropping of control characters in
    text, the doctype prefix). */
module Properties {
  import opened HtmlText
  import opened Scanner

  /** No comment, tag or inline mode: the default branch handles the step. */
  predicate DefaultMode(st: Scan) {
    !st.inComment && !st.inTag && !st.inlineTag
  }

  // ---------------------------------------------------------------------
  // One step

  /** The cursor moves by 4 exactly when a comment closes at it, and by 1
      otherwise, so every iteration moves forward. */
  lemma StepAdvance(s: string, u: string, st: Scan)
    requires st.i < |s| && st.depth >= 0
    ensures Step(s, u, st).i == if st.inComment && EndCommentAt(s, st.i) then st.i + 4 else st.i + 1
  {
  }

  /** Comment mode away from `-->`: the character is copied and nothing
      else changes. */
  lemma CommentModeCopies(s: string, u: string, st: Scan)
    requires st.i < |s| && st.depth >= 0
    requires st.inComment && !EndCommentAt(s, st.i)
    ensures Step(s, u, st) == st.(out := st.out + [s[st.i]], i := st.i + 1)
  {
  }

  /** Comment mode at `-->`: exactly `-->` is appended, comment mode ends
      and the next position looked at is four further on. */
  lemma CommentCloses(s: string, u: string, st: Scan)
    requires st.i < |s| && st.depth >= 0
    requires st.inComment && EndCommentAt(s, st.i)
    ensures Step(s, u, st) == st.(out := st.out + "-->", inComment := false, i := st.i + 4)
  {
  }

  /** Tag mode: the character is copied; `>` ends tag mode. */
  lemma TagModeCopies(s: string, u: string, st: Scan)
    requires st.i < |s| && st.depth >= 0
    requires !st.inComment && st.inTag
    ensures Step(s, u, st) == st.(out := st.out + [s[st.i]], inTag := s[st.i] != '>', i := st.i + 1)
  {
  }

  /** Inline mode: the character is copied; `>` ends inline mode and takes
      one level off the depth. */
  lemma InlineModeCopies(s: string, u: string, st: Scan)
    requires st.i < |s| && st.depth >= 0
    requires !st.inComment && !st.inTag && st.inlineTag
    ensures Step(s, u, st) == st.(out := st.out + [s[st.i]], i := st.i + 1,
                                  inlineTag := s[st.i] != '>',
                                  depth := if s[st.i] == '>' then Decrement(st.depth) else st.depth)
  {
  }

  /** Default mode drops `\r`, `\n` and `\t`: only the cursor moves. */
  lemma DefaultDropsControl(s: string, u: string, st: Scan)
    requires st.i < |s| && st.depth >= 0
    requires DefaultMode(st) && s[st.i] in Stripped
    ensures Step(s, u, st) == st.(i := st.i + 1)
  {
  }

  /** Default mode on text: the first character of a run of text gets a
      line of its own at the current depth, later ones are appended. */
  lemma DefaultText(s: string, u: string, st: Scan)
    requires st.i < |s| && st.depth >= 0
    requires DefaultMode(st) && s[st.i] !in Stripped && s[st.i] != '<'
    ensures Step(s, u, st) == st.(out := st.out + (if st.inContent then [] else NewLine(u, st.depth)) + [s[st.i]],
                                  inContent := true, i := st.i + 1)
  {
  }

  /** Default mode at `<!--`: a line break and indent, then `<`, and
      comment mode starts. */
  lemma CommentOpens(s: string, u: string, st: Scan)
    requires st.i < |s| && st.depth >= 0
    requires DefaultMode(st) && CommentAt(s, st.i)
    ensures var r := Step(s, u, st);
      && r.out == st.out + NewLine(u, st.depth) + "<"
      && r.inComment && !r.inTag && !r.inlineTag
      && r.depth == st.depth && r.i == st.i + 1
  {
  }

  /** In default mode the step is the default branch plus the cursor
      increment. */
  lemma StepInDefault(s: string, u: string, st: Scan)
    requires st.i < |s| && st.depth >= 0 && DefaultMode(st)
    ensures Step(s, u, st) == DefaultStep(s, u, st).(i := st.i + 1)
  {
  }

  /** The default branch at `<`: running text ends unless the tag is
      inline, then parseTag, then the `<` itself. */
  lemma DefaultAtLt(s: string, u: string, st: Scan)
    requires st.i < |s| && st.depth >= 0 && s[st.i] == '<'
    ensures var st1 := if !IsInlineAt(s, st.i) then st.(inContent := false) else st;
      DefaultStep(s, u, st) == TagStep(s, u, st1).(out := TagStep(s, u, st1).out + "<")
  {
  }

  /** Default mode at a closing tag or declaration: tag mode starts, inline
      mode is off, the depth drops by one (not below zero), and a line break
      and indent come first unless the tag is inline or closes an empty
      element. */
  lemma ClosingTagOpens(s: string, u: string, st: Scan)
    requires st.i < |s| && st.depth >= 0
    requires DefaultMode(st) && s[st.i] == '<' && !CommentAt(s, st.i) && EndTagFrom(s, st.i)
    ensures Step(s, u, st)
         == st.(inTag := true, inlineTag := false,
                inContent := st.inContent && IsInlineAt(s, st.i),
                depth := Decrement(st.depth),
                out := st.out + (if !IsInlineAt(s, st.i) && !TagEmpty(s, st.i)
                                 then NewLine(u, Decrement(st.depth)) else []) + "<",
                i := st.i + 1)
  {
    ClosingDefault(s, u, st);
    StepInDefault(s, u, st);
  }

  /** The default-mode handler on that `<`, before the position moves on. */
  lemma ClosingDefault(s: string, u: string, st: Scan)
    requires st.i < |s| && st.depth >= 0
    requires DefaultMode(st) && s[st.i] == '<' && !CommentAt(s, st.i) && EndTagFrom(s, st.i)
    ensures DefaultStep(s, u, st)
         == st.(inTag := true, inlineTag := false,
                inContent := st.inContent && IsInlineAt(s, st.i),
                depth := Decrement(st.depth),
                out := st.out + (if !IsInlineAt(s, st.i) && !TagEmpty(s, st.i)
                                 then NewLine(u, Decrement(st.depth)) else []) + "<")
  {
    var inline := IsInlineAt(s, st.i);
    var empty := TagEmpty(s, st.i);
    var st1 := if !inline then st.(inContent := false) else st;
    var d := Decrement(st.depth);
    var t := st1.(inTag := true, inlineTag := false, depth := d,
                  out := if !inline && !empty then st.out + NewLine(u, d) else st.out);
    ClosingTagStep(s, u, st1);
    assert TagStep(s, u, st1) == t;
    DefaultAtLt(s, u, st);
    assert DefaultStep(s, u, st) == t.(out := t.out + "<");
  }

  /** parseTag at a closing tag or declaration. */
  lemma ClosingTagStep(s: string, u: string, st: Scan)
    requires st.i < |s| && st.depth >= 0 && !CommentAt(s, st.i) && EndTagFrom(s, st.i)
    ensures TagStep(s, u, st)
         == st.(inTag := true, inlineTag := false, depth := Decrement(st.depth),
                out := if !IsInlineAt(s, st.i) && !TagEmpty(s, st.i) then st.out + NewLine(u, Decrement(st.depth)) else st.out)
  {
  }

  /** parseTag at an opening tag. */
  lemma OpeningTagStep(s: string, u: string, st: Scan)
    requires st.i < |s| && st.depth >= 0 && !CommentAt(s, st.i) && !EndTagFrom(s, st.i)
    ensures TagStep(s, u, st)
         == st.(inTag := true,
                out := if !st.inContent && !st.inlineTag then st.out + NewLine(u, st.depth) else st.out,
                depth := if !IsClosedAt(s, st.i) then st.depth + 1 else st.depth,
                inlineTag := IsInlineAt(s, st.i) || st.inlineTag)
  {
  }

  /** Default mode at an opening tag: tag mode starts; a line break and
      indent come first unless the tag is inline inside running text; the
      depth rises by one unless the tag is void; inline mode is on exactly
      for inline tags. */
  lemma OpeningTagOpens(s: string, u: string, st: Scan)
    requires st.i < |s| && st.depth >= 0
    requires DefaultMode(st) && s[st.i] == '<' && !CommentAt(s, st.i) && !EndTagFrom(s, st.i)
    ensures Step(s, u, st)
         == st.(inTag := true, inlineTag := IsInlineAt(s, st.i),
                inContent := st.inContent && IsInlineAt(s, st.i),
                depth := if IsClosedAt(s, st.i) then st.depth else st.depth + 1,
                out := st.out + (if st.inContent && IsInlineAt(s, st.i) then [] else NewLine(u, st.depth)) + "<",
                i := st.i + 1)
  {
    OpeningDefault(s, u, st);
    StepInDefault(s, u, st);
  }

  /** The default-mode handler on that `<`, before the position moves on. */
  lemma OpeningDefault(s: string, u: string, st: Scan)
    requires st.i < |s| && st.depth >= 0
    requires DefaultMode(st) && s[st.i] == '<' && !CommentAt(s, st.i) && !EndTagFrom(s, st.i)
    ensures DefaultStep(s, u, st)
         == st.(inTag := true, inlineTag := IsInlineAt(s, st.i),
                inContent := st.inContent && IsInlineAt(s, st.i),
                depth := if IsClosedAt(s, st.i) then st.depth else st.depth + 1,
                out := st.out + (if st.inContent && IsInlineAt(s, st.i) then [] else NewLine(u, st.depth)) + "<")
  {
    var inline := IsInlineAt(s, st.i);
    var closed := IsClosedAt(s, st.i);
    var st1 := if !inline then st.(inContent := false) else st;
    var t := st1.(inTag := true,
                  out := if !st1.inContent then st.out + NewLine(u, st.depth) else st.out,
                  depth := if !closed then st.depth + 1 else st.depth,
                  inlineTag := inline);
    OpeningTagStep(s, u, st1);
    assert TagStep(s, u, st1) == t;
    DefaultAtLt(s, u, st);
    assert DefaultStep(s, u, st) == t.(out := t.out + "<");
  }

  // ---------------------------------------------------------------------
  // Stretches of a run

  /** From inside a comment, everything up to and including the next `-->`
      is copied verbatim, and the run resumes four past that `-->`. */
  lemma {:induction false} CommentCopied(s: string, u: string, st: Scan, e: nat)
    requires st.depth >= 0 && st.inComment && st.i <= e && EndCommentAt(s, e)
    requires forall k :: st.i <= k < e ==> !EndCommentAt(s, k)
    ensures Run(s, u, st) == Run(s, u, st.(inComment := false, i := e + 4, out := st.out + s[st.i .. e + 3]))
    decreases e - st.i
  {
    var goal := st.(inComment := false, i := e + 4, out := st.out + s[st.i .. e + 3]);
    if st.i == e {
      assert s[e .. e + 3] == "-->";
      CommentCloses(s, u, st);
      assert Step(s, u, st) == goal;
      RunUnfolds(s, u, st);
    } else {
      var next := st.(out := st.out + [s[st.i]], i := st.i + 1);
      assert next.out + s[next.i .. e + 3] == st.out + s[st.i .. e + 3];
      assert next.(inComment := false, i := e + 4, out := next.out + s[next.i .. e + 3]) == goal;
      CommentModeCopies(s, u, st);
      assert Step(s, u, st) == next;
      CommentCopied(s, u, next, e);
      RunUnfolds(s, u, st);
      assert Run(s, u, st) == Run(s, u, next);
    }
  }

  /** From inside a tag, everything up to and including the next `>` is
      copied verbatim and tag mode ends there. */
  lemma {:induction false} TagCopied(s: string, u: string, st: Scan, e: nat)
    requires st.depth >= 0 && !st.inComment && st.inTag
    requires st.i <= e < |s| && s[e] == '>'
    requires forall k :: st.i <= k < e ==> s[k] != '>'
    ensures Run(s, u, st) == Run(s, u, st.(inTag := false, i := e + 1, out := st.out + s[st.i .. e + 1]))
    decreases e - st.i
  {
    var goal := st.(inTag := false, i := e + 1, out := st.out + s[st.i .. e + 1]);
    if st.i == e {
      assert s[e .. e + 1] == ">";
      TagModeCopies(s, u, st);
      assert Step(s, u, st) == goal;
      RunUnfolds(s, u, st);
    } else {
      var next := st.(out := st.out + [s[st.i]], i := st.i + 1);
      assert next.out + s[next.i .. e + 1] == st.out + s[st.i .. e + 1];
      assert next.(inTag := false, i := e + 1, out := next.out + s[next.i .. e + 1]) == goal;
      TagModeCopies(s, u, st);
      assert Step(s, u, st) == next;
      TagCopied(s, u, next, e);
      RunUnfolds(s, u, st);
      assert Run(s, u, st) == Run(s, u, next);
    }
  }

  /** In inline mode, everything up to and including the next `>` is copied
      verbatim; there inline mode ends and the depth drops by one. */
  lemma {:induction false} InlineCopied(s: string, u: string, st: Scan, e: nat)
    requires st.depth >= 0 && !st.inComment && !st.inTag && st.inlineTag
    requires st.i <= e < |s| && s[e] == '>'
    requires forall k :: st.i <= k < e ==> s[k] != '>'
    ensures Run(s, u, st) == Run(s, u, st.(inlineTag := false, depth := Decrement(st.depth),
                                           i := e + 1, out := st.out + s[st.i .. e + 1]))
    decreases e - st.i
  {
    var goal := st.(inlineTag := false, depth := Decrement(st.depth),
                    i := e + 1, out := st.out + s[st.i .. e + 1]);
    if st.i == e {
      assert s[e .. e + 1] == ">";
      InlineModeCopies(s, u, st);
      assert Step(s, u, st) == goal;
      RunUnfolds(s, u, st);
    } else {
      var next := st.(out := st.out + [s[st.i]], i := st.i + 1);
      assert next.out + s[next.i .. e + 1] == st.out + s[st.i .. e + 1];
      assert next.(inlineTag := false, depth := Decrement(next.depth),
                   i := e + 1, out := next.out + s[next.i .. e + 1]) == goal;
      InlineModeCopies(s, u, st);
      assert Step(s, u, st) == next;
      InlineCopied(s, u, next, e);
      RunUnfolds(s, u, st);
      assert Run(s, u, st) == Run(s, u, next);
    }
  }

  /** An inline opening tag starts tag and inline mode together and opens
      one level; it gets a line break and indent only when it does not
      continue running text. */
  lemma InlineOpens(s: string, u: string, st: Scan)
    requires st.i < |s| && st.depth >= 0 && DefaultMode(st)
    requires s[st.i] == '<' && !CommentAt(s, st.i) && !EndTagFrom(s, st.i) && IsInlineAt(s, st.i)
    ensures Run(s, u, st) == Run(s, u, st.(inTag := true, inlineTag := true, depth := st.depth + 1,
                                           out := st.out + (if st.inContent then [] else NewLine(u, st.depth)) + "<",
                                           i := st.i + 1))
  {
    InlineNotVoid(s, st.i);
    OpeningTagOpens(s, u, st);
    RunUnfolds(s, u, st);
  }

  /** A name made of characters that end or are dropped from no tag name. */
  predicate PlainName(name: string) {
    |name| > 0 && name[0] != '!'
    && forall k :: 0 <= k < |name| ==> name[k] !in {'<', '/', '>'} + Whitespace
  }

  /** `<name>` cannot be a closing tag or declaration. */
  lemma OpeningNotEnd(s: string, i: nat, name: string)
    requires PlainName(name)
    requires i + 1 + |name| < |s| && s[i] == '<' && s[i + 1 .. i + 1 + |name|] == name
    requires s[i + 1 + |name|] == '>'
    ensures !EndTagFrom(s, i) && !CommentAt(s, i)
  {
    var g := i + 1 + |name|;
    assert forall k :: i < k < g ==> s[k] == name[k - i - 1];
    EndTagFromIff(s, i);
    forall m | i <= m && EndMarkAt(s, m) ensures !NoGtBetween(s, i, m) {
      assert m != i && m != g;
      assert !(i < m < g);
    }
  }

  /** Default mode at a block opening tag `<name>`: a line break and the
      indent of the current depth, then the tag verbatim; the depth rises by
      one and the text before it no longer counts as running text. */
  lemma BlockOpenTag(s: string, u: string, st: Scan, name: string)
    requires st.depth >= 0 && DefaultMode(st) && PlainName(name) && name !in InlineTags
    requires st.i + 1 + |name| < |s| && s[st.i] == '<'
    requires s[st.i + 1 .. st.i + 1 + |name|] == name && s[st.i + 1 + |name|] == '>'
    ensures var g := st.i + 1 + |name|;
      Run(s, u, st) == Run(s, u, st.(inContent := false, depth := st.depth + 1, i := g + 1,
                                     out := st.out + NewLine(u, st.depth) + s[st.i .. g + 1]))
  {
    var g := st.i + 1 + |name|;
    assert forall k :: st.i < k < g ==> s[k] == name[k - st.i - 1];
    OpeningTagName(s, st.i, name);
    VoidNeedsWhitespace(s, st.i, g);
    OpeningNotEnd(s, st.i, name);
    var r := st.(inTag := true, inContent := false, depth := st.depth + 1,
                 out := st.out + NewLine(u, st.depth) + "<", i := st.i + 1);
    var r2 := r.(inTag := false, i := g + 1, out := r.out + s[r.i .. g + 1]);
    assert s[st.i .. g + 1] == [s[st.i]] + s[st.i + 1 .. g + 1];
    assert r2 == st.(inContent := false, depth := st.depth + 1, i := g + 1,
                     out := st.out + NewLine(u, st.depth) + s[st.i .. g + 1]);
    OpeningTagOpens(s, u, st);
    assert Step(s, u, st) == r;
    RunUnfolds(s, u, st);
    assert Run(s, u, st) == Run(s, u, r);
    TagCopied(s, u, r, g);
    assert Run(s, u, r) == Run(s, u, r2);
  }

  /** Default mode at a block closing tag `</name>`: the depth drops by one
      (not below zero), then a line break and the new indent unless the
      element is empty, then the tag verbatim. */
  lemma BlockCloseTag(s: string, u: string, st: Scan, name: string)
    requires st.depth >= 0 && DefaultMode(st) && PlainName(name) && name !in InlineTags
    requires st.i + 2 + |name| < |s| && s[st.i] == '<' && s[st.i + 1] == '/'
    requires s[st.i + 2 .. st.i + 2 + |name|] == name && s[st.i + 2 + |name|] == '>'
    ensures var g := st.i + 2 + |name|;
      var d := Decrement(st.depth);
      Run(s, u, st) == Run(s, u, st.(inContent := false, depth := d, i := g + 1,
                                     out := st.out + (if TagEmpty(s, st.i) then [] else NewLine(u, d))
                                            + s[st.i .. g + 1]))
  {
    var g := st.i + 2 + |name|;
    var d := Decrement(st.depth);
    assert forall k :: st.i + 1 < k < g ==> s[k] == name[k - st.i - 2];
    ClosingTagName(s, st.i, name);
    assert EndMarkAt(s, st.i) && !CommentAt(s, st.i);
    var pre := if TagEmpty(s, st.i) then [] else NewLine(u, d);
    var r := st.(inTag := true, inContent := false, depth := d, out := st.out + pre + "<", i := st.i + 1);
    var r2 := r.(inTag := false, i := g + 1, out := r.out + s[r.i .. g + 1]);
    assert s[st.i .. g + 1] == [s[st.i]] + s[st.i + 1 .. g + 1];
    assert r2 == st.(inContent := false, depth := d, i := g + 1, out := st.out + pre + s[st.i .. g + 1]);
    ClosingTagOpens(s, u, st);
    assert Step(s, u, st) == r;
    RunUnfolds(s, u, st);
    assert Run(s, u, st) == Run(s, u, r);
    TagCopied(s, u, r, g);
    assert Run(s, u, r) == Run(s, u, r2);
  }

  /** The bytes through e, copied in three pieces. */
  lemma SplitCopy(s: string, out: string, i: nat, g: nat, e: nat)
    requires i < g < e < |s| && s[i] == '<'
    ensures out + "<" + s[i + 1 .. g + 1] + s[g + 1 .. e + 1] == out + s[i .. e + 1]
  {
    assert s[i .. e + 1] == [s[i]] + s[i + 1 .. g + 1] + s[g + 1 .. e + 1];
  }

  /** An inline element `<x ...>...</x>` is copied verbatim through the
      `>` that closes inline mode, with no change of depth and no change to
      whether running text goes on; a line break and indent come first only
      when it does not continue running text. The opening tag ends at its
      `>` at g, the content and closing tag at the next `>` at e. */
  lemma {:induction false} InlineElement(s: string, u: string, st: Scan, g: nat, e: nat)
    requires st.depth >= 0 && DefaultMode(st)
    requires st.i < g < e < |s| && s[st.i] == '<' && s[g] == '>' && s[e] == '>'
    requires !CommentAt(s, st.i) && !EndTagFrom(s, st.i) && IsInlineAt(s, st.i)
    requires forall k :: st.i < k < g ==> s[k] != '>'
    requires forall k :: g < k < e ==> s[k] != '>'
    ensures Run(s, u, st) == Run(s, u, st.(i := e + 1, out := st.out + (if st.inContent then [] else NewLine(u, st.depth))
                                                              + s[st.i .. e + 1]))
  {
    var pre := st.out + (if st.inContent then [] else NewLine(u, st.depth));
    var r := st.(inTag := true, inlineTag := true, depth := st.depth + 1,
                 out := pre + "<", i := st.i + 1);
    var r2 := r.(inTag := false, i := g + 1, out := r.out + s[st.i + 1 .. g + 1]);
    var r3 := r2.(inlineTag := false, depth := Decrement(r2.depth), i := e + 1, out := r2.out + s[g + 1 .. e + 1]);
    InlineStates(s, st, g, e, pre, r, r2, r3);
    InlineOpens(s, u, st);
    TagCopied(s, u, r, g);
    InlineCopied(s, u, r2, e);
    assert Run(s, u, st) == Run(s, u, r2);
  }

  /** The states an inline element passes through, as InlineElement names
      them: the last one has copied the element and is back where it
      started. */
  lemma InlineStates(s: string, st: Scan, g: nat, e: nat, pre: string, r: Scan, r2: Scan, r3: Scan)
    requires st.i < g < e < |s| && s[st.i] == '<' && st.depth >= 0 && !st.inTag && !st.inlineTag
    requires r == st.(inTag := true, inlineTag := true, depth := st.depth + 1, out := pre + "<", i := st.i + 1)
    requires r2 == r.(inTag := false, i := g + 1, out := r.out + s[st.i + 1 .. g + 1])
    requires r3 == r2.(inlineTag := false, depth := Decrement(r2.depth), i := e + 1, out := r2.out + s[g + 1 .. e + 1])
    ensures r.(inTag := false, i := g + 1, out := r.out + s[r.i .. g + 1]) == r2
    ensures r2.(inlineTag := false, depth := Decrement(r2.depth), i := e + 1, out := r2.out + s[r2.i .. e + 1]) == r3
    ensures r3 == st.(i := e + 1, out := pre + s[st.i .. e + 1])
  {
    SplitCopy(s, pre, st.i, g, e);
  }

  /** t without its `\r`, `\n` and `\t`. */
  function RemoveStripped(t: string): (r: string)
    ensures forall k :: 0 <= k < |r| ==> r[k] !in Stripped
    ensures |r| <= |t|
  {
    if t == [] then []
    else (if t[0] in Stripped then [] else [t[0]]) + RemoveStripped(t[1..])
  }

  /** RemoveStripped of a sequence with one more character in front. */
  lemma RemoveStrippedCons(c: char, t: string)
    ensures RemoveStripped([c] + t) == (if c in Stripped then [] else [c]) + RemoveStripped(t)
  {
    assert ([c] + t)[1..] == t;
  }

  /** Default mode over a stretch of text up to j with no `<` in it: the
      control characters vanish, the rest is copied, and a line break and
      indent come first when the text does not continue running text. */
  lemma {:induction false} TextRun(s: string, u: string, st: Scan, j: nat)
    requires st.depth >= 0 && DefaultMode(st) && st.i <= j <= |s|
    requires forall k :: st.i <= k < j ==> s[k] != '<'
    ensures var text := RemoveStripped(s[st.i .. j]);
      Run(s, u, st) == Run(s, u, st.(i := j, inContent := st.inContent || text != [],
                                     out := st.out + (if st.inContent || text == [] then [] else NewLine(u, st.depth))
                                            + text))
    decreases j - st.i
  {
    var text := RemoveStripped(s[st.i .. j]);
    if st.i == j {
      assert s[st.i .. j] == [];
      assert st.out + [] + [] == st.out;
      assert st.(i := j, inContent := st.inContent, out := st.out) == st;
    } else {
      var c := s[st.i];
      var rest := RemoveStripped(s[st.i + 1 .. j]);
      assert s[st.i .. j] == [c] + s[st.i + 1 .. j];
      RemoveStrippedCons(c, s[st.i + 1 .. j]);
      var goal := st.(i := j, inContent := st.inContent || text != [],
                      out := st.out + (if st.inContent || text == [] then [] else NewLine(u, st.depth)) + text);
      if c in Stripped {
        var next := st.(i := st.i + 1);
        assert text == rest;
        assert next.(i := j, inContent := next.inContent || rest != [],
                     out := next.out + (if next.inContent || rest == [] then [] else NewLine(u, next.depth)) + rest)
            == goal;
        DefaultDropsControl(s, u, st);
        RunUnfolds(s, u, st);
        assert Run(s, u, st) == Run(s, u, next);
        TextRun(s, u, next, j);
      } else {
        var pre := if st.inContent then [] else NewLine(u, st.depth);
        var next := st.(out := st.out + pre + [c], inContent := true, i := st.i + 1);
        assert text == [c] + rest;
        assert next.out + [] + rest == st.out + pre + text;
        assert next.(i := j, inContent := true, out := next.out + [] + rest) == goal;
        DefaultText(s, u, st);
        RunUnfolds(s, u, st);
        assert Run(s, u, st) == Run(s, u, next);
        TextRun(s, u, next, j);
      }
    }
  }

  /** From the initial fields, input without any `<` comes out as one line
      holding its text without control characters, or as nothing. */
  lemma PlainTextRun(s: string, u: string)
    requires forall k :: 0 <= k < |s| ==> s[k] != '<'
    ensures var text := RemoveStripped(s);
      Run(s, u, Fresh).out == if text == [] then [] else "\n" + text
  {
    var text := RemoveStripped(s);
    assert s[0 .. |s|] == s;
    assert NewLine(u, 0) == "\n";
    var last := Fresh.(i := |s|, inContent := text != [],
                       out := (if text == [] then [] else NewLine(u, 0)) + text);
    assert last.out == if text == [] then [] else "\n" + text;
    TextRun(s, u, Fresh, |s|);
    assert Run(s, u, Fresh) == Run(s, u, last) == last;
  }

  /** Input without any `<` comes out as one line holding its text without
      control characters, or as nothing when there is no such text. */
  lemma PlainTextFormatted(s: string, useSpaces: bool, indentLength: nat)
    requires forall k :: 0 <= k < |s| ==> s[k] != '<'
    ensures var text := RemoveStripped(s);
      Formatted(s, useSpaces, indentLength) == if text == [] then [] else "\n" + text
  {
    NoLtStart(s, useSpaces, indentLength);
    PlainTextRun(s, IndentUnit(useSpaces, indentLength, "\t"));
  }

  /** A doctype needs a `<`. */
  lemma NoDoctypeWithoutLt(s: string)
    requires forall k :: 0 <= k < |s| ==> s[k] != '<'
    ensures !HasDoctype(s)
  {
    forall k | 0 <= k <= |s| - 9 ensures !DoctypeAt(s, k) {
      assert LowerAscii(s[k + 0]) != '<' == "<!doctype"[0];
    }
  }

  /** With a doctype anywhere, the output starts with the input up to and
      including its first `>` (its first byte when there is no `>`), and the
      main loop starts right after that prefix. */
  lemma DoctypePrefix(s: string, useSpaces: bool, indentLength: nat)
    requires HasDoctype(s)
    ensures var g := IndexOf(s, '>');
      var k := if g < |s| then g + 1 else 1;
      && k <= |s| && Begin(s, Fresh).i == k
      && s[..k] <= Formatted(s, useSpaces, indentLength)
  {
    var b := Begin(s, Fresh);
    var r := Run(s, IndentUnit(useSpaces, indentLength, "\t"), b);
    assert b.out <= r.out;
  }

  /** Without any `<` the main loop starts from the initial fields. */
  lemma NoLtStart(s: string, useSpaces: bool, indentLength: nat)
    requires forall k :: 0 <= k < |s| ==> s[k] != '<'
    ensures Formatted(s, useSpaces, indentLength) == Run(s, IndentUnit(useSpaces, indentLength, "\t"), Fresh).out
  {
    NoDoctypeWithoutLt(s);
    NoDoctypeStart(s);
  }

  /** Without a doctype the main loop starts at the first byte with nothing
      copied ahead of it. */
  lemma NoDoctypeStart(s: string)
    requires !HasDoctype(s)
    ensures Begin(s, Fresh) == Fresh
  {
  }
}
