/** The formatter object: its fields, the main loop and one method per
    handler and lookahead helper. Every method is proved to do what the
    corresponding function of Scanner or HtmlText says. */
module Formatting {
  import opened HtmlText
  import opened Scanner

  class FormatHtml {
    var input: string
    var output: string
    var inTag: bool
    var inComment: bool
    var inContent: bool
    var inlineTag: bool
    var i: nat
    var indentDepth: int
    var indentType: string

    /** The indent depth is never negative. */
    ghost predicate Valid()
      reads this
    {
      indentDepth >= 0
    }

    /** The fields the scan updates, as a value. */
    function State(): Scan
      reads this
    {
      Scan(inTag, inComment, inContent, inlineTag, i, indentDepth, output)
    }

    /** The declared initial values of the fields. */
    constructor ()
      ensures Valid() && State() == Fresh
      ensures indentType == "\t" && input == []
    {
      input, output := [], [];
      inTag, inComment, inContent, inlineTag := false, false, false, false;
      i, indentDepth := 0, 0;
      indentType := "\t";
    }

    /** Alias of Process. */
    method Fix(input: string, useSpaces: bool := true, indentLength: nat := 4) returns (r: string)
      requires Valid()
      modifies this
      ensures Valid()
      ensures this.input == input
      ensures indentType == IndentUnit(useSpaces, indentLength, old(indentType))
      ensures State() == Run(input, indentType, Begin(input, old(State())))
      ensures r == output
    {
      r := Process(input, useSpaces, indentLength);
    }

    /** The whole pass. Flags and depth are not reset: they start from
        whatever the object holds. */
    method Process(input: string, useSpaces: bool, indentLength: nat) returns (r: string)
      requires Valid()
      modifies this
      ensures Valid()
      ensures this.input == input
      ensures indentType == IndentUnit(useSpaces, indentLength, old(indentType))
      ensures State() == Run(input, indentType, Begin(input, old(State())))
      ensures r == output
    {
      if useSpaces {
        indentType := Repeat(" ", indentLength);
      }
      this.input := input;
      output := [];
      var start := 0;
      if HasDoctype(input) {
        var g := IndexOf(input, '>');
        start := if g < |input| then g + 1 else 1;
        output := output + input[..start];
      }
      i := start;
      assert State() == Begin(input, old(State()));
      ghost var unit := indentType;
      ghost var final := Run(input, unit, State());
      while i < |input|
        invariant Valid() && this.input == input && indentType == unit
        invariant Run(input, indentType, State()) == final
        decreases |input| - i
      {
        ghost var before := State();
        Advance();
        RunUnfolds(input, indentType, before);
      }
      r := output;
    }

    /** One pass of the main loop: the handler for the current mode, then
        the cursor moves on by one. */
    method Advance()
      requires Valid() && i < |input|
      modifies this`inTag, this`inComment, this`inContent, this`inlineTag, this`indentDepth, this`output, this`i
      ensures Valid()
      ensures State() == Step(input, indentType, old(State()))
    {
      if inComment {
        ParseComment();
      } else if inTag {
        ParseInnerTag();
      } else if inlineTag {
        ParseInnerInlineTag();
      } else {
        ParseContent();
      }
      i := i + 1;
    }

    /** The default branch of the loop body: control characters are
        dropped, `<` goes to ParseTag, and text not yet inside content gets
        a line of its own; the character itself is then copied. */
    method ParseContent()
      requires Valid() && i < |input|
      requires !inComment && !inTag && !inlineTag
      modifies this`inTag, this`inComment, this`inContent, this`inlineTag, this`indentDepth, this`output
      ensures Valid()
      ensures State() == DefaultStep(input, indentType, old(State()))
    {
      if input[i] in Stripped {
        return;
      }
      if input[i] == '<' {
        var inline := IsInlineTag();
        if !inline {
          inContent := false;
        }
        ParseTag();
      } else if !inContent {
        if !inlineTag {
          output := output + NewLine(indentType, indentDepth);
        }
        inContent := true;
      }
      output := output + [input[i]];
    }

    method ParseComment()
      requires Valid() && i < |input|
      modifies this`inComment, this`output, this`i
      ensures Valid()
      ensures State() == CommentStep(input, old(State()))
    {
      var end := IsEndComment();
      if end {
        inComment := false;
        output := output + "-->";
        i := i + 3;
      } else {
        output := output + [input[i]];
      }
    }

    method IsEndComment() returns (b: bool)
      ensures b == EndCommentAt(input, i)
    {
      b := i + 2 < |input| && input[i] == '-' && input[i + 1] == '-' && input[i + 2] == '>';
    }

    method ParseInnerTag()
      requires Valid() && i < |input|
      modifies this`inTag, this`output
      ensures Valid()
      ensures State() == InnerTagStep(input, old(State()))
    {
      if input[i] == '>' {
        inTag := false;
        output := output + ">";
      } else {
        output := output + [input[i]];
      }
    }

    method ParseInnerInlineTag()
      requires Valid() && i < |input|
      modifies this`inlineTag, this`indentDepth, this`output
      ensures Valid()
      ensures State() == InlineStep(input, old(State()))
    {
      if input[i] == '>' {
        inlineTag := false;
        DecrementTabs();
        output := output + ">";
      } else {
        output := output + [input[i]];
      }
    }

    method DecrementTabs()
      requires Valid()
      modifies this`indentDepth
      ensures Valid()
      ensures indentDepth == (if old(indentDepth) > 0 then old(indentDepth) - 1 else 0)
    {
      indentDepth := indentDepth - 1;
      if indentDepth < 0 {
        indentDepth := 0;
      }
    }

    /** Reads the name at the cursor, dropping every `<` and `/`, up to
        whitespace or `>`, and looks it up among the inline tags. */
    method IsInlineTag() returns (b: bool)
      ensures b == IsInlineAt(input, i)
    {
      var tag := [];
      var j := i;
      while j < |input|
        invariant i <= j
        invariant tag + InlineName(input, j) == InlineName(input, i)
        decreases |input| - j
      {
        if input[j] == '<' || input[j] == '/' {
          j := j + 1;
          continue;
        }
        if input[j] in Whitespace || input[j] == '>' {
          break;
        }
        tag := tag + [input[j]];
        j := j + 1;
      }
      assert InlineName(input, j) == [];
      assert tag == InlineName(input, i);
      b := tag in InlineTags;
    }

    method ParseTag()
      requires Valid() && i < |input|
      modifies this`inTag, this`inComment, this`inlineTag, this`indentDepth, this`output
      ensures Valid()
      ensures State() == TagStep(input, indentType, old(State()))
    {
      var comment := IsComment();
      if comment {
        output := output + NewLine(indentType, indentDepth);
        inComment := true;
        return;
      }
      var endTag := IsEndTag();
      if endTag {
        inTag := true;
        inlineTag := false;
        DecrementTabs();
        var inline := IsInlineTag();
        if !inline {
          var empty := IsTagEmpty();
          if !empty {
            output := output + NewLine(indentType, indentDepth);
          }
        }
      } else {
        inTag := true;
        if !inContent && !inlineTag {
          output := output + NewLine(indentType, indentDepth);
        }
        var closed := IsClosedTag();
        if !closed {
          indentDepth := indentDepth + 1;
        }
        var inline := IsInlineTag();
        if inline {
          inlineTag := true;
        }
      }
    }

    method IsComment() returns (b: bool)
      ensures b == CommentAt(input, i)
    {
      b := i + 3 < |input| && input[i] == '<' && input[i + 1] == '!' && input[i + 2] == '-' && input[i + 3] == '-';
    }

    /** Scans forward from the cursor for `</` or `<!`, giving up at the
        first `>`. */
    method IsEndTag() returns (b: bool)
      ensures b == EndTagFrom(input, i)
    {
      var j := i;
      while j < |input|
        invariant i <= j
        invariant EndTagFrom(input, j) == EndTagFrom(input, i)
        decreases |input| - j
      {
        if input[j] == '<' && j + 1 < |input| && input[j + 1] == '/' {
          return true;
        }
        if input[j] == '<' && j + 1 < |input| && input[j + 1] == '!' {
          return true;
        }
        if input[j] == '>' {
          return false;
        }
        j := j + 1;
      }
      return false;
    }

    /** Scans backward from just before the cursor over whitespace; at a
        `>` it finds the previous tag's `<` and compares names. */
    method IsTagEmpty() returns (b: bool)
      requires i <= |input|
      ensures b == TagEmpty(input, i)
    {
      var tag := GetCurrentTag(i + 2);
      var inTag := false;
      var j: int := i - 1;
      while j >= 0
        invariant -1 <= j < i
        invariant EmptyScan(input, tag, j + 1, inTag) == TagEmpty(input, i)
      {
        if !inTag {
          if input[j] == '>' {
            inTag := true;
          } else if input[j] !in Whitespace {
            return false;
          }
        } else if input[j] == '<' {
          var previous := GetCurrentTag(j + 1);
          return tag == previous;
        }
        j := j - 1;
      }
      return true;
    }

    /** Reads the name from position `from`, dropping every `<`, up to
        whitespace or `>`. */
    method GetCurrentTag(from: nat) returns (tag: string)
      ensures tag == CurrentTag(input, from)
    {
      tag := [];
      var j := from;
      while j < |input|
        invariant from <= j
        invariant tag + CurrentTag(input, j) == CurrentTag(input, from)
        decreases |input| - j
      {
        if input[j] == '<' {
          j := j + 1;
          continue;
        }
        if input[j] == '>' || input[j] in Whitespace {
          break;
        }
        tag := tag + [input[j]];
        j := j + 1;
      }
      assert CurrentTag(input, j) == [];
    }

    /** Reads the name at the cursor, dropping every `<`, up to whitespace
        only, and looks it up among the void tags. */
    method IsClosedTag() returns (b: bool)
      ensures b == IsClosedAt(input, i)
    {
      var tag := [];
      var j := i;
      while j < |input|
        invariant i <= j
        invariant tag + ClosedName(input, j) == ClosedName(input, i)
        decreases |input| - j
      {
        if input[j] == '<' {
          j := j + 1;
          continue;
        }
        if input[j] in Whitespace {
          break;
        }
        tag := tag + [input[j]];
        j := j + 1;
      }
      assert ClosedName(input, j) == [];
      assert tag == ClosedName(input, i);
      b := tag in VoidTags;
    }
  }

  /** app_html_formatter: a new formatter for every call. */
  method AppHtmlFormatter(input: string, useSpaces: bool := true, indentLength: nat := 4) returns (r: string)
    ensures r == Formatted(input, useSpaces, indentLength)
  {
    var f := new FormatHtml();
    r := f.Fix(input, useSpaces, indentLength);
  }
}
