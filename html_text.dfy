/** Character classes, tag-name lists and the read-only lookahead scans of
    the formatter: everything it decides by looking at the input around the
    cursor, without changing any state. Reads past the end of the input are
    "no match". */
module HtmlText {

  /** The bytes the PCRE class `\s` matches: space, tab, line feed,
      vertical tab, form feed and carriage return. */
  const Whitespace: set<char> := {' ', '\t', '\n', '\U{000B}', '\U{000C}', '\r'}

  /** The control characters the default mode drops (`[\r\n\t]`). */
  const Stripped: set<char> := {'\r', '\n', '\t'}

  /** Names whose content stays on the line of the surrounding text. */
  const InlineTags: set<string> := {
    "title", "a", "span", "abbr", "acronym", "b", "basefont", "bdo", "big",
    "cite", "code", "dfn", "em", "font", "i", "kbd", "q", "s", "samp",
    "small", "strike", "strong", "sub", "sup", "textarea", "tt", "u", "var",
    "del", "pre"
  }

  /** Names that never open a nesting level. */
  const VoidTags: set<string> := {"meta", "link", "img", "hr", "br", "input"}

  /** The name read forward from position j: characters in `skip` are passed
      over wherever they occur, and the first character in `stop` (or the end
      of the input) ends the name. */
  function NameFrom(s: string, j: nat, skip: set<char>, stop: set<char>): (name: string)
    ensures forall k :: 0 <= k < |name| ==> name[k] !in skip && name[k] !in stop
    decreases |s| - j
  {
    if j >= |s| then []
    else if s[j] in skip then NameFrom(s, j + 1, skip, stop)
    else if s[j] in stop then []
    else [s[j]] + NameFrom(s, j + 1, skip, stop)
  }

  /** Reading `lead` skipped characters, then `name`, then a stop character
      (or the end of the input) yields exactly `name`. */
  lemma {:induction false} NameFromReads(s: string, j: nat, lead: nat, name: string,
                                         skip: set<char>, stop: set<char>)
    requires j + lead + |name| <= |s|
    requires forall k :: j <= k < j + lead ==> s[k] in skip
    requires s[j + lead .. j + lead + |name|] == name
    requires forall k :: 0 <= k < |name| ==> name[k] !in skip && name[k] !in stop
    requires j + lead + |name| == |s| || (s[j + lead + |name|] in stop && s[j + lead + |name|] !in skip)
    ensures NameFrom(s, j, skip, stop) == name
    decreases lead + |name|
  {
    if lead > 0 {
      NameFromReads(s, j + 1, lead - 1, name, skip, stop);
    } else if |name| > 0 {
      assert s[j] == name[0];
      assert s[j + 1 .. j + 1 + |name[1..]|] == name[1..];
      NameFromReads(s, j + 1, 0, name[1..], skip, stop);
    }
  }

  /** isInlineTag's name: every `<` and `/` dropped, ended by whitespace or `>`. */
  function InlineName(s: string, j: nat): string {
    NameFrom(s, j, {'<', '/'}, Whitespace + {'>'})
  }

  predicate IsInlineAt(s: string, j: nat) {
    InlineName(s, j) in InlineTags
  }

  /** isClosedTag's name: every `<` dropped, ended by whitespace only. */
  function ClosedName(s: string, j: nat): string {
    NameFrom(s, j, {'<'}, Whitespace)
  }

  predicate IsClosedAt(s: string, j: nat) {
    ClosedName(s, j) in VoidTags
  }

  /** getCurrentTag's name: every `<` dropped, ended by whitespace or `>`. */
  function CurrentTag(s: string, j: nat): string {
    NameFrom(s, j, {'<'}, Whitespace + {'>'})
  }

  /** A character g that is neither skipped nor a stop, with no stop
      character (that is not also skipped) between j and g, ends up in the
      name read from j. */
  lemma {:induction false} NameFromHas(s: string, j: nat, g: nat, skip: set<char>, stop: set<char>)
    requires j <= g < |s|
    requires s[g] !in skip && s[g] !in stop
    requires forall k :: j <= k < g ==> s[k] in skip || s[k] !in stop
    ensures s[g] in NameFrom(s, j, skip, stop)
    decreases g - j
  {
    if j < g {
      NameFromHas(s, j + 1, g, skip, stop);
    }
  }

  /** isClosedTag reads on through `>`: a tag whose first `>` comes before
      any whitespace, such as a bare `<br>`, is never taken as void. */
  lemma VoidNeedsWhitespace(s: string, i: nat, g: nat)
    requires i <= g < |s| && s[g] == '>'
    requires forall k :: i <= k < g ==> s[k] !in Whitespace
    ensures !IsClosedAt(s, i)
  {
    NameFromHas(s, i, g, {'<'}, Whitespace);
    var name := ClosedName(s, i);
    assert '>' in name;
    assert forall t :: t in VoidTags ==> '>' !in t;
  }

  /** Where the whitespace-ended name holds no `/` and no `>`, isInlineTag
      reads the same name as isClosedTag. */
  lemma {:induction false} InlineNameAgrees(s: string, j: nat)
    requires '/' !in ClosedName(s, j) && '>' !in ClosedName(s, j)
    ensures InlineName(s, j) == ClosedName(s, j)
    decreases |s| - j
  {
    if j < |s| && s[j] !in Whitespace && s[j] != '<' {
      assert ClosedName(s, j) == [s[j]] + ClosedName(s, j + 1);
      InlineNameAgrees(s, j + 1);
    } else if j < |s| && s[j] == '<' {
      InlineNameAgrees(s, j + 1);
    }
  }

  /** No tag is both inline and void, so an inline opening tag always opens
      a nesting level. */
  lemma InlineNotVoid(s: string, i: nat)
    requires IsInlineAt(s, i)
    ensures !IsClosedAt(s, i)
  {
    if IsClosedAt(s, i) {
      var name := ClosedName(s, i);
      assert forall t :: t in VoidTags ==> '/' !in t && '>' !in t;
      InlineNameAgrees(s, i);
    }
  }

  /** `<` then `name` then whitespace, `>` or the end of the input: both
      the inline lookup and getCurrentTag (from the byte after `<`) read
      exactly `name`. */
  lemma OpeningTagName(s: string, i: nat, name: string)
    requires i + 1 + |name| <= |s| && s[i] == '<'
    requires s[i + 1 .. i + 1 + |name|] == name
    requires forall k :: 0 <= k < |name| ==> name[k] !in {'<', '/', '>'} + Whitespace
    requires i + 1 + |name| == |s| || s[i + 1 + |name|] in Whitespace + {'>'}
    ensures InlineName(s, i) == name && CurrentTag(s, i + 1) == name
    ensures IsInlineAt(s, i) <==> name in InlineTags
  {
    NameFromReads(s, i, 1, name, {'<', '/'}, Whitespace + {'>'});
    NameFromReads(s, i + 1, 0, name, {'<'}, Whitespace + {'>'});
  }

  /** `<` then `name` then whitespace or the end of the input: isClosedTag
      reads exactly `name`, as for `<img src="x">` or `<br />`. */
  lemma VoidTagName(s: string, i: nat, name: string)
    requires i + 1 + |name| <= |s| && s[i] == '<'
    requires s[i + 1 .. i + 1 + |name|] == name
    requires forall k :: 0 <= k < |name| ==> name[k] !in {'<'} + Whitespace
    requires i + 1 + |name| == |s| || s[i + 1 + |name|] in Whitespace
    ensures ClosedName(s, i) == name
    ensures IsClosedAt(s, i) <==> name in VoidTags
  {
    NameFromReads(s, i, 1, name, {'<'}, Whitespace);
  }

  /** `</` then `name` then whitespace, `>` or the end of the input: the
      inline lookup and the name isTagEmpty compares (read from two bytes
      on) are both `name`. */
  lemma ClosingTagName(s: string, i: nat, name: string)
    requires i + 2 + |name| <= |s| && s[i] == '<' && s[i + 1] == '/'
    requires s[i + 2 .. i + 2 + |name|] == name
    requires forall k :: 0 <= k < |name| ==> name[k] !in {'<', '/', '>'} + Whitespace
    requires i + 2 + |name| == |s| || s[i + 2 + |name|] in Whitespace + {'>'}
    ensures InlineName(s, i) == name && CurrentTag(s, i + 2) == name
    ensures IsInlineAt(s, i) <==> name in InlineTags
  {
    NameFromReads(s, i, 2, name, {'<', '/'}, Whitespace + {'>'});
    NameFromReads(s, i + 2, 0, name, {'<'}, Whitespace + {'>'});
  }

  /** `<!--` starts at i. */
  predicate CommentAt(s: string, i: nat) {
    i + 3 < |s| && s[i] == '<' && s[i + 1] == '!' && s[i + 2] == '-' && s[i + 3] == '-'
  }

  /** `-->` starts at i. */
  predicate EndCommentAt(s: string, i: nat) {
    i + 2 < |s| && s[i] == '-' && s[i + 1] == '-' && s[i + 2] == '>'
  }

  /** `</` or `<!` starts at j. */
  predicate EndMarkAt(s: string, j: nat) {
    j + 1 < |s| && s[j] == '<' && (s[j + 1] == '/' || s[j + 1] == '!')
  }

  /** No `>` in s[j..m]. */
  predicate NoGtBetween(s: string, j: nat, m: nat) {
    m <= |s| && forall k :: j <= k < m ==> s[k] != '>'
  }

  /** isEndTag's forward scan from j: true at the first `</` or `<!`, false
      at the first `>` or at the end of the input. */
  function EndTagFrom(s: string, j: nat): bool
    decreases |s| - j
  {
    if j >= |s| then false
    else if EndMarkAt(s, j) then true
    else if s[j] == '>' then false
    else EndTagFrom(s, j + 1)
  }

  /** The scan finds an end mark iff one occurs at or after j with no `>`
      before it. */
  lemma {:induction false} EndTagFromIff(s: string, j: nat)
    ensures EndTagFrom(s, j) <==> exists m :: j <= m && EndMarkAt(s, m) && NoGtBetween(s, j, m)
    decreases |s| - j
  {
    if j >= |s| {
      forall m | j <= m && EndMarkAt(s, m) ensures false { }
    } else if EndMarkAt(s, j) {
      assert NoGtBetween(s, j, j);
    } else if s[j] == '>' {
      forall m | j <= m && EndMarkAt(s, m) ensures !NoGtBetween(s, j, m) {
        assert m > j;
      }
    } else {
      EndTagFromIff(s, j + 1);
      if EndTagFrom(s, j + 1) {
        var m :| j + 1 <= m && EndMarkAt(s, m) && NoGtBetween(s, j + 1, m);
        assert NoGtBetween(s, j, m);
      } else {
        forall m | j <= m && EndMarkAt(s, m) ensures !NoGtBetween(s, j, m) {
          assert !NoGtBetween(s, j + 1, m);
        }
      }
    }
  }

  /** isTagEmpty's backward scan over s[..n]: outside a tag, whitespace is
      skipped, `>` enters the previous tag and anything else fails; inside,
      the first `<` ends the scan with a comparison of names. */
  function EmptyScan(s: string, tag: string, n: nat, inTag: bool): bool
    requires n <= |s|
    decreases n
  {
    if n == 0 then true
    else if !inTag then
      if s[n - 1] == '>' then EmptyScan(s, tag, n - 1, true)
      else if s[n - 1] !in Whitespace then false
      else EmptyScan(s, tag, n - 1, false)
    else if s[n - 1] == '<' then tag == CurrentTag(s, n)
    else EmptyScan(s, tag, n - 1, true)
  }

  /** The closing tag at i directly follows, up to whitespace, an opening
      tag with the same name. */
  predicate TagEmpty(s: string, i: nat)
    requires i <= |s|
  {
    EmptyScan(s, CurrentTag(s, i + 2), i, false)
  }

  lemma {:induction false} ScanSkipsSpace(s: string, tag: string, m: nat, n: nat)
    requires m <= n <= |s|
    requires forall k :: m <= k < n ==> s[k] in Whitespace
    ensures EmptyScan(s, tag, n, false) == EmptyScan(s, tag, m, false)
    decreases n
  {
    if m < n {
      assert s[n - 1] in Whitespace;
      ScanSkipsSpace(s, tag, m, n - 1);
    }
  }

  lemma {:induction false} ScanSkipsTagBody(s: string, tag: string, m: nat, n: nat)
    requires m <= n <= |s|
    requires forall k :: m <= k < n ==> s[k] != '<'
    ensures EmptyScan(s, tag, n, true) == EmptyScan(s, tag, m, true)
    decreases n
  {
    if m < n {
      assert s[n - 1] != '<';
      ScanSkipsTagBody(s, tag, m, n - 1);
    }
  }

  /** Only whitespace before the closing tag: empty. */
  lemma TagEmptyAfterSpaceOnly(s: string, i: nat)
    requires i <= |s|
    requires forall k :: 0 <= k < i ==> s[k] in Whitespace
    ensures TagEmpty(s, i)
  {
    ScanSkipsSpace(s, CurrentTag(s, i + 2), 0, i);
  }

  /** The last non-whitespace byte g before the closing tag is not `>`: not empty. */
  lemma TagEmptyAfterText(s: string, i: nat, g: nat)
    requires g < i <= |s|
    requires s[g] !in Whitespace && s[g] != '>'
    requires forall k :: g < k < i ==> s[k] in Whitespace
    ensures !TagEmpty(s, i)
  {
    ScanSkipsSpace(s, CurrentTag(s, i + 2), g + 1, i);
  }

  /** The last non-whitespace byte g before the closing tag is `>` and p is
      the last `<` before g: empty iff the two tag names agree. */
  lemma TagEmptyAfterTag(s: string, i: nat, p: nat, g: nat)
    requires p < g < i <= |s|
    requires s[g] == '>' && s[p] == '<'
    requires forall k :: p < k < g ==> s[k] != '<'
    requires forall k :: g < k < i ==> s[k] in Whitespace
    ensures TagEmpty(s, i) <==> CurrentTag(s, i + 2) == CurrentTag(s, p + 1)
  {
    var tag := CurrentTag(s, i + 2);
    ScanSkipsSpace(s, tag, g + 1, i);
    ScanSkipsTagBody(s, tag, p + 1, g);
  }

  /** The last non-whitespace byte g before the closing tag is a `>` with no
      `<` anywhere before it: empty. */
  lemma TagEmptyAfterStrayGt(s: string, i: nat, g: nat)
    requires g < i <= |s|
    requires s[g] == '>'
    requires forall k :: 0 <= k < g ==> s[k] != '<'
    requires forall k :: g < k < i ==> s[k] in Whitespace
    ensures TagEmpty(s, i)
  {
    var tag := CurrentTag(s, i + 2);
    ScanSkipsSpace(s, tag, g + 1, i);
    ScanSkipsTagBody(s, tag, 0, g);
  }

  /** strpos: the index of the first c, or |s| when there is none. */
  function IndexOf(s: string, c: char): (k: nat)
    ensures k <= |s|
    ensures k < |s| ==> s[k] == c
    ensures forall m :: 0 <= m < k ==> s[m] != c
  {
    if s == [] then 0
    else if s[0] == c then 0
    else 1 + IndexOf(s[1..], c)
  }

  /** ASCII case folding, as a caseless PCRE match without UTF mode does. */
  function LowerAscii(c: char): char {
    if 'A' <= c <= 'Z' then (c as int + 32) as char else c
  }

  /** `<!doctype` in any letter case starts at k. */
  predicate DoctypeAt(s: string, k: nat) {
    k + 9 <= |s| && forall m :: 0 <= m < 9 ==> LowerAscii(s[k + m]) == "<!doctype"[m]
  }

  predicate HasDoctype(s: string) {
    exists k :: 0 <= k <= |s| - 9 && DoctypeAt(s, k)
  }
}
