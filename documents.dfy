/** Documents built from block elements, inline elements and text, written
    out as HTML, and what the formatter makes of them: every block element
    starts a line of its own indented by its nesting depth, its closing tag
    gets a line of its own unless the element is empty, text goes on a new
    line unless running text goes on and has `\r`, `\n` and `\t` dropped,
    and an inline element is copied as written and leaves running text as it
    found it. */
module Documents {
  import opened HtmlText
  import opened Scanner
  import opened Properties

  datatype Node =
    | Text(t: string)
    | Inline(name: string, content: string)
    | Element(name: string, kids: seq<Node>)

  function OpenTag(a: string): string {
    "<" + a + ">"
  }

  function CloseTag(a: string): string {
    "</" + a + ">"
  }

  /** The HTML a node is written as. */
  function Render(n: Node): string
    decreases n
  {
    match n
    case Text(t) => t
    case Inline(a, c) => OpenTag(a) + c + CloseTag(a)
    case Element(a, ks) => OpenTag(a) + RenderAll(ks) + CloseTag(a)
  }

  function RenderAll(ks: seq<Node>): string
    decreases ks
  {
    if ks == [] then [] else Render(ks[0]) + RenderAll(ks[1..])
  }

  /** Text that ends in neither whitespace nor `>` and holds no `<`. */
  predicate GoodText(t: string) {
    |t| > 0 && t[|t| - 1] !in Whitespace && t[|t| - 1] != '>'
    && forall k :: 0 <= k < |t| ==> t[k] != '<'
  }

  /** Names the formatter reads back exactly; inline elements hold text
      without tags; block elements hold well-formed nodes. */
  predicate WellFormed(n: Node)
    decreases n
  {
    match n
    case Text(t) => GoodText(t)
    case Inline(a, c) =>
      PlainName(a) && a in InlineTags && forall k :: 0 <= k < |c| ==> c[k] != '<' && c[k] != '>'
    case Element(a, ks) => PlainName(a) && a !in InlineTags && WellFormedAll(ks)
  }

  predicate WellFormedAll(ks: seq<Node>)
    decreases ks
  {
    ks == [] || (WellFormed(ks[0]) && WellFormedAll(ks[1..]))
  }

  /** Whether running text goes on after the node, given whether it did
      before: text starts or continues it, an inline element leaves it as
      it was, a block element ends it. */
  function After(n: Node, inContent: bool): bool {
    match n
    case Text(_) => true
    case Inline(_, _) => inContent
    case Element(_, _) => false
  }

  function AfterAll(ks: seq<Node>, inContent: bool): bool
    decreases ks
  {
    if ks == [] then inContent else AfterAll(ks[1..], After(ks[0], inContent))
  }

  /** The formatted form of a node at nesting depth d with indent unit u,
      given whether running text goes on before it. */
  function Pretty(n: Node, u: string, d: nat, inContent: bool): string
    decreases n
  {
    match n
    case Text(t) => (if inContent then [] else NewLine(u, d)) + RemoveStripped(t)
    case Inline(_, _) => (if inContent then [] else NewLine(u, d)) + Render(n)
    case Element(a, ks) =>
      NewLine(u, d) + OpenTag(a) + PrettyAll(ks, u, d + 1, false)
      + (if ks == [] then [] else NewLine(u, d)) + CloseTag(a)
  }

  function PrettyAll(ks: seq<Node>, u: string, d: nat, inContent: bool): string
    decreases ks
  {
    if ks == [] then [] else Pretty(ks[0], u, d, inContent) + PrettyAll(ks[1..], u, d, After(ks[0], inContent))
  }

  // ---------------------------------------------------------------------
  // Pieces of the input

  /** w occurs in s at i, stated character by character: the solver handles
      this form more cheaply than slice equality (AtSlice links the two). */
  predicate At(s: string, i: nat, w: string) {
    i + |w| <= |s| && forall k :: 0 <= k < |w| ==> w[k] == s[i + k]
  }

  lemma AtSplit(s: string, i: nat, v: string, w: string)
    requires At(s, i, v + w)
    ensures At(s, i, v) && At(s, i + |v|, w)
  {
    forall k | 0 <= k < |v| ensures v[k] == s[i + k] {
      assert (v + w)[k] == v[k];
    }
    forall k | 0 <= k < |w| ensures w[k] == s[i + |v| + k] {
      assert (v + w)[|v| + k] == w[k];
    }
  }

  lemma AtChar(s: string, i: nat, w: string, k: nat)
    requires At(s, i, w) && k < |w|
    ensures s[i + k] == w[k]
  {
  }

  lemma AtSlice(s: string, i: nat, w: string)
    requires At(s, i, w)
    ensures s[i .. i + |w|] == w
  {
    assert forall k :: 0 <= k < |w| ==> s[i .. i + |w|][k] == w[k];
  }

  // ---------------------------------------------------------------------
  // No doctype

  /** Every `<` is followed, within x, by something other than `!`. */
  predicate LtFollowed(x: string) {
    forall k :: 0 <= k < |x| && x[k] == '<' ==> k + 1 < |x| && x[k + 1] != '!'
  }

  lemma LtFollowedConcat(x: string, y: string)
    requires LtFollowed(x) && LtFollowed(y)
    ensures LtFollowed(x + y)
  {
    var z := x + y;
    forall k | 0 <= k < |z| && z[k] == '<' ensures k + 1 < |z| && z[k + 1] != '!' {
      if k < |x| {
        assert x[k] == '<';
      } else {
        assert y[k - |x|] == '<';
      }
    }
  }

  lemma NoLtFollowed(x: string)
    requires forall k :: 0 <= k < |x| ==> x[k] != '<'
    ensures LtFollowed(x)
  {
  }

  /** `<` then a name, as every tag of a document starts. */
  lemma OpenFollowed(a: string)
    requires PlainName(a)
    ensures LtFollowed("<" + a)
  {
    var x := "<" + a;
    assert forall k :: 1 <= k < |x| ==> x[k] == a[k - 1];
  }

  lemma {:induction false} RenderFollowed(n: Node)
    requires WellFormed(n)
    ensures LtFollowed(Render(n))
    decreases n
  {
    match n
    case Text(t) =>
      NoLtFollowed(t);
    case Inline(a, c) =>
      NoLtFollowed(c);
      TagPiecesFollowed(a, c);
    case Element(a, ks) =>
      RenderAllFollowed(ks);
      TagPiecesFollowed(a, RenderAll(ks));
  }

  /** `<a>` + x + `</a>`. */
  lemma TagPiecesFollowed(a: string, x: string)
    requires PlainName(a) && LtFollowed(x)
    ensures LtFollowed(OpenTag(a) + x + CloseTag(a))
  {
    OpenFollowed(a);
    NoLtFollowed(">");
    LtFollowedConcat("<" + a, ">");
    assert OpenTag(a) == "<" + a + ">";
    LtFollowedConcat(OpenTag(a), x);
    OpenFollowedSlash(a);
    LtFollowedConcat(OpenTag(a) + x, CloseTag(a));
  }

  lemma OpenFollowedSlash(a: string)
    requires PlainName(a)
    ensures LtFollowed(CloseTag(a))
  {
    var x := CloseTag(a);
    assert forall k :: 2 <= k < |x| - 1 ==> x[k] == a[k - 2];
  }

  lemma {:induction false} RenderAllFollowed(ks: seq<Node>)
    requires WellFormedAll(ks)
    ensures LtFollowed(RenderAll(ks))
    decreases ks
  {
    if ks != [] {
      RenderFollowed(ks[0]);
      RenderAllFollowed(ks[1..]);
      LtFollowedConcat(Render(ks[0]), RenderAll(ks[1..]));
    }
  }

  /** A doctype needs `<!`. */
  lemma FollowedNoDoctype(s: string)
    requires LtFollowed(s)
    ensures !HasDoctype(s)
  {
    forall k | 0 <= k <= |s| - 9 ensures !DoctypeAt(s, k) {
      if LowerAscii(s[k + 0]) == "<!doctype"[0] {
        assert s[k] == '<';
        assert LowerAscii(s[k + 1]) != "<!doctype"[1];
      }
    }
  }

  // ---------------------------------------------------------------------
  // Facts about the written form

  lemma {:induction false} WellFormedEach(ks: seq<Node>, k: nat)
    requires WellFormedAll(ks) && k < |ks|
    ensures WellFormed(ks[k])
    decreases k
  {
    if k > 0 {
      WellFormedEach(ks[1..], k - 1);
    }
  }

  /** The written form of a nonempty sequence of nodes ends with its last
      node. */
  lemma {:induction false} RenderAllLast(ks: seq<Node>)
    requires ks != []
    ensures RenderAll(ks) == RenderAll(ks[.. |ks| - 1]) + Render(ks[|ks| - 1])
    decreases |ks|
  {
    if |ks| == 1 {
      assert ks[.. 0] == [];
    } else {
      RenderAllLast(ks[1..]);
      assert ks[.. |ks| - 1][1..] == ks[1..][.. |ks| - 2];
      assert ks[.. |ks| - 1][0] == ks[0];
    }
  }

  /** Text whose last character survives keeps some text. */
  lemma {:induction false} RemoveStrippedKeepsLast(t: string)
    requires |t| > 0 && t[|t| - 1] !in Stripped
    ensures RemoveStripped(t) != []
    decreases |t|
  {
    if |t| > 1 {
      assert t[1..][|t| - 2] == t[|t| - 1];
      RemoveStrippedKeepsLast(t[1..]);
    }
  }

  /** `</a>` at m, byte by byte. */
  lemma CloseTagAt(s: string, m: nat, a: string)
    requires At(s, m, CloseTag(a))
    ensures m + 2 + |a| < |s| && s[m] == '<' && s[m + 1] == '/'
    ensures s[m + 2 .. m + 2 + |a|] == a && s[m + 2 + |a|] == '>'
    ensures s[m .. m + 3 + |a|] == CloseTag(a)
  {
    assert CloseTag(a) == "</" + a + ">";
    AtSlice(s, m, CloseTag(a));
    AtSplit(s, m, "</" + a, ">");
    AtSplit(s, m, "</", a);
    AtSlice(s, m + 2, a);
    AtChar(s, m, "</", 0);
    AtChar(s, m, "</", 1);
    AtChar(s, m + 2 + |a|, ">", 0);
  }

  /** `<a>` at i, byte by byte. */
  lemma OpenTagAt(s: string, i: nat, a: string)
    requires At(s, i, OpenTag(a))
    ensures i + 1 + |a| < |s| && s[i] == '<' && s[i + 1 .. i + 1 + |a|] == a && s[i + 1 + |a|] == '>'
    ensures s[i .. i + 2 + |a|] == OpenTag(a)
  {
    assert OpenTag(a) == "<" + a + ">";
    AtSlice(s, i, OpenTag(a));
    AtSplit(s, i, "<" + a, ">");
    AtSplit(s, i, "<", a);
    AtSlice(s, i + 1, a);
    AtChar(s, i, "<", 0);
    AtChar(s, i + 1 + |a|, ">", 0);
  }

  /** `<a>` + x + `</a>` at i, piece by piece; the closing tag starts at
      i + |a| + 2 + |x|. */
  lemma TagPieces(s: string, i: nat, a: string, x: string)
    requires At(s, i, OpenTag(a) + x + CloseTag(a))
    ensures var m := i + |a| + 2 + |x|;
      && m + 3 + |a| <= |s|
      && At(s, i, OpenTag(a))
      && At(s, i + |a| + 2, x)
      && At(s, m, CloseTag(a))
  {
    AtSplit(s, i, OpenTag(a) + x, CloseTag(a));
    AtSplit(s, i, OpenTag(a), x);
  }

  /** No byte of w at i is c. */
  lemma AtAvoids(s: string, i: nat, w: string, c: char)
    requires At(s, i, w) && c !in w
    ensures forall k :: i <= k < i + |w| ==> s[k] != c
  {
    forall k | i <= k < i + |w| ensures s[k] != c {
      AtChar(s, i, w, k - i);
    }
  }

  lemma PlainNameAvoids(a: string)
    requires PlainName(a)
    ensures '<' !in a && '>' !in a && '/' !in a && '!' != a[0]
  {
  }

  /** The closing tag at m of a block element written at i is empty
      exactly when the element has no children: after its own opening tag
      the names agree, after a child they do not. */
  lemma ClosingEmpty(s: string, i: nat, a: string, ks: seq<Node>, m: nat)
    requires WellFormed(Element(a, ks)) && At(s, i, Render(Element(a, ks)))
    requires m == i + |a| + 2 + |RenderAll(ks)|
    ensures m <= |s| && (TagEmpty(s, m) <==> ks == [])
  {
    if ks == [] {
      assert Render(Element(a, ks)) == OpenTag(a) + [] + CloseTag(a);
      EmptyClosing(s, i, a, m);
    } else {
      ChildClosing(s, i, a, ks, m);
    }
  }

  /** `<a></a>`: the closing tag is empty. */
  lemma EmptyClosing(s: string, i: nat, a: string, m: nat)
    requires PlainName(a) && At(s, i, OpenTag(a) + [] + CloseTag(a)) && m == i + |a| + 2
    ensures m <= |s| && TagEmpty(s, m)
  {
    TagPieces(s, i, a, []);
    OpenTagAt(s, i, a);
    CloseTagAt(s, m, a);
    ClosingTagName(s, m, a);
    OpeningTagName(s, i, a);
    assert forall k :: i < k < i + 1 + |a| ==> s[k] == a[k - i - 1];
    TagEmptyAfterTag(s, m, i, i + 1 + |a|);
  }

  /** A block element with children: its closing tag follows the last
      child and is not empty. */
  lemma ChildClosing(s: string, i: nat, a: string, ks: seq<Node>, m: nat)
    requires PlainName(a) && WellFormedAll(ks) && ks != []
    requires At(s, i, OpenTag(a) + RenderAll(ks) + CloseTag(a))
    requires m == i + |a| + 2 + |RenderAll(ks)|
    ensures m <= |s| && !TagEmpty(s, m)
  {
    TagPieces(s, i, a, RenderAll(ks));
    CloseTagAt(s, m, a);
    ClosingTagName(s, m, a);
    var last := ks[|ks| - 1];
    WellFormedEach(ks, |ks| - 1);
    RenderAllLast(ks);
    AtSplit(s, i + |a| + 2, RenderAll(ks[.. |ks| - 1]), Render(last));
    ClosingAfterChild(s, m - |Render(last)|, last, m, a);
  }

  /** A closing tag right after a child node: not empty. After text the
      byte before is neither whitespace nor `>`; after an element the name
      read after its closing `<` starts with `/`. */
  lemma ClosingAfterChild(s: string, q: nat, n: Node, m: nat, a: string)
    requires WellFormed(n) && PlainName(a) && At(s, q, Render(n)) && q + |Render(n)| == m
    requires m + 2 <= |s| && CurrentTag(s, m + 2) == a
    ensures !TagEmpty(s, m)
  {
    match n
    case Text(t) =>
      AtChar(s, q, t, |t| - 1);
      TagEmptyAfterText(s, m, m - 1);
    case Inline(b, c) =>
      TagPieces(s, q, b, c);
      AfterClose(s, m, b, a);
    case Element(b, kids) =>
      TagPieces(s, q, b, RenderAll(kids));
      AfterClose(s, m, b, a);
  }

  /** A closing tag `</a>` right after another closing tag `</b>` is not
      empty: the name read after the earlier `<` is `/b`. */
  lemma AfterClose(s: string, m: nat, b: string, a: string)
    requires PlainName(a) && PlainName(b)
    requires m >= |b| + 3 && At(s, m - |b| - 3, CloseTag(b))
    requires m + 2 <= |s| && CurrentTag(s, m + 2) == a
    ensures !TagEmpty(s, m)
  {
    var p := m - |b| - 3;
    CloseTagAt(s, p, b);
    PlainNameAvoids(a);
    PlainNameAvoids(b);
    assert forall k :: p + 1 < k < m - 1 ==> s[k] == b[k - p - 2];
    assert s[p + 1 .. p + 2 + |b|] == "/" + b;
    NameFromReads(s, p + 1, 0, "/" + b, {'<'}, Whitespace + {'>'});
    assert CurrentTag(s, p + 1) == "/" + b;
    assert a[0] != '/';
    TagEmptyAfterTag(s, m, p, m - 1);
  }

  // ---------------------------------------------------------------------
  // Runs over a document

  /** Text at i, as the text stretch of a run needs it. */
  lemma TextFacts(s: string, i: nat, t: string)
    requires GoodText(t) && At(s, i, t)
    ensures i + |t| <= |s| && s[i .. i + |t|] == t && RemoveStripped(t) != []
    ensures forall k :: i <= k < i + |t| ==> s[k] != '<'
  {
    AtAvoids(s, i, t, '<');
    AtSlice(s, i, t);
    RemoveStrippedKeepsLast(t);
  }

  /** An inline element at i, as InlineElement needs it: the opening tag
      ends at g, the closing tag at e. */
  lemma InlineFacts(s: string, i: nat, a: string, c: string, g: nat, e: nat)
    requires WellFormed(Inline(a, c)) && At(s, i, Render(Inline(a, c)))
    requires g == i + 1 + |a| && e == i + |Render(Inline(a, c))| - 1
    ensures i < g < e < |s| && s[i] == '<' && s[g] == '>' && s[e] == '>'
    ensures !CommentAt(s, i) && !EndTagFrom(s, i) && IsInlineAt(s, i)
    ensures forall k :: i < k < g ==> s[k] != '>'
    ensures forall k :: g < k < e ==> s[k] != '>'
    ensures s[i .. e + 1] == Render(Inline(a, c))
  {
    var m := g + 1 + |c|;
    assert Render(Inline(a, c)) == OpenTag(a) + c + CloseTag(a);
    assert e == m + 2 + |a|;
    TagPieces(s, i, a, c);
    OpenTagRead(s, i, a);
    CloseTagAt(s, m, a);
    PlainNameAvoids(a);
    AtAvoids(s, g + 1, c, '>');
    forall k | g < k < e ensures s[k] != '>' {
      if m + 1 < k {
        assert s[m + 2 .. e][k - m - 2] == a[k - m - 2];
      }
    }
    AtSlice(s, i, Render(Inline(a, c)));
  }

  /** An opening tag `<a>` at i, as the formatter reads it. */
  lemma OpenTagRead(s: string, i: nat, a: string)
    requires PlainName(a) && At(s, i, OpenTag(a))
    ensures i + 1 + |a| < |s| && s[i] == '<' && s[i + 1 + |a|] == '>'
    ensures !CommentAt(s, i) && !EndTagFrom(s, i) && (IsInlineAt(s, i) <==> a in InlineTags)
    ensures forall k :: i < k < i + 1 + |a| ==> s[k] != '>'
  {
    OpenTagAt(s, i, a);
    PlainNameAvoids(a);
    assert forall k :: i < k < i + 1 + |a| ==> s[k] == a[k - i - 1];
    OpeningTagName(s, i, a);
    OpeningNotEnd(s, i, a);
  }

  /** A block element at i, piece by piece, with its closing tag at m
      empty exactly when it has no children. */
  lemma ElementFacts(s: string, i: nat, a: string, ks: seq<Node>, m: nat)
    requires WellFormed(Element(a, ks)) && At(s, i, Render(Element(a, ks)))
    requires m == i + |a| + 2 + |RenderAll(ks)|
    ensures m + 3 + |a| == i + |Render(Element(a, ks))| <= |s|
    ensures At(s, i, OpenTag(a)) && At(s, i + |a| + 2, RenderAll(ks)) && At(s, m, CloseTag(a))
    ensures TagEmpty(s, m) <==> ks == []
  {
    TagPieces(s, i, a, RenderAll(ks));
    ClosingEmpty(s, i, a, ks, m);
  }

  /** Text: a line of its own unless running text goes on, control
      characters dropped. */
  lemma RunText(s: string, u: string, st: Scan, t: string, next: Scan)
    requires st.depth >= 0 && DefaultMode(st) && GoodText(t) && At(s, st.i, t)
    requires next == st.(i := st.i + |t|, inContent := true,
                         out := st.out + Pretty(Text(t), u, st.depth, st.inContent))
    ensures Run(s, u, st) == Run(s, u, next)
  {
    TextFacts(s, st.i, t);
    var j := st.i + |t|;
    var text := RemoveStripped(s[st.i .. j]);
    var pre := if st.inContent then [] else NewLine(u, st.depth);
    assert Pretty(Text(t), u, st.depth, st.inContent) == pre + text;
    assert st.(i := j, inContent := st.inContent || text != [],
               out := st.out + (if st.inContent || text == [] then [] else NewLine(u, st.depth)) + text)
        == next;
    TextRunTo(s, u, st, j, next);
  }

  /** TextRun with the state it leads to named, so that callers match it by
      equality with their own target state; this keeps their proofs small. */
  lemma TextRunTo(s: string, u: string, st: Scan, j: nat, next: Scan)
    requires st.depth >= 0 && DefaultMode(st) && st.i <= j <= |s|
    requires forall k :: st.i <= k < j ==> s[k] != '<'
    requires var text := RemoveStripped(s[st.i .. j]);
      next == st.(i := j, inContent := st.inContent || text != [],
                  out := st.out + (if st.inContent || text == [] then [] else NewLine(u, st.depth)) + text)
    ensures Run(s, u, st) == Run(s, u, next)
  {
    TextRun(s, u, st, j);
  }

  /** An inline element: copied as written, on a line of its own unless
      running text goes on. */
  lemma RunInline(s: string, u: string, st: Scan, a: string, c: string, next: Scan)
    requires st.depth >= 0 && DefaultMode(st) && WellFormed(Inline(a, c)) && At(s, st.i, Render(Inline(a, c)))
    requires next == st.(i := st.i + |Render(Inline(a, c))|,
                         out := st.out + Pretty(Inline(a, c), u, st.depth, st.inContent))
    ensures Run(s, u, st) == Run(s, u, next)
  {
    var g := st.i + 1 + |a|;
    var e := st.i + |Render(Inline(a, c))| - 1;
    InlineFacts(s, st.i, a, c, g, e);
    var pre := if st.inContent then [] else NewLine(u, st.depth);
    assert st.(i := e + 1, out := st.out + pre + s[st.i .. e + 1]) == next;
    InlineElement(s, u, st, g, e);
  }

  /** A block element: its opening tag on a line of its own at the current
      depth, its children one level deeper, and its closing tag back at the
      current depth on a line of its own unless it has no children. */
  lemma {:induction false} RunElement(s: string, u: string, st: Scan, a: string, ks: seq<Node>, next: Scan)
    requires st.depth >= 0 && DefaultMode(st) && WellFormed(Element(a, ks))
    requires At(s, st.i, Render(Element(a, ks)))
    requires next == st.(i := st.i + |Render(Element(a, ks))|, inContent := false,
                         out := st.out + Pretty(Element(a, ks), u, st.depth, st.inContent))
    ensures Run(s, u, st) == Run(s, u, next)
    decreases Element(a, ks), 0
  {
    var d := st.depth;
    var m := st.i + |a| + 2 + |RenderAll(ks)|;
    var pre := if ks == [] then [] else NewLine(u, d);
    var st1 := st.(inContent := false, depth := d + 1, i := st.i + |a| + 2, out := st.out + NewLine(u, d) + OpenTag(a));
    var st2 := st1.(i := m, inContent := AfterAll(ks, false), out := st1.out + PrettyAll(ks, u, d + 1, false));
    ElementPlan(s, u, st, a, ks, m, pre, st1, st2, next);
    OpenBlockTo(s, u, st, a, st1);
    assert Run(s, u, st) == Run(s, u, st1);
    RunForest(s, u, st1, ks, st2);
    assert Run(s, u, st1) == Run(s, u, st2);
    CloseBlockTo(s, u, st2, a, pre, next);
    assert Run(s, u, st2) == Run(s, u, next);
  }

  /** The three stretches of a block element, its opening tag, its
      children and its closing tag, and the states between them. */
  lemma ElementPlan(s: string, u: string, st: Scan, a: string, ks: seq<Node>, m: nat, pre: string,
                    st1: Scan, st2: Scan, next: Scan)
    requires st.depth >= 0 && DefaultMode(st) && WellFormed(Element(a, ks))
    requires At(s, st.i, Render(Element(a, ks)))
    requires m == st.i + |a| + 2 + |RenderAll(ks)|
    requires pre == if ks == [] then [] else NewLine(u, st.depth)
    requires st1 == st.(inContent := false, depth := st.depth + 1, i := st.i + |a| + 2,
                        out := st.out + NewLine(u, st.depth) + OpenTag(a))
    requires st2 == st1.(i := m, inContent := AfterAll(ks, false), out := st1.out + PrettyAll(ks, u, st.depth + 1, false))
    requires next == st.(i := st.i + |Render(Element(a, ks))|, inContent := false,
                         out := st.out + Pretty(Element(a, ks), u, st.depth, st.inContent))
    ensures PlainName(a) && a !in InlineTags && At(s, st.i, OpenTag(a))
    ensures st1 == st.(inContent := false, depth := st.depth + 1, i := st.i + 2 + |a|,
                       out := st.out + NewLine(u, st.depth) + OpenTag(a))
    ensures st1.depth >= 0 && DefaultMode(st1) && WellFormedAll(ks) && At(s, st1.i, RenderAll(ks))
    ensures st2 == st1.(i := st1.i + |RenderAll(ks)|, inContent := AfterAll(ks, st1.inContent),
                        out := st1.out + PrettyAll(ks, u, st1.depth, st1.inContent))
    ensures st2.depth >= 1 && DefaultMode(st2) && At(s, st2.i, CloseTag(a))
    ensures pre == if TagEmpty(s, st2.i) then [] else NewLine(u, st2.depth - 1)
    ensures next == st2.(inContent := false, depth := st2.depth - 1, i := st2.i + 3 + |a|,
                         out := st2.out + pre + CloseTag(a))
  {
    ElementFacts(s, st.i, a, ks, m);
    ElementSplit(u, st, a, ks, m, pre, st2, next);
  }

  /** The state after a block element is the state after its children,
      followed by its closing tag. */
  lemma ElementSplit(u: string, st: Scan, a: string, ks: seq<Node>, m: nat, pre: string, st2: Scan, next: Scan)
    requires st.depth >= 0 && m + 3 + |a| == st.i + |Render(Element(a, ks))|
    requires pre == if ks == [] then [] else NewLine(u, st.depth)
    requires st2 == st.(inContent := AfterAll(ks, false), depth := st.depth + 1, i := m,
                        out := st.out + NewLine(u, st.depth) + OpenTag(a) + PrettyAll(ks, u, st.depth + 1, false))
    requires next == st.(i := st.i + |Render(Element(a, ks))|, inContent := false,
                         out := st.out + Pretty(Element(a, ks), u, st.depth, st.inContent))
    ensures st2.(inContent := false, depth := st.depth, i := m + 3 + |a|, out := st2.out + pre + CloseTag(a)) == next
  {
    var d := st.depth;
    var body := PrettyAll(ks, u, d + 1, false);
    assert Pretty(Element(a, ks), u, d, st.inContent) == NewLine(u, d) + OpenTag(a) + body + pre + CloseTag(a);
    Append5(st.out, NewLine(u, d), OpenTag(a), body, pre, CloseTag(a));
  }

  /** BlockOpenTag with the state it leads to named, for the same reason as
      TextRunTo. */
  lemma OpenBlockTo(s: string, u: string, st: Scan, a: string, next: Scan)
    requires st.depth >= 0 && DefaultMode(st) && PlainName(a) && a !in InlineTags
    requires At(s, st.i, OpenTag(a))
    requires next == st.(inContent := false, depth := st.depth + 1, i := st.i + 2 + |a|,
                         out := st.out + NewLine(u, st.depth) + OpenTag(a))
    ensures Run(s, u, st) == Run(s, u, next)
  {
    OpenTagAt(s, st.i, a);
    assert st.(inContent := false, depth := st.depth + 1, i := st.i + 1 + |a| + 1,
               out := st.out + NewLine(u, st.depth) + s[st.i .. st.i + 1 + |a| + 1]) == next;
    BlockOpenTag(s, u, st, a);
  }

  /** BlockCloseTag with the state it leads to named, one level up and with
      no line break exactly when the tag is empty; named for the same reason
      as TextRunTo. */
  lemma CloseBlockTo(s: string, u: string, st: Scan, a: string, pre: string, next: Scan)
    requires st.depth >= 1 && DefaultMode(st) && PlainName(a) && a !in InlineTags
    requires At(s, st.i, CloseTag(a))
    requires pre == if TagEmpty(s, st.i) then [] else NewLine(u, st.depth - 1)
    requires next == st.(inContent := false, depth := st.depth - 1, i := st.i + 3 + |a|,
                         out := st.out + pre + CloseTag(a))
    ensures Run(s, u, st) == Run(s, u, next)
  {
    CloseTagAt(s, st.i, a);
    var d := Decrement(st.depth);
    assert d == st.depth - 1;
    assert st.(inContent := false, depth := d, i := st.i + 2 + |a| + 1,
               out := st.out + (if TagEmpty(s, st.i) then [] else NewLine(u, d)) + s[st.i .. st.i + 2 + |a| + 1])
        == next;
    BlockCloseTag(s, u, st, a);
  }

  /** Regrouping of a six-part concatenation, used by ElementSplit to line its
      output up with Pretty; kept apart to keep that proof small. */
  lemma Append5(o: string, v: string, w: string, x: string, y: string, z: string)
    ensures o + v + w + x + y + z == o + (v + w + x + y + z)
  {
    calc {
      o + v + w + x + y + z;
      (o + (v + w)) + x + y + z;
      (o + (v + w + x)) + y + z;
      (o + (v + w + x + y)) + z;
      o + (v + w + x + y + z);
    }
  }

  /** One node of any kind. */
  lemma {:induction false} RunNode(s: string, u: string, st: Scan, n: Node, next: Scan)
    requires st.depth >= 0 && DefaultMode(st) && WellFormed(n) && At(s, st.i, Render(n))
    requires next == st.(i := st.i + |Render(n)|, inContent := After(n, st.inContent),
                         out := st.out + Pretty(n, u, st.depth, st.inContent))
    ensures Run(s, u, st) == Run(s, u, next)
    decreases n, 1
  {
    match n
    case Text(t) => RunText(s, u, st, t, next);
    case Inline(a, c) => RunInline(s, u, st, a, c, next);
    case Element(a, ks) => RunElement(s, u, st, a, ks, next);
  }

  /** A sequence of nodes, one after the other. */
  lemma {:induction false} RunForest(s: string, u: string, st: Scan, ks: seq<Node>, next: Scan)
    requires st.depth >= 0 && DefaultMode(st) && WellFormedAll(ks) && At(s, st.i, RenderAll(ks))
    requires next == st.(i := st.i + |RenderAll(ks)|, inContent := AfterAll(ks, st.inContent),
                         out := st.out + PrettyAll(ks, u, st.depth, st.inContent))
    ensures Run(s, u, st) == Run(s, u, next)
    decreases ks, 2
  {
    if ks == [] {
      assert next == st;
    } else {
      var n := ks[0];
      var rest := ks[1..];
      AtSplit(s, st.i, Render(n), RenderAll(rest));
      var mid := st.(i := st.i + |Render(n)|, inContent := After(n, st.inContent),
                     out := st.out + Pretty(n, u, st.depth, st.inContent));
      ForestSplit(u, st, ks, mid, next);
      RunNode(s, u, st, n, mid);
      assert Run(s, u, st) == Run(s, u, mid);
      RunForest(s, u, mid, rest, next);
      assert Run(s, u, mid) == Run(s, u, next);
    }
  }

  /** The state after a sequence of nodes is the state after the rest of
      them, taken from the state after the first. */
  lemma ForestSplit(u: string, st: Scan, ks: seq<Node>, mid: Scan, next: Scan)
    requires ks != [] && st.depth >= 0
    requires mid == st.(i := st.i + |Render(ks[0])|, inContent := After(ks[0], st.inContent),
                        out := st.out + Pretty(ks[0], u, st.depth, st.inContent))
    requires next == st.(i := st.i + |RenderAll(ks)|, inContent := AfterAll(ks, st.inContent),
                         out := st.out + PrettyAll(ks, u, st.depth, st.inContent))
    ensures next == mid.(i := mid.i + |RenderAll(ks[1..])|, inContent := AfterAll(ks[1..], mid.inContent),
                         out := mid.out + PrettyAll(ks[1..], u, mid.depth, mid.inContent))
  {
    var p := Pretty(ks[0], u, st.depth, st.inContent);
    var r := PrettyAll(ks[1..], u, st.depth, mid.inContent);
    assert PrettyAll(ks, u, st.depth, st.inContent) == p + r;
    assert st.out + p + r == st.out + (p + r);
  }

  /** The formatter on a written document: every block element on a line
      of its own, indented by its nesting depth, and nothing but the
      document's own text, tags and indentation in the output. */
  lemma FormattedDocument(ks: seq<Node>, useSpaces: bool, indentLength: nat)
    requires WellFormedAll(ks)
    ensures Formatted(RenderAll(ks), useSpaces, indentLength)
         == PrettyAll(ks, IndentUnit(useSpaces, indentLength, "\t"), 0, false)
  {
    var s := RenderAll(ks);
    var u := IndentUnit(useSpaces, indentLength, "\t");
    RenderAllFollowed(ks);
    FollowedNoDoctype(s);
    NoDoctypeStart(s);
    assert At(s, 0, s);
    var last := Fresh.(i := |s|, inContent := AfterAll(ks, false), out := PrettyAll(ks, u, 0, false));
    RunForest(s, u, Fresh, ks, last);
    assert Run(s, u, last) == last;
  }
}
