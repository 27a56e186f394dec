/**
 * What the renderer promises: the shape of every fragment, the styled and
 * unstyled identifiers, the child order of roots and function applications,
 * the row/cell layout of tables, the behaviour of the negation overlay and
 * the diagnostic for nodes no arm handles.
 */
module AstProperties {
  import opened Wrappers
  import opened Attribute
  import opened Segments
  import opened Markup
  import opened Ast

  /** A fragment that starts with an opening `<` and ends with a closing `>`. */
  predicate Delimited(s: string) {
    |s| >= 2 && s[0] == '<' && s[|s| - 1] == '>'
  }

  /** Every node, malformed or not, renders to a delimited fragment. */
  lemma {:induction false} RenderDelimited(n: Node)
    ensures Delimited(Render(n))
  {
    if n.Function? && n.arg.Some? {
      RenderDelimited(n.arg.value);
    } else if n.Slashed? {
      if !n.node.Letter? && !n.node.Operator? {
        RenderDelimited(n.node);
      }
    } else if n.Fenced? {
      FencedDelimited(n);
    } else if IsLeaf(n) {
      LeafDelimited(n);
    } else if n.OtherOperator? || n.Text? || IsParseError(n) {
      TextDelimited(n);
    } else if IsScript(n) {
      ScriptDelimited(n);
    } else {
      LayoutDelimited(n);
    }
  }

  /** Nodes whose render is one element around their own payload. */
  predicate IsLeaf(n: Node) {
    n.Number? || n.Letter? || n.Operator? || (n.Function? && n.arg.None?) || n.Space?
  }

  lemma LeafDelimited(n: Node)
    requires IsLeaf(n)
    ensures Delimited(Render(n))
  {
  }

  lemma TextDelimited(n: Node)
    requires n.OtherOperator? || n.Text? || IsParseError(n)
    ensures Delimited(Render(n))
  {
    if IsParseError(n) {
      DiagnosticArm(n);
    }
  }

  /** Nodes whose render is one element around a base and what is attached to it. */
  predicate IsScript(n: Node) {
    n.Subscript? || n.Superscript? || n.SubSup? || n.OverOp? || n.UnderOp? || n.Overset? || n.Underset?
  }

  lemma ScriptDelimited(n: Node)
    requires IsScript(n)
    ensures Delimited(Render(n))
  {
  }

  lemma LayoutDelimited(n: Node)
    requires n.Under? || n.UnderOver? || n.Sqrt? || n.Frac? || n.Row? || n.Matrix?
    ensures Delimited(Render(n))
  {
  }

  lemma FencedDelimited(n: Node)
    requires n.Fenced?
    ensures Delimited(Render(n))
  {
    var prefix := "<mrow><mo stretchy=\"true\" form=\"prefix\">" + n.open + "</mo>" + Render(n.content);
    assert prefix[0] == '<';
    assert Render(n) == prefix + "<mo stretchy=\"true\" form=\"postfix\">" + n.close + "</mo></mrow>";
  }

  // ---------------------------------------------------------------- Letter

  /** An identifier omits the style attribute exactly when its style is the default one. */
  lemma LetterOmitsDefaultStyle(c: char, v: Variant)
    ensures Render(Letter(c, v)) == "<mi>" + [c] + "</mi>" <==> v == Italic
    ensures v != Italic ==>
      Render(Letter(c, v)) == "<mi mathvariant=\"" + VariantName(v) + "\">" + [c] + "</mi>"
  {
    if v != Italic {
      assert |Render(Letter(c, v))| > |"<mi>" + [c] + "</mi>"|;
    }
  }

  /** Different identifiers, or one identifier in different styles, render differently. */
  lemma LetterRenderInjective(c: char, v: Variant, d: char, w: Variant)
    requires Render(Letter(c, v)) == Render(Letter(d, w))
    ensures c == d && v == w
  {
    LetterParts(c, v);
    LetterParts(d, w);
    if v != Italic {
      VariantNameInjective(v, w);
    }
  }

  /**
   * Where the parts of an identifier's markup sit: its character sixth from
   * the end, a space or the end of the tag at index 3, and the style name
   * right after the attribute's opening quote.
   */
  lemma LetterParts(c: char, v: Variant)
    ensures var r := Render(Letter(c, v));
      |r| >= 10 && r[|r| - 6] == c && r[3] == (if v == Italic then '>' else ' ') &&
      (v != Italic ==> |r| == 25 + |VariantName(v)| && r[17..17 + |VariantName(v)|] == VariantName(v))
  {
    if v == Italic {
      ItalicLetterParts(c);
    } else {
      StyledLetterParts(c, v);
    }
  }

  lemma ItalicLetterParts(c: char)
    ensures var r := Render(Letter(c, Italic));
      |r| == 10 && r[4] == c && r[3] == '>'
  {
  }

  lemma StyledLetterParts(c: char, v: Variant)
    requires v != Italic
    ensures var r := Render(Letter(c, v));
      |r| == 25 + |VariantName(v)| && r[|r| - 6] == c && r[3] == ' ' &&
      r[17..17 + |VariantName(v)|] == VariantName(v)
  {
    var name := VariantName(v);
    var r := Render(Letter(c, v));
    var prefix := "<mi mathvariant=\"";
    assert r == prefix + name + ("\">" + [c] + "</mi>");
    assert |prefix| == 17;
    assert r[17..17 + |name|] == name;
  }

  // ------------------------------------------------------------------- Row

  /** The body of a row is the children rendered one by one and concatenated. */
  lemma {:induction false} RenderSeqIsConcatMap(xs: seq<Node>)
    ensures RenderSeq(xs) == ConcatMap(Render, xs)
  {
    if xs != [] {
      RenderSeqIsConcatMap(xs[1..]);
    }
  }

  /** A row is its children's renders, mapped and collected, inside one `mrow`. */
  lemma RowIsConcatenation(xs: seq<Node>)
    ensures Render(Row(xs)) == "<mrow>" + Concat(Map(Render, xs)) + "</mrow>"
  {
    RenderSeqIsConcatMap(xs);
    ConcatMapIsConcat(Render, xs);
  }

  /** Rendering a sequence distributes over concatenation of sequences. */
  lemma RenderSeqAppend(xs: seq<Node>, ys: seq<Node>)
    ensures RenderSeq(xs + ys) == RenderSeq(xs) + RenderSeq(ys)
  {
    RenderSeqIsConcatMap(xs + ys);
    RenderSeqIsConcatMap(xs);
    RenderSeqIsConcatMap(ys);
    ConcatMapAppend(Render, xs, ys);
  }

  /** Each child's render appears unchanged at its own position among its siblings'. */
  lemma RenderSeqAt(xs: seq<Node>, i: nat)
    requires i < |xs|
    ensures RenderSeq(xs) == RenderSeq(xs[..i]) + Render(xs[i]) + RenderSeq(xs[i + 1..])
  {
    RenderSeqIsConcatMap(xs);
    RenderSeqIsConcatMap(xs[..i]);
    RenderSeqIsConcatMap(xs[i + 1..]);
    ConcatMapAt(Render, xs, i);
  }

  // ------------------------------------------------- Sqrt, Function, Under

  /** A root with a degree writes the radicand first and the degree second. */
  lemma SqrtChildOrder(degree: Option<Node>, content: Node)
    ensures degree.None? ==> Render(Sqrt(degree, content)) == "<msqrt>" + Render(content) + "</msqrt>"
    ensures degree.Some? ==>
      Render(Sqrt(degree, content)) == "<mroot>" + Render(content) + Render(degree.value) + "</mroot>"
  {
  }

  /** An applied function is the bare name, the application operator, then the argument. */
  lemma FunctionApplication(fun: string, arg: Node)
    ensures Render(Function(fun, None)) == "<mi>" + fun + "</mi>"
    ensures Render(Function(fun, Some(arg)))
         == Render(Function(fun, None)) + "<mo>" + ApplyFunction + "</mo>" + Render(arg)
  {
  }

  /** `Underset` and `Under` are the same markup; only their field order differs. */
  lemma UndersetIsUnder(under: Node, target: Node)
    ensures Render(Underset(under, target)) == Render(Under(target, under))
    ensures Render(Under(target, under)) == "<munder>" + Render(target) + Render(under) + "</munder>"
  {
  }

  // ---------------------------------------------------------------- Matrix

  /** The element renderer of a table: the `Matrix` arm's step, with `Render` for cell contents. */
  lemma {:induction false} MatrixBodyIsTableFold(xs: seq<Node>)
    ensures MatrixBody(xs) == TableFold(Render, NewLine, Ampersand, xs)
  {
    if xs != [] {
      MatrixBodyIsTableFold(xs[1..]);
      StepIsTableStep(xs[0]);
    }
  }

  /** One step of the renderer's loop is one step of the generic table fold. */
  lemma StepIsTableStep(x: Node)
    ensures MatrixStep(x) == TableStep(Render, NewLine, Ampersand, x)
  {
    StepTags();
    BreakTags();
  }

  // Regrouping facts about tag literals: proof scaffolding that keeps the
  // string proofs cheap, not properties of the renderer.
  lemma BreakTags()
    ensures "</mtd></mtr>" + "<mtr><mtd>" == CloseCell + CloseRow + OpenRow + OpenCell
    ensures "</mtd>" + "<mtd>" == CloseCell + OpenCell
  {
  }

  /** The markup of a table whose rows are the given runs of elements. */
  function TableMarkup(rows: seq<seq<Node>>): string {
    "<mtable>" + Rows(Render, Ampersand, rows) + "</mtable>"
  }

  /**
   * The flat fold of the `Matrix` arm is a nested table: one `mtr` per run of
   * elements between row breaks, and in it one `mtd` per run between column
   * breaks, holding the renders of that run's elements.
   */
  lemma MatrixLayout(xs: seq<Node>)
    ensures Render(Matrix(xs)) == TableMarkup(Split(xs, NewLine))
  {
    var body := MatrixBody(xs);
    var open, close := OpenRow + OpenCell, CloseCell + CloseRow;
    calc {
      Render(Matrix(xs));
      MatrixOpen + body + MatrixClose;
      { TableTags(); }
      "<mtable>" + open + body + (close + "</mtable>");
      { Reframe("<mtable>", open, body, close, "</mtable>"); }
      "<mtable>" + (open + body + close) + "</mtable>";
      { Associate(open + body, CloseCell, CloseRow); MatrixBodyIsTableFold(xs); }
      "<mtable>" + FlatTable(Render, NewLine, Ampersand, xs) + "</mtable>";
      { FoldIsLayout(Render, NewLine, Ampersand, xs); }
      TableMarkup(Split(xs, NewLine));
    }
  }

  // Regrouping facts about tag literals: proof scaffolding that keeps the
  // string proofs cheap, not properties of the renderer.
  /** The opening and closing literals of a table, as the tags they consist of. */
  lemma TableTags()
    ensures MatrixOpen == "<mtable>" + (OpenRow + OpenCell)
    ensures MatrixClose == CloseCell + CloseRow + "</mtable>"
  {
  }

  /**
   * A table has one row more than it has row breaks, each row one cell more
   * than the column breaks in it, no cell holds a break, and the cells hold
   * all other elements in their original order.
   */
  lemma MatrixShape(xs: seq<Node>)
    ensures |Split(xs, NewLine)| == multiset(xs)[NewLine] + 1
    ensures forall i :: 0 <= i < |Split(xs, NewLine)| ==>
      |Split(Split(xs, NewLine)[i], Ampersand)| == multiset(Split(xs, NewLine)[i])[Ampersand] + 1
    ensures forall i :: 0 <= i < |Split(xs, NewLine)| ==> NewLine !in Split(xs, NewLine)[i]
    ensures forall row :: row in Split(xs, NewLine) ==>
      forall j :: 0 <= j < |Split(row, Ampersand)| ==> Ampersand !in Split(row, Ampersand)[j]
    ensures Join(Split(xs, NewLine), NewLine) == xs
    ensures forall row :: row in Split(xs, NewLine) ==> Join(Split(row, Ampersand), Ampersand) == row
  {
    var rows := Split(xs, NewLine);
    SplitCount(xs, NewLine);
    SplitRunsFree(xs, NewLine);
    JoinSplit(xs, NewLine);
    forall i | 0 <= i < |rows|
      ensures |Split(rows[i], Ampersand)| == multiset(rows[i])[Ampersand] + 1
    {
      SplitCount(rows[i], Ampersand);
    }
    forall row | row in rows
      ensures forall j :: 0 <= j < |Split(row, Ampersand)| ==> Ampersand !in Split(row, Ampersand)[j]
      ensures Join(Split(row, Ampersand), Ampersand) == row
    {
      SplitRunsFree(row, Ampersand);
      JoinSplit(row, Ampersand);
    }
  }

  /** A sequence with no breaks is one table with one row and one cell holding all its renders. */
  lemma MatrixWithoutBreaks(xs: seq<Node>)
    requires NewLine !in xs && Ampersand !in xs
    ensures Render(Matrix(xs)) == MatrixOpen + RenderSeq(xs) + MatrixClose
    ensures Split(xs, NewLine) == [xs] && Split(xs, Ampersand) == [xs]
  {
    BodyWithoutBreaks(xs);
    SplitFree(xs, NewLine);
    SplitFree(xs, Ampersand);
  }

  lemma {:induction false} BodyWithoutBreaks(xs: seq<Node>)
    requires NewLine !in xs && Ampersand !in xs
    ensures MatrixBody(xs) == RenderSeq(xs)
  {
    if xs != [] {
      assert xs[0] in xs;
      assert forall x :: x in xs[1..] ==> x in xs;
      BodyWithoutBreaks(xs[1..]);
    }
  }

  /** The table markup opens and closes the same way whatever the elements. */
  lemma MatrixFrame(xs: seq<Node>)
    ensures |Render(Matrix(xs))| >= |MatrixOpen| + |MatrixClose|
    ensures Render(Matrix(xs))[..|MatrixOpen|] == "<mtable><mtr><mtd>"
    ensures Render(Matrix(xs))[|Render(Matrix(xs))| - |MatrixClose|..] == "</mtd></mtr></mtable>"
  {
  }

  /**
   * A row break at the very end still opens one more, empty, row: where the
   * table would have closed, an empty row appears before the closing tag,
   * and the layout gains an empty last run.
   */
  lemma MatrixTrailingNewLine(xs: seq<Node>)
    ensures Render(Matrix(xs)) == MatrixOpen + MatrixBody(xs) + "</mtd></mtr>" + "</mtable>"
    ensures Render(Matrix(xs + [NewLine]))
         == MatrixOpen + MatrixBody(xs) + "</mtd></mtr>" + "<mtr><mtd></mtd></mtr></mtable>"
    ensures Split(xs + [NewLine], NewLine) == Split(xs, NewLine) + [[]]
  {
    MatrixBodyAppend(xs, NewLine);
    SplitTrailing(xs, NewLine);
    StepTags();
    CloseTags();
    EmptyRowTags();
    Regroup(MatrixOpen, MatrixBody(xs), "</mtd></mtr>", "<mtr><mtd>", MatrixClose);
    Associate(MatrixOpen + MatrixBody(xs), "</mtd></mtr>", "</mtable>");
  }

  /**
   * A column break at the very end still opens one more, empty, cell: where
   * the row would have closed, an empty cell appears before the closing tags.
   */
  lemma MatrixTrailingAmpersand(xs: seq<Node>)
    ensures Render(Matrix(xs)) == MatrixOpen + MatrixBody(xs) + "</mtd>" + "</mtr></mtable>"
    ensures Render(Matrix(xs + [Ampersand]))
         == MatrixOpen + MatrixBody(xs) + "</mtd>" + "<mtd></mtd></mtr></mtable>"
  {
    MatrixBodyAppend(xs, Ampersand);
    StepTags();
    CloseTags();
    EmptyCellTags();
    Regroup(MatrixOpen, MatrixBody(xs), "</mtd>", "<mtd>", MatrixClose);
    Associate(MatrixOpen + MatrixBody(xs), "</mtd>", "</mtr></mtable>");
  }

  /**
   * In the layout, a trailing column break joins the last row, where it
   * splits off one more, empty, cell.
   */
  lemma TrailingAmpersandLayout(xs: seq<Node>)
    ensures Split(xs + [Ampersand], NewLine) == ExtendLast(Split(xs, NewLine), Ampersand)
    ensures var last := Split(xs, NewLine)[|Split(xs, NewLine)| - 1];
      Split(last + [Ampersand], Ampersand) == Split(last, Ampersand) + [[]]
  {
    var rows := Split(xs, NewLine);
    SplitExtend(xs, Ampersand, NewLine);
    SplitTrailing(rows[|rows| - 1], Ampersand);
  }

  // Regrouping facts about tag literals: proof scaffolding that keeps the
  // string proofs cheap, not properties of the renderer.
  /** The literals a trailing break produces, as the steps and closing tags they consist of. */
  lemma StepTags()
    ensures MatrixStep(NewLine) == "</mtd></mtr>" + "<mtr><mtd>"
    ensures MatrixStep(Ampersand) == "</mtd>" + "<mtd>"
  {
  }

  lemma CloseTags()
    ensures MatrixClose == "</mtd></mtr>" + "</mtable>"
    ensures MatrixClose == "</mtd>" + "</mtr></mtable>"
  {
  }

  lemma EmptyRowTags()
    ensures "<mtr><mtd>" + MatrixClose == "<mtr><mtd></mtd></mtr></mtable>"
  {
  }

  lemma EmptyCellTags()
    ensures "<mtd>" + MatrixClose == "<mtd></mtd></mtr></mtable>"
  {
  }

  // --------------------------------------------------------------- Slashed

  /** The fragment with the negation stroke put just before its closing `</mi>` or `</mo>`. */
  function WithStroke(s: string): string
    requires |s| >= 5
  {
    s[..|s| - 5] + Stroke + s[|s| - 5..]
  }

  /** An operator, or a letter in a non-default style, gets the stroke inside its own element. */
  lemma SlashedStroke(n: Node)
    requires n.Operator? || (n.Letter? && n.variant != Italic)
    ensures |Render(n)| >= 5 && Render(Slashed(n)) == WithStroke(Render(n))
  {
    var r := Render(n);
    if n.Operator? {
      assert r[..|r| - 5] == "<mo>" + [n.op];
    } else {
      assert r[..|r| - 5] == "<mi mathvariant=\"" + VariantName(n.variant) + "\">" + [n.letter];
    }
  }

  /** A letter in the default style gains the style attribute when slashed. */
  lemma SlashedItalicLetter(x: char)
    ensures Render(Slashed(Letter(x, Italic))) == "<mi mathvariant=\"italic\">" + [x] + Stroke + "</mi>"
    ensures Render(Slashed(Letter(x, Italic))) != WithStroke(Render(Letter(x, Italic)))
  {
    assert |WithStroke(Render(Letter(x, Italic)))| == 18;
  }

  /** Anything but a letter or an operator is rendered as if it were not slashed. */
  lemma SlashedFallback(n: Node)
    requires !n.Letter? && !n.Operator?
    ensures Render(Slashed(n)) == Render(n)
  {
  }

  /** Slashing twice is slashing once. */
  lemma SlashedIdempotent(n: Node)
    ensures Render(Slashed(Slashed(n))) == Render(Slashed(n))
  {
  }

  // ----------------------------------------------------------- Diagnostics

  /** Column and row breaks outside a table, and undefined nodes, render as the diagnostic. */
  lemma ParseErrorArm(n: Node)
    requires IsParseError(n)
    ensures Render(n) == "<mtext>[PARSE ERROR: " + Debug(n) + "]</mtext>"
    ensures Render(Slashed(n)) == Render(n)
  {
  }

  /** The diagnostic of an undefined node quotes its message. */
  lemma UndefinedShowsMessage(message: string)
    requires forall i :: 0 <= i < |message| ==> PlainAscii(message[i])
    ensures Render(Undefined(message)) == "<mtext>[PARSE ERROR: Undefined(\"" + message + "\")]</mtext>"
  {
    EscapeVerbatim(message);
    DiagnosticTags();
    Nest("<mtext>[PARSE ERROR: ", "Undefined(", "\"", message, ")", "]</mtext>");
  }

  // Regrouping facts about tag literals: proof scaffolding that keeps the
  // string proofs cheap, not properties of the renderer.
  lemma DiagnosticTags()
    ensures "<mtext>[PARSE ERROR: Undefined(\"" == "<mtext>[PARSE ERROR: " + "Undefined(" + "\""
    ensures "\")]</mtext>" == "\"" + ")" + "]</mtext>"
  {
  }

  lemma {:induction false} EscapeVerbatim(s: string)
    requires forall i :: 0 <= i < |s| ==> PlainAscii(s[i])
    ensures DebugEscape(s) == s
  {
    if s != [] {
      EscapeVerbatim(s[1..]);
      assert [s[0]] + s[1..] == s;
    }
  }

  /** The value of a lower-case hexadecimal digit. */
  function DigitValue(c: char): nat {
    if '0' <= c <= '9' then c as int - '0' as int
    else if 'a' <= c <= 'f' then c as int - 'a' as int + 10
    else 0
  }

  /** The number a string of hexadecimal digits denotes, most significant first. */
  function HexValue(h: string): nat {
    if h == [] then 0 else HexValue(h[..|h| - 1]) * 16 + DigitValue(h[|h| - 1])
  }

  /** The digits of a `\u{..}` escape denote the code point, with no leading zero. */
  lemma {:induction false} HexRoundTrip(n: nat)
    ensures HexValue(Hex(n)) == n
    ensures Hex(n)[0] == '0' ==> n == 0
  {
    if n >= 16 {
      HexRoundTrip(n / 16);
      var h := Hex(n);
      assert h[..|h| - 1] == Hex(n / 16);
      DigitRoundTrip(n % 16);
    } else {
      DigitRoundTrip(n);
    }
  }

  lemma DigitRoundTrip(d: nat)
    requires d < 16
    ensures DigitValue("0123456789abcdef"[d]) == d
    ensures "0123456789abcdef"[d] == '0' ==> d == 0
  {
  }

  /** One malformed child yields one diagnostic; its siblings are rendered in full around it. */
  lemma ParseErrorIsLocal(xs: seq<Node>, i: nat)
    requires i < |xs| && IsParseError(xs[i])
    ensures Render(Row(xs))
         == "<mrow>" + RenderSeq(xs[..i]) + ParseError(xs[i]) + RenderSeq(xs[i + 1..]) + "</mrow>"
  {
    var before, after := RenderSeq(xs[..i]), RenderSeq(xs[i + 1..]);
    calc {
      Render(Row(xs));
      "<mrow>" + RenderSeq(xs) + "</mrow>";
      { RenderSeqAt(xs, i); }
      "<mrow>" + (before + Render(xs[i]) + after) + "</mrow>";
      { Associate("<mrow>", before + Render(xs[i]), after); Associate("<mrow>", before, Render(xs[i])); }
      "<mrow>" + before + Render(xs[i]) + after + "</mrow>";
      { DiagnosticArm(xs[i]); }
      "<mrow>" + before + ParseError(xs[i]) + after + "</mrow>";
    }
  }

  /** The renderer's fallback arm, as one fact. */
  lemma DiagnosticArm(n: Node)
    requires IsParseError(n)
    ensures Render(n) == ParseError(n)
  {
  }

  /**
   * Text is not escaped, so a text node can spell out any diagnostic: the
   * output alone does not tell a malformed node from a text node.
   */
  lemma TextIsVerbatim(n: Node)
    requires IsParseError(n)
    ensures Render(Text("[PARSE ERROR: " + Debug(n) + "]")) == Render(n)
  {
    TextTags();
    ParseErrorArm(n);
    Enclose("<mtext>", "[PARSE ERROR: ", Debug(n), "]", "</mtext>");
  }

  // Regrouping facts about tag literals: proof scaffolding that keeps the
  // string proofs cheap, not properties of the renderer.
  lemma TextTags()
    ensures "<mtext>[PARSE ERROR: " == "<mtext>" + "[PARSE ERROR: "
    ensures "]</mtext>" == "]" + "</mtext>"
  {
  }

  /** Nodes that render as an `mtext` element: text, malformed nodes, and slashes of those. */
  predicate RendersAsText(n: Node) {
    n.Text? || IsParseError(n)
    || (n.Slashed? && !n.node.Letter? && !n.node.Operator? && RendersAsText(n.node))
  }

  /** A fragment that opens with the `mtext` tag. */
  predicate OpensText(s: string) {
    |s| >= 7 && s[..7] == "<mtext>"
  }

  /** A fragment that opens with `mtext` has `t` and `e` as its third and fourth characters. */
  lemma OpensTextLetters(s: string)
    requires OpensText(s)
    ensures s[2] == 't' && s[3] == 'e'
  {
    assert s[2] == s[..7][2];
    assert s[3] == s[..7][3];
  }

  /**
   * Exactly text nodes and malformed nodes render as `mtext`: every other
   * node opens a different element, so a diagnostic can only come from a
   * malformed node or from text that spells one out.
   */
  lemma {:induction false} TextElementIff(n: Node)
    ensures OpensText(Render(n)) <==> RendersAsText(n)
  {
    if n.Slashed? {
      if n.node.Letter? {
        SlashedLetterTag(n.node);
      } else if n.node.Operator? {
        SlashedOperatorTag(n.node);
      } else {
        TextElementIff(n.node);
      }
    } else if n.Text? || IsParseError(n) {
      TextTag(n);
    } else if IsLeaf(n) || n.Function? || n.OtherOperator? {
      LeafTag(n);
    } else if IsScript(n) {
      ScriptTag(n);
    } else if n.Under? || n.UnderOver? || n.Sqrt? || n.Frac? {
      LayoutTag(n);
    } else if n.Matrix? {
      MatrixTag(n.elements);
    } else {
      RowTag(n);
    }
  }

  lemma SlashedLetterTag(n: Node)
    requires n.Letter?
    ensures !OpensText(Render(Slashed(n)))
  {
    if OpensText(Render(Slashed(n))) {
      OpensTextLetters(Render(Slashed(n)));
    }
  }

  lemma SlashedOperatorTag(n: Node)
    requires n.Operator?
    ensures !OpensText(Render(Slashed(n)))
  {
    if OpensText(Render(Slashed(n))) {
      OpensTextLetters(Render(Slashed(n)));
    }
  }

  lemma TextTag(n: Node)
    requires n.Text? || IsParseError(n)
    ensures OpensText(Render(n))
  {
    if n.Text? {
      Associate("<mtext>", n.text, "</mtext>");
      PrefixOf("<mtext>", n.text + "</mtext>");
    } else {
      DiagnosticArm(n);
      DiagnosticTag(n);
    }
  }

  lemma DiagnosticTag(n: Node)
    requires IsParseError(n)
    ensures OpensText(ParseError(n))
  {
    assert ParseError(n) == "<mtext>" + ("[PARSE ERROR: " + Debug(n) + "]</mtext>");
    PrefixOf("<mtext>", "[PARSE ERROR: " + Debug(n) + "]</mtext>");
  }

  lemma LeafTag(n: Node)
    requires IsLeaf(n) || n.Function? || n.OtherOperator?
    ensures !OpensText(Render(n))
  {
    if OpensText(Render(n)) {
      OpensTextLetters(Render(n));
    }
  }

  lemma ScriptTag(n: Node)
    requires IsScript(n)
    ensures !OpensText(Render(n))
  {
    if OpensText(Render(n)) {
      OpensTextLetters(Render(n));
    }
  }

  lemma LayoutTag(n: Node)
    requires n.Under? || n.UnderOver? || n.Sqrt? || n.Frac?
    ensures !OpensText(Render(n))
  {
    if OpensText(Render(n)) {
      OpensTextLetters(Render(n));
    }
  }

  lemma RowTag(n: Node)
    requires n.Row? || n.Fenced?
    ensures !OpensText(Render(n))
  {
    if OpensText(Render(n)) {
      OpensTextLetters(Render(n));
    }
  }

  lemma MatrixTag(elements: seq<Node>)
    ensures !OpensText(Render(Matrix(elements)))
  {
    if OpensText(Render(Matrix(elements))) {
      OpensTextLetters(Render(Matrix(elements)));
    }
  }

  // ------------------------------------------------------------- Examples

  /** The expected outputs the repository's own unit test lists, one lemma per case. */
  lemma DisplayNumber()
    ensures Render(Number("3.14")) == "<mn>3.14</mn>"
  {
  }

  lemma DisplayLatinLetter()
    ensures Render(Letter('x', Italic)) == "<mi>x</mi>"
  {
  }

  lemma DisplayGreekLetter()
    ensures Render(Letter('α', Italic)) == "<mi>α</mi>"
  {
  }

  lemma DisplayUprightLetter()
    ensures Render(Letter('あ', Normal)) == "<mi mathvariant=\"normal\">あ</mi>"
  {
  }

  lemma DisplayRow()
    ensures Render(Row([Operator('+'), Operator('-')])) == "<mrow><mo>+</mo><mo>-</mo></mrow>"
  {
    RowOfTwo(Operator('+'), Operator('-'));
    assert Render(Operator('+')) == "<mo>+</mo>";
    assert Render(Operator('-')) == "<mo>-</mo>";
    RowLiteral();
  }

  /** Control characters get a `\u{..}` escape with the shortest lower-case hex digits. */
  lemma DebugBell()
    ensures EscapeChar('\U{7}') == "\\u{7}"
  {
    assert Hex(7) == "7";
  }

  lemma DebugEscapeCharacter()
    ensures EscapeChar('\U{1B}') == "\\u{1b}"
  {
    assert Hex(1) == "1";
    assert Hex(0x1B) == "1b";
  }

  // Regrouping facts about tag literals: proof scaffolding that keeps the
  // string proofs cheap, not properties of the renderer.
  lemma RowLiteral()
    ensures "<mrow>" + "<mo>+</mo>" + "<mo>-</mo>" + "</mrow>" == "<mrow><mo>+</mo><mo>-</mo></mrow>"
  {
  }

  lemma RowOfTwo(a: Node, b: Node)
    ensures Render(Row([a, b])) == "<mrow>" + Render(a) + Render(b) + "</mrow>"
  {
    assert [a, b][1..] == [b];
    assert [b][1..] == [];
    assert RenderSeq([b]) == Render(b) + "" == Render(b);
    assert RenderSeq([a, b]) == Render(a) + Render(b);
    Associate("<mrow>", Render(a), Render(b));
  }
}
