/**
 * The expression tree of latex2mathml and its rendering as MathML
 * (the `Display` implementation of `Node`).
 */
module Ast {
  import opened Wrappers
  import opened Attribute
  import opened Markup

  /**
   * One node of the tree. `Box<Node>` children are plain recursion,
   * `Vec<Node>` is a sequence, and `&'static str` and `String` payloads
   * are strings. The width of `Space` is the decimal text its `f32`
   * displays as.
   */
  datatype Node =
    | Number(number: string)
    | Letter(letter: char, variant: Variant)
    | Operator(op: char)
    | Function(fun: string, arg: Option<Node>)
    | Space(width: string)
    | Subscript(target: Node, sub: Node)
    | Superscript(target: Node, sup: Node)
    | SubSup(target: Node, sub: Node, sup: Node)
    | OverOp(op: char, accent: Accent, target: Node)
    | UnderOp(op: char, accent: Accent, target: Node)
    | Overset(over: Node, target: Node)
    | Underset(under: Node, target: Node)
    | Under(target: Node, under: Node)
    | UnderOver(target: Node, under: Node, over: Node)
    | Sqrt(degree: Option<Node>, content: Node)
    | Frac(num: Node, denom: Node)
    | Row(nodes: seq<Node>)
    | Fenced(open: string, close: string, content: Node)
    | OtherOperator(symbol: string)
    | Text(text: string)
    | Matrix(elements: seq<Node>)
    | Ampersand
    | NewLine
    | Slashed(node: Node)
    | Undefined(message: string)

  /** The nodes no arm of the renderer handles: they get the diagnostic. */
  predicate IsParseError(n: Node) {
    n.Ampersand? || n.NewLine? || n.Undefined?
  }

  /** Combining long solidus overlay, written as a character reference. */
  const Stroke: string := "&#x0338;"

  /** Invisible function application operator, written as a character reference. */
  const ApplyFunction: string := "&#x2061;"

  /**
   * The MathML for a node. It is total: malformed nodes get a diagnostic
   * instead of an error.
   */
  function Render(n: Node): string
    decreases n, 1
  {
    match n
    case Number(number) => "<mn>" + number + "</mn>"
    case Letter(letter, variant) =>
      if variant == Italic then "<mi>" + [letter] + "</mi>"
      else "<mi mathvariant=\"" + VariantName(variant) + "\">" + [letter] + "</mi>"
    case Operator(op) => "<mo>" + [op] + "</mo>"
    case Function(fun, arg) =>
      (match arg
       case Some(a) => "<mi>" + fun + "</mi><mo>" + ApplyFunction + "</mo>" + Render(a)
       case None => "<mi>" + fun + "</mi>")
    case Space(width) => "<mspace width=\"" + width + "em\"/>"
    case Subscript(a, b) => "<msub>" + Render(a) + Render(b) + "</msub>"
    case Superscript(a, b) => "<msup>" + Render(a) + Render(b) + "</msup>"
    case SubSup(target, sub, sup) =>
      "<msubsup>" + Render(target) + Render(sub) + Render(sup) + "</msubsup>"
    case OverOp(op, acc, target) =>
      "<mover>" + Render(target) + "<mo accent=\"" + AccentName(acc) + "\">" + [op] + "</mo></mover>"
    case UnderOp(op, acc, target) =>
      "<munder>" + Render(target) + "<mo accent=\"" + AccentName(acc) + "\">" + [op] + "</mo></munder>"
    case Overset(over, target) => "<mover>" + Render(target) + Render(over) + "</mover>"
    case Underset(under, target) => "<munder>" + Render(target) + Render(under) + "</munder>"
    case Under(target, under) => "<munder>" + Render(target) + Render(under) + "</munder>"
    case UnderOver(target, under, over) =>
      "<munderover>" + Render(target) + Render(under) + Render(over) + "</munderover>"
    case Sqrt(degree, content) =>
      (match degree
       case Some(deg) => "<mroot>" + Render(content) + Render(deg) + "</mroot>"
       case None => "<msqrt>" + Render(content) + "</msqrt>")
    case Frac(num, denom) => "<mfrac>" + Render(num) + Render(denom) + "</mfrac>"
    case Row(nodes) => "<mrow>" + RenderSeq(nodes) + "</mrow>"
    case Fenced(open, close, content) =>
      "<mrow><mo stretchy=\"true\" form=\"prefix\">" + open + "</mo>" + Render(content)
      + "<mo stretchy=\"true\" form=\"postfix\">" + close + "</mo></mrow>"
    case OtherOperator(symbol) => "<mo>" + symbol + "</mo>"
    case Slashed(inner) =>
      (match inner
       case Letter(x, variant) => "<mi mathvariant=\"" + VariantName(variant) + "\">" + [x] + Stroke + "</mi>"
       case Operator(x) => "<mo>" + [x] + Stroke + "</mo>"
       case _ => Render(inner))
    case Matrix(elements) => MatrixOpen + MatrixBody(elements) + MatrixClose
    case Text(text) => "<mtext>" + text + "</mtext>"
    case Ampersand | NewLine | Undefined(_) => ParseError(n)
  }

  /** The renders of `xs`, in order, with no separator (the body of a `Row`). */
  function RenderSeq(xs: seq<Node>): string
    decreases xs, 0
  {
    if xs == [] then "" else Render(xs[0]) + RenderSeq(xs[1..])
  }

  /** What a table's markup starts and ends with. */
  const MatrixOpen: string := "<mtable><mtr><mtd>"
  const MatrixClose: string := "</mtd></mtr></mtable>"

  /**
   * What one element of a `Matrix` sequence appends to the table: a row
   * break closes the cell and the row and opens new ones, a column break
   * closes the cell and opens a new one, anything else is rendered into the
   * open cell. The new row or cell is opened even after the last element,
   * since the guard in front of it compares an index with the length of the
   * sequence it indexes.
   */
  function MatrixStep(x: Node): string
    decreases x, 2
  {
    match x
    case NewLine => "</mtd></mtr>" + "<mtr><mtd>"
    case Ampersand => "</mtd>" + "<mtd>"
    case _ => Render(x)
  }

  /** The steps of all elements of a `Matrix` sequence, in order. */
  function MatrixBody(xs: seq<Node>): string
    decreases xs, 0
  {
    if xs == [] then "" else MatrixStep(xs[0]) + MatrixBody(xs[1..])
  }

  /** The visible diagnostic that stands in for a node the renderer does not handle. */
  function ParseError(n: Node): string
    requires IsParseError(n)
  {
    "<mtext>[PARSE ERROR: " + Debug(n) + "]</mtext>"
  }

  /** The derived `Debug` text of a node that reaches the diagnostic. */
  function Debug(n: Node): string
    requires IsParseError(n)
  {
    match n
    case Ampersand => "Ampersand"
    case NewLine => "NewLine"
    case Undefined(message) => "Undefined(" + DebugQuoted(message) + ")"
  }

  /** A string as `Debug` shows it: in double quotes, with special characters escaped. */
  function DebugQuoted(s: string): string {
    "\"" + DebugEscape(s) + "\""
  }

  function DebugEscape(s: string): (e: string)
    ensures |e| >= |s|
  {
    if s == [] then "" else EscapeChar(s[0]) + DebugEscape(s[1..])
  }

  /**
   * The characters `Debug` writes as an escape inside a string: the quote,
   * the backslash and the ASCII control characters.
   */
  predicate NeedsEscape(c: char) {
    c == '"' || c == '\\' || c < ' ' || c == '\U{7F}'
  }

  /**
   * The characters `Debug` writes unchanged, in Rust as in this model:
   * printable ASCII other than the quote and the backslash.
   */
  predicate PlainAscii(c: char) {
    ' ' <= c <= '~' && c != '"' && c != '\\'
  }

  /**
   * One character as `Debug` writes it inside a string: a short escape for
   * the quote, the backslash, newline, carriage return, tab and NUL, a
   * `\u{..}` escape in lower-case hexadecimal for the other ASCII control
   * characters, and the character itself otherwise.
   */
  function EscapeChar(c: char): (e: string)
    ensures NeedsEscape(c) <==> e != [c]
    ensures NeedsEscape(c) ==> |e| >= 2 && e[0] == '\\'
    ensures PlainAscii(c) ==> e == [c]
  {
    match c
    case '"' => "\\\""
    case '\\' => "\\\\"
    case '\n' => "\\n"
    case '\r' => "\\r"
    case '\t' => "\\t"
    case '\0' => "\\0"
    case _ =>
      if c < ' ' || c == '\U{7F}' then "\\u{" + Hex(c as nat) + "}" else [c]
  }

  /** The digits of `n` in lower-case hexadecimal, without leading zeros. */
  function Hex(n: nat): (h: string)
    ensures |h| > 0
    ensures forall i :: 0 <= i < |h| ==> h[i] in "0123456789abcdef"
  {
    if n < 16 then ["0123456789abcdef"[n]]
    else Hex(n / 16) + ["0123456789abcdef"[n % 16]]
  }

  /**
   * The `Matrix` arm as the renderer runs it: a buffer that starts with the
   * opening tags, grows by one step per element, and is closed after the loop.
   */
  method RenderMatrix(content: seq<Node>) returns (mathml: string)
    ensures mathml == Render(Matrix(content))
  {
    mathml := MatrixOpen;
    for i := 0 to |content|
      invariant mathml == MatrixOpen + MatrixBody(content[..i])
    {
      var node := content[i];
      ghost var before := mathml;
      MatrixBodyAppend(content[..i], node);
      assert content[..i + 1] == content[..i] + [node];
      Associate(MatrixOpen, MatrixBody(content[..i]), MatrixStep(node));
      if node.NewLine? {
        mathml := mathml + "</mtd></mtr>";
        if i < |content| {
          mathml := mathml + "<mtr><mtd>";
        }
        Associate(before, "</mtd></mtr>", "<mtr><mtd>");
      } else if node.Ampersand? {
        mathml := mathml + "</mtd>";
        if i < |content| {
          mathml := mathml + "<mtd>";
        }
        Associate(before, "</mtd>", "<mtd>");
      } else {
        mathml := mathml + Render(node);
      }
    }
    assert content[..|content|] == content;
    mathml := mathml + MatrixClose;
  }

  /** Appending an element to a `Matrix` sequence appends its step to the body. */
  lemma {:induction false} MatrixBodyAppend(xs: seq<Node>, x: Node)
    ensures MatrixBody(xs + [x]) == MatrixBody(xs) + MatrixStep(x)
  {
    if xs == [] {
      assert [] + [x] == [x];
      assert [x][1..] == [];
    } else {
      assert (xs + [x])[1..] == xs[1..] + [x];
      MatrixBodyAppend(xs[1..], x);
    }
  }
}
