# MathML rendering of the latex2mathml expression tree

latex2mathml turns a LaTeX formula into an expression tree, `Node`, and turns
that tree into MathML through `Node`'s `Display` implementation. This project
models the tree and its rendering in Dafny, and proves what the renderer does
with each kind of node. The LaTeX parser that builds the tree is not part of
this model.

- `Ast.Node` is the tree: one constructor per variant of the Rust enum. `Box`
  children are plain recursion, `Option` is `Wrappers.Option` and `Vec<Node>` is
  `seq<Node>`.
- `Ast.Render` is the `Display` implementation as a total recursive function. It
  has one arm per arm of the Rust `match`, with the same literals.
- The `Matrix` arm keeps a string buffer and changes it in a loop. It is modelled
  twice, and the two are proved equal:
  - `Ast.RenderMatrix` is that loop as a method.
  - `Ast.MatrixBody` is the same fold as a function, so that `Render` can call it.
- `Segments` cuts a flat sequence into the runs between separators (`Split`) and
  glues runs back together (`Join`).
- `Markup` holds the table fold and the nested row/cell layout for any element
  renderer, proves the two equal, and holds the concatenation lemmas the proofs
  use.
- `AstProperties` states the renderer's properties:
  - every fragment starts with `<` and ends with `>`;
  - a few identifier facts: which ones are styled, and different identifiers render differently;
  - a row's children in order;
  - the child order of roots and of function applications;
  - the row and cell layout of a table, including trailing breaks;
  - the negation overlay;
  - the diagnostic arm and the nodes that reach it;
  - the expected outputs of the repository's unit test.

One might expect a `NewLine` or `Ampersand` at the very end of a `Matrix`
sequence to open no new row or cell. The code does open one, because it guards
the new row or cell with `i < content.len()`, and `i` is always a valid index. The model follows the code. `AstProperties.MatrixTrailingNewLine` and
`AstProperties.MatrixTrailingAmpersand` state the resulting markup.

## Model

| member | source | states |
|---|---|---|
| Ast.RenderMatrix | src/ast.rs:74-96 | The buffer loop of the `Matrix` arm, including the always-true `i < content.len()` guards, produces exactly the `Matrix` arm's markup. |
| AstProperties.MatrixLayout | src/ast.rs:74-96 | The flat loop's output is a nested table: one `<mtr>` per run of elements between `NewLine`s, and inside each row one `<mtd>` per run between `Ampersand`s, holding those elements' renders in order. |
| Markup.FoldIsLayout | src/ast.rs:76-93 | For any element renderer, the flat fold with row and column breaks, framed by the first opening and last closing tags, equals the nested row/cell layout of the runs. |
| AstProperties.MatrixBodyIsTableFold | src/ast.rs:76-93 | A step of the `Matrix` arm's loop is the generic table step: a `NewLine` closes the cell and the row and opens new ones, an `Ampersand` closes the cell and opens a new one, anything else is rendered into the open cell. |
| AstProperties.MatrixShape | src/ast.rs:76-89 | A table has one row more than it has `NewLine`s, and each row has one cell more than it has `Ampersand`s. No row holds a `NewLine` and no cell a break. Joining the runs back gives the original elements in order. |
| AstProperties.MatrixFrame | src/ast.rs:75-93 | Every table's markup starts with `<mtable><mtr><mtd>` and ends with `</mtd></mtr></mtable>`. |
| AstProperties.MatrixWithoutBreaks | src/ast.rs:74-96 | A sequence with no breaks is a one-row, one-cell table holding the renders of all its elements. |
| AstProperties.MatrixTrailingNewLine | src/ast.rs:78-83 | A final `NewLine` still opens a row: the table ends in an empty row `<mtr><mtd></mtd></mtr>` where it would otherwise have closed, and the layout gains an empty last run. |
| AstProperties.MatrixTrailingAmpersand | src/ast.rs:84-89 | A final `Ampersand` still opens a cell: the last row ends in an empty cell `<mtd></mtd>` where it would otherwise have closed. |
| AstProperties.TrailingAmpersandLayout | src/ast.rs:84-89 | In the layout, a final `Ampersand` joins the last row, where it splits off one more, empty, cell. |
| Ast.MatrixBodyAppend | src/ast.rs:76-92 | Appending an element to a table's sequence appends exactly that element's step to the markup. |
| Segments.JoinSplit | src/ast.rs:76-89 | Cutting a sequence at separators and gluing the runs back with the separator gives the sequence back. |
| Segments.SplitJoin | src/ast.rs:76-89 | Gluing separator-free runs and cutting them again gives the same runs back. |
| Segments.SplitCount | src/ast.rs:76-89 | The number of runs is the number of separators plus one. |
| Segments.SplitRunsFree | src/ast.rs:76-89 | No run contains the separator. |
| Segments.SplitTrailing | src/ast.rs:78-89 | A separator at the very end adds one empty run. |
| Segments.SplitExtend | src/ast.rs:84-92 | Any other element at the very end joins the last run. |
| AstProperties.RowIsConcatenation | src/ast.rs:62-64 | A row is `<mrow>`, then its children's renders mapped and collected in order with no separator, then `</mrow>`. |
| Markup.ConcatMapIsConcat | src/ast.rs:63 | Rendering each element and collecting is the same string as mapping first and concatenating the mapped sequence. |
| AstProperties.RenderSeqAppend | src/ast.rs:62-64 | The body of a row distributes over concatenation of the children. |
| AstProperties.RenderSeqAt | src/ast.rs:62-64 | Each child's render appears unchanged at its own position, between its predecessors' and its successors'. |
| AstProperties.LetterOmitsDefaultStyle | src/ast.rs:38-41 | An identifier renders as a bare `<mi>c</mi>` exactly when its style is `Italic`. Any other style `v` gives `<mi mathvariant="v">c</mi>`. |
| AstProperties.LetterRenderInjective | src/ast.rs:38-41 | Two identifiers render identically only if they have the same character and the same style. |
| Attribute.VariantName | src/ast.rs:40 | The displayed style name is never empty, and it is `italic` exactly for the `Italic` style. |
| Attribute.VariantNameInjective | src/ast.rs:40 | Different styles display as different names. |
| AstProperties.FunctionApplication | src/ast.rs:43-46 | A function without an argument is `<mi>name</mi>`. With an argument it is the same, then the application operator `<mo>&#x2061;</mo>`, then the argument's render. |
| AstProperties.SqrtChildOrder | src/ast.rs:57-60 | A square root is `<msqrt>` around the radicand. A root with a degree is `<mroot>` with the radicand first and the degree second. |
| AstProperties.UndersetIsUnder | src/ast.rs:54-55 | `Underset` and `Under` produce the same markup, target first and then the under-script. |
| AstProperties.RenderDelimited | src/ast.rs:36-98 | Rendering is total. Every node, malformed or not, renders as a fragment that starts with `<` and ends with `>`. |
| AstProperties.SlashedStroke | src/ast.rs:69-71 | A slashed operator, or a slashed letter in a non-default style, is the unslashed element with the stroke `&#x0338;` placed just before its closing tag. |
| AstProperties.SlashedItalicLetter | src/ast.rs:70 | A slashed `Italic` letter always carries `mathvariant="italic"`. So it is not the plain letter with a stroke added. |
| AstProperties.SlashedFallback | src/ast.rs:72 | A slashed node that is neither a letter nor an operator renders as the node itself. |
| AstProperties.SlashedIdempotent | src/ast.rs:69-73 | Slashing twice renders the same as slashing once. |
| Ast.Render | src/ast.rs:34-101 | The markup of a node, one arm per arm of the `Display` match with the same literals. It is a definition with no contract of its own: `AstProperties.RenderDelimited`, `AstProperties.TextElementIff` and the lemmas below state its properties. |
| Ast.RenderSeq | src/ast.rs:62-64 | The renders of a row's children, in order and with no separator. It has no contract of its own: `AstProperties.RowIsConcatenation` ties it to mapping and concatenating. |
| Ast.MatrixStep | src/ast.rs:77-91 | What one element adds to a table: closing and opening tags for a break, the element's render otherwise. It has no contract of its own: `AstProperties.MatrixBodyIsTableFold` ties it to the generic table step. |
| Ast.MatrixBody | src/ast.rs:76-92 | The steps of all elements, in order. It has no contract of its own: `Ast.MatrixBodyAppend` and `Ast.RenderMatrix` tie it to the loop. |
| Ast.ParseError | src/ast.rs:98 | The diagnostic `<mtext>[PARSE ERROR: ` + debug text + `]</mtext>`. It has no contract of its own: `AstProperties.ParseErrorArm` states when it is used. |
| Ast.Debug | src/ast.rs:98 | The derived `{:?}` text of `Ampersand`, `NewLine` and `Undefined(message)`, the only nodes that reach the diagnostic. It has no contract of its own: `AstProperties.UndefinedShowsMessage` states its message form. |
| Ast.DebugEscape | src/ast.rs:98 | `Debug` escaping of a string, character by character. Escaping never shortens the string. |
| Ast.EscapeChar | src/ast.rs:98 | A character is written as something other than itself exactly when it is the quote, the backslash or an ASCII control character (non-ASCII characters are written unchanged in the model; see "## Left out"), and then the text starts with a backslash. Printable ASCII other than the quote and backslash is written unchanged. |
| Ast.Hex | src/ast.rs:98 | The hexadecimal digits of a `\u{..}` escape: at least one, all lower-case hexadecimal. |
| AstProperties.HexRoundTrip | src/ast.rs:98 | The digits of a `\u{..}` escape denote the code point exactly and have no leading zero. |
| AstProperties.DebugBell | src/ast.rs:98 | BEL is written `\u{7}`. |
| AstProperties.DebugEscapeCharacter | src/ast.rs:98 | ESC is written `\u{1b}`, with two lower-case digits. |
| Attribute.AccentName | src/ast.rs:51-52 | The accent flag displays as `true` exactly for `True` and as `false` exactly for `False`. |
| AstProperties.ParseErrorArm | src/ast.rs:98 | `Ampersand`, `NewLine` and `Undefined` render as `<mtext>[PARSE ERROR: ` + their debug text + `]</mtext>`, with or without a slash. |
| AstProperties.TextElementIff | src/ast.rs:97-98 | A node renders as an `mtext` element if and only if it is text, a malformed node, or a slash of one of those. |
| AstProperties.UndefinedShowsMessage | src/ast.rs:98 | An undefined node whose message is printable ASCII without quotes or backslashes shows the message verbatim in double quotes. |
| AstProperties.EscapeVerbatim | src/ast.rs:98 | Debug escaping leaves a string of printable ASCII without quotes or backslashes unchanged. |
| AstProperties.ParseErrorIsLocal | src/ast.rs:98 | One malformed child of a row yields one diagnostic in its place, and its siblings are rendered in full around it. |
| AstProperties.TextIsVerbatim | src/ast.rs:97-98 | Text is not escaped, so a text node can spell out any diagnostic exactly. |
| AstProperties.DisplayNumber | src/ast.rs:111 | `Number("3.14")` renders as `<mn>3.14</mn>`. |
| AstProperties.DisplayLatinLetter | src/ast.rs:112 | `Letter('x', Italic)` renders as `<mi>x</mi>`. |
| AstProperties.DisplayGreekLetter | src/ast.rs:113 | `Letter('α', Italic)` renders as `<mi>α</mi>`. |
| AstProperties.DisplayUprightLetter | src/ast.rs:114 | `Letter('あ', Normal)` renders as `<mi mathvariant="normal">あ</mi>`. |
| AstProperties.DisplayRow | src/ast.rs:115-118 | `Row([Operator('+'), Operator('-')])` renders as `<mrow><mo>+</mo><mo>-</mo></mrow>`. |

## Left out

- `Space` width: the model's `Space` carries the width as the decimal text that Rust's `f32` `Display` produces. The float-to-decimal conversion is not modelled.
- `Variant` and `Accent`: the `attribute` module that defines them and their `Display` is not part of this model. `Attribute.Variant` takes the fourteen MathML `mathvariant` values with their MathML names, and `Attribute.Accent` is `true`/`false`. Both are assumptions.
- `Debug` text (`{:?}`) of the nodes that reach the diagnostic: it is compiler-derived. It is modelled for the three nodes that can reach the arm. In an `Undefined` message it escapes `"`, `\`, newline, carriage return, tab and NUL with a backslash, and the other ASCII control characters as `\u{..}`.
- Ast.EscapeChar, Ast.DebugEscape: write every non-ASCII character unchanged, so the "exactly when" of `Ast.EscapeChar` holds of Rust only for ASCII. Rust's `Debug` also writes grapheme extenders (such as U+0301) and non-printable non-ASCII characters as `\u{..}`, which needs Unicode property tables. This is why `AstProperties.UndefinedShowsMessage` and `AstProperties.EscapeVerbatim` speak only of printable ASCII.
- `fmt::Formatter`, `fmt::Result` and `write!`: the model returns the output as a string. Formatter errors cannot occur in it.
- `'static` lifetimes: `&'static str` payloads are plain strings.
- AstProperties.MatrixShape: counts rows and cells in the layout that `AstProperties.MatrixLayout` proves equal to the markup. It does not count `<mtr>` substrings of the output, because element renders (a nested table, or a text node) can themselves contain those tags.
