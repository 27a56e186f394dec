/**
 * Styling tags carried by expression nodes: the letter style that becomes a
 * `mathvariant` attribute and the flag that becomes an `accent` attribute.
 * The attribute module of the repository is not part of this model; the
 * variants and their textual names are those of the MathML `mathvariant`
 * and `accent` attributes.
 */
module Attribute {

  datatype Variant =
    | Normal | Italic | Bold | BoldItalic | DoubleStruck | BoldFraktur
    | Script | BoldScript | Fraktur | SansSerif | BoldSansSerif
    | SansSerifItalic | SansSerifBoldItalic | Monospace

  datatype Accent = True | False

  /** The attribute value a style displays as. */
  function VariantName(v: Variant): (name: string)
    ensures |name| > 0
    ensures name == "italic" <==> v == Italic
  {
    match v
    case Normal => "normal"
    case Italic => "italic"
    case Bold => "bold"
    case BoldItalic => "bold-italic"
    case DoubleStruck => "double-struck"
    case BoldFraktur => "bold-fraktur"
    case Script => "script"
    case BoldScript => "bold-script"
    case Fraktur => "fraktur"
    case SansSerif => "sans-serif"
    case BoldSansSerif => "bold-sans-serif"
    case SansSerifItalic => "sans-serif-italic"
    case SansSerifBoldItalic => "sans-serif-bold-italic"
    case Monospace => "monospace"
  }

  /** The attribute value an accent flag displays as. */
  function AccentName(a: Accent): (name: string)
    ensures name == "true" <==> a == True
    ensures name == "false" <==> a == False
  {
    match a
    case True => "true"
    case False => "false"
  }

  /** Distinct styles display differently, so the attribute identifies the style. */
  lemma VariantNameInjective(v: Variant, w: Variant)
    requires VariantName(v) == VariantName(w)
    ensures v == w
  {
  }
}
