/** The colour-mode rule applied before saving: palette and alpha images are
    converted to plain RGB, every other mode is saved as it is. */
module Modes {
  import opened Text

  /** The mode palette and alpha images are converted to. */
  const Rgb: Str := "RGB"

  /** The modes that trigger a conversion, in their source order. */
  const ConvertedModes: seq<Str> := ["RGBA", "P"]

  /** `img.mode in ("RGBA", "P")`. */
  predicate NeedsRgb(mode: Str) {
    mode in ConvertedModes
  }

  /** The mode an image is saved in, given the mode it was opened with. */
  function NormalizeMode(mode: Str): (r: Str)
    ensures !NeedsRgb(r)
    ensures r != mode <==> NeedsRgb(mode)
    ensures r != mode ==> r == Rgb
  {
    if NeedsRgb(mode) then Rgb else mode
  }

  /** Normalising an already normalised mode changes nothing. */
  lemma NormalizeModeIdempotent(mode: Str)
    ensures NormalizeMode(NormalizeMode(mode)) == NormalizeMode(mode)
  {
  }
}
