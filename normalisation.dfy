/**
 * The colour normalisation applied to each decoded image before it is saved.
 */
module Normalisation {

  /** What the extractor inspects of a decoded pixmap: whether it carries an alpha
      channel, and how many colour channels its colourspace has. */
  datatype Pixmap = Pixmap(alpha: bool, n: nat)

  /** The library's conversion to RGB is a parameter of the model; all that is assumed
      of it is that its result has three colour channels. */
  ghost predicate ProducesRgb(convertToRgb: Pixmap -> Pixmap) {
    forall pix :: convertToRgb(pix).n == 3
  }

  /** Convert to RGB when the pixmap has alpha, then (again) when it has more than three
      colour channels; otherwise keep it as decoded. */
  function Normalise(pix: Pixmap, convertToRgb: Pixmap -> Pixmap): (r: Pixmap)
    ensures !pix.alpha && pix.n <= 3 ==> r == pix
    ensures ProducesRgb(convertToRgb) && (pix.alpha || pix.n > 3) ==> r == convertToRgb(pix)
    ensures ProducesRgb(convertToRgb) ==> r.n <= 3
  {
    var afterAlpha := if pix.alpha then convertToRgb(pix) else pix;
    if afterAlpha.n > 3 then convertToRgb(afterAlpha) else afterAlpha
  }

  /** The normalisation as the extractor performs it, reassigning the pixmap step by step. */
  method NormalisePixmap(decoded: Pixmap, convertToRgb: Pixmap -> Pixmap) returns (pix: Pixmap)
    ensures pix == Normalise(decoded, convertToRgb)
  {
    pix := decoded;
    if pix.alpha {
      pix := convertToRgb(pix);
    }
    if pix.n > 3 {
      pix := convertToRgb(pix);
    }
  }
}
