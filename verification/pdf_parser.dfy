/**
 * The text clean-up step of `PdfParserService`: every text extracted from an
 * uploaded PDF or DOCX is passed through `cleanText` before it is stored.
 */
module PdfParser {
  import opened PhpText

  /** `cleanText`: `trim(preg_replace('/\s+/', ' ', $text))`. */
  function CleanText(text: Bytes): (r: Bytes)
    ensures Trimmed(r)
    ensures r == [] || (!IsSpace(r[0]) && !IsSpace(r[|r| - 1]))
    ensures SingleSpaced(r)
    ensures |r| <= |text|
  {
    var c := Collapse(text);
    TrimKeepsSingleSpaced(c);
    Trim(c)
  }

  /** Cleaning twice is cleaning once. */
  lemma CleanTextIdempotent(text: Bytes)
    ensures CleanText(CleanText(text)) == CleanText(text)
  {
    CollapseTrimFixpoint(CleanText(text));
  }

  /** The non-whitespace bytes survive in order; only NULs at either end are lost to `trim`. */
  lemma CleanTextKeepsNonSpace(text: Bytes)
    ensures NonSpace(CleanText(text)) == DropNulEnd(DropNulStart(NonSpace(text)))
  {
    NonSpaceCollapse(text);
    NonSpaceTrim(Collapse(text));
  }

  /** Whitespace-only text (including "") cleans to "". */
  lemma CleanTextBlank(text: Bytes)
    requires forall i :: 0 <= i < |text| ==> IsSpace(text[i])
    ensures CleanText(text) == ""
  {
    if text != [] {
      CollapseAllSpace(text);
      assert TrimStart(" ") == TrimStart("");
    }
  }

  /** A whitespace run between two stretches with solid ends leaves exactly one space:
      each stretch is cleaned on its own. */
  lemma CleanTextAroundRun(x: Bytes, w: Bytes, y: Bytes)
    requires SolidEnds(x) && SolidEnds(y)
    requires w != [] && forall i :: 0 <= i < |w| ==> IsSpace(w[i])
    ensures CleanText(x + w + y) == CleanText(x) + " " + CleanText(y)
  {
    CollapseAroundRun(x, w, y);
    CollapseSolidEnds(x);
    CollapseSolidEnds(y);
    var r := Collapse(x) + " " + Collapse(y);
    assert r[0] == x[0] && r[|r| - 1] == y[|y| - 1];
    TrimOfTrimmed(r);
  }
}
