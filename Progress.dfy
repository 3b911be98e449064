/** The line printProgress writes (filc/retrieval.go:364-383): the formatted
    counter, padded with spaces or cut to the terminal width when the width
    is known, followed by a carriage return. The formatted text and the
    width are inputs; the text is ASCII, so a character stands for a byte. */
module Progress {
  import opened Common

  /** strings.Repeat(" ", n). */
  function Spaces(n: nat): (r: string)
    ensures |r| == n
    ensures forall i :: 0 <= i < n ==> r[i] == ' '
  {
    seq(n, _ => ' ')
  }

  /** Lines 370-381: with a known width, a shorter string is padded on the
      right with spaces and a longer one cut to its first `width`
      characters; with an unknown width the string is kept. */
  function PadOrTruncate(s: string, width: Option<nat>): (r: string)
    ensures width.None? ==> r == s
    ensures width.Some? ==> |r| == width.value
    ensures width.Some? && |s| <= width.value ==>
      r[..|s|] == s && forall i :: |s| <= i < |r| ==> r[i] == ' '
    ensures width.Some? && width.value <= |s| ==> r == s[..width.value]
  {
    match width
    case None => s
    case Some(w) =>
      if |s| < w then s + Spaces(w - |s|)
      else if |s| > w then s[..w]
      else s
  }

  /** Independent description: the first `width` characters of the string
      followed by `width` spaces. */
  lemma {:induction false} PadOrTruncateIsWindow(s: string, width: nat)
    ensures PadOrTruncate(s, Some(width)) == (s + Spaces(width))[..width]
  {
    var r, t := PadOrTruncate(s, Some(width)), (s + Spaces(width))[..width];
    forall i | 0 <= i < width ensures r[i] == t[i] {
      if i < |s| {
        if |s| <= width {
          assert r[i] == r[..|s|][i];
        }
      }
    }
  }

  /** A line already fitted to the width is fitted again unchanged, so
      redrawing leaves it alone. */
  lemma PadOrTruncateIdempotent(s: string, width: Option<nat>)
    ensures PadOrTruncate(PadOrTruncate(s, width), width) == PadOrTruncate(s, width)
  {
  }

  /** Fitting never loses a character of a string that fits. */
  lemma {:induction false} PadOrTruncateKeepsFittingText(s: string, width: nat)
    requires |s| <= width
    ensures forall i :: 0 <= i < |s| ==> PadOrTruncate(s, Some(width))[i] == s[i]
  {
    var r := PadOrTruncate(s, Some(width));
    forall i | 0 <= i < |s| ensures r[i] == s[i] {
      assert r[i] == r[..|s|][i];
    }
  }

  /** The whole line: the fitted text and a carriage return, which puts the
      cursor back so the next value overwrites this one. */
  function ProgressLine(text: string, width: Option<nat>): (r: string)
    ensures |r| >= 1 && r[|r| - 1] == '\r'
    ensures width.Some? ==> |r| == width.value + 1
    ensures width.None? ==> |r| == |text| + 1 && r[..|text|] == text
    ensures r[..|r| - 1] == PadOrTruncate(text, width)
  {
    PadOrTruncate(text, width) + "\r"
  }
}
