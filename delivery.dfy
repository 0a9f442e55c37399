/**
 * How a generation result is delivered: the test that decides between
 * sending a photo and sending text, and the shortened text the
 * administrator receives when the result is not an image link.
 */
module Delivery {
  import opened Text

  const ImageExtensions: seq<string> := [".png", ".jpg", ".jpeg", ".webp", ".gif"]

  /** The result, lowered, starts with `http` and contains one of the image
      extensions anywhere (not necessarily at the end). An extension cannot
      overlap the scheme, so an image link has at least eight characters. */
  predicate LooksLikeImageUrl(result: string)
    ensures LooksLikeImageUrl(result) ==> |result| >= 8 && Lower(result[..4]) == "http"
  {
    var lower := Lower(result);
    var b := HasPrefix("http", lower) && exists e :: e in ImageExtensions && IsInfix(e, lower);
    assert b ==> |result| >= 8 && Lower(result[..4]) == "http" by {
      if b {
        var e :| e in ImageExtensions && IsInfix(e, lower);
        ExtensionAfterScheme(lower, e);
        assert Lower(result[..4]) == lower[..4];
      }
    }
    b
  }

  /** An extension found in a lowered `http…` text starts after the scheme. */
  lemma ExtensionAfterScheme(lower: string, e: string)
    requires HasPrefix("http", lower) && e in ImageExtensions && IsInfix(e, lower)
    ensures |lower| >= 8
  {
    IsInfixAt(e, lower);
    var i :| OccursAt(e, lower, i);
    assert lower[i] == e[0] == '.';
    if i < 4 {
      assert false;
    }
  }

  /** The same test stated by positions: `http` at the start of the lowered
      result and an extension occurring at some index of it. */
  lemma ImageUrlByPositions(result: string)
    ensures LooksLikeImageUrl(result) <==>
      && OccursAt("http", Lower(result), 0)
      && exists e, i :: e in ImageExtensions && OccursAt(e, Lower(result), i)
  {
    var lower := Lower(result);
    forall e | e in ImageExtensions
      ensures IsInfix(e, lower) <==> exists i :: OccursAt(e, lower, i)
    {
      IsInfixAt(e, lower);
    }
  }

  /** The test ignores the case of ASCII letters. */
  lemma ImageUrlIgnoresCase(result: string)
    ensures LooksLikeImageUrl(Lower(result)) == LooksLikeImageUrl(result)
  {
    LowerIdempotent(result);
  }

  /** Appending anything (a query string, say) to an image link keeps it
      an image link. */
  lemma ImageUrlExtend(result: string, suffix: string)
    requires LooksLikeImageUrl(result)
    ensures LooksLikeImageUrl(result + suffix)
  {
    var lower := Lower(result);
    LowerAppend(result, suffix);
    assert Lower(result + suffix) == lower + Lower(suffix);
    var e :| e in ImageExtensions && IsInfix(e, lower);
    IsInfixExtend(e, lower, Lower(suffix));
    assert (lower + Lower(suffix))[..4] == lower[..4];
  }

  const PreviewLimit := 1400
  const Ellipsis := "..."

  /** The administrator's preview: the whole result when it is shorter than
      the limit, otherwise its first 1400 characters and an ellipsis. */
  function Preview(result: string): (p: string)
    ensures |p| <= PreviewLimit + |Ellipsis|
    ensures |result| < PreviewLimit ==> p == result
    ensures |p| < PreviewLimit <==> |result| < PreviewLimit
    ensures forall k :: 0 <= k < |p| && k < PreviewLimit ==> k < |result| && p[k] == result[k]
    ensures |result| >= PreviewLimit ==> p[PreviewLimit..] == Ellipsis
  {
    if |result| < PreviewLimit then result else result[..PreviewLimit] + Ellipsis
  }

  /** The results the preview leaves as they are: the short ones, and the
      ones that already look like a preview. */
  lemma PreviewFixedPoints(result: string)
    ensures Preview(result) == result <==>
      |result| < PreviewLimit || (|result| == PreviewLimit + |Ellipsis| && result[PreviewLimit..] == Ellipsis)
  {
    if |result| >= PreviewLimit {
      if |result| == PreviewLimit + |Ellipsis| && result[PreviewLimit..] == Ellipsis {
        assert result == result[..PreviewLimit] + result[PreviewLimit..];
      }
    }
  }
}
