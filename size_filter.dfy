/** `filterSmallImages`: drop images whose declared size is below 100 by 100. */
module SizeFilter {
  import opened Wrappers
  import opened Seqs
  import opened Images

  const MinImageWidth := 100
  const MinImageHeight := 100

  /** JavaScript truthiness of an optional number: present and not zero. */
  predicate Truthy(n: Option<int>) {
    n.Some? && n.value != 0
  }

  /** The filter's test: a missing (or zero) width or height keeps the image;
      otherwise both sides must reach the minimum. */
  predicate KeepsSize(img: ImageData) {
    if !Truthy(img.width) || !Truthy(img.height) then true
    else img.width.value >= MinImageWidth && img.height.value >= MinImageHeight
  }

  /** `images.filter(...)`: the images that pass, in their original order and with
      their multiplicities. */
  function FilterSmallImages(images: seq<ImageData>): (r: seq<ImageData>)
    ensures IsSubsequence(r, images)
    ensures forall k :: 0 <= k < |r| ==> KeepsSize(r[k])
    ensures forall x :: multiset(r)[x] == if KeepsSize(x) then multiset(images)[x] else 0
  {
    if images == [] then []
    else
      var rest := FilterSmallImages(images[1..]);
      assert images == [images[0]] + images[1..];
      if KeepsSize(images[0]) then [images[0]] + rest else rest
  }

  /** An image of unknown size always survives; a known size survives iff both sides
      are at least 100, so 100 by 100 stays and 99 by 100 goes. */
  lemma KeepsSizeBoundary(url: string, src: string, alt: string, w: Option<int>, h: Option<int>)
    ensures w.None? || h.None? ==> FilterSmallImages([ImageData(url, src, w, h, alt)]) == [ImageData(url, src, w, h, alt)]
    ensures w == Some(100) && h == Some(100) ==> FilterSmallImages([ImageData(url, src, w, h, alt)]) == [ImageData(url, src, w, h, alt)]
    ensures w == Some(99) && h == Some(100) ==> FilterSmallImages([ImageData(url, src, w, h, alt)]) == []
  {
    var x := ImageData(url, src, w, h, alt);
    assert [x][1..] == [];
  }

  /** Filtering twice removes nothing more. */
  lemma {:induction false} FilterSmallImagesIdempotent(images: seq<ImageData>)
    ensures FilterSmallImages(FilterSmallImages(images)) == FilterSmallImages(images)
  {
    AllKeptUnchanged(FilterSmallImages(images));
  }

  /** A list whose every image passes goes through unchanged. */
  lemma {:induction false} AllKeptUnchanged(images: seq<ImageData>)
    requires forall k :: 0 <= k < |images| ==> KeepsSize(images[k])
    ensures FilterSmallImages(images) == images
  {
    if images != [] {
      AllKeptUnchanged(images[1..]);
    }
  }

  /** The filter never adds images. */
  lemma FilterSmallImagesShrinks(images: seq<ImageData>)
    ensures |FilterSmallImages(images)| <= |images|
  {
    SubsequenceLength(FilterSmallImages(images), images);
  }
}
