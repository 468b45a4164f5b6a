/**
 * `deduplicateImages`: keep the first image for each MD5 digest of its URL.
 * The digest function is a parameter `hash`; nothing about it is assumed,
 * so two URLs whose digests collide are treated as the same image.
 */
module Dedup {
  import opened Images
  import opened Seqs

  /** The key an image is deduplicated by: the digest of its URL. */
  function Key(img: ImageData, hash: string -> string): string {
    hash(img.url)
  }

  /** The keys of all images of `s`. */
  function KeysOf(s: seq<ImageData>, hash: string -> string): (ks: set<string>)
    ensures forall k :: 0 <= k < |s| ==> Key(s[k], hash) in ks
  {
    if s == [] then {} else KeysOf(s[..|s| - 1], hash) + {Key(s[|s| - 1], hash)}
  }

  /** No image of `s` before index `i` has the key of `s[i]`. */
  predicate IsFirst(s: seq<ImageData>, i: int, hash: string -> string)
    requires 0 <= i < |s|
  {
    forall j :: 0 <= j < i ==> Key(s[j], hash) != Key(s[i], hash)
  }

  /** No two images of `s` share a key. */
  predicate DistinctKeys(s: seq<ImageData>, hash: string -> string) {
    forall i, j :: 0 <= i < j < |s| ==> Key(s[i], hash) != Key(s[j], hash)
  }

  /** The images of `s` whose key no earlier image had, in their order in `s`. */
  function FirstOccurrences(s: seq<ImageData>, hash: string -> string): seq<ImageData>
  {
    if s == [] then []
    else
      var init := s[..|s| - 1];
      var kept := FirstOccurrences(init, hash);
      if Key(s[|s| - 1], hash) in KeysOf(init, hash) then kept else kept + [s[|s| - 1]]
  }

  /** The loop of `deduplicateImages`: `seen` holds the digests met so far and an image
      is pushed when its digest is new. */
  method DeduplicateImages(images: seq<ImageData>, hash: string -> string) returns (unique: seq<ImageData>)
    ensures unique == FirstOccurrences(images, hash)
  {
    var seen: set<string> := {};
    unique := [];
    for i := 0 to |images|
      invariant seen == KeysOf(images[..i], hash)
      invariant unique == FirstOccurrences(images[..i], hash)
    {
      var urlHash := hash(images[i].url);
      assert images[..i + 1][..i] == images[..i];
      if urlHash !in seen {
        seen := seen + {urlHash};
        unique := unique + [images[i]];
      }
    }
    assert images[..|images|] == images;
  }

  // ---------------------------------------------------------------- keys

  lemma {:induction false} KeysOfIff(s: seq<ImageData>, hash: string -> string, key: string)
    ensures key in KeysOf(s, hash) <==> exists k :: 0 <= k < |s| && Key(s[k], hash) == key
  {
    if s != [] {
      var init := s[..|s| - 1];
      KeysOfIff(init, hash, key);
      if key in KeysOf(init, hash) {
        var k :| 0 <= k < |init| && Key(init[k], hash) == key;
        assert s[k] == init[k];
      }
      if exists k :: 0 <= k < |s| && Key(s[k], hash) == key {
        var k :| 0 <= k < |s| && Key(s[k], hash) == key;
        if k < |init| { assert init[k] == s[k]; }
      }
    }
  }

  lemma KeysOfSnoc(s: seq<ImageData>, x: ImageData, hash: string -> string)
    ensures KeysOf(s + [x], hash) == KeysOf(s, hash) + {Key(x, hash)}
  {
    assert (s + [x])[..|s|] == s;
  }

  /** The last image of a prefix starts a new key exactly when `IsFirst` holds of it. */
  lemma LastIsFirst(s: seq<ImageData>, hash: string -> string)
    requires s != []
    ensures IsFirst(s, |s| - 1, hash) <==> Key(s[|s| - 1], hash) !in KeysOf(s[..|s| - 1], hash)
  {
    var init := s[..|s| - 1];
    KeysOfIff(init, hash, Key(s[|s| - 1], hash));
    if !IsFirst(s, |s| - 1, hash) {
      var j :| 0 <= j < |s| - 1 && Key(s[j], hash) == Key(s[|s| - 1], hash);
      assert init[j] == s[j];
    }
  }

  // ---------------------------------------------------------------- what deduplication keeps

  /** The kept images appear in the input, in the same order. */
  lemma {:induction false} FirstOccurrencesSubsequence(s: seq<ImageData>, hash: string -> string)
    ensures IsSubsequence(FirstOccurrences(s, hash), s)
  {
    if s != [] {
      var init, x := s[..|s| - 1], s[|s| - 1];
      assert s == init + [x];
      FirstOccurrencesSubsequence(init, hash);
      if Key(x, hash) in KeysOf(init, hash) {
        SubsequenceSkipLast(FirstOccurrences(init, hash), init, x);
      } else {
        SubsequenceTakeLast(FirstOccurrences(init, hash), init, x);
      }
    }
  }

  /** Every key of the input survives: no image is lost without a kept twin. */
  lemma {:induction false} FirstOccurrencesKeys(s: seq<ImageData>, hash: string -> string)
    ensures KeysOf(FirstOccurrences(s, hash), hash) == KeysOf(s, hash)
  {
    if s != [] {
      var init, x := s[..|s| - 1], s[|s| - 1];
      FirstOccurrencesKeys(init, hash);
      KeysOfSnoc(FirstOccurrences(init, hash), x, hash);
    }
  }

  /** No two kept images share a digest, so no two kept images share a URL. */
  lemma {:induction false} FirstOccurrencesDistinct(s: seq<ImageData>, hash: string -> string)
    ensures DistinctKeys(FirstOccurrences(s, hash), hash)
    ensures forall i, j :: 0 <= i < j < |FirstOccurrences(s, hash)| ==>
      FirstOccurrences(s, hash)[i].url != FirstOccurrences(s, hash)[j].url
  {
    if s != [] {
      var init, x := s[..|s| - 1], s[|s| - 1];
      var kept := FirstOccurrences(init, hash);
      FirstOccurrencesDistinct(init, hash);
      if Key(x, hash) !in KeysOf(init, hash) {
        FirstOccurrencesKeys(init, hash);
        DistinctSnoc(kept, x, hash);
      }
    }
  }

  lemma DistinctSnoc(t: seq<ImageData>, x: ImageData, hash: string -> string)
    requires DistinctKeys(t, hash) && Key(x, hash) !in KeysOf(t, hash)
    ensures DistinctKeys(t + [x], hash)
  {
    var u := t + [x];
    forall i, j | 0 <= i < j < |u| ensures Key(u[i], hash) != Key(u[j], hash) {
      assert u[i] == t[i];
      if j == |t| { assert Key(t[i], hash) in KeysOf(t, hash); } else { assert u[j] == t[j]; }
    }
  }

  /** An image whose digest no earlier image had is kept. */
  lemma {:induction false} FirstIsKept(s: seq<ImageData>, i: int, hash: string -> string)
    requires 0 <= i < |s| && IsFirst(s, i, hash)
    ensures s[i] in FirstOccurrences(s, hash)
  {
    var init := s[..|s| - 1];
    if i == |s| - 1 {
      LastIsFirst(s, hash);
    } else {
      assert init[i] == s[i];
      assert IsFirst(init, i, hash) by {
        forall j | 0 <= j < i ensures Key(init[j], hash) != Key(init[i], hash) {
          assert init[j] == s[j];
        }
      }
      FirstIsKept(init, i, hash);
    }
  }

  /** Every kept image is the first of its digest in the input. */
  lemma {:induction false} KeptIsFirst(s: seq<ImageData>, x: ImageData, hash: string -> string)
    requires x in FirstOccurrences(s, hash)
    ensures exists i :: 0 <= i < |s| && s[i] == x && IsFirst(s, i, hash)
  {
    var init := s[..|s| - 1];
    var kept := FirstOccurrences(init, hash);
    if x in kept {
      KeptIsFirst(init, x, hash);
      var i :| 0 <= i < |init| && init[i] == x && IsFirst(init, i, hash);
      assert s[i] == init[i];
      assert IsFirst(s, i, hash) by {
        forall j | 0 <= j < i ensures Key(s[j], hash) != Key(s[i], hash) {
          assert init[j] == s[j];
        }
      }
    } else {
      LastIsFirst(s, hash);
    }
  }

  /** A list whose digests are already distinct is left as it is. */
  lemma {:induction false} DistinctUnchanged(s: seq<ImageData>, hash: string -> string)
    requires DistinctKeys(s, hash)
    ensures FirstOccurrences(s, hash) == s
  {
    if s != [] {
      var init, x := s[..|s| - 1], s[|s| - 1];
      assert DistinctKeys(init, hash) by {
        forall i, j | 0 <= i < j < |init| ensures Key(init[i], hash) != Key(init[j], hash) {
          assert init[i] == s[i] && init[j] == s[j];
        }
      }
      DistinctUnchanged(init, hash);
      assert IsFirst(s, |s| - 1, hash);
      LastIsFirst(s, hash);
      assert init + [x] == s;
    }
  }

  /** Deduplicating twice is deduplicating once. */
  lemma FirstOccurrencesIdempotent(s: seq<ImageData>, hash: string -> string)
    ensures FirstOccurrences(FirstOccurrences(s, hash), hash) == FirstOccurrences(s, hash)
  {
    FirstOccurrencesDistinct(s, hash);
    DistinctUnchanged(FirstOccurrences(s, hash), hash);
  }

  /** One image survives per distinct digest. */
  lemma {:induction false} FirstOccurrencesCount(s: seq<ImageData>, hash: string -> string)
    ensures |FirstOccurrences(s, hash)| == |KeysOf(s, hash)|
  {
    if s != [] {
      var init, x := s[..|s| - 1], s[|s| - 1];
      FirstOccurrencesCount(init, hash);
      var ks := KeysOf(init, hash);
      assert KeysOf(s, hash) == ks + {Key(x, hash)};
      if Key(x, hash) in ks {
        assert FirstOccurrences(s, hash) == FirstOccurrences(init, hash);
        assert ks + {Key(x, hash)} == ks;
      } else {
        assert FirstOccurrences(s, hash) == FirstOccurrences(init, hash) + [x];
        assert |ks + {Key(x, hash)}| == |ks| + 1;
      }
    }
  }

  /** Taking fewer digests keeps no more images. */
  lemma FirstOccurrencesMonotone(a: seq<ImageData>, b: seq<ImageData>, hash: string -> string)
    requires KeysOf(a, hash) <= KeysOf(b, hash)
    ensures |FirstOccurrences(a, hash)| <= |FirstOccurrences(b, hash)|
  {
    FirstOccurrencesCount(a, hash);
    FirstOccurrencesCount(b, hash);
    SubsetCard(KeysOf(a, hash), KeysOf(b, hash));
  }

  lemma SubsetCard(x: set<string>, y: set<string>)
    requires x <= y
    ensures |x| <= |y|
  {
    assert y == x + (y - x);
  }
}
