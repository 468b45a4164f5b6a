/** `isValidImageUrl`: the extension heuristic that decides which URL strings are images. */
module ImageUrl {
  import opened JsText

  /** Suffixes accepted at the end of the URL. */
  const ImageExtensions: seq<string> := [".jpg", ".jpeg", ".png", ".gif", ".webp", ".svg", ".bmp"]

  /** An extension followed by a query string, accepted anywhere in the URL.
      `.svg?` and `.bmp?` are not among them. */
  const QueryExtensions: seq<string> := [".jpg?", ".jpeg?", ".png?", ".gif?", ".webp?"]

  const DataImagePrefix: string := "data:image"

  /** `exts.some(ext => s.endsWith(ext))`. */
  predicate EndsWithSome(s: string, exts: seq<string>) {
    exts != [] && (EndsWith(s, exts[0]) || EndsWithSome(s, exts[1..]))
  }

  /** `isValidImageUrl(url)`. */
  predicate IsValidImageUrl(url: string) {
    var lower := ToLower(url);
    if StartsWith(lower, DataImagePrefix) then false
    else
      || EndsWithSome(lower, ImageExtensions)
      || Includes(lower, ".jpg?")
      || Includes(lower, ".jpeg?")
      || Includes(lower, ".png?")
      || Includes(lower, ".gif?")
      || Includes(lower, ".webp?")
  }

  lemma {:induction false} EndsWithSomeIff(s: string, exts: seq<string>)
    ensures EndsWithSome(s, exts) <==> exists e :: e in exts && EndsWith(s, e)
  {
    if exts != [] {
      EndsWithSomeIff(s, exts[1..]);
      assert forall e :: e in exts <==> e == exts[0] || e in exts[1..];
    }
  }

  /** An accepted image URL: not an inline `data:image` URL, and ending with an image
      extension or holding an image extension followed by `?`, ignoring case. */
  lemma IsValidImageUrlIff(url: string)
    ensures IsValidImageUrl(url) <==>
      var lower := ToLower(url);
      && !StartsWith(lower, DataImagePrefix)
      && (|| (exists e :: e in ImageExtensions && EndsWith(lower, e))
          || (exists q, i: nat :: q in QueryExtensions && OccursAt(lower, q, i)))
  {
    var lower := ToLower(url);
    EndsWithSomeIff(lower, ImageExtensions);
    QueryExtensionsIff(lower);
  }

  lemma QueryExtensionsIff(s: string)
    ensures (|| Includes(s, ".jpg?") || Includes(s, ".jpeg?") || Includes(s, ".png?")
             || Includes(s, ".gif?") || Includes(s, ".webp?"))
            <==> exists q, i: nat :: q in QueryExtensions && OccursAt(s, q, i)
  {
    IncludesIff(s, ".jpg?");
    IncludesIff(s, ".jpeg?");
    IncludesIff(s, ".png?");
    IncludesIff(s, ".gif?");
    IncludesIff(s, ".webp?");
    assert QueryExtensions[0] == ".jpg?" && QueryExtensions[1] == ".jpeg?" && QueryExtensions[2] == ".png?";
    assert QueryExtensions[3] == ".gif?" && QueryExtensions[4] == ".webp?";
    if exists q, i: nat :: q in QueryExtensions && OccursAt(s, q, i) {
      var q, i: nat :| q in QueryExtensions && OccursAt(s, q, i);
      var k :| 0 <= k < 5 && QueryExtensions[k] == q;
      assert OccursAt(s, QueryExtensions[k], i);
    }
  }

  lemma {:induction false} ToLowerAppend(a: string, b: string)
    ensures ToLower(a + b) == ToLower(a) + ToLower(b)
  {
  }

  /** Any URL whose lower-case form starts with `data:image` is rejected, whatever follows. */
  lemma DataImageRejected(prefix: string, rest: string)
    requires ToLower(prefix) == DataImagePrefix
    ensures !IsValidImageUrl(prefix + rest)
  {
    ToLowerAppend(prefix, rest);
  }

  lemma ToLowerIdempotent(s: string)
    ensures ToLower(ToLower(s)) == ToLower(s)
  {
  }

  /** The test ignores case: two URLs that agree once lower-cased are classified alike. */
  lemma ClassificationIgnoresCase(a: string, b: string)
    requires ToLower(a) == ToLower(b)
    ensures IsValidImageUrl(a) == IsValidImageUrl(b)
  {
  }


  /** `.svg` and `.bmp` count only at the very end: `a.svg` and `a.bmp` are accepted,
      the same names followed by a query string are not. */
  lemma SvgAndBmpNeedTheEnd()
    ensures IsValidImageUrl("a.svg") && !IsValidImageUrl("a.svg?w=1")
    ensures IsValidImageUrl("a.bmp") && !IsValidImageUrl("a.bmp?w=1")
  {
    ExtensionAtTheEnd("a.svg", 5);
    ExtensionAtTheEnd("a.bmp", 6);
    ExtensionBeforeQuery("a.svg?w=1");
    ExtensionBeforeQuery("a.bmp?w=1");
  }

  /** `a` followed by one of the seven extensions is accepted. */
  lemma ExtensionAtTheEnd(url: string, k: nat)
    requires k < |ImageExtensions| && url == "a" + ImageExtensions[k]
    ensures IsValidImageUrl(url)
  {
    var e := ImageExtensions[k];
    assert forall i :: 0 <= i < |url| ==> !('A' <= url[i] <= 'Z');
    assert ToLower(url) == url;
    assert url[|url| - |e|..] == e;
    assert e in ImageExtensions && EndsWith(ToLower(url), e);
    IsValidImageUrlIff(url);
  }

  /** `a.svg?w=1` and `a.bmp?w=1` are rejected: the one `.` of the URL starts `.svg`
      or `.bmp`, which have no query pattern, and the URL ends with a digit. */
  lemma ExtensionBeforeQuery(u: string)
    requires u == "a.svg?w=1" || u == "a.bmp?w=1"
    ensures !IsValidImageUrl(u)
  {
    assert |u| == 9 && u[8] == '1' && (u[2] == 's' || u[2] == 'b');
    assert forall k :: 0 <= k < |u| ==> !('A' <= u[k] <= 'Z') && (u[k] == '.' ==> k == 1);
    assert ToLower(u) == u;
    OnlyDotBeforeOtherExtension(u);
  }

  /** A lower-case URL whose only `.` is at index 1, followed by `s` or `b`, and which
      ends with a digit, holds no accepted extension. */
  lemma OnlyDotBeforeOtherExtension(u: string)
    requires ToLower(u) == u
    requires |u| > 2 && (u[2] == 's' || u[2] == 'b') && '0' <= u[|u| - 1] <= '9'
    requires forall k :: 0 <= k < |u| && u[k] == '.' ==> k == 1
    ensures !IsValidImageUrl(u)
  {
    IsValidImageUrlIff(u);
    forall e | e in ImageExtensions && EndsWith(u, e)
      ensures false
    {
    }
    forall q, i: nat | q in QueryExtensions
      ensures !OccursAt(u, q, i)
    {
      if OccursAt(u, q, i) {
        OccursAtStart(u, q, i);
      }
    }
  }

  lemma OccursAtStart(s: string, p: string, i: nat)
    requires OccursAt(s, p, i) && |p| >= 2
    ensures s[i] == p[0] && s[i + 1] == p[1]
  {
    assert s[i..i + |p|] == p;
  }
}
