/**
 * The image records the scraper produces, and the reading of the `width` and
 * `height` attributes (`parseInt(value || "0", 10) || undefined`).
 */
module Images {
  import opened Wrappers
  import opened JsText
  import opened Seqs

  /** `ImageData`: an image found on page `sourceUrl`. `None` stands for `undefined`.
      The optional `fileSize` is never set by the scraper and is not modelled. */
  datatype ImageData = ImageData(url: string, sourceUrl: string, width: Option<int>, height: Option<int>, alt: string)

  /** `Omit<ImageData, "sourceUrl">`: a record as one page's extraction emits it. */
  datatype PageImage = PageImage(url: string, width: Option<int>, height: Option<int>, alt: string)

  /** `{ ...img, sourceUrl }`: attach the page an image was found on. */
  function WithSource(img: PageImage, sourceUrl: string): (d: ImageData)
    ensures WithoutSource(d) == img && d.sourceUrl == sourceUrl
  {
    ImageData(img.url, sourceUrl, img.width, img.height, img.alt)
  }

  function WithoutSource(d: ImageData): PageImage {
    PageImage(d.url, d.width, d.height, d.alt)
  }

  // ---------------------------------------------------------------- parseInt(s, 10)

  predicate IsDigit(c: char) {
    '0' <= c <= '9'
  }

  predicate AllDigits(s: string) {
    forall i :: 0 <= i < |s| ==> IsDigit(s[i])
  }

  /** The longest run of decimal digits at the front of `s`. */
  function DigitPrefix(s: string): (r: string)
    ensures r <= s && AllDigits(r)
    ensures |r| == |s| || !IsDigit(s[|r|])
  {
    if s != [] && IsDigit(s[0]) then [s[0]] + DigitPrefix(s[1..]) else []
  }

  /** The number a string of decimal digits denotes. */
  function DigitsValue(ds: string): nat
    requires AllDigits(ds)
  {
    if ds == [] then 0 else 10 * DigitsValue(ds[..|ds| - 1]) + (ds[|ds| - 1] as int - '0' as int)
  }

  /** `parseInt(s, 10)`: leading white space is skipped, one optional sign is read,
      then the longest run of digits; `None` is `NaN` (no digit at all). */
  function ParseInt(s: string): (r: Option<int>)
  {
    ParseSigned(TrimStart(s))
  }

  /** `parseInt` after the leading white space. */
  function ParseSigned(t: string): (r: Option<int>)
  {
    var ds := DigitsAfterSign(t);
    if ds == [] then None
    else if IsNegative(t) then Some(-(DigitsValue(ds) as int))
    else Some(DigitsValue(ds) as int)
  }

  /** A minus sign leads. */
  predicate IsNegative(t: string) {
    t != [] && t[0] == '-'
  }

  /** The digits after the optional sign. */
  function DigitsAfterSign(t: string): string
  {
    DigitPrefix(if t != [] && (t[0] == '-' || t[0] == '+') then t[1..] else t)
  }

  /** The decimal digits of `n`, as `String(n)` writes them. */
  function Decimal(n: nat): (r: string)
    ensures r != [] && AllDigits(r)
  {
    if n < 10 then [('0' as int + n) as char]
    else Decimal(n / 10) + [('0' as int + n % 10) as char]
  }

  lemma {:induction false} DecimalValue(n: nat)
    ensures DigitsValue(Decimal(n)) == n
  {
    if n >= 10 {
      var d := Decimal(n);
      assert d[..|d| - 1] == Decimal(n / 10);
      DecimalValue(n / 10);
    }
  }

  lemma {:induction false} DigitPrefixOf(ds: string, rest: string)
    requires AllDigits(ds) && (rest == [] || !IsDigit(rest[0]))
    ensures DigitPrefix(ds + rest) == ds
    decreases |ds|
  {
    if ds == [] {
      assert ds + rest == rest;
    } else {
      assert (ds + rest)[1..] == ds[1..] + rest;
      DigitPrefixOf(ds[1..], rest);
      assert [ds[0]] + ds[1..] == ds;
    }
  }

  /** `parseInt` reads back a number written in decimal, after any leading white
      space and before any non-digit tail such as `px`. */
  lemma ParseIntOfDecimal(w: string, n: nat, rest: string)
    requires AllWhite(w) && (rest == [] || !IsDigit(rest[0]))
    ensures ParseInt(w + Decimal(n) + rest) == Some(n)
  {
    var d := Decimal(n);
    DecimalValue(n);
    AppendAssoc(w, d, rest);
    assert (d + rest)[0] == d[0];
    TrimStartOfPadded(w, d + rest);
    ParseSignedOfDigits(d, rest);
  }

  /** The same with a minus sign in front of the digits. */
  lemma ParseIntOfNegativeDecimal(w: string, n: nat, rest: string)
    requires AllWhite(w) && (rest == [] || !IsDigit(rest[0]))
    ensures ParseInt(w + ['-'] + Decimal(n) + rest) == Some(-(n as int))
  {
    var d := Decimal(n);
    DecimalValue(n);
    var t := ['-'] + d + rest;
    AppendAssoc3(w, ['-'], d, rest);
    assert t[0] == '-';
    TrimStartOfPadded(w, t);
    ParseSignedOfNegativeDigits(d, rest);
  }

  lemma ParseSignedOfDigits(d: string, rest: string)
    requires d != [] && AllDigits(d) && (rest == [] || !IsDigit(rest[0]))
    ensures ParseSigned(d + rest) == Some(DigitsValue(d) as int)
  {
    assert (d + rest)[0] == d[0];
    DigitPrefixOf(d, rest);
  }

  lemma ParseSignedOfNegativeDigits(d: string, rest: string)
    requires d != [] && AllDigits(d) && (rest == [] || !IsDigit(rest[0]))
    ensures ParseSigned(['-'] + d + rest) == Some(-(DigitsValue(d) as int))
  {
    var t := ['-'] + d + rest;
    NegativeSignAndDigits(d, rest);
    NegativeSignedOf(t, d);
  }

  lemma NegativeSignedOf(t: string, d: string)
    requires d != [] && AllDigits(d) && IsNegative(t) && DigitsAfterSign(t) == d
    ensures ParseSigned(t) == Some(-(DigitsValue(d) as int))
  {
  }

  lemma NegativeSignAndDigits(d: string, rest: string)
    requires AllDigits(d) && (rest == [] || !IsDigit(rest[0]))
    ensures IsNegative(['-'] + d + rest) && DigitsAfterSign(['-'] + d + rest) == d
  {
    var x := d + rest;
    AppendAssoc(['-'], d, rest);
    assert (['-'] + x)[0] == '-' && (['-'] + x)[1..] == x;
    DigitPrefixOf(d, rest);
  }

  // ---------------------------------------------------------------- dimensions

  /** `parseInt(attr || "0", 10) || undefined`. */
  function Dimension(attr: Option<string>): Option<int> {
    var v := if attr.Some? && attr.value != "" then attr.value else "0";
    match ParseInt(v)
    case Some(n) => if n == 0 then None else Some(n)
    case None => None
  }

  /** A missing or empty attribute, a value without leading digits (`NaN`) and a
      value that reads as zero all become `None`; any other value is what `parseInt`
      reads from it. */
  lemma DimensionMeaning(attr: Option<string>)
    ensures Dimension(attr) != Some(0)
    ensures Dimension(attr).Some? <==> attr.Some? && ParseInt(attr.value).Some? && ParseInt(attr.value).value != 0
    ensures Dimension(attr).Some? ==> Dimension(attr) == ParseInt(attr.value)
  {
    ParseIntOfZero();
    if attr.Some? && attr.value != "" {
      DimensionOfSet(attr.value);
    }
  }

  lemma ParseIntOfZero()
    ensures ParseInt("0") == Some(0)
  {
    ParseIntOfDigits("0", "");
    assert "0" + "" == "0";
  }

  lemma DimensionOfSet(v: string)
    requires v != ""
    ensures ParseInt(v).None? ==> Dimension(Some(v)).None?
    ensures ParseInt(v).Some? ==> Dimension(Some(v)) == if ParseInt(v).value == 0 then None else ParseInt(v)
  {
  }

  /** A declared positive size such as `"300"` or `"300px"` is read as that number. */
  lemma DimensionOfDecimal(n: nat, rest: string)
    requires n > 0 && (rest == [] || !IsDigit(rest[0]))
    ensures Dimension(Some(Decimal(n) + rest)) == Some(n)
  {
    var d := Decimal(n);
    DecimalValue(n);
    ParseIntOfDigits(d, rest);
    DimensionOfParsed(d + rest, n);
  }

  lemma ParseIntOfDigits(d: string, rest: string)
    requires d != [] && AllDigits(d) && (rest == [] || !IsDigit(rest[0]))
    ensures ParseInt(d + rest) == Some(DigitsValue(d) as int)
  {
    var v := d + rest;
    assert v[0] == d[0];
    TrimStartAt(v, 0);
    assert v[0..] == v;
    ParseSignedOfDigits(d, rest);
  }

  lemma DimensionOfParsed(v: string, n: int)
    requires v != "" && ParseInt(v) == Some(n) && n != 0
    ensures Dimension(Some(v)) == Some(n)
  {
  }
}
