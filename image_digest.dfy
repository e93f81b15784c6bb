/** Content digests: `format:hex`, with at least 32 lowercase hexadecimal digits. */
module ImageDigest {
  import opened Wrappers
  import opened Ints
  import opened Chars
  import opened ImageErrors
  import Numerals

  const MIN_HEX: nat := 32

  /** `[-_+.]`, the separators allowed inside a digest format. */
  predicate FormatSep(c: char) { c == '-' || c == '_' || c == '+' || c == '.' }

  /**
   * The language of `[a-zA-Z][a-zA-Z0-9]*(?:[-_+.][a-zA-Z][a-zA-Z0-9]*)*`:
   * a letter first, then alphanumerics and separators, each separator
   * followed by a letter.
   */
  predicate FormatOk(f: string) {
    && |f| >= 1
    && IsAlpha(f[0])
    && (forall i :: 0 <= i < |f| ==> IsAlnum(f[i]) || FormatSep(f[i]))
    && (forall i :: 0 <= i < |f| && FormatSep(f[i]) ==> i + 1 < |f| && IsAlpha(f[i + 1]))
  }

  /** `[a-f0-9]{32,}` */
  predicate HexOk(h: string) {
    |h| >= MIN_HEX && forall i :: 0 <= i < |h| ==> IsLowerHex(h[i])
  }

  /** The language of the whole digest regex, split at its only colon. */
  predicate DigestOk(s: string) {
    match Find(s, ':')
    case None => false
    case Some(i) => FormatOk(s[..i]) && HexOk(s[i + 1..])
  }

  /** A digest string together with the ranges of its two capture groups. */
  datatype ContentDigest = ContentDigest(serialized: string, format_pos: (nat, nat), hex_pos: (nat, nat)) {
    predicate Valid() {
      && DigestOk(serialized)
      && Find(serialized, ':') == Some(format_pos.1)
      && format_pos.0 == 0
      && hex_pos == (format_pos.1 + 1, |serialized|)
    }

    function AsStr(): string { serialized }

    function FormatStr(): string
      requires Valid()
    {
      serialized[format_pos.0..format_pos.1]
    }

    function HexStr(): string
      requires Valid()
    {
      serialized[hex_pos.0..hex_pos.1]
    }
  }

  function Parse(s: string): (r: Result<ContentDigest, ImageError>)
    ensures r.Ok? <==> DigestOk(s)
    ensures r.Ok? ==> r.value.Valid() && r.value.AsStr() == s
    ensures r.Ok? ==> r.value.AsStr() == r.value.FormatStr() + [':'] + r.value.HexStr()
    ensures r.Err? ==> r.error == InvalidReferenceFormat(s)
  {
    if !DigestOk(s) then Err(InvalidReferenceFormat(s))
    else
      var i := Find(s, ':').value;
      assert s == s[..i] + [':'] + s[i + 1..];
      Ok(ContentDigest(s, (0, i), (i + 1, |s|)))
  }

  /** `format!("{}:{:x}", format, hex)` parsed; `hex` is the hex-formatted second part. */
  function FromParts(format: string, hex: string): (r: Result<ContentDigest, ImageError>)
    ensures r.Ok? <==> FormatOk(format) && HexOk(hex)
    ensures r.Ok? ==> r.value.Valid() && r.value.FormatStr() == format && r.value.HexStr() == hex
  {
    JoinedParts(format, hex);
    Parse(format + [':'] + hex)
  }

  /** Where the format part has no colon, the joined string splits back into its parts. */
  lemma JoinedParts(format: string, hex: string)
    ensures DigestOk(format + [':'] + hex) <==> FormatOk(format) && HexOk(hex)
    ensures ':' !in format ==> Find(format + [':'] + hex, ':') == Some(|format|)
  {
    var s := format + [':'] + hex;
    if ':' in format {
      var k :| 0 <= k < |format| && format[k] == ':';
      ColonNotInFormat(format, k);
      var j := Find(s, ':').value;
      assert j <= k by { assert s[k] == ':'; }
      var tail := s[j + 1..];
      assert tail[|format| - j - 1] == ':';
      ColonNotInFormat(tail, |format| - j - 1);
    } else {
      FindAfter(format, ':', hex);
      assert s[..|format|] == format && s[|format| + 1..] == hex;
    }
  }

  /** Neither part of a valid digest can hold the main colon. */
  lemma ColonNotInFormat(f: string, k: nat)
    requires k < |f| && f[k] == ':'
    ensures !FormatOk(f) && !HexOk(f)
  {
  }

  /**
   * Any split of `s` at a colon into a valid format and valid hex part is the
   * split that Parse finds: the regex match is unique.
   */
  lemma ParseSplitIsUnique(s: string, i: nat)
    requires i < |s| && s[i] == ':' && FormatOk(s[..i]) && HexOk(s[i + 1..])
    ensures Parse(s).Ok? && Parse(s).value.FormatStr() == s[..i]
    ensures Parse(s).value.HexStr() == s[i + 1..]
  {
    assert s == s[..i] + [':'] + s[i + 1..];
    if ':' in s[..i] {
      var k :| 0 <= k < i && s[..i][k] == ':';
      ColonNotInFormat(s[..i], k);
    }
    FindAfter(s[..i], ':', s[i + 1..]);
  }

  /** A valid digest is rebuilt from its two parts. */
  lemma FromPartsOfParts(d: ContentDigest)
    requires d.Valid()
    ensures FromParts(d.FormatStr(), d.HexStr()) == Ok(d)
  {
    var s := d.serialized;
    var i := d.format_pos.1;
    assert s == d.FormatStr() + [':'] + d.HexStr();
    assert ':' !in d.FormatStr();
    JoinedParts(d.FormatStr(), d.HexStr());
  }

  /** A valid digest holds no slash and no at-sign. */
  lemma DigestChars(s: string)
    requires DigestOk(s)
    ensures '/' !in s && '@' !in s
  {
    var i := Find(s, ':').value;
    assert s == s[..i] + [':'] + s[i + 1..];
    var f, h := s[..i], s[i + 1..];
    assert '/' !in f && '@' !in f by {
      assert forall k :: 0 <= k < |f| ==> IsAlnum(f[k]) || FormatSep(f[k]);
    }
    assert '/' !in h && '@' !in h by {
      assert forall k :: 0 <= k < |h| ==> IsLowerHex(h[k]);
    }
  }

  /** Valid digests are equal exactly when their strings are. */
  lemma DigestEquality(a: ContentDigest, b: ContentDigest)
    requires a.Valid() && b.Valid()
    ensures a == b <==> a.AsStr() == b.AsStr()
  {
  }

  /** `{:x}` of a byte array: two lowercase digits per byte. */
  function LowerHexBytes(bytes: seq<u8>): (h: string)
    ensures |h| == 2 * |bytes|
    ensures forall i :: 0 <= i < |h| ==> IsLowerHex(h[i])
  {
    if bytes == [] then [] else [Numerals.DigitChar(bytes[0] / 16), Numerals.DigitChar(bytes[0] % 16)] + LowerHexBytes(bytes[1..])
  }

  /** A digest built from a byte array is valid iff the format is and there are at least 16 bytes. */
  lemma FromBytesOk(format: string, bytes: seq<u8>)
    ensures FromParts(format, LowerHexBytes(bytes)).Ok? <==> FormatOk(format) && |bytes| >= 16
  {
  }

  const EXAMPLE_HEX: string := "00112233445566778899aabbccddeeff"

  lemma ExampleHexOk()
    ensures HexOk(EXAMPLE_HEX)
  {
  }

  /** The digest of the parse documentation, and one using every format separator. */
  lemma DigestAccepted()
    ensures Parse("format" + ":" + EXAMPLE_HEX).Ok?
  {
    ExampleHexOk();
    assert FormatOk("format");
    JoinedParts("format", EXAMPLE_HEX);
  }

  lemma DigestSeparatorsAccepted()
    ensures Parse("a+b.c_d-e" + ":" + EXAMPLE_HEX).Ok?
  {
    ExampleHexOk();
    assert FormatOk("a+b.c_d-e");
    JoinedParts("a+b.c_d-e", EXAMPLE_HEX);
  }

  /** Fewer than 32 digits is rejected. */
  lemma DigestTooShort()
    ensures Parse("sha256" + ":" + EXAMPLE_HEX[1..]).Err?
  {
    ParseErr("sha256", EXAMPLE_HEX[1..]);
  }

  /** A separator must be followed by a letter. */
  lemma DigestTrailingSeparator()
    ensures Parse("sha256+" + ":" + EXAMPLE_HEX).Err?
  {
    assert !FormatOk("sha256+") by { assert FormatSep("sha256+"[6]); }
    ParseErr("sha256+", EXAMPLE_HEX);
  }

  /** Uppercase hex digits are outside `[a-f0-9]`. */
  lemma DigestUppercase()
    ensures Parse("sha256" + ":" + (EXAMPLE_HEX[..30] + "FF")).Err?
  {
    var upper := EXAMPLE_HEX[..30] + "FF";
    assert !IsLowerHex(upper[30]);
    ParseErr("sha256", upper);
  }

  /** Parsing `f:h` where `f` has no colon fails when either part is invalid. */
  lemma ParseErr(f: string, h: string)
    requires ':' !in f
    requires !FormatOk(f) || !HexOk(h)
    ensures Parse(f + [':'] + h).Err?
  {
    var s := f + [':'] + h;
    FindAfter(f, ':', h);
    assert s[..|f|] == f && s[|f| + 1..] == h;
  }
}
