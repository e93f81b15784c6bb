/** An image version: a tag or a content digest, told apart by the colon only digests hold. */
module ImageVersions {
  import opened Wrappers
  import opened Chars
  import opened ImageErrors
  import ImageTag
  import ImageDigest

  datatype ImageVersion = Tag(tag: ImageTag.Tag) | ContentDigest(digest: ImageDigest.ContentDigest) {
    predicate Valid() {
      match this
      case Tag(t) => t.Valid()
      case ContentDigest(d) => d.Valid()
    }

    function AsStr(): string {
      match this
      case Tag(t) => t.AsStr()
      case ContentDigest(d) => d.AsStr()
    }

    function IsContentDigest(): bool { ContentDigest? }

    function IsTag(): (b: bool)
      ensures b <==> !IsContentDigest()
    {
      match this
      case Tag(_) => true
      case ContentDigest(_) => false
    }
  }

  /** A string with a colon is read as a digest, any other as a tag; either error passes through. */
  function Parse(s: string): (r: Result<ImageVersion, ImageError>)
    ensures r.Ok? ==> r.value.Valid() && r.value.AsStr() == s
    ensures r.Ok? ==> (r.value.IsContentDigest() <==> ':' in s)
    ensures ':' in s ==> (r.Ok? <==> ImageDigest.DigestOk(s))
    ensures ':' !in s ==> (r.Ok? <==> ImageTag.TagOk(s))
    ensures r.Err? ==> r.error == InvalidReferenceFormat(s)
  {
    if ':' in s then
      var d := ImageDigest.Parse(s);
      if d.Err? then Err(d.error) else Ok(ContentDigest(d.value))
    else
      var t := ImageTag.Parse(s);
      if t.Err? then Err(t.error) else Ok(Tag(t.value))
  }

  /** A valid tag has no colon; a valid digest has one. */
  lemma ColonTellsKinds(v: ImageVersion)
    requires v.Valid()
    ensures v.IsContentDigest() <==> ':' in v.AsStr()
  {
    match v
    case Tag(t) =>
    case ContentDigest(d) =>
      assert d.serialized[d.format_pos.1] == ':';
  }

  /** Printing a valid version and parsing it back gives the same version. */
  lemma ParseAsStr(v: ImageVersion)
    requires v.Valid()
    ensures Parse(v.AsStr()) == Ok(v)
  {
    ColonTellsKinds(v);
    match v
    case Tag(t) => ImageTag.ParseAsStr(t);
    case ContentDigest(d) =>
      ImageDigest.FromPartsOfParts(d);
      assert d.serialized == d.FormatStr() + [':'] + d.HexStr();
  }

  /** Valid versions are equal exactly when their strings are. */
  lemma VersionEquality(a: ImageVersion, b: ImageVersion)
    requires a.Valid() && b.Valid()
    ensures a == b <==> a.AsStr() == b.AsStr()
  {
    ColonTellsKinds(a);
    ColonTellsKinds(b);
    if a.ContentDigest? && b.ContentDigest? {
      ImageDigest.DigestEquality(a.digest, b.digest);
    }
  }
}
