/**
 * Keys of the on-disk file store: temporary files, whole blobs, byte
 * ranges of blobs, and manifests, each with the path it is stored under.
 */
module StorageKeys {
  import opened Wrappers
  import opened Ints
  import opened Chars
  import Numerals
  import ImageTag
  import ImageDigest
  import ImageRegistry
  import ImageRepository
  import ImageVersions

  /** A `Range<usize>`; nothing makes `start <= end`. */
  datatype ByteRange = ByteRange(start: usize, end: usize)

  /** `r` moved up by `offset`; the additions overflow `usize` unless both fit. */
  predicate ShiftFits(r: ByteRange, offset: nat) {
    r.start + offset < TWO_64 && r.end + offset < TWO_64
  }

  function Shift(r: ByteRange, offset: nat): (s: ByteRange)
    requires ShiftFits(r, offset)
    ensures s.end - s.start == r.end - r.start
  {
    ByteRange(r.start + offset, r.end + offset)
  }

  datatype StorageKey =
    | Temp(pid: u32, random: u64)
    | Blob(digest: ImageDigest.ContentDigest)
    | BlobPart(digest: ImageDigest.ContentDigest, range: ByteRange)
    | Manifest(registry: ImageRegistry.Registry, repository: ImageRepository.Repository, version: ImageVersions.ImageVersion)
  {
    predicate Valid() {
      match this
      case Temp(_, _) => true
      case Blob(d) => d.Valid()
      case BlobPart(d, _) => d.Valid()
      case Manifest(reg, repo, v) => reg.Valid() && repo.Valid() && v.Valid()
    }

    /** Where a range of this key starts within the whole blob. */
    function Base(): nat { if BlobPart? then range.start else 0 }

    /** The sum for a sub-range of a blob part does not overflow. */
    predicate RangeFits(sub: ByteRange) { !BlobPart? || ShiftFits(sub, range.start) }

    /**
     * A sub-range of a blob or of a blob part, always as a part of the
     * whole blob; temporary files and manifests have no ranges.
     */
    function Range(sub: ByteRange): (r: Result<StorageKey, ()>)
      requires RangeFits(sub)
      ensures r.Ok? <==> Blob? || BlobPart?
      ensures r.Ok? ==> r.value.BlobPart? && r.value.digest == digest
      ensures r.Ok? ==> r.value.range.start == Base() + sub.start && r.value.range.end == Base() + sub.end
      ensures r.Ok? && Valid() ==> r.value.Valid()
      ensures r.Err? ==> r == Err(())
    {
      match this
      case Blob(d) => Ok(BlobPart(d, sub))
      case BlobPart(d, parent) => Ok(BlobPart(d, Shift(sub, parent.start)))
      case _ => Err(())
    }

    /**
     * The path under `base_dir`, one pushed name per element: `tmp/pid-random`,
     * `blobs/digest`, `parts/digest/start:end` in hex, or
     * `manifest/registry/repository/version` with the repository's slashes as colons.
     */
    function ToPath(base_dir: seq<string>): (path: seq<string>)
      ensures |path| > |base_dir| + 1 && path[..|base_dir|] == base_dir
      ensures path[|base_dir|] == DirName()
    {
      base_dir + [DirName()] + Names()
    }

    function DirName(): string {
      match this
      case Temp(_, _) => "tmp"
      case Blob(_) => "blobs"
      case BlobPart(_, _) => "parts"
      case Manifest(_, _, _) => "manifest"
    }

    /** The names pushed after the directory name. */
    function Names(): (names: seq<string>)
      ensures |names| >= 1
    {
      match this
      case Temp(pid, random) => [Numerals.Format(pid, 10) + "-" + Numerals.Format(random, 10)]
      case Blob(d) => [d.AsStr()]
      case BlobPart(d, r) => [d.AsStr(), Numerals.Format(r.start, 16) + ":" + Numerals.Format(r.end, 16)]
      case Manifest(reg, repo, v) => [reg.AsStr(), Replace(repo.AsStr(), '/', ':'), v.AsStr()]
    }
  }

  /** Taking a range of a range is taking the composed range at once. */
  lemma RangeComposes(k: StorageKey, a: ByteRange, b: ByteRange)
    requires k.Blob? || k.BlobPart?
    requires k.RangeFits(a) && ShiftFits(b, k.Base() + a.start)
    ensures k.Range(a).value.RangeFits(b)
    ensures ShiftFits(b, a.start) && k.RangeFits(Shift(b, a.start))
    ensures k.Range(a).value.Range(b) == k.Range(Shift(b, a.start))
  {
  }

  /** A blob's range is the part with exactly that range. */
  lemma BlobRange(d: ImageDigest.ContentDigest, r: ByteRange)
    ensures Blob(d).Range(r) == Ok(BlobPart(d, r))
  {
  }

  /** Every pushed name is a single non-empty path component. */
  lemma NamesAreComponents(k: StorageKey)
    requires k.Valid()
    ensures forall i :: 0 <= i < |k.Names()| ==> |k.Names()[i]| >= 1 && '/' !in k.Names()[i]
  {
    match k
    case Temp(pid, random) =>
      Numerals.DecimalDigits(pid);
      Numerals.DecimalDigits(random);
      assert '/' !in Numerals.Format(pid, 10) + "-" + Numerals.Format(random, 10);
    case Blob(d) =>
      ImageDigest.DigestChars(d.AsStr());
      DigestNonEmpty(d);
    case BlobPart(d, r) =>
      ImageDigest.DigestChars(d.AsStr());
      DigestNonEmpty(d);
      HexNoSlash(r);
    case Manifest(reg, repo, v) =>
      ImageRegistry.RegistryChars(reg.AsStr());
      RegistryNonEmpty(reg);
      ReplacedNoSlash(repo.AsStr());
      RepositoryNonEmpty(repo);
      VersionComponent(v);
  }

  lemma DigestNonEmpty(d: ImageDigest.ContentDigest)
    requires d.Valid()
    ensures |d.AsStr()| >= 1
  {
    assert d.serialized[d.format_pos.1] == ':';
  }

  lemma RegistryNonEmpty(reg: ImageRegistry.Registry)
    requires reg.Valid()
    ensures |reg.AsStr()| >= 1
  {
    ImageRegistry.RegistryShape(reg.AsStr());
    var d := reg.serialized[..ImageRegistry.DomainEnd(reg.serialized)];
    assert ImageRegistry.LabelOk(Split(d, '.')[0]);
    SplitPartsShorter(d, '.');
  }

  lemma RepositoryNonEmpty(repo: ImageRepository.Repository)
    requires repo.Valid()
    ensures |repo.AsStr()| >= 1
  {
    assert ImageRepository.ComponentOk(Split(repo.serialized, '/')[0]);
    SplitPartsShorter(repo.serialized, '/');
  }

  /** No part of a split is longer than the string. */
  lemma SplitPartsShorter(s: string, c: char)
    ensures |Split(s, c)[0]| <= |s|
  {
  }

  lemma HexNoSlash(r: ByteRange)
    ensures '/' !in Numerals.Format(r.start, 16) + ":" + Numerals.Format(r.end, 16)
  {
    var h := Numerals.Format(r.start, 16) + ":" + Numerals.Format(r.end, 16);
    assert forall i :: 0 <= i < |Numerals.Format(r.start, 16)| ==> IsLowerHex(Numerals.Format(r.start, 16)[i]);
    assert forall i :: 0 <= i < |Numerals.Format(r.end, 16)| ==> IsLowerHex(Numerals.Format(r.end, 16)[i]);
  }

  lemma ReplacedNoSlash(s: string)
    ensures '/' !in Replace(s, '/', ':')
  {
    var r := Replace(s, '/', ':');
    assert forall i :: 0 <= i < |r| ==> r[i] != '/';
  }

  lemma VersionComponent(v: ImageVersions.ImageVersion)
    requires v.Valid()
    ensures |v.AsStr()| >= 1 && '/' !in v.AsStr()
  {
    match v
    case Tag(t) =>
      assert forall i :: 0 <= i < |t.serialized| ==> ImageTag.TagRest(t.serialized[i]);
    case ContentDigest(d) =>
      ImageDigest.DigestChars(d.AsStr());
      DigestNonEmpty(d);
  }

  /** A character that is no hex digit does not occur in a numeral. */
  lemma NotInNumeral(n: nat, base: nat, c: char)
    requires Numerals.Radix(base) && !IsLowerHex(c)
    ensures c !in Numerals.Format(n, base)
  {
  }

  /** Different numbers around a separator give different names. */
  lemma NumeralPairUnique(a1: nat, b1: nat, a2: nat, b2: nat, base: nat, c: char)
    requires Numerals.Radix(base) && !IsLowerHex(c)
    requires Numerals.Format(a1, base) + [c] + Numerals.Format(b1, base)
      == Numerals.Format(a2, base) + [c] + Numerals.Format(b2, base)
    ensures a1 == a2 && b1 == b2
  {
    NotInNumeral(a1, base, c);
    NotInNumeral(a2, base, c);
    SeparatedUnique(Numerals.Format(a1, base), Numerals.Format(b1, base),
      Numerals.Format(a2, base), Numerals.Format(b2, base), c);
    Numerals.FormatInjective(a1, a2, base);
    Numerals.FormatInjective(b1, b2, base);
  }

  /** A repository's path name tells the repository: it has no colons to confuse with its slashes. */
  lemma ReplacedRepositoryUnique(r1: ImageRepository.Repository, r2: ImageRepository.Repository)
    requires r1.Valid() && r2.Valid()
    requires Replace(r1.AsStr(), '/', ':') == Replace(r2.AsStr(), '/', ':')
    ensures r1 == r2
  {
    NoColon(r1.AsStr());
    NoColon(r2.AsStr());
    ReplaceBack(r1.AsStr(), '/', ':');
    ReplaceBack(r2.AsStr(), '/', ':');
  }

  lemma NoColon(s: string)
    requires ImageRepository.RepoOk(s)
    ensures ':' !in s
  {
    ImageRepository.RepoChars(s);
    assert !ImageRepository.ComponentChar(':');
  }

  /** Distinct valid keys are stored under distinct paths. */
  lemma ToPathInjective(k1: StorageKey, k2: StorageKey, base_dir: seq<string>)
    requires k1.Valid() && k2.Valid()
    requires k1.ToPath(base_dir) == k2.ToPath(base_dir)
    ensures k1 == k2
  {
    var p1, p2 := k1.ToPath(base_dir), k2.ToPath(base_dir);
    var n := |base_dir| + 1;
    assert k1.DirName() == k2.DirName() by { assert p1[n - 1] == p2[n - 1]; }
    assert k1.Names() == k2.Names() by { assert p1[n..] == k1.Names() && p2[n..] == k2.Names(); }
    SameDirSameKind(k1, k2);
    match k1
    case Temp(pid, random) =>
      assert k1.Names()[0] == k2.Names()[0];
      NumeralPairUnique(pid, random, k2.pid, k2.random, 10, '-');
    case Blob(d) =>
      ImageDigest.DigestEquality(d, k2.digest);
    case BlobPart(d, r) =>
      assert k1.Names()[0] == k2.Names()[0] && k1.Names()[1] == k2.Names()[1];
      ImageDigest.DigestEquality(d, k2.digest);
      NumeralPairUnique(r.start, r.end, k2.range.start, k2.range.end, 16, ':');
    case Manifest(reg, repo, v) =>
      assert k1.Names()[0] == k2.Names()[0] && k1.Names()[1] == k2.Names()[1] && k1.Names()[2] == k2.Names()[2];
      ImageRegistry.RegistryEquality(reg, k2.registry);
      ReplacedRepositoryUnique(repo, k2.repository);
      ImageVersions.VersionEquality(v, k2.version);
  }

  /** Each kind of key has a directory of its own. */
  lemma SameDirSameKind(k1: StorageKey, k2: StorageKey)
    requires k1.DirName() == k2.DirName()
    ensures k1.Temp? == k2.Temp? && k1.Blob? == k2.Blob?
    ensures k1.BlobPart? == k2.BlobPart? && k1.Manifest? == k2.Manifest?
  {
    assert "blobs"[0] != "parts"[0];
  }
}
