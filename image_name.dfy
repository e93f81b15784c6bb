/**
 * Docker-style image references: `[registry/]repository[:tag][@digest]`.
 * The registry is told apart from the first repository component by the
 * same heuristic Docker uses.
 */
module ImageNames {
  import opened Wrappers
  import opened Chars
  import opened ImageErrors
  import ImageTag
  import ImageDigest
  import ImageRepository
  import ImageRegistry
  import ImageVersions

  /** The first `c` in `s[lo..hi]`, as an index into `s`, or `hi` when there is none. */
  function Cut(s: string, c: char, lo: nat, hi: nat): (k: nat)
    requires lo <= hi <= |s|
    ensures lo <= k <= hi
    ensures forall i :: lo <= i < k ==> s[i] != c
    ensures k < hi ==> s[k] == c
    decreases hi - lo
  {
    if lo == hi then hi else if s[lo] == c then lo else Cut(s, c, lo + 1, hi)
  }

  /**
   * A first path segment that names a registry: a valid registry whose
   * domain has a dot, or which has a port, or whose domain is `localhost`.
   */
  predicate RegistryPrefix(f: string) {
    && ImageRegistry.RegistryOk(f)
    && var d := f[..ImageRegistry.DomainEnd(f)];
       '.' in d || ':' in f || d == "localhost"
  }

  /** Everything before the first slash names a registry. */
  predicate HasRegistry(s: string) {
    var j := Cut(s, '/', 0, |s|);
    j < |s| && RegistryPrefix(s[..j])
  }

  /** Where the repository starts: after the registry's slash, or at 0. */
  function RepoStart(s: string): (off: nat)
    ensures off <= |s|
    ensures off > 0 <==> HasRegistry(s)
  {
    if HasRegistry(s) then Cut(s, '/', 0, |s|) + 1 else 0
  }

  /** The `@` that starts the digest, or the end of the string. */
  function DigestAt(s: string): (a: nat)
    ensures RepoStart(s) <= a <= |s|
  {
    Cut(s, '@', RepoStart(s), |s|)
  }

  /** The `:` that starts the tag, or the digest's `@`. */
  function TagAt(s: string): (c: nat)
    ensures RepoStart(s) <= c <= DigestAt(s)
  {
    Cut(s, ':', RepoStart(s), DigestAt(s))
  }

  /** The four parts of a name, as `as_parts` returns them. */
  datatype Parts = Parts(registry: Option<string>, repository: string, tag: Option<string>, digest: Option<string>)

  /** The four pieces of `s` between the registry slash, the tag colon and the digest at-sign. */
  function PartsAt(s: string): Parts {
    PartsBetween(s, RepoStart(s), TagAt(s), DigestAt(s))
  }

  /** The pieces of `s` for a repository start `off`, a tag cut `c` and a digest cut `a`. */
  function PartsBetween(s: string, off: nat, c: nat, a: nat): Parts
    requires off <= c <= a <= |s|
  {
    Parts(
      if off > 0 then Some(s[..off - 1]) else None,
      s[off..c],
      if c < a then Some(s[c + 1..a]) else None,
      if a < |s| then Some(s[a + 1..]) else None)
  }

  /** The language of the parser's two full-match expressions, with and without a registry. */
  predicate NameOk(s: string) {
    var p := PartsAt(s);
    && ImageRepository.RepoOk(p.repository)
    && (p.tag.Some? ==> ImageTag.TagOk(p.tag.value))
    && (p.digest.Some? ==> ImageDigest.DigestOk(p.digest.value))
  }

  /** The string `from_parts` writes: `registry/`, the repository, `:tag`, `@digest`. */
  function Assemble(p: Parts): string {
    (if p.registry.Some? then p.registry.value + "/" else "")
    + p.repository
    + (if p.tag.Some? then ":" + p.tag.value else "")
    + (if p.digest.Some? then "@" + p.digest.value else "")
  }

  /** Parts that are each valid, and that re-parse the way they were meant. */
  predicate PartsOk(p: Parts) {
    && (p.registry.Some? ==> RegistryPrefix(p.registry.value))
    && (p.registry.None? ==> !HasRegistry(p.repository))
    && ImageRepository.RepoOk(p.repository)
    && (p.tag.Some? ==> ImageTag.TagOk(p.tag.value))
    && (p.digest.Some? ==> ImageDigest.DigestOk(p.digest.value))
  }

  datatype ImageName = ImageName(
    serialized: string,
    registry_pos: Option<(nat, nat)>,
    repository_pos: (nat, nat),
    tag_pos: Option<(nat, nat)>,
    digest_pos: Option<(nat, nat)>)
  {
    /** A name is one the parser produced from its own string. */
    predicate Valid() { Parse(serialized) == Ok(this) }

    predicate InRange(pos: (nat, nat)) { pos.0 <= pos.1 <= |serialized| }

    predicate InBounds() {
      && (registry_pos.Some? ==> InRange(registry_pos.value))
      && InRange(repository_pos)
      && (tag_pos.Some? ==> InRange(tag_pos.value))
      && (digest_pos.Some? ==> InRange(digest_pos.value))
    }

    function AsStr(): string { serialized }

    function Slice(pos: (nat, nat)): string
      requires InRange(pos)
    {
      serialized[pos.0..pos.1]
    }

    function RegistryStr(): Option<string>
      requires InBounds()
    {
      if registry_pos.Some? then Some(Slice(registry_pos.value)) else None
    }

    function RepositoryStr(): string
      requires InBounds()
    {
      Slice(repository_pos)
    }

    function TagStr(): Option<string>
      requires InBounds()
    {
      if tag_pos.Some? then Some(Slice(tag_pos.value)) else None
    }

    function ContentDigestStr(): Option<string>
      requires InBounds()
    {
      if digest_pos.Some? then Some(Slice(digest_pos.value)) else None
    }

    function AsParts(): Parts
      requires InBounds()
    {
      Parts(RegistryStr(), RepositoryStr(), TagStr(), ContentDigestStr())
    }
  }

  function Parse(s: string): (r: Result<ImageName, ImageError>)
    ensures r.Ok? <==> NameOk(s)
    ensures r.Ok? ==> r.value.InBounds() && r.value.AsStr() == s
    ensures r.Err? ==> r.error == InvalidReferenceFormat(s)
  {
    if !NameOk(s) then Err(InvalidReferenceFormat(s)) else Ok(NameAt(s))
  }

  /** The name whose ranges are the pieces between the cuts of `s`. */
  function NameAt(s: string): (n: ImageName)
    ensures n.InBounds() && n.AsStr() == s
  {
    NameBetween(s, RepoStart(s), TagAt(s), DigestAt(s))
  }

  /** The name of `s` with the ranges a repository start `off`, a tag cut `c` and a digest cut `a` delimit. */
  function NameBetween(s: string, off: nat, c: nat, a: nat): (n: ImageName)
    requires off <= c <= a <= |s|
    ensures n.InBounds() && n.AsStr() == s
  {
    ImageName(
      s,
      if off > 0 then Some((0, off - 1)) else None,
      (off, c),
      if c < a then Some((c + 1, a)) else None,
      if a < |s| then Some((a + 1, |s|)) else None)
  }

  /** A parsed name's parts are the pieces its cuts delimit. */
  lemma ParseParts(s: string)
    requires NameOk(s)
    ensures Parse(s).value.AsParts() == PartsAt(s)
  {
    NameBetweenParts(s, RepoStart(s), TagAt(s), DigestAt(s));
  }

  /** The ranges of `NameBetween` select exactly the pieces `PartsBetween` cuts out. */
  lemma NameBetweenParts(s: string, off: nat, c: nat, a: nat)
    requires off <= c <= a <= |s|
    ensures NameBetween(s, off, c, a).AsParts() == PartsBetween(s, off, c, a)
  {
    var n, p := NameBetween(s, off, c, a), PartsBetween(s, off, c, a);
    assert n.RegistryStr() == p.registry;
    assert n.RepositoryStr() == p.repository;
    assert n.TagStr() == p.tag;
    assert a < |s| ==> s[a + 1..|s|] == s[a + 1..];
    assert n.ContentDigestStr() == p.digest;
  }

  /** A `k` with no `c` before it in the window, and `c` at it unless it is `hi`, is the cut. */
  lemma CutAt(s: string, c: char, lo: nat, k: nat, hi: nat)
    requires lo <= k <= hi <= |s|
    requires k < hi ==> s[k] == c
    requires forall i :: lo <= i < k ==> s[i] != c
    ensures Cut(s, c, lo, hi) == k
  {
  }

  lemma WindowFree(s: string, lo: nat, hi: nat, c: char)
    requires lo <= hi <= |s| && c !in s[lo..hi]
    ensures forall i :: lo <= i < hi ==> s[i] != c
  {
    assert forall i :: lo <= i < hi ==> s[i] == s[lo..hi][i - lo];
  }

  /** Text after the first segment that holds no slash does not change the registry test. */
  lemma HasRegistryPrefix(x: string, rest: string)
    requires '/' !in rest
    ensures HasRegistry(x + rest) <==> HasRegistry(x)
  {
    var s := x + rest;
    var j := Cut(x, '/', 0, |x|);
    if j < |x| {
      CutAt(s, '/', 0, j, |s|);
      assert s[..j] == x[..j];
    } else {
      assert forall i :: |x| <= i < |s| ==> s[i] == rest[i - |x|];
      CutAt(s, '/', 0, |s|, |s|);
    }
  }

  function RegistryPart(p: Parts): string {
    if p.registry.Some? then p.registry.value + "/" else ""
  }

  function TagPart(p: Parts): string {
    if p.tag.Some? then ":" + p.tag.value else ""
  }

  function DigestPart(p: Parts): string {
    if p.digest.Some? then "@" + p.digest.value else ""
  }

  /** Which characters each valid part may not hold. */
  lemma PartChars(p: Parts)
    requires PartsOk(p)
    ensures p.registry.Some? ==> '/' !in p.registry.value
    ensures ':' !in p.repository && '@' !in p.repository
    ensures '/' !in TagPart(p) + DigestPart(p)
    ensures '@' !in TagPart(p)
  {
    if p.registry.Some? {
      ImageRegistry.RegistryChars(p.registry.value);
    }
    ImageRepository.RepoChars(p.repository);
    if p.digest.Some? {
      ImageDigest.DigestChars(p.digest.value);
    }
    if p.tag.Some? {
      assert forall i :: 0 <= i < |p.tag.value| ==> ImageTag.TagRest(p.tag.value[i]);
    }
  }

  /** After a registry prefix and its slash, the repository starts. */
  lemma StartWithRegistry(reg: string, rest: string)
    requires '/' !in reg && RegistryPrefix(reg)
    ensures RepoStart(reg + "/" + rest) == |reg| + 1
  {
    var s := reg + "/" + rest;
    assert s[..|reg|] == reg;
    WindowFree(s, 0, |reg|, '/');
    CutAt(s, '/', 0, |reg|, |s|);
  }

  /** Without a registry prefix, the repository starts at 0. */
  lemma StartWithout(repo: string, rest: string)
    requires '/' !in rest && !HasRegistry(repo)
    ensures RepoStart(repo + rest) == 0
  {
    HasRegistryPrefix(repo, rest);
  }

  /** In an assembled name, the registry ends where the given registry does. */
  lemma AssembledStart(p: Parts)
    requires PartsOk(p)
    ensures RepoStart(Assemble(p)) == |RegistryPart(p)|
  {
    AssembleShape(p);
    PartChars(p);
    var rest := p.repository + TagPart(p) + DigestPart(p);
    if p.registry.Some? {
      StartWithRegistry(p.registry.value, rest);
    } else {
      StartWithout(p.repository, TagPart(p) + DigestPart(p));
    }
  }

  /** The written form is the registry with its slash, then the rest. */
  lemma AssembleShape(p: Parts)
    ensures p.registry.Some? ==> Assemble(p) == p.registry.value + "/" + (p.repository + TagPart(p) + DigestPart(p))
    ensures p.registry.None? ==> Assemble(p) == p.repository + (TagPart(p) + DigestPart(p))
  {
  }

  /** Past the repository start, the first `@` opens the digest and the first `:` the tag. */
  lemma CutsAt(s: string, off: nat, repo: string, t: string, d: string)
    requires RepoStart(s) == off && off <= |s| && s[off..] == repo + t + d
    requires ':' !in repo && '@' !in repo && '@' !in t
    requires t == [] || t[0] == ':'
    requires d == [] || d[0] == '@'
    ensures DigestAt(s) == off + |repo| + |t|
    ensures TagAt(s) == off + |repo|
  {
    var c := off + |repo|;
    var a := c + |t|;
    assert s[off..a] == repo + t by { assert s[off..a] == s[off..][..|repo| + |t|]; }
    assert s[off..c] == repo by { assert s[off..c] == s[off..][..|repo|]; }
    WindowFree(s, off, a, '@');
    WindowFree(s, off, c, ':');
    if a < |s| {
      assert s[a] == s[off..][|repo| + |t|];
    }
    CutAt(s, '@', off, a, |s|);
    if c < a {
      assert s[c] == s[off..][|repo|];
    }
    CutAt(s, ':', off, c, a);
  }

  /** In an assembled name, the tag and digest cuts land on the separators written. */
  lemma AssembledCuts(p: Parts)
    requires PartsOk(p)
    ensures var off := |RegistryPart(p)|;
      && DigestAt(Assemble(p)) == off + |p.repository| + |TagPart(p)|
      && TagAt(Assemble(p)) == off + |p.repository|
  {
    AssembledTail(p);
    AssembledStart(p);
    PartChars(p);
    CutsAt(Assemble(p), |RegistryPart(p)|, p.repository, TagPart(p), DigestPart(p));
  }

  /** After the registry part, the written form is the repository, the tag part and the digest part. */
  lemma AssembledTail(p: Parts)
    ensures var off := |RegistryPart(p)|;
      && off <= |Assemble(p)|
      && Assemble(p)[off..] == p.repository + TagPart(p) + DigestPart(p)
      && (TagPart(p) == [] || TagPart(p)[0] == ':')
      && (DigestPart(p) == [] || DigestPart(p)[0] == '@')
  {
    var rest := p.repository + TagPart(p) + DigestPart(p);
    assert Assemble(p) == RegistryPart(p) + rest;
  }

  /** The pieces of a string laid out as a prefix, a repository, a tag part and a digest part. */
  lemma AssembledSlices(s: string, pre: string, repo: string, t: string, d: string)
    requires s == pre + repo + t + d
    ensures var off, c := |pre|, |pre| + |repo|;
      && s[off..c] == repo
      && s[c..c + |t|] == t
      && s[c + |t|..] == d
  {
  }

  /** The cuts of an assembled name recover the parts it was assembled from. */
  lemma AssembledPartsAt(p: Parts)
    requires RepoStart(Assemble(p)) == |RegistryPart(p)|
    requires DigestAt(Assemble(p)) == |RegistryPart(p)| + |p.repository| + |TagPart(p)|
    requires TagAt(Assemble(p)) == |RegistryPart(p)| + |p.repository|
    ensures PartsAt(Assemble(p)) == p
  {
    AssembledBetween(p);
  }

  /** Cut where they were written, the pieces of an assembled name are the parts written. */
  lemma AssembledBetween(p: Parts)
    ensures var off := |RegistryPart(p)|;
      var c := off + |p.repository|;
      PartsBetween(Assemble(p), off, c, c + |TagPart(p)|) == p
  {
    var s := Assemble(p);
    var off := |RegistryPart(p)|;
    var c := off + |p.repository|;
    var a := c + |TagPart(p)|;
    AssembledSlices(s, RegistryPart(p), p.repository, TagPart(p), DigestPart(p));
    var q := PartsBetween(s, off, c, a);
    assert q.repository == p.repository;
    if p.tag.Some? {
      assert s[c + 1..a] == s[c..a][1..];
    }
    assert q.tag == p.tag;
    if p.digest.Some? {
      assert s[a + 1..] == s[a..][1..];
    }
    assert q.digest == p.digest;
    if p.registry.Some? {
      assert s[..off - 1] == p.registry.value;
    }
    assert q.registry == p.registry;
  }

  /** Valid parts assemble into a name that parses back into exactly those parts. */
  lemma AssembledParses(p: Parts)
    requires PartsOk(p)
    ensures Parse(Assemble(p)).Ok? && Parse(Assemble(p)).value.AsParts() == p
  {
    AssembledStart(p);
    AssembledCuts(p);
    AssembledPartsAt(p);
    ParseParts(Assemble(p));
  }

  /** Any string is the assembly of the pieces its cuts delimit. */
  lemma PartsAtAssemble(s: string)
    ensures Assemble(PartsAt(s)) == s
  {
    var p := PartsAt(s);
    var off, c, a := RepoStart(s), TagAt(s), DigestAt(s);
    PiecesAt(s);
    assert Assemble(p) == RegistryPart(p) + p.repository + TagPart(p) + DigestPart(p);
    FourSlices(s, off, c, a);
  }

  /** Each printed piece is the slice of the string between its cuts. */
  lemma PiecesAt(s: string)
    ensures var p, off, c, a := PartsAt(s), RepoStart(s), TagAt(s), DigestAt(s);
      && RegistryPart(p) == s[..off]
      && p.repository == s[off..c]
      && TagPart(p) == s[c..a]
      && DigestPart(p) == s[a..]
  {
    var off, c, a := RepoStart(s), TagAt(s), DigestAt(s);
    if off > 0 {
      assert s[off - 1] == '/';
    }
    PiecesBetween(s, off, c, a);
  }

  /** The same, for any cuts, provided a registry piece is followed by its slash. */
  lemma PiecesBetween(s: string, off: nat, c: nat, a: nat)
    requires off <= c <= a <= |s| && (off > 0 ==> s[off - 1] == '/')
    requires c < a ==> s[c] == ':'
    requires a < |s| ==> s[a] == '@'
    ensures var p := PartsBetween(s, off, c, a);
      && RegistryPart(p) == s[..off]
      && p.repository == s[off..c]
      && TagPart(p) == s[c..a]
      && DigestPart(p) == s[a..]
  {
    var p := PartsBetween(s, off, c, a);
    if off > 0 {
      assert s[..off] == s[..off - 1] + [s[off - 1]];
    }
    if c < a {
      assert s[c..a] == [s[c]] + s[c + 1..a];
    }
    if a < |s| {
      assert s[a..] == [s[a]] + s[a + 1..];
    }
  }

  lemma ThreeSlices(s: string, c: nat, a: nat)
    requires c <= a <= |s|
    ensures s == s[..c] + (s[c..a] + s[a..])
  {
  }

  lemma FourSlices(s: string, off: nat, c: nat, a: nat)
    requires off <= c <= a <= |s|
    ensures s == s[..off] + s[off..c] + s[c..a] + s[a..]
  {
  }

  /** A valid tag holds no slash and no at-sign. */
  lemma TagChars(t: string)
    requires ImageTag.TagOk(t)
    ensures '/' !in t && '@' !in t
  {
    assert forall i :: 0 <= i < |t| ==> ImageTag.TagRest(t[i]);
  }

  /** A registry piece is always a registry prefix: the cut found it. */
  lemma RegistryOfParts(s: string)
    ensures PartsAt(s).registry.Some? ==> RegistryPrefix(PartsAt(s).registry.value)
  {
  }

  /** With no registry piece, the repository piece does not look like one either. */
  lemma NoRegistryOfParts(s: string)
    requires '/' !in TagPart(PartsAt(s)) + DigestPart(PartsAt(s))
    ensures PartsAt(s).registry.None? ==> !HasRegistry(PartsAt(s).repository)
  {
    var p := PartsAt(s);
    if p.registry.None? {
      var c, a := TagAt(s), DigestAt(s);
      PiecesAt(s);
      ThreeSlices(s, c, a);
      HasRegistryPrefix(p.repository, TagPart(p) + DigestPart(p));
    }
  }

  lemma TailChars(p: Parts)
    requires p.tag.Some? ==> ImageTag.TagOk(p.tag.value)
    requires p.digest.Some? ==> ImageDigest.DigestOk(p.digest.value)
    ensures '/' !in TagPart(p) + DigestPart(p)
  {
    if p.tag.Some? { TagChars(p.tag.value); }
    if p.digest.Some? { ImageDigest.DigestChars(p.digest.value); }
  }

  /** The pieces of a name string in the parser's language are valid parts. */
  lemma ParsedPartsOk(s: string)
    requires NameOk(s)
    ensures PartsOk(PartsAt(s))
  {
    TailChars(PartsAt(s));
    RegistryOfParts(s);
    NoRegistryOfParts(s);
  }

  /** The parts of a parsed name are valid and assemble back into its string. */
  lemma ParsedParts(s: string)
    requires NameOk(s)
    ensures PartsOk(Parse(s).value.AsParts())
    ensures Assemble(Parse(s).value.AsParts()) == s
  {
    ParseParts(s);
    PartsAtAssemble(s);
    ParsedPartsOk(s);
  }

  /** A parsed name is valid, and a valid name's parts are valid and assemble into its string. */
  lemma ValidParts(n: ImageName)
    requires n.Valid()
    ensures n.InBounds()
    ensures PartsOk(n.AsParts()) && Assemble(n.AsParts()) == n.AsStr()
  {
    ParsedParts(n.serialized);
  }

  /** What `parse` returns is valid. */
  lemma ParseValid(s: string)
    requires NameOk(s)
    ensures Parse(s).value.Valid()
  {
  }

  /**
   * Writes the parts out and parses the result; the name is accepted only
   * when the parse gives back exactly the parts written.
   */
  function FromParts(registry: Option<string>, repository: string, tag: Option<string>, digest: Option<string>)
    : (r: Result<ImageName, ImageError>)
    ensures r.Ok? <==> PartsOk(Parts(registry, repository, tag, digest))
    ensures r.Ok? ==> r.value.Valid() && r.value.AsParts() == Parts(registry, repository, tag, digest)
    ensures r.Ok? ==> r.value.AsStr() == Assemble(Parts(registry, repository, tag, digest))
    ensures r.Err? ==> r.error == InvalidReferenceFormat(Assemble(Parts(registry, repository, tag, digest)))
  {
    var p := Parts(registry, repository, tag, digest);
    var combined := Assemble(p);
    var parsed := Parse(combined);
    FromPartsOk(p);
    if parsed.Err? then Err(parsed.error)
    else if parsed.value.AsParts() == p then Ok(parsed.value)
    else Err(InvalidReferenceFormat(combined))
  }

  /** The parse of assembled parts gives them back exactly when they are valid parts. */
  lemma FromPartsOk(p: Parts)
    ensures PartsOk(p) ==> Parse(Assemble(p)).Ok?
    ensures Parse(Assemble(p)).Ok? ==> Parse(Assemble(p)).value.Valid()
    ensures Parse(Assemble(p)).Ok? ==> (Parse(Assemble(p)).value.AsParts() == p <==> PartsOk(p))
  {
    if PartsOk(p) {
      AssembledParses(p);
    }
    if Parse(Assemble(p)).Ok? {
      ParsedParts(Assemble(p));
    }
  }

  /** A valid name is rebuilt from its own parts. */
  lemma FromPartsOfParts(n: ImageName)
    requires n.Valid()
    ensures n.InBounds()
    ensures var p := n.AsParts(); FromParts(p.registry, p.repository, p.tag, p.digest) == Ok(n)
  {
    ValidParts(n);
  }

  /** Two valid names are equal exactly when their strings are. */
  lemma NameEquality(a: ImageName, b: ImageName)
    requires a.Valid() && b.Valid()
    ensures a == b <==> a.AsStr() == b.AsStr()
  {
  }

  /** The result of `Ord::cmp`. */
  datatype Ordering = Less | Equal | Greater

  function Flip(o: Ordering): Ordering {
    match o
    case Less => Greater
    case Equal => Equal
    case Greater => Less
  }

  /** `str::cmp`: character by character, a proper prefix before the longer string. */
  function CompareStr(a: string, b: string): (o: Ordering)
    ensures o == Equal <==> a == b
    ensures a < b ==> o == Less
  {
    if a == [] then (if b == [] then Equal else Less)
    else if b == [] then Greater
    else if a[0] < b[0] then Less
    else if b[0] < a[0] then Greater
    else
      var rest := CompareStr(a[1..], b[1..]);
      assert rest == Equal <==> a == b by {
        assert a == [a[0]] + a[1..] && b == [b[0]] + b[1..];
      }
      rest
  }

  /** Comparing the other way round flips the answer. */
  lemma {:induction false} CompareFlip(a: string, b: string)
    ensures CompareStr(b, a) == Flip(CompareStr(a, b))
  {
    if a != [] && b != [] && a[0] == b[0] {
      CompareFlip(a[1..], b[1..]);
    }
  }

  /** `Ord` and `PartialOrd` for names: the order of their strings. */
  function Compare(a: ImageName, b: ImageName): Ordering {
    CompareStr(a.AsStr(), b.AsStr())
  }

  /** Names compare as equal exactly when they are equal, and swapping them flips the order. */
  lemma NameOrder(a: ImageName, b: ImageName)
    requires a.Valid() && b.Valid()
    ensures Compare(a, b) == Equal <==> a == b
    ensures Compare(b, a) == Flip(Compare(a, b))
  {
    NameEquality(a, b);
    CompareFlip(a.AsStr(), b.AsStr());
  }

  /** A valid name's registry piece, when present, is a registry. */
  function RegistryOf(n: ImageName): (r: Option<ImageRegistry.Registry>)
    requires n.Valid()
    requires n.RegistryStr().Some? ==> ImageRegistry.PortFits(n.RegistryStr().value)
    ensures r.Some? <==> n.RegistryStr().Some?
    ensures r.Some? ==> r.value.Valid() && r.value.AsStr() == n.RegistryStr().value
  {
    ValidParts(n);
    var reg := n.RegistryStr();
    if reg.None? then None
    else
      var parsed := ImageRegistry.Parse(reg.value);
      assert parsed.Ok?;
      Some(parsed.value)
  }

  /** A valid name's repository piece is a repository. */
  function RepositoryOf(n: ImageName): (r: ImageRepository.Repository)
    requires n.Valid()
    ensures r.Valid() && r.AsStr() == n.RepositoryStr()
  {
    ValidParts(n);
    var parsed := ImageRepository.Parse(n.RepositoryStr());
    assert parsed.Ok?;
    parsed.value
  }

  /** A valid name's tag piece, when present, is a tag. */
  function TagOf(n: ImageName): (r: Option<ImageTag.Tag>)
    requires n.Valid()
    ensures r.Some? <==> n.TagStr().Some?
    ensures r.Some? ==> r.value.Valid() && r.value.AsStr() == n.TagStr().value
  {
    ValidParts(n);
    var tag := n.TagStr();
    if tag.None? then None
    else
      var parsed := ImageTag.Parse(tag.value);
      assert parsed.Ok?;
      Some(parsed.value)
  }

  /** A valid name's digest piece, when present, is a content digest. */
  function ContentDigestOf(n: ImageName): (r: Option<ImageDigest.ContentDigest>)
    requires n.Valid()
    ensures r.Some? <==> n.ContentDigestStr().Some?
    ensures r.Some? ==> r.value.Valid() && r.value.AsStr() == n.ContentDigestStr().value
  {
    ValidParts(n);
    var dig := n.ContentDigestStr();
    if dig.None? then None
    else
      var parsed := ImageDigest.Parse(dig.value);
      assert parsed.Ok?;
      Some(parsed.value)
  }

  /** The most specific version a name gives: its digest, else its tag, else `latest`. */
  function Version(n: ImageName): (v: ImageVersions.ImageVersion)
    requires n.Valid()
    ensures v.Valid()
    ensures n.ContentDigestStr().Some? ==> v.IsContentDigest() && v.AsStr() == n.ContentDigestStr().value
    ensures n.ContentDigestStr().None? && n.TagStr().Some? ==> v.IsTag() && v.AsStr() == n.TagStr().value
    ensures n.ContentDigestStr().None? && n.TagStr().None? ==> v.IsTag() && v.AsStr() == ImageTag.LATEST
  {
    if ContentDigestOf(n).Some? then ImageVersions.ContentDigest(ContentDigestOf(n).value)
    else if TagOf(n).Some? then ImageVersions.Tag(TagOf(n).value)
    else ImageVersions.Tag(ImageTag.Latest())
  }

  /**
   * The name with the digest that was actually found: added when the name
   * has none, checked against the name's own digest otherwise.
   */
  function WithFoundDigest(n: ImageName, found: ImageDigest.ContentDigest): (r: Result<ImageName, ImageError>)
    requires n.Valid() && found.Valid()
    ensures r.Ok? <==> n.ContentDigestStr().None? || n.ContentDigestStr() == Some(found.AsStr())
    ensures r.Ok? ==> r.value.Valid()
    ensures r.Ok? ==> r.value.AsParts() == n.AsParts().(digest := Some(found.AsStr()))
    ensures r.Err? ==> r.error == ContentDigestMismatch(n.ContentDigestStr().value, found.AsStr())
  {
    var own := ContentDigestOf(n);
    if own.None? then
      WithDigestOk(n, found);
      FromParts(n.RegistryStr(), n.RepositoryStr(), n.TagStr(), Some(found.AsStr()))
    else if own.value == found then
      Ok(n)
    else
      ImageDigest.DigestEquality(own.value, found);
      Err(ContentDigestMismatch(own.value.AsStr(), found.AsStr()))
  }

  /** A name without a digest takes any valid digest. */
  lemma WithDigestOk(n: ImageName, found: ImageDigest.ContentDigest)
    requires n.Valid() && found.Valid()
    ensures PartsOk(n.AsParts().(digest := Some(found.AsStr())))
  {
    ValidParts(n);
  }

  /**
   * Name parsing with the registry's port range checked as well: a name
   * whose registry port is above 65535 is a format error, so the registry
   * of every accepted name can be read.
   */
  function ParseChecked(s: string): (r: Result<ImageName, ImageError>)
    ensures r.Ok? <==> NameOk(s) && (PartsAt(s).registry.Some? ==> ImageRegistry.PortFits(PartsAt(s).registry.value))
    ensures r.Ok? ==> r == Parse(s)
    ensures r.Err? ==> r.error == InvalidReferenceFormat(s)
  {
    var reg := PartsAt(s).registry;
    if reg.Some? && !ImageRegistry.PortFits(reg.value) then Err(InvalidReferenceFormat(s))
    else Parse(s)
  }

  /** Every name the checked parse accepts has a registry that can be read. */
  lemma CheckedRegistryReadable(s: string)
    requires ParseChecked(s).Ok?
    ensures Parse(s).value.Valid()
    ensures RegistryOf(Parse(s).value).Some? <==> PartsAt(s).registry.Some?
  {
    ParseParts(s);
  }

  /** A string with no slash has no registry. */
  lemma NoSlashNoRegistry(s: string)
    requires '/' !in s
    ensures !HasRegistry(s)
  {
    WindowFree(s, 0, |s|, '/');
    assert s[0..|s|] == s;
    CutAt(s, '/', 0, |s|, |s|);
  }

  /** A registry prefix followed by a slash is a registry. */
  lemma PrefixIsRegistry(reg: string, rest: string)
    requires '/' !in reg && RegistryPrefix(reg)
    ensures HasRegistry(reg + "/" + rest)
  {
    StartWithRegistry(reg, rest);
  }

  /** A one-component repository with no registry, tag or digest. */
  lemma SingleRepository(repo: string)
    requires ImageRepository.ComponentOk(repo) && '/' !in repo
    ensures FromParts(None, repo, None, None).Ok?
    ensures FromParts(None, repo, None, None).value.AsParts() == Parts(None, repo, None, None)
    ensures FromParts(None, repo, None, None).value.AsStr() == repo
  {
    ImageRepository.ComponentIsRepo(repo);
    NoSlashNoRegistry(repo);
  }

  /** `from_parts(None, "busybox", None, None)` gives back those parts (tests.rs). */
  lemma BusyboxFromParts()
    ensures FromParts(None, "busybox", None, None).Ok?
    ensures FromParts(None, "busybox", None, None).value.AsParts() == Parts(None, "busybox", None, None)
  {
    ImageRepository.RunIsComponent("busybox");
    SingleRepository("busybox");
  }

  /** The `localhost` domain alone is a registry prefix. */
  lemma LocalhostPrefix()
    ensures RegistryPrefix("localhost") && '/' !in "localhost"
  {
    assert '/' !in "localhost";
    ImageRegistry.LabelIsDomain("localhost");
    ImageRegistry.DomainOnly("localhost");
    assert "localhost"[..|"localhost"|] == "localhost";
  }

  /** A repository whose first component reads as a registry is ambiguous and refused. */
  lemma LocalhostRepositoryRefused()
    ensures FromParts(None, "localhost" + "/" + "busybox", None, None).Err?
  {
    LocalhostPrefix();
    PrefixIsRegistry("localhost", "busybox");
  }

  /** A repository cannot hold the colon of a registry port. */
  lemma PortInRepositoryRefused()
    ensures FromParts(None, "library:42" + "/" + "busybox", None, None).Err?
  {
    var repo := "library:42" + "/" + "busybox";
    assert repo[7] == ':';
    if ImageRepository.RepoOk(repo) {
      ImageRepository.RepoChars(repo);
    }
  }

  /** A domain and a port as registry. */
  lemma PortPrefix(d: string, port: string)
    requires ImageRegistry.LabelOk(d) && ImageRegistry.PortOk(port)
    ensures RegistryPrefix(d + ":" + port) && '/' !in d + ":" + port
    ensures ImageRegistry.PortDigits(d + ":" + port) == Some(port)
  {
    ImageRegistry.LabelIsDomain(d);
    ImageRegistry.JoinDomainPort(d, port);
    ImageRegistry.RegistryChars(d + ":" + port);
    assert (d + ":" + port)[|d|] == ':';
  }

  /** `from_parts(Some("library:42"), "busybox", None, None)` is accepted (tests.rs). */
  lemma RegistryWithPortFromParts()
    ensures FromParts(Some("library" + ":" + "42"), "busybox", None, None).Ok?
  {
    PortPrefix("library", "42");
    ImageRepository.RunIsComponent("busybox");
    ImageRepository.ComponentIsRepo("busybox");
  }

  /**
   * As written, a name with the registry port 65536 parses, yet its port
   * does not fit a `u16`, so reading its registry panics.
   */
  lemma AsWrittenPortOverflow()
    ensures FromParts(Some("localhost" + ":" + "65536"), "x", None, None).Ok?
    ensures FromParts(Some("localhost" + ":" + "65536"), "x", None, None).value.RegistryStr()
      == Some("localhost" + ":" + "65536")
    ensures !ImageRegistry.PortFits("localhost" + ":" + "65536")
  {
    var reg := "localhost" + ":" + "65536";
    PortPrefix("localhost", "65536");
    ImageRepository.RunIsComponent("x");
    ImageRepository.ComponentIsRepo("x");
    assert "65536"[..4] == "6553" && "6553"[..3] == "655" && "655"[..2] == "65" && "65"[..1] == "6";
    assert Digits("65536") == 65536;
  }

  /** The checked parse refuses that same name. */
  lemma CheckedPortOverflow()
    ensures ParseChecked(Assemble(Parts(Some("localhost" + ":" + "65536"), "x", None, None))).Err?
  {
    var p := Parts(Some("localhost" + ":" + "65536"), "x", None, None);
    AsWrittenPortOverflow();
    AssembledParses(p);
    ParseParts(Assemble(p));
  }
}
