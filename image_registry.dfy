/** Registry servers: a dotted domain name with an optional `:port`. */
module ImageRegistry {
  import opened Wrappers
  import opened Ints
  import opened Chars
  import opened ImageErrors

  /** `[a-zA-Z0-9]|[a-zA-Z0-9][a-zA-Z0-9-]*[a-zA-Z0-9]`: hyphens only inside a label. */
  predicate LabelOk(l: string) {
    && |l| >= 1
    && IsAlnum(l[0])
    && IsAlnum(l[|l| - 1])
    && forall i :: 0 <= i < |l| ==> IsAlnum(l[i]) || l[i] == '-'
  }

  /** One or more labels separated by single dots. */
  predicate DomainOk(d: string) {
    forall k :: 0 <= k < |Split(d, '.')| ==> LabelOk(Split(d, '.')[k])
  }

  /** `[0-9]+` */
  predicate PortOk(p: string) {
    |p| >= 1 && forall i :: 0 <= i < |p| ==> IsDigit(p[i])
  }

  /** A domain never holds a colon, so the first colon is the port separator. */
  lemma DomainHasNoColon(d: string)
    requires DomainOk(d)
    ensures ':' !in d
  {
    SplitPartsFree(d, '.');
    JoinSplit(d, '.');
    JoinedLabels(Split(d, '.'));
  }

  lemma {:induction false} JoinedLabels(parts: seq<string>)
    requires |parts| >= 1 && forall k :: 0 <= k < |parts| ==> LabelOk(parts[k])
    ensures ':' !in JoinWith(parts, '.')
    decreases |parts|
  {
    if |parts| > 1 {
      JoinedLabels(parts[1..]);
    }
  }

  /** A valid registry holds no slash and no at-sign. */
  lemma RegistryChars(s: string)
    requires RegistryOk(s)
    ensures '/' !in s && '@' !in s
  {
    var n := DomainEnd(s);
    var d := s[..n];
    SplitPartsFree(d, '.');
    JoinSplit(d, '.');
    JoinedLabelChars(Split(d, '.'));
    if n < |s| {
      assert s == d + [s[n]] + s[n + 1..];
      var p := s[n + 1..];
      assert forall k :: 0 <= k < |p| ==> IsDigit(p[k]);
    } else {
      assert s == d;
    }
  }

  lemma {:induction false} JoinedLabelChars(parts: seq<string>)
    requires |parts| >= 1 && forall k :: 0 <= k < |parts| ==> LabelOk(parts[k])
    ensures var d := JoinWith(parts, '.'); '/' !in d && '@' !in d
    decreases |parts|
  {
    if |parts| > 1 {
      JoinedLabelChars(parts[1..]);
    }
  }

  /** The end of the domain part: the first colon, or the whole string. */
  function DomainEnd(s: string): (n: nat)
    ensures n <= |s|
    ensures ':' !in s[..n]
    ensures n < |s| ==> s[n] == ':'
  {
    match Find(s, ':')
    case None => assert s[..|s|] == s; |s|
    case Some(i) => i
  }

  /** The language of the registry regex. */
  predicate RegistryOk(s: string) {
    var n := DomainEnd(s);
    DomainOk(s[..n]) && (n < |s| ==> PortOk(s[n + 1..]))
  }

  /** The port digits, when `s` has a port part. */
  function PortDigits(s: string): (p: Option<string>)
    ensures p.Some? <==> ':' in s
  {
    var n := DomainEnd(s);
    if n < |s| then Some(s[n + 1..]) else None
  }

  /** The `u16` parse of the port does not panic: no port, or one below 65536. */
  predicate PortFits(s: string) {
    RegistryOk(s) && PortDigits(s).Some? ==> Digits(PortDigits(s).value) < TWO_16
  }

  datatype Registry = Registry(serialized: string, domain_pos: (nat, nat), port: Option<u16>, is_https: bool) {
    predicate Valid() {
      && RegistryOk(serialized)
      && domain_pos == (0, DomainEnd(serialized))
      && (port.Some? <==> PortDigits(serialized).Some?)
      && (port.Some? ==> port.value == Digits(PortDigits(serialized).value))
      && (is_https <==> '.' in DomainStr())
    }

    function AsStr(): string { serialized }

    function DomainStr(): string
      requires domain_pos.0 <= domain_pos.1 <= |serialized|
    {
      serialized[domain_pos.0..domain_pos.1]
    }

    function Port(): Option<u16> { port }

    function IsHttps(): bool { is_https }

    /** "https" for a domain with a dot, "http" otherwise. */
    function ProtocolStr(): (p: string)
      ensures p == "https" <==> IsHttps()
      ensures p == "http" <==> !IsHttps()
    {
      if IsHttps() then "https" else "http"
    }
  }

  /**
   * Parses `s` and reads its port as a `u16`; that read panics on a port
   * above 65535, which is why PortFits is required.
   */
  function Parse(s: string): (r: Result<Registry, ImageError>)
    requires PortFits(s)
    ensures r.Ok? <==> RegistryOk(s)
    ensures r.Ok? ==> r.value.Valid() && r.value.AsStr() == s
    ensures r.Ok? ==> r.value.DomainStr() == s[..DomainEnd(s)]
    ensures r.Ok? ==> (r.value.IsHttps() <==> '.' in s[..DomainEnd(s)])
    ensures r.Ok? ==> (r.value.Port().Some? <==> ':' in s)
    ensures r.Err? ==> r.error == InvalidReferenceFormat(s)
  {
    if !RegistryOk(s) then Err(InvalidReferenceFormat(s))
    else
      var n := DomainEnd(s);
      var port: Option<u16> := if n < |s| then Some(Digits(s[n + 1..])) else None;
      Ok(Registry(s, (0, n), port, '.' in s[..n]))
  }

  /**
   * Registry parsing with the port range checked: a port above 65535 is a
   * format error instead of a panic.
   */
  function ParseChecked(s: string): (r: Result<Registry, ImageError>)
    ensures r.Ok? <==> RegistryOk(s) && PortFits(s)
    ensures r.Ok? ==> r.value.Valid() && r.value.AsStr() == s
    ensures r.Err? ==> r.error == InvalidReferenceFormat(s)
  {
    if PortFits(s) then Parse(s) else Err(InvalidReferenceFormat(s))
  }

  /** Where the port fits, the checked parse is the original one. */
  lemma ParseCheckedAgrees(s: string)
    requires PortFits(s)
    ensures ParseChecked(s) == Parse(s)
  {
  }

  /** Every valid registry survives printing and re-parsing. */
  lemma ParseAsStr(r: Registry)
    requires r.Valid()
    ensures PortFits(r.AsStr()) && Parse(r.AsStr()) == Ok(r)
  {
  }

  /** A registry string is a domain alone, or a domain, a colon and the port digits. */
  lemma RegistryShape(s: string)
    requires RegistryOk(s)
    ensures PortDigits(s).None? ==> DomainOk(s) && s == s[..DomainEnd(s)]
    ensures PortDigits(s).Some? ==> s == s[..DomainEnd(s)] + ":" + PortDigits(s).value
  {
    var n := DomainEnd(s);
    if n < |s| {
      assert s == s[..n] + [s[n]] + s[n + 1..];
    } else {
      assert s[..n] == s;
    }
  }

  /** Building a registry string from a domain and port digits splits back into them. */
  lemma JoinDomainPort(d: string, p: string)
    requires DomainOk(d) && PortOk(p)
    ensures RegistryOk(d + ":" + p) && DomainEnd(d + ":" + p) == |d|
    ensures PortDigits(d + ":" + p) == Some(p)
  {
    DomainHasNoColon(d);
    FindAfter(d, ':', p);
    var s := d + ":" + p;
    assert s[..|d|] == d && s[|d| + 1..] == p;
  }

  /** A label followed by a dot and a domain is a domain. */
  lemma ExtendDomain(l: string, d: string)
    requires LabelOk(l) && DomainOk(d)
    ensures DomainOk(l + "." + d)
  {
    SplitCut(l, '.', d);
  }

  /** A single label is a domain. */
  lemma LabelIsDomain(l: string)
    requires LabelOk(l)
    ensures DomainOk(l)
  {
    SplitWhole(l, '.');
  }

  /** A registry without a port: the whole string is the domain. */
  lemma DomainOnly(d: string)
    requires DomainOk(d)
    ensures PortFits(d) && Parse(d).Ok? && Parse(d).value.DomainStr() == d
    ensures Parse(d).value.IsHttps() <==> '.' in d
    ensures Parse(d).value.Port() == None
  {
    DomainHasNoColon(d);
    assert d[..|d|] == d;
  }

  /** A dotted domain is https. */
  lemma DottedIsHttps()
    ensures Parse("balls" + "." + "io").Ok? && Parse("balls" + "." + "io").value.ProtocolStr() == "https"
  {
    LabelIsDomain("io");
    ExtendDomain("balls", "io");
    DomainOnly("balls" + "." + "io");
    assert ("balls" + "." + "io")[5] == '.';
  }

  /** A dotless domain is http. */
  lemma LocalhostIsHttp(s: string)
    requires s == "localhost"
    ensures Parse(s).Ok? && Parse(s).value.ProtocolStr() == "http"
  {
    LabelIsDomain(s);
    DomainOnly(s);
  }

  /** Valid registries are equal exactly when their strings are. */
  lemma RegistryEquality(a: Registry, b: Registry)
    requires a.Valid() && b.Valid()
    ensures a == b <==> a.AsStr() == b.AsStr()
  {
  }
}
