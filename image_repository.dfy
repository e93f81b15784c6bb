/** Repository names: slash-separated components of lowercase alphanumerics and separators. */
module ImageRepository {
  import opened Wrappers
  import opened Chars
  import opened ImageErrors

  /** `[a-z0-9._-]`, the characters a component may hold. */
  predicate ComponentChar(c: char) { IsLowerAlnum(c) || c == '.' || c == '_' || c == '-' }

  /**
   * What may stand either side of character `c` inside a component: a `.`
   * sits between two alphanumerics; `_` comes singly or doubled between
   * alphanumerics; `-` comes in runs of any length between alphanumerics.
   */
  predicate Neighbours(l: char, c: char, r: char) {
    if c == '.' then IsLowerAlnum(l) && IsLowerAlnum(r)
    else if c == '_' then
      && (IsLowerAlnum(l) || l == '_')
      && (IsLowerAlnum(r) || r == '_')
      && !(l == '_' && r == '_')
    else if c == '-' then (IsLowerAlnum(l) || l == '-') && (IsLowerAlnum(r) || r == '-')
    else true
  }

  /**
   * The language of `[a-z0-9]+(?:(?:[._]|__|[-]*)[a-z0-9]+)*`: alphanumeric
   * at both ends, and every inner character with allowed neighbours.
   */
  predicate ComponentOk(p: string) {
    && |p| >= 1
    && IsLowerAlnum(p[0])
    && IsLowerAlnum(p[|p| - 1])
    && (forall i :: 0 <= i < |p| ==> ComponentChar(p[i]))
    && (forall i :: 0 < i < |p| - 1 ==> Neighbours(p[i - 1], p[i], p[i + 1]))
  }

  /** One or more valid components separated by single slashes. */
  predicate RepoOk(s: string) {
    forall k :: 0 <= k < |Split(s, '/')| ==> ComponentOk(Split(s, '/')[k])
  }

  datatype Repository = Repository(serialized: string) {
    predicate Valid() { RepoOk(serialized) }

    function AsStr(): string { serialized }

    /** An iterator positioned at the first component. */
    function Iter(): (it: RepositoryIter)
      ensures it.Collect() == Split(serialized, '/')
    {
      PartsCollect(serialized);
      RepositoryIter(Some(serialized))
    }

    /** This path and `other` joined with a slash. */
    function Join(other: Repository): (r: Repository)
      ensures Split(r.serialized, '/') == Split(serialized, '/') + Split(other.serialized, '/')
      ensures Valid() && other.Valid() ==> r.Valid()
    {
      SplitAppend(serialized, '/', other.serialized);
      Repository(serialized + "/" + other.serialized)
    }
  }

  /** The rest of a path still to be yielded, as in `splitn(2, '/')` on each step. */
  datatype RepositoryIter = RepositoryIter(remaining: Option<string>) {
    function Size(): nat { if remaining.None? then 0 else |remaining.value| + 1 }

    /** The next component and the iterator after it. */
    function Next(): (r: (Option<string>, RepositoryIter))
      ensures remaining.None? <==> r.0.None?
      ensures remaining.None? ==> r.1 == this
      ensures remaining.Some? ==> r.1.Size() < Size()
    {
      match remaining
      case None => (None, this)
      case Some(rest) =>
        match Find(rest, '/')
        case None => (Some(rest), RepositoryIter(None))
        case Some(i) => (Some(rest[..i]), RepositoryIter(Some(rest[i + 1..])))
    }

    /** Everything the iterator still yields. */
    function Collect(): seq<string>
      decreases Size()
    {
      var (item, next) := Next();
      if item.None? then [] else [item.value] + next.Collect()
    }
  }

  /** Iterating a path yields exactly its slash-separated parts. */
  lemma {:induction false} PartsCollect(s: string)
    ensures RepositoryIter(Some(s)).Collect() == Split(s, '/')
    decreases |s|
  {
    var f := Find(s, '/');
    if f.Some? {
      PartsCollect(s[f.value + 1..]);
    }
  }

  function Parse(s: string): (r: Result<Repository, ImageError>)
    ensures r.Ok? <==> RepoOk(s)
    ensures r.Ok? ==> r.value.Valid() && r.value.AsStr() == s
    ensures r.Err? ==> r.error == InvalidReferenceFormat(s)
  {
    if RepoOk(s) then Ok(Repository(s)) else Err(InvalidReferenceFormat(s))
  }

  /** A valid repository holds only component characters and slashes. */
  lemma RepoChars(s: string)
    requires RepoOk(s)
    ensures forall i :: 0 <= i < |s| ==> ComponentChar(s[i]) || s[i] == '/'
  {
    JoinSplit(s, '/');
    JoinedChars(Split(s, '/'));
  }

  lemma {:induction false} JoinedChars(parts: seq<string>)
    requires |parts| >= 1 && forall k :: 0 <= k < |parts| ==> ComponentOk(parts[k])
    ensures forall i :: 0 <= i < |JoinWith(parts, '/')| ==>
      ComponentChar(JoinWith(parts, '/')[i]) || JoinWith(parts, '/')[i] == '/'
    decreases |parts|
  {
    var s := JoinWith(parts, '/');
    assert ComponentOk(parts[0]);
    if |parts| > 1 {
      var rest := JoinWith(parts[1..], '/');
      JoinedChars(parts[1..]);
      assert s == parts[0] + "/" + rest;
      forall i | 0 <= i < |s|
        ensures ComponentChar(s[i]) || s[i] == '/'
      {
        if i > |parts[0]| {
          assert s[i] == rest[i - |parts[0]| - 1];
        } else if i < |parts[0]| {
          assert s[i] == parts[0][i];
        }
      }
    }
  }

  /** A valid repository never starts or ends with a slash, and holds no empty component. */
  lemma NoStraySlash(s: string)
    requires RepoOk(s)
    ensures |s| >= 1 && s[0] != '/' && s[|s| - 1] != '/'
    ensures forall i :: 0 <= i < |s| - 1 && s[i] == '/' ==> s[i + 1] != '/'
  {
    var parts := Split(s, '/');
    SplitPartsFree(s, '/');
    JoinSplit(s, '/');
    JoinedEnds(parts);
    assert ComponentOk(parts[0]);
    forall i | 0 <= i < |s| - 1 && s[i] == '/'
      ensures s[i + 1] != '/'
    {
      DoubleSlash(parts, i);
    }
  }

  /** The join of nonempty, slash-free parts starts and ends with a non-slash. */
  lemma {:induction false} JoinedEnds(parts: seq<string>)
    requires |parts| >= 1
    requires forall k :: 0 <= k < |parts| ==> '/' !in parts[k] && ComponentOk(parts[k])
    ensures var s := JoinWith(parts, '/'); |s| >= 1 && s[0] != '/' && s[|s| - 1] != '/'
    decreases |parts|
  {
    assert ComponentOk(parts[0]);
    assert parts[0][0] in parts[0];
    if |parts| > 1 {
      JoinedEnds(parts[1..]);
    } else {
      assert parts[0][|parts[0]| - 1] in parts[0];
    }
  }

  /** Two adjacent slashes would make an empty component. */
  lemma {:induction false} DoubleSlash(parts: seq<string>, i: nat)
    requires |parts| >= 1
    requires forall k :: 0 <= k < |parts| ==> '/' !in parts[k] && ComponentOk(parts[k])
    requires i < |JoinWith(parts, '/')| - 1 && JoinWith(parts, '/')[i] == '/'
    ensures JoinWith(parts, '/')[i + 1] != '/'
    decreases |parts|
  {
    var s := JoinWith(parts, '/');
    if |parts| > 1 {
      var rest := JoinWith(parts[1..], '/');
      assert s == parts[0] + "/" + rest;
      JoinedEnds(parts[1..]);
      if i > |parts[0]| {
        assert s[i] == rest[i - |parts[0]| - 1];
        DoubleSlash(parts[1..], i - |parts[0]| - 1);
      }
    }
  }

  /** `[a-z0-9]+` */
  predicate AlnumRun(q: string) { |q| >= 1 && forall i :: 0 <= i < |q| ==> IsLowerAlnum(q[i]) }

  /** `[._]|__|[-]*`, the separators between two runs. */
  predicate SeparatorOk(sep: string) {
    sep == "." || sep == "_" || sep == "__" || forall i :: 0 <= i < |sep| ==> sep[i] == '-'
  }

  /** The regex's first alternative: one alphanumeric run. */
  lemma RunIsComponent(q: string)
    requires AlnumRun(q)
    ensures ComponentOk(q)
  {
  }

  /** The regex's repetition: a component, a separator and a run is again a component. */
  lemma ExtendComponent(p: string, sep: string, q: string)
    requires ComponentOk(p) && SeparatorOk(sep) && AlnumRun(q)
    ensures ComponentOk(p + sep + q)
  {
    var s := p + sep + q;
    var m, n := |p|, |p| + |sep|;
    assert IsLowerAlnum(s[|s| - 1]) by { assert s[|s| - 1] == q[|q| - 1]; }
    forall i | 0 <= i < |s|
      ensures ComponentChar(s[i])
    {
      if i >= n { assert s[i] == q[i - n]; }
      else if i >= m { assert s[i] == sep[i - m]; }
      else { assert s[i] == p[i]; }
    }
    forall i | 0 < i < |s| - 1
      ensures Neighbours(s[i - 1], s[i], s[i + 1])
    {
      if i >= n {
        assert s[i] == q[i - n];
      } else if i >= m {
        assert s[i] == sep[i - m];
        assert s[i - 1] == (if i == m then p[m - 1] else sep[i - 1 - m]);
        assert s[i + 1] == (if i + 1 == n then q[0] else sep[i + 1 - m]);
      } else if i == m - 1 {
        assert s[i] == p[m - 1];
      } else {
        assert s[i - 1] == p[i - 1] && s[i] == p[i] && s[i + 1] == p[i + 1];
      }
    }
  }

  /** A single valid component is a valid repository. */
  lemma ComponentIsRepo(p: string)
    requires ComponentOk(p)
    ensures RepoOk(p)
  {
    SplitWhole(p, '/');
  }

  /** A slash next to a slash or at either end rules a path out. */
  lemma StraySlashRejected(s: string, i: nat)
    requires i < |s|
    requires s[i] == '/' && (i == 0 || i == |s| - 1 || s[i + 1] == '/')
    ensures Parse(s).Err?
  {
    if RepoOk(s) {
      NoStraySlash(s);
    }
  }

  /** Single-component test cases. */
  lemma AcceptsBlah()
    ensures Parse("blah").Ok?
  {
    SplitWhole("blah", '/');
  }

  lemma AcceptsDotted()
    ensures Parse("blah" + "." + "ok").Ok?
  {
    ExtendComponent("blah", ".", "ok");
    ComponentIsRepo("blah" + "." + "ok");
  }

  /** Rejected single components. */
  lemma RejectsComponent(s: string)
    requires '/' !in s && !ComponentOk(s)
    ensures Parse(s).Err?
  {
    SplitWhole(s, '/');
    assert Split(s, '/')[0] == s;
  }

  lemma RejectsSingles()
    ensures Parse("").Err? && Parse(".ok").Err? && Parse("blah..ok").Err?
  {
    RejectsComponent("");
    RejectsComponent(".ok");
    var s := "blah..ok";
    assert !Neighbours(s[3], s[4], s[5]);
    RejectsComponent(s);
  }

  /** Slash-separated test cases. */
  lemma AcceptsTwoComponents()
    ensures Parse("blah" + "/" + ("blah" + "." + "ok")).Ok?
  {
    var t := "blah" + "." + "ok";
    ExtendComponent("blah", ".", "ok");
    ComponentIsRepo(t);
    RunIsComponent("blah");
    ComponentIsRepo("blah");
    var j := Repository("blah").Join(Repository(t));
  }

  lemma RejectsSlashes()
    ensures Parse("/").Err? && Parse("blah" + "/").Err? && Parse("/" + "blah").Err?
    ensures Parse("blah" + "/" + "/" + "blah").Err?
  {
    StraySlashRejected("/", 0);
    StraySlashRejected("blah" + "/", 4);
    StraySlashRejected("/" + "blah", 0);
    StraySlashRejected("blah" + "/" + "/" + "blah", 4);
  }
}
