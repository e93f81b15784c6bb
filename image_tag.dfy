/** Image tags: up to 128 characters of `[a-zA-Z0-9_.-]`, not starting with `.` or `-`. */
module ImageTag {
  import opened Wrappers
  import opened Chars
  import opened ImageErrors

  const MAX_LEN: nat := 128
  const LATEST: string := "latest"

  /** `[a-zA-Z0-9_]`, the first character of a tag. */
  predicate TagFirst(c: char) { IsAlnum(c) || c == '_' }
  /** `[a-zA-Z0-9_.-]`, every later character. */
  predicate TagRest(c: char) { TagFirst(c) || c == '.' || c == '-' }

  /** The language of the tag regex `[a-zA-Z0-9_][a-zA-Z0-9_.-]{0,127}`. */
  predicate TagOk(s: string) {
    1 <= |s| <= MAX_LEN && TagFirst(s[0]) && forall i :: 1 <= i < |s| ==> TagRest(s[i])
  }

  datatype Tag = Tag(serialized: string) {
    predicate Valid() { TagOk(serialized) }

    function AsStr(): string { serialized }

    /** The special tag `latest`. */
    predicate IsLatest() { serialized == LATEST }
  }

  /** Parsing `s` keeps the string itself when it is in the tag language. */
  function Parse(s: string): (r: Result<Tag, ImageError>)
    ensures r.Ok? <==> TagOk(s)
    ensures r.Ok? ==> r.value.Valid() && r.value.AsStr() == s
    ensures r.Err? ==> r.error == InvalidReferenceFormat(s)
  {
    if TagOk(s) then Ok(Tag(s)) else Err(InvalidReferenceFormat(s))
  }

  function Latest(): (t: Tag)
    ensures t.Valid() && t.IsLatest()
  {
    Tag(LATEST)
  }

  /** Every valid tag survives printing and re-parsing. */
  lemma ParseAsStr(t: Tag)
    requires t.Valid()
    ensures Parse(t.AsStr()) == Ok(t)
  {
  }

  /** Tags from the test suite, accepted and rejected. */
  lemma TagExamples()
    ensures Parse("latest").Ok? && Parse("_under").Ok? && Parse("v1.2-rc3").Ok?
    ensures Parse("").Err? && Parse(".hidden").Err? && Parse("-dash").Err? && Parse("a:b").Err?
  {
    assert !TagRest("a:b"[1]);
  }
}
