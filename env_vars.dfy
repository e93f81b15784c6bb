/**
 * A container's environment: a list of C strings `KEY=value` (or a bare
 * `KEY`), looked up, replaced and removed by key.
 */
module EnvVars {
  import opened Wrappers
  import opened Ints
  import opened Chars

  type Bytes = seq<u8>

  const NUL: u8 := 0
  const EQUALS: u8 := 0x3d

  /** The bytes of a C string: no NUL inside. */
  predicate IsCString(b: Bytes) { NUL !in b }

  /** `CString::new` found a NUL byte. */
  datatype NulError = NulError

  /** `CString::new`: the bytes, unless one of them is NUL. */
  function NewCString(b: Bytes): (r: Result<Bytes, NulError>)
    ensures r.Ok? <==> IsCString(b)
    ensures r.Ok? ==> r.value == b
    ensures r.Err? ==> r == Err(NulError)
  {
    if NUL in b then Err(NulError) else Ok(b)
  }

  /**
   * `split` as written: it cuts the bytes *with* their NUL terminator at
   * the first `=`, so an entry without `=` gets its terminator in the key.
   */
  function SplitEntryAsWritten(item: Bytes): (kv: (Bytes, Option<Bytes>))
  {
    var with_nul := item + [NUL];
    var f := Find(with_nul, EQUALS);
    if f.None? then (with_nul, None) else (with_nul[..f.value], Some(with_nul[f.value + 1..|with_nul| - 1]))
  }

  /** An entry's key and value: cut at the first `=`; with no `=`, the whole entry is the key and there is no value. */
  function SplitEntry(item: Bytes): (Bytes, Option<Bytes>) {
    var f := Find(item, EQUALS);
    if f.None? then (item, None) else (item[..f.value], Some(item[f.value + 1..]))
  }

  /** The key holds no `=`; with no `=` the entry is the key, otherwise it is the key, `=` and the value. */
  lemma SplitEntryParts(item: Bytes)
    ensures var kv := SplitEntry(item);
      && EQUALS !in kv.0
      && (kv.1.None? <==> EQUALS !in item)
      && (kv.1.None? ==> kv.0 == item)
      && (kv.1.Some? ==> item == kv.0 + [EQUALS] + kv.1.value)
  {
    var f := Find(item, EQUALS);
    if f.Some? {
      assert item == item[..f.value] + [EQUALS] + item[f.value + 1..];
    }
  }

  /** `join`: `key`, or `key=value`, as a C string. */
  function Join(key: Bytes, value: Option<Bytes>): (r: Result<Bytes, NulError>)
    ensures r.Ok? <==> IsCString(key) && (value.Some? ==> IsCString(value.value))
  {
    NewCString(if value.Some? then key + [EQUALS] + value.value else key)
  }

  /** An entry read back after joining gives the key and value it was joined from. */
  lemma EntryRoundTrip(key: Bytes, value: Option<Bytes>)
    requires EQUALS !in key && Join(key, value).Ok?
    ensures SplitEntry(Join(key, value).value) == (key, value)
  {
    if value.Some? {
      var item := key + [EQUALS] + value.value;
      FindAfter(key, EQUALS, value.value);
      assert item[..|key|] == key && item[|key| + 1..] == value.value;
    }
  }

  /** Where the entry has an `=`, the split as written agrees with the intended one. */
  lemma SplitEntryAsWrittenWithValue(item: Bytes)
    requires EQUALS in item && IsCString(item)
    ensures SplitEntryAsWritten(item) == SplitEntry(item)
  {
    var with_nul := item + [NUL];
    FindPrefix(item, EQUALS, [NUL]);
    var i := Find(item, EQUALS).value;
    assert with_nul[..i] == item[..i];
    assert with_nul[i + 1..|with_nul| - 1] == item[i + 1..];
  }

  /** As written, a bare `KEY` entry splits into a key that no NUL-free key equals. */
  lemma SplitEntryAsWrittenBare(item: Bytes)
    requires EQUALS !in item && IsCString(item)
    ensures SplitEntryAsWritten(item) == (item + [NUL], None)
    ensures SplitEntryAsWritten(item).0 != SplitEntry(item).0
  {
    assert EQUALS !in item + [NUL];
    assert |SplitEntryAsWritten(item).0| != |item|;
  }

  /** The index of the first entry whose key is `key`. */
  function FirstMatch(items: seq<Bytes>, key: Bytes): (r: Option<nat>)
    ensures r.Some? ==> r.value < |items| && SplitEntry(items[r.value]).0 == key
    ensures r.Some? ==> forall j :: 0 <= j < r.value ==> SplitEntry(items[j]).0 != key
    ensures r.None? <==> forall j :: 0 <= j < |items| ==> SplitEntry(items[j]).0 != key
  {
    if items == [] then None
    else if SplitEntry(items[0]).0 == key then Some(0)
    else
      var rest := FirstMatch(items[1..], key);
      assert forall j :: 1 <= j < |items| ==> items[j] == items[1..][j - 1];
      if rest.None? then None else Some(rest.value + 1)
  }

  /** `get`: the value of the first entry with that key, if any entry has it. */
  function Lookup(items: seq<Bytes>, key: Bytes): Option<Option<Bytes>> {
    var i := FirstMatch(items, key);
    if i.None? then None else Some(SplitEntry(items[i.value]).1)
  }

  /** `get` as written, with the split as written. */
  function LookupAsWritten(items: seq<Bytes>, key: Bytes): Option<Option<Bytes>>
    decreases |items|
  {
    if items == [] then None
    else if SplitEntryAsWritten(items[0]).0 == key then Some(SplitEntryAsWritten(items[0]).1)
    else LookupAsWritten(items[1..], key)
  }

  /** After `set`: the first entry with the key replaced, or the new entry appended. */
  function SetIn(items: seq<Bytes>, key: Bytes, joined: Bytes): (r: seq<Bytes>)
    ensures FirstMatch(items, key).Some? ==> |r| == |items| && r[FirstMatch(items, key).value] == joined
    ensures FirstMatch(items, key).None? ==> |r| == |items| + 1 && r[|items|] == joined
    ensures forall j :: 0 <= j < |items| && Some(j) != FirstMatch(items, key) ==> r[j] == items[j]
  {
    var i := FirstMatch(items, key);
    if i.None? then items + [joined] else items[i.value := joined]
  }

  /** After `remove`: the first entry with the key deleted, all others kept in order. */
  function RemoveIn(items: seq<Bytes>, key: Bytes): (r: seq<Bytes>)
    ensures FirstMatch(items, key).None? ==> r == items
    ensures FirstMatch(items, key).Some? ==>
      (var i := FirstMatch(items, key).value; |r| == |items| - 1 && r[..i] == items[..i] && r[i..] == items[i + 1..])
  {
    var i := FirstMatch(items, key);
    if i.None? then items else items[..i.value] + items[i.value + 1..]
  }

  /** The index of the first entry whose key, split as written, is `key`. */
  function FirstMatchAsWritten(items: seq<Bytes>, key: Bytes): (r: Option<nat>)
    ensures r.Some? ==> r.value < |items|
  {
    if items == [] then None
    else if SplitEntryAsWritten(items[0]).0 == key then Some(0)
    else
      var rest := FirstMatchAsWritten(items[1..], key);
      if rest.None? then None else Some(rest.value + 1)
  }

  /** `set` as written: the first entry whose as-written key is `key` is replaced, otherwise the entry is appended. */
  function SetInAsWritten(items: seq<Bytes>, key: Bytes, joined: Bytes): (r: seq<Bytes>)
    ensures |items| <= |r| <= |items| + 1 && joined in r
  {
    var i := FirstMatchAsWritten(items, key);
    if i.None? then items + [joined]
    else
      assert items[i.value := joined][i.value] == joined;
      items[i.value := joined]
  }

  /** `remove` as written: the first entry whose as-written key is `key` is deleted. */
  function RemoveInAsWritten(items: seq<Bytes>, key: Bytes): (r: seq<Bytes>)
    ensures |items| - 1 <= |r| <= |items|
  {
    var i := FirstMatchAsWritten(items, key);
    if i.None? then items else items[..i.value] + items[i.value + 1..]
  }

  /** Entries that all hold an `=` are matched alike by either split. */
  lemma {:induction false} FirstMatchAgrees(items: seq<Bytes>, key: Bytes)
    requires forall j :: 0 <= j < |items| ==> EQUALS in items[j] && IsCString(items[j])
    ensures FirstMatchAsWritten(items, key) == FirstMatch(items, key)
    decreases |items|
  {
    if items != [] {
      SplitEntryAsWrittenWithValue(items[0]);
      var rest := items[1..];
      assert forall j :: 0 <= j < |rest| ==> rest[j] == items[j + 1];
      FirstMatchAgrees(rest, key);
    }
  }

  /** So on such entries `set` and `remove` as written agree with the intended ones. */
  lemma AsWrittenAgreesWithValues(items: seq<Bytes>, key: Bytes, joined: Bytes)
    requires forall j :: 0 <= j < |items| ==> EQUALS in items[j] && IsCString(items[j])
    ensures SetInAsWritten(items, key, joined) == SetIn(items, key, joined)
    ensures RemoveInAsWritten(items, key) == RemoveIn(items, key)
  {
    FirstMatchAgrees(items, key);
  }

  /** As written, `set` on a bare entry `key` appends a second entry for the key; the intended `set` replaces it. */
  lemma AsWrittenSetDuplicates(key: Bytes, joined: Bytes)
    requires EQUALS !in key && IsCString(key)
    ensures SetInAsWritten([key], key, joined) == [key, joined]
    ensures SetIn([key], key, joined) == [joined]
  {
    SplitEntryAsWrittenBare(key);
    SplitEntryParts(key);
    FirstMatchAt([key], key, 0);
  }

  /** As written, `remove` leaves a bare entry `key` in place; the intended `remove` deletes it. */
  lemma AsWrittenRemoveKeeps(key: Bytes)
    requires EQUALS !in key && IsCString(key)
    ensures RemoveInAsWritten([key], key) == [key]
    ensures RemoveIn([key], key) == []
  {
    SplitEntryAsWrittenBare(key);
    SplitEntryParts(key);
    FirstMatchAt([key], key, 0);
  }

  /** The vector of entries that `get`, `set` and `remove` work on. */
  class EnvList {
    var items: seq<Bytes>

    constructor(items: seq<Bytes>)
      ensures this.items == items
    {
      this.items := items;
    }

    /** `get`: the first entry with the key decides. */
    method Get(key: Bytes) returns (r: Option<Option<Bytes>>)
      ensures r == Lookup(items, key)
    {
      var i := 0;
      while i < |items|
        invariant 0 <= i <= |items|
        invariant forall j :: 0 <= j < i ==> SplitEntry(items[j]).0 != key
      {
        var (item_key, item_value) := SplitEntry(items[i]);
        if item_key == key {
          return Some(item_value);
        }
        i := i + 1;
      }
      return None;
    }

    /** `remove`: deletes the first entry with the key and returns it. */
    method Remove(key: Bytes) returns (r: Option<Bytes>)
      modifies this
      ensures items == RemoveIn(old(items), key)
      ensures FirstMatch(old(items), key).None? ==> r.None?
      ensures FirstMatch(old(items), key).Some? ==> r == Some(old(items)[FirstMatch(old(items), key).value])
    {
      var i := 0;
      while i < |items|
        invariant 0 <= i <= |items| && items == old(items)
        invariant forall j :: 0 <= j < i ==> SplitEntry(items[j]).0 != key
      {
        var (item_key, _) := SplitEntry(items[i]);
        if item_key == key {
          r := Some(items[i]);
          items := items[..i] + items[i + 1..];
          return;
        }
        i := i + 1;
      }
      return None;
    }

    /** `set`: joins the entry, then replaces the first entry with the key or appends. */
    method Set(key: Bytes, value: Option<Bytes>) returns (r: Result<(), NulError>)
      modifies this
      ensures r.Err? <==> Join(key, value).Err?
      ensures r == Ok(()) || r == Err(NulError)
      ensures r.Err? ==> items == old(items)
      ensures r.Ok? ==> items == SetIn(old(items), key, Join(key, value).value)
    {
      var joined := Join(key, value);
      if joined.Err? {
        return Err(NulError);
      }
      var i := 0;
      while i < |items|
        invariant 0 <= i <= |items| && items == old(items)
        invariant forall j :: 0 <= j < i ==> SplitEntry(items[j]).0 != key
      {
        var (item_key, _) := SplitEntry(items[i]);
        if item_key == key {
          items := items[i := joined.value];
          return Ok(());
        }
        i := i + 1;
      }
      items := items + [joined.value];
      return Ok(());
    }

    method Clear()
      modifies this
      ensures items == []
    {
      items := [];
    }
  }

  /** After setting a key, looking it up gives the value set. */
  lemma LookupAfterSet(items: seq<Bytes>, key: Bytes, value: Option<Bytes>)
    requires EQUALS !in key && Join(key, value).Ok?
    ensures Lookup(SetIn(items, key, Join(key, value).value), key) == Some(value)
  {
    var joined := Join(key, value).value;
    var r := SetIn(items, key, joined);
    EntryRoundTrip(key, value);
    var i := FirstMatch(items, key);
    var at := if i.Some? then i.value else |items|;
    assert r[at] == joined;
    forall j | 0 <= j < at
      ensures SplitEntry(r[j]).0 != key
    {
      assert r[j] == items[j];
    }
    FirstMatchAt(r, key, at);
  }

  /** Setting one key leaves every other key's lookup as it was. */
  lemma LookupAfterSetOther(items: seq<Bytes>, key: Bytes, value: Option<Bytes>, other: Bytes)
    requires EQUALS !in key && Join(key, value).Ok? && other != key
    ensures Lookup(SetIn(items, key, Join(key, value).value), other) == Lookup(items, other)
  {
    var joined := Join(key, value).value;
    var r := SetIn(items, key, joined);
    EntryRoundTrip(key, value);
    var i := FirstMatch(items, key);
    var m := FirstMatch(items, other);
    assert forall j :: 0 <= j < |items| && Some(j) != i ==> r[j] == items[j];
    if m.Some? {
      assert m != i;
      assert forall j :: 0 <= j < m.value ==> SplitEntry(r[j]).0 != other;
      FirstMatchAt(r, other, m.value);
    } else {
      assert forall j :: 0 <= j < |r| ==> SplitEntry(r[j]).0 != other;
    }
  }

  /** The first match is the one entry with the key that has none before it. */
  lemma FirstMatchAt(items: seq<Bytes>, key: Bytes, m: nat)
    requires m < |items| && SplitEntry(items[m]).0 == key
    requires forall j :: 0 <= j < m ==> SplitEntry(items[j]).0 != key
    ensures FirstMatch(items, key) == Some(m)
  {
  }

  /** Removing one key leaves every other key's lookup as it was. */
  lemma LookupAfterRemoveOther(items: seq<Bytes>, key: Bytes, other: Bytes)
    requires other != key
    ensures Lookup(RemoveIn(items, key), other) == Lookup(items, other)
  {
    var i := FirstMatch(items, key);
    if i.Some? {
      LookupSkipping(items, i.value, other);
    }
  }

  /** Dropping an entry whose key is not `other` does not change what `other` looks up. */
  lemma LookupSkipping(items: seq<Bytes>, i: nat, other: Bytes)
    requires i < |items| && SplitEntry(items[i]).0 != other
    ensures Lookup(items[..i] + items[i + 1..], other) == Lookup(items, other)
  {
    var r := items[..i] + items[i + 1..];
    var m := FirstMatch(items, other);
    if m.None? {
      forall j | 0 <= j < |r| ensures SplitEntry(r[j]).0 != other {
        if j < i { assert r[j] == items[j]; } else { assert r[j] == items[j + 1]; }
      }
    } else if m.value < i {
      forall j | 0 <= j <= m.value ensures r[j] == items[j] {
      }
      FirstMatchAt(r, other, m.value);
    } else {
      forall j | 0 <= j < m.value - 1 ensures SplitEntry(r[j]).0 != other {
        if j < i { assert r[j] == items[j]; } else { assert r[j] == items[j + 1]; }
      }
      assert r[m.value - 1] == items[m.value];
      FirstMatchAt(r, other, m.value - 1);
    }
  }

  /** Removing a key uncovers the next entry with that key, if there is one. */
  lemma LookupAfterRemove(items: seq<Bytes>, key: Bytes)
    requires FirstMatch(items, key).Some?
    ensures Lookup(RemoveIn(items, key), key) == Lookup(items[FirstMatch(items, key).value + 1..], key)
  {
    var i := FirstMatch(items, key).value;
    var r := RemoveIn(items, key);
    var pre, tail := items[..i], items[i + 1..];
    assert r == pre + tail by {
      assert r == r[..i] + r[i..];
    }
    forall j | 0 <= j < |pre|
      ensures SplitEntry(pre[j]).0 != key
    {
      assert pre[j] == items[j];
    }
    LookupPast(pre, tail, key);
  }

  /** Entries without the key in front do not change what it looks up. */
  lemma LookupPast(pre: seq<Bytes>, tail: seq<Bytes>, key: Bytes)
    requires forall j :: 0 <= j < |pre| ==> SplitEntry(pre[j]).0 != key
    ensures Lookup(pre + tail, key) == Lookup(tail, key)
  {
    var r := pre + tail;
    var m := FirstMatch(tail, key);
    if m.Some? {
      forall j | 0 <= j < |pre| + m.value
        ensures SplitEntry(r[j]).0 != key
      {
        if j >= |pre| {
          assert r[j] == tail[j - |pre|];
        }
      }
      assert r[|pre| + m.value] == tail[m.value];
      FirstMatchAt(r, key, |pre| + m.value);
    } else {
      forall j | 0 <= j < |r|
        ensures SplitEntry(r[j]).0 != key
      {
        if j >= |pre| {
          assert r[j] == tail[j - |pre|];
        }
      }
    }
  }

  const PATH: Bytes := [0x50, 0x41, 0x54, 0x48]

  /**
   * As written, a bare `PATH` entry is never found by its own key. The
   * intended lookup finds it, with no value.
   */
  lemma AsWrittenBareEntryLost()
    ensures LookupAsWritten([PATH], PATH) == None
    ensures Lookup([PATH], PATH) == Some(None)
  {
    SplitEntryAsWrittenBare(PATH);
  }

  /**
   * As written, a bare `PATH` in front of `PATH=dirs` is passed over and the
   * later entry's value is found; the intended lookup stops at the bare one.
   */
  lemma AsWrittenBareSkipped(dirs: Bytes)
    requires IsCString(dirs)
    ensures LookupAsWritten([PATH, PATH + [EQUALS] + dirs], PATH) == Some(Some(dirs))
    ensures Lookup([PATH, PATH + [EQUALS] + dirs], PATH) == Some(None)
  {
    var bare, full := PATH, PATH + [EQUALS] + dirs;
    assert EQUALS !in PATH && IsCString(PATH);
    SplitEntryAsWrittenBare(bare);
    SplitEntryParts(bare);
    EntryRoundTrip(PATH, Some(dirs));
    assert full[|PATH|] == EQUALS;
    SplitEntryAsWrittenWithValue(full);
    assert [bare, full][1..] == [full] && [full][1..] == [];
    FirstMatchAt([bare, full], PATH, 0);
  }

  /** As written, a bare key does not survive a join and a split. */
  lemma AsWrittenSplitJoinBare(key: Bytes)
    requires EQUALS !in key && IsCString(key)
    ensures SplitEntryAsWritten(Join(key, None).value) != (key, None)
  {
    SplitEntryAsWrittenBare(key);
  }
}
