/** ASCII character classes used by the image-reference grammars. */
module Chars {
  import opened Wrappers

  predicate IsDigit(c: char) { '0' <= c <= '9' }
  predicate IsLower(c: char) { 'a' <= c <= 'z' }
  predicate IsUpper(c: char) { 'A' <= c <= 'Z' }
  predicate IsAlpha(c: char) { IsLower(c) || IsUpper(c) }
  predicate IsAlnum(c: char) { IsAlpha(c) || IsDigit(c) }
  /** `[a-z0-9]` */
  predicate IsLowerAlnum(c: char) { IsLower(c) || IsDigit(c) }
  /** `[a-f0-9]` */
  predicate IsLowerHex(c: char) { IsDigit(c) || 'a' <= c <= 'f' }

  /** The index of the first occurrence of `c` in `s`, if any. */
  function Find<T(==)>(s: seq<T>, c: T): (r: Option<nat>)
    ensures r.Some? ==> r.value < |s| && s[r.value] == c && c !in s[..r.value]
    ensures r.None? <==> c !in s
  {
    if s == [] then None
    else if s[0] == c then Some(0)
    else match Find(s[1..], c)
      case None => None
      case Some(i) => assert s[..i + 1] == [s[0]] + s[1..][..i]; Some(i + 1)
  }

  /** The first `c` of `a` is also the first of `a + b`. */
  lemma FindPrefix<T>(a: seq<T>, c: T, b: seq<T>)
    requires c in a
    ensures Find(a + b, c) == Find(a, c)
  {
    var i := Find(a, c).value;
    var s := a + b;
    assert s[i] == c && s[..i] == a[..i];
  }

  /** Where `c` does not occur in `a`, the first `c` of `a + [c] + b` is the one after `a`. */
  lemma FindAfter<T>(a: seq<T>, c: T, b: seq<T>)
    requires c !in a
    ensures Find(a + [c] + b, c) == Some(|a|)
  {
    var s := a + [c] + b;
    assert s[|a|] == c && s[..|a|] == a;
  }

  /** `s` cut at every `c`, as repeated `splitn(2, c)` produces it: never empty, no part holds `c`. */
  function Split<T(==)>(s: seq<T>, c: T): (parts: seq<seq<T>>)
    ensures |parts| >= 1
    decreases |s|
  {
    var f := Find(s, c);
    if f.None? then [s] else [s[..f.value]] + Split(s[f.value + 1..], c)
  }

  /** No part of a split holds the separator. */
  lemma {:induction false} SplitPartsFree<T>(s: seq<T>, c: T)
    ensures forall k :: 0 <= k < |Split(s, c)| ==> c !in Split(s, c)[k]
    decreases |s|
  {
    var f := Find(s, c);
    if f.Some? {
      SplitPartsFree(s[f.value + 1..], c);
    }
  }

  /** The parts joined back with `c` between them. */
  function JoinWith<T>(parts: seq<seq<T>>, c: T): seq<T>
    requires |parts| >= 1
  {
    if |parts| == 1 then parts[0] else parts[0] + [c] + JoinWith(parts[1..], c)
  }

  /** Where `c` does not occur in `a`, splitting `a + [c] + b` cuts off `a`. */
  lemma SplitCut<T>(a: seq<T>, c: T, b: seq<T>)
    requires c !in a
    ensures Split(a + [c] + b, c) == [a] + Split(b, c)
  {
    var s := a + [c] + b;
    FindAfter(a, c, b);
    assert s[..|a|] == a && s[|a| + 1..] == b;
  }

  /** Where `c` does not occur in `a`, `a` splits into itself. */
  lemma SplitWhole<T>(a: seq<T>, c: T)
    requires c !in a
    ensures Split(a, c) == [a]
  {
  }

  /** Splitting `a + [c] + b` splits `a` and `b` separately. */
  lemma {:induction false} SplitAppend<T>(a: seq<T>, c: T, b: seq<T>)
    ensures Split(a + [c] + b, c) == Split(a, c) + Split(b, c)
    decreases |a|
  {
    if c !in a {
      SplitWhole(a, c);
      SplitCut(a, c, b);
    } else {
      var i := Find(a, c).value;
      var head, tail := a[..i], a[i + 1..];
      assert a == head + [c] + tail;
      var rest := tail + [c] + b;
      assert a + [c] + b == head + [c] + rest;
      SplitCut(head, c, rest);
      SplitCut(head, c, tail);
      SplitAppend(tail, c, b);
      ConsAssoc(head, Split(tail, c), Split(b, c));
    }
  }

  /** Joining the parts of a split gives back the string. */
  lemma {:induction false} JoinSplit<T>(s: seq<T>, c: T)
    ensures JoinWith(Split(s, c), c) == s
    decreases |s|
  {
    if c in s {
      var i := Find(s, c).value;
      var head, tail := s[..i], s[i + 1..];
      assert s == head + [c] + tail;
      SplitCut(head, c, tail);
      JoinSplit(tail, c);
      JoinCons(head, Split(tail, c), c);
    }
  }

  lemma ConsAssoc<T>(x: T, p: seq<T>, q: seq<T>)
    ensures [x] + (p + q) == ([x] + p) + q
  {
  }

  lemma JoinCons<T>(head: seq<T>, rest: seq<seq<T>>, c: T)
    requires |rest| >= 1
    ensures JoinWith([head] + rest, c) == head + [c] + JoinWith(rest, c)
  {
    assert ([head] + rest)[1..] == rest;
  }

  /** Splitting the join of parts free of `c` gives back the parts. */
  lemma {:induction false} SplitJoin<T>(parts: seq<seq<T>>, c: T)
    requires |parts| >= 1 && forall k :: 0 <= k < |parts| ==> c !in parts[k]
    ensures Split(JoinWith(parts, c), c) == parts
    decreases |parts|
  {
    SplitWhole(parts[0], c);
    if |parts| > 1 {
      var rest := parts[1..];
      assert parts == [parts[0]] + rest;
      JoinCons(parts[0], rest, c);
      SplitJoin(rest, c);
      SplitCut(parts[0], c, JoinWith(rest, c));
    }
  }

  /** The value of a string of decimal digits. */
  function Digits(s: string): (n: nat)
    requires forall i :: 0 <= i < |s| ==> IsDigit(s[i])
  {
    if s == [] then 0 else Digits(s[..|s| - 1]) * 10 + DigitValue(s[|s| - 1])
  }

  function DigitValue(c: char): (d: nat)
    requires IsDigit(c)
    ensures d < 10
  {
    c as int - '0' as int
  }

  /** `s` with every `from` replaced by `to`, as `str::replace` on single characters. */
  function Replace(s: string, from: char, to: char): (r: string)
    ensures |r| == |s|
    ensures forall i :: 0 <= i < |s| ==> r[i] == if s[i] == from then to else s[i]
  {
    if s == [] then [] else [if s[0] == from then to else s[0]] + Replace(s[1..], from, to)
  }

  /** When `to` was not in `s`, replacing back undoes the replacement. */
  lemma ReplaceBack(s: string, from: char, to: char)
    requires to !in s
    ensures Replace(Replace(s, from, to), to, from) == s
  {
    var r := Replace(Replace(s, from, to), to, from);
    forall i | 0 <= i < |s|
      ensures r[i] == s[i]
    {
    }
  }

  /** Two strings cut at a separator neither head holds have equal heads and tails. */
  lemma SeparatedUnique<T>(a1: seq<T>, b1: seq<T>, a2: seq<T>, b2: seq<T>, c: T)
    requires c !in a1 && c !in a2
    requires a1 + [c] + b1 == a2 + [c] + b2
    ensures a1 == a2 && b1 == b2
  {
    var s := a1 + [c] + b1;
    FindAfter(a1, c, b1);
    FindAfter(a2, c, b2);
    assert s[..|a1|] == a1 && s[|a1| + 1..] == b1;
    assert s[..|a2|] == a2 && s[|a2| + 1..] == b2;
  }
}

