/** Separator-delimited fields of a string, in the sense of PHP's explode and implode.
    They give an independent reading of "dot-separated octets" and "colon-separated
    groups" against which the regex languages are characterised. */
module Fields {

  /** The index of the first c in s, or |s| when s has none. */
  function Find(s: string, c: char): (i: nat)
    ensures i <= |s|
    ensures i < |s| ==> s[i] == c
    ensures forall j :: 0 <= j < i ==> s[j] != c
    decreases |s|
  {
    if s == [] then 0 else if s[0] == c then 0 else 1 + Find(s[1..], c)
  }

  /** explode(c, s): the maximal c-free pieces of s, in order. */
  function Split(s: string, c: char): (fs: seq<string>)
    ensures |fs| >= 1
    decreases |s|
  {
    var i := Find(s, c);
    if i == |s| then [s] else [s[..i]] + Split(s[i + 1..], c)
  }

  /** implode(c, fs): the fields glued back with c between neighbours. */
  function Join(fs: seq<string>, c: char): (s: string)
    requires |fs| >= 1
  {
    if |fs| == 1 then fs[0] else fs[0] + [c] + Join(fs[1..], c)
  }

  /** A string without the separator is a single field. */
  lemma SplitSeparatorFree(s: string, c: char)
    requires c !in s
    ensures Split(s, c) == [s]
  {
  }

  /** Splitting a separator-free head off. */
  lemma SplitCons(h: string, rest: string, c: char)
    requires c !in h
    ensures Split(h + [c] + rest, c) == [h] + Split(rest, c)
  {
    var s := h + [c] + rest;
    forall j | 0 <= j < |h| ensures s[j] != c {
      assert s[j] == h[j];
    }
    assert s[|h|] == c;
    FindFirst(s, c, |h|);
    assert s[..|h|] == h;
    assert s[|h| + 1..] == rest;
  }

  /** Find is the first occurrence. */
  lemma {:induction false} FindFirst(s: string, c: char, k: nat)
    requires k < |s| && s[k] == c
    requires forall j :: 0 <= j < k ==> s[j] != c
    ensures Find(s, c) == k
  {
  }

  /** explode undoes implode when no field holds the separator. */
  lemma {:induction false} SplitJoin(fs: seq<string>, c: char)
    requires |fs| >= 1
    requires forall j :: 0 <= j < |fs| ==> c !in fs[j]
    ensures Split(Join(fs, c), c) == fs
    decreases |fs|
  {
    if |fs| == 1 {
      SplitSeparatorFree(fs[0], c);
    } else {
      SplitJoin(fs[1..], c);
      SplitCons(fs[0], Join(fs[1..], c), c);
    }
  }

  /** implode undoes explode. */
  lemma {:induction false} JoinSplit(s: string, c: char)
    ensures Join(Split(s, c), c) == s
    decreases |s|
  {
    var i := Find(s, c);
    if i < |s| {
      JoinSplit(s[i + 1..], c);
      Rejoin(s, i, c);
    }
  }

  lemma Rejoin(s: string, i: nat, c: char)
    requires i < |s| && s[i] == c
    ensures s == s[..i] + [c] + s[i + 1..]
  {
  }

  /** No field of explode(c, s) holds the separator. */
  lemma {:induction false} SplitFieldsFree(s: string, c: char)
    ensures forall j :: 0 <= j < |Split(s, c)| ==> c !in Split(s, c)[j]
    decreases |s|
  {
    var i := Find(s, c);
    if i < |s| {
      SplitFieldsFree(s[i + 1..], c);
      var h, fs := s[..i], Split(s[i + 1..], c);
      assert c !in h;
      assert Split(s, c) == [h] + fs;
    } else {
      assert c !in s;
    }
  }

  /** implode keeps out every character that is neither in a field nor the separator. */
  lemma {:induction false} JoinAvoids(fs: seq<string>, c: char, x: char)
    requires |fs| >= 1 && x != c
    requires forall j :: 0 <= j < |fs| ==> x !in fs[j]
    ensures x !in Join(fs, c)
    decreases |fs|
  {
    if |fs| > 1 {
      JoinAvoids(fs[1..], c, x);
    }
  }
}
