/** Stripping suffixes to a normal form, for any language of markers of which no string ends in
    two different ones. */
module Stripping {
  /** No string ends in two different markers, and the empty string is not a marker. */
  ghost predicate Unambiguous(marker: string -> bool) {
    && (forall s: string, i: nat, j: nat :: i <= |s| && j <= |s| && marker(s[i..]) && marker(s[j..]) ==> i == j)
    && !marker("")
  }

  /** No rule applies to `s`. */
  ghost predicate Bare(marker: string -> bool, s: string) {
    forall i :: 0 <= i < |s| ==> !marker(s[i..])
  }

  ghost predicate Markers(marker: string -> bool, markers: seq<string>) {
    forall i :: 0 <= i < |markers| ==> marker(markers[i])
  }

  function Concat(parts: seq<string>): string {
    if parts == [] then "" else parts[0] + Concat(parts[1..])
  }

  /** `s` is `stem` followed by `markers`, and no marker is left on `stem`. */
  ghost predicate Reduces(marker: string -> bool, s: string, stem: string, markers: seq<string>) {
    Bare(marker, stem) && Markers(marker, markers) && s == stem + Concat(markers)
  }

  lemma {:induction false} ConcatAppend(ms: seq<string>, ns: seq<string>)
    ensures Concat(ms + ns) == Concat(ms) + Concat(ns)
  {
    if ms == [] {
      assert ms + ns == ns;
    } else {
      assert (ms + ns)[1..] == ms[1..] + ns;
      ConcatAppend(ms[1..], ns);
    }
  }

  lemma ConcatOne(m: string)
    ensures Concat([m]) == m
  {
    assert [m][1..] == [];
  }

  /** The last of some markers, and what is before it. */
  lemma SplitLast(marker: string -> bool, stem: string, ms: seq<string>)
    requires Markers(marker, ms) && ms != []
    ensures var t := stem + Concat(ms[..|ms| - 1]);
            var s := stem + Concat(ms);
            |t| <= |s| && s[..|t|] == t && s[|t|..] == ms[|ms| - 1] && marker(s[|t|..])
  {
    var m := ms[|ms| - 1];
    assert ms == ms[..|ms| - 1] + [m];
    ConcatAppend(ms[..|ms| - 1], [m]);
    ConcatOne(m);
    assert stem + Concat(ms) == (stem + Concat(ms[..|ms| - 1])) + m;
  }

  lemma BareHasNoLast(marker: string -> bool, a: string, b: string, ns: seq<string>)
    requires Unambiguous(marker) && Bare(marker, a) && Markers(marker, ns) && ns != []
    ensures a != b + Concat(ns)
  {
    SplitLast(marker, b, ns);
  }

  /** The normal form is unique: no order or choice of stripping ends anywhere else, or strips
      other markers. */
  lemma {:induction false} ReducesUnique(marker: string -> bool, s: string, a: string, ms: seq<string>, b: string, ns: seq<string>)
    requires Unambiguous(marker) && Reduces(marker, s, a, ms) && Reduces(marker, s, b, ns)
    ensures a == b && ms == ns
    decreases |ms| + |ns|
  {
    if ms == [] || ns == [] {
      assert a + "" == a && b + "" == b;
      if ns != [] { BareHasNoLast(marker, s, b, ns); }
      if ms != [] { BareHasNoLast(marker, s, a, ms); }
    } else {
      SplitLast(marker, a, ms);
      SplitLast(marker, b, ns);
      var i, j := |a + Concat(ms[..|ms| - 1])|, |b + Concat(ns[..|ns| - 1])|;
      assert i == j;
      ReducesUnique(marker, s[..i], a, ms[..|ms| - 1], b, ns[..|ns| - 1]);
      assert ms == ms[..|ms| - 1] + [s[i..]] && ns == ns[..|ns| - 1] + [s[i..]];
    }
  }

  /** Where the trailing marker of `s` starts, if it has one from `i` on. */
  function MarkerAt(marker: string -> bool, s: string, i: nat := 0): (k: nat)
    requires i <= |s|
    ensures i <= k <= |s| && (k < |s| ==> marker(s[k..]))
    ensures k == |s| ==> forall j :: i <= j < |s| ==> !marker(s[j..])
    decreases |s| - i
  {
    if i == |s| || marker(s[i..]) then i else MarkerAt(marker, s, i + 1)
  }

  function Normal(marker: string -> bool, s: string): (stem: string)
    ensures stem <= s && Bare(marker, stem)
    decreases |s|
  {
    var k := MarkerAt(marker, s);
    if k == |s| then s else Normal(marker, s[..k])
  }

  lemma NormalOfBare(marker: string -> bool, s: string)
    requires Bare(marker, s)
    ensures Normal(marker, s) == s
  {
    assert MarkerAt(marker, s) == |s|;
  }

  lemma {:induction false} NormalReduces(marker: string -> bool, s: string) returns (markers: seq<string>)
    ensures Reduces(marker, s, Normal(marker, s), markers)
    decreases |s|
  {
    var k := MarkerAt(marker, s);
    markers := [];
    if k < |s| {
      var rest := NormalReduces(marker, s[..k]);
      ConcatAppend(rest, [s[k..]]);
      ConcatOne(s[k..]);
      assert s == s[..k] + s[k..];
      markers := rest + [s[k..]];
    }
  }

  /** Appending markers to any string leaves its normal form. */
  lemma NormalIgnoresMarkers(marker: string -> bool, s: string, ms: seq<string>)
    requires Unambiguous(marker) && Markers(marker, ms)
    ensures Normal(marker, s + Concat(ms)) == Normal(marker, s)
  {
    var ks := NormalReduces(marker, s);
    ConcatAppend(ks, ms);
    assert s + Concat(ms) == Normal(marker, s) + Concat(ks + ms);
    var ls := NormalReduces(marker, s + Concat(ms));
    ReducesUnique(marker, s + Concat(ms), Normal(marker, s + Concat(ms)), ls, Normal(marker, s), ks + ms);
  }
}
