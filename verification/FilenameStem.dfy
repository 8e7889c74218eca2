/** The filename stem: trailing duplicate-index and derivation-role markers are stripped one at
    a time until none is left. The loop of Analyze against the grammar of markers. */
module FilenameStem {
  import opened Destination
  import opened Stripping

  datatype SuffixKind = SuffixNone | SuffixIndex | SuffixRole

  // ----- the two marker patterns -----

  predicate Digits(s: string) {
    forall i :: 0 <= i < |s| ==> '0' <= s[i] <= '9'
  }

  /** `c` matches the pattern letter `p` under (?i). */
  predicate Folds(c: char, p: char) {
    c == p || ('a' <= p <= 'z' && c as int == p as int - 32)
  }

  predicate Spells(s: string, word: string) {
    |s| == |word| && forall i :: 0 <= i < |s| ==> Folds(s[i], word[i])
  }

  /** -\d{1,2} or \(\d+\) */
  predicate IndexMarker(m: string) {
    || (2 <= |m| <= 3 && m[0] == '-' && Digits(m[1..]))
    || (3 <= |m| && m[0] == '(' && m[|m| - 1] == ')' && Digits(m[1..|m| - 1]))
  }

  /** _edit, _proxy, _v\d+ or " copy", in any case. */
  predicate RoleMarker(m: string) {
    || Spells(m, "_edit") || Spells(m, "_proxy") || Spells(m, " copy")
    || (3 <= |m| && Spells(m[..2], "_v") && Digits(m[2..]))
  }

  predicate Marker(m: string) {
    IndexMarker(m) || RoleMarker(m)
  }

  /** The characters a marker can start with, and those it can continue with. */
  predicate Opens(c: char) { c == '-' || c == '(' || c == '_' || c == ' ' }

  lemma MarkerShape(m: string)
    requires Marker(m)
    ensures |m| >= 2 && Opens(m[0]) && !Space(m[|m| - 1])
    ensures forall i :: 1 <= i < |m| ==> !Opens(m[i])
  {
    assert m[1..] == m[1..|m|];
    if IndexMarker(m) {
      forall i | 1 <= i < |m| ensures !Opens(m[i]) {
        if m[0] == '-' { assert m[i] == m[1..][i - 1]; }
        else if i < |m| - 1 { assert m[i] == m[1..|m| - 1][i - 1]; }
      }
    } else if 3 <= |m| && Spells(m[..2], "_v") && Digits(m[2..]) {
      assert m[0] == m[..2][0] && m[1] == m[..2][1];
      forall i | 1 <= i < |m| ensures !Opens(m[i]) {
        if i >= 2 { assert m[i] == m[2..][i - 2]; }
      }
    }
  }

  /** At most one trailing part of a string is a marker, and it is of one kind: whichever rule
      is tried first, a step strips the same characters. */
  lemma OneMarker(s: string, i: nat, j: nat)
    requires i <= |s| && j <= |s| && Marker(s[i..]) && Marker(s[j..])
    ensures i == j && !(IndexMarker(s[i..]) && RoleMarker(s[i..]))
  {
    MarkerShape(s[i..]);
    MarkerShape(s[j..]);
  }

  lemma MarkersAreUnambiguous()
    ensures Unambiguous(Marker)
  {
    forall s: string, i: nat, j: nat | i <= |s| && j <= |s| && Marker(s[i..]) && Marker(s[j..]) ensures i == j {
      OneMarker(s, i, j);
    }
  }

  // ----- stripping to the normal form -----

  /** ReplaceAllString(s, "") for one of the two patterns: both are anchored at the end, so
      there is at most one match, found leftmost first. */
  function Replaced(s: string, index: bool, i: nat := 0): (t: string)
    requires i <= |s|
    ensures t == s || (i <= |t| < |s| && t == s[..|t|] && (if index then IndexMarker(s[|t|..]) else RoleMarker(s[|t|..])))
    ensures t == s ==> forall k :: i <= k < |s| ==> !(if index then IndexMarker(s[k..]) else RoleMarker(s[k..]))
    decreases |s| - i
  {
    if i == |s| then s
    else if (if index then IndexMarker(s[i..]) else RoleMarker(s[i..])) then s[..i]
    else Replaced(s, index, i + 1)
  }

  /** Index ambiguity dominates role ambiguity, wherever the markers stand. */
  ghost function KindOf(markers: seq<string>): SuffixKind {
    if exists i :: 0 <= i < |markers| && IndexMarker(markers[i]) then SuffixIndex
    else if markers == [] then SuffixNone
    else SuffixRole
  }

  /** strings.TrimSpace: Unicode's White_Space. */
  predicate Space(c: char) {
    || '\t' <= c <= '\r' || c == ' ' || c == '\U{85}' || c == '\U{A0}' || c == '\U{1680}'
    || '\U{2000}' <= c <= '\U{200A}' || c == '\U{2028}' || c == '\U{2029}' || c == '\U{202F}'
    || c == '\U{205F}' || c == '\U{3000}'
  }

  function TrimLeft(s: string): (t: string)
    ensures t != "" ==> !Space(t[0])
  {
    if s != "" && Space(s[0]) then TrimLeft(s[1..]) else s
  }

  function TrimRight(s: string): (t: string)
    ensures t <= s && (t != "" ==> !Space(t[|t| - 1]))
  {
    if s != "" && Space(s[|s| - 1]) then TrimRight(s[..|s| - 1]) else s
  }

  function Lower(s: string, lower: char -> char): (t: string)
    ensures |t| == |s| && forall i :: 0 <= i < |s| ==> t[i] == lower(s[i])
  {
    seq(|s|, i requires 0 <= i < |s| => lower(s[i]))
  }

  function Prepared(base: string, lower: char -> char): string {
    Lower(TrimRight(TrimLeft(base)), lower)
  }

  /** Analyze, for any per-character lower-casing. */
  method Analyze(fileName: string, lower: char -> char) returns (stem: string, kind: SuffixKind)
    ensures exists markers :: Reduces(Marker, Prepared(WithoutExtension(fileName), lower), stem, markers) && kind == KindOf(markers)
  {
    stem := Prepared(WithoutExtension(fileName), lower);
    ghost var start, markers := stem, [];
    kind := SuffixNone;
    while true
      invariant Leaves(start, stem, markers, kind)
      invariant start == Prepared(WithoutExtension(fileName), lower)
      decreases |stem|
    {
      var stripped := Replaced(stem, true);
      if stripped != stem {
        markers := StripOne(start, stem, stripped, markers, kind);
        stem, kind := stripped, SuffixIndex;
        continue;
      }
      stripped := Replaced(stem, false);
      if stripped != stem {
        markers := StripOne(start, stem, stripped, markers, kind);
        stem := stripped;
        if kind == SuffixNone { kind := SuffixRole; }
        continue;
      }
      break;
    }
    assert Reduces(Marker, start, stem, markers);
  }

  /** What Analyze's loop keeps: what it started from is `stem` and the markers stripped. */
  ghost predicate Leaves(start: string, stem: string, markers: seq<string>, kind: SuffixKind) {
    Markers(Marker, markers) && start == stem + Concat(markers) && kind == KindOf(markers)
  }

  lemma StripOne(start: string, stem: string, stripped: string, markers: seq<string>, kind: SuffixKind) returns (more: seq<string>)
    requires Leaves(start, stem, markers, kind)
    requires stripped < stem && Marker(stem[|stripped|..])
    ensures IndexMarker(stem[|stripped|..]) ==> Leaves(start, stripped, more, SuffixIndex)
    ensures RoleMarker(stem[|stripped|..]) ==> Leaves(start, stripped, more, if kind == SuffixNone then SuffixRole else kind)
  {
    var m := stem[|stripped|..];
    more := [m] + markers;
    OneMarker(stem, |stripped|, |stripped|);
    KindGrows(m, markers);
    assert stem == stripped + m;
    assert start == stripped + (m + Concat(markers));
  }

  lemma KindGrows(m: string, markers: seq<string>)
    requires Marker(m)
    ensures KindOf([m] + markers) == if IndexMarker(m) then SuffixIndex else if KindOf(markers) == SuffixNone then SuffixRole else KindOf(markers)
    ensures [m] + markers != [] && ([m] + markers)[1..] == markers
  {
    var all := [m] + markers;
    assert all[0] == m;
    assert forall i :: 0 <= i < |markers| ==> all[i + 1] == markers[i];
    assert forall i :: 1 <= i < |all| ==> all[i] == markers[i - 1];
  }

  // ----- appending markers -----

  /** No marker ends in a space. */
  lemma BareBeforeSpace(s: string)
    requires s != "" && Space(s[|s| - 1])
    ensures Normal(Marker, s) == s
  {
    assert Bare(Marker, s) by {
      forall i | 0 <= i < |s| ensures !Marker(s[i..]) {
        if Marker(s[i..]) { MarkerShape(s[i..]); }
      }
    }
    NormalOfBare(Marker, s);
  }

  lemma CopyIsBare()
    ensures Normal(Marker, "copy") == "copy"
  {
    var s := "copy";
    assert Bare(Marker, s) by {
      forall i | 0 <= i < |s| ensures !Marker(s[i..]) {
        if Marker(s[i..]) {
          MarkerShape(s[i..]);
        }
      }
    }
    NormalOfBare(Marker, s);
  }

  /** What unicode.ToLower promises of the characters that matter here. */
  ghost predicate Lowers(lower: char -> char) {
    && (forall c: char :: 'A' <= c <= 'Z' ==> lower(c) as int == c as int + 32)
    && (forall c: char :: c < '\U{80}' && !('A' <= c <= 'Z') ==> lower(c) == c)
    && (forall c: char :: Space(c) ==> Space(lower(c)))
  }

  lemma LowerFolds(c: char, p: char, lower: char -> char)
    requires Lowers(lower) && p < '\U{80}' && !('A' <= p <= 'Z') && Folds(c, p)
    ensures lower(c) == p
  {
  }

  lemma LowerSpells(m: string, word: string, lower: char -> char)
    requires Lowers(lower) && Spells(m, word)
    requires forall i :: 0 <= i < |word| ==> word[i] < '\U{80}' && !('A' <= word[i] <= 'Z')
    ensures Lower(m, lower) == word
  {
    forall i | 0 <= i < |m| ensures lower(m[i]) == word[i] { LowerFolds(m[i], word[i], lower); }
  }

  lemma LowerDigits(m: string, lower: char -> char)
    requires Lowers(lower) && Digits(m)
    ensures Lower(m, lower) == m
  {
  }

  lemma LowerParts(a: string, b: string, lower: char -> char)
    ensures Lower(a + b, lower) == Lower(a, lower) + Lower(b, lower)
  {
  }

  lemma LowerIndexMarker(m: string, lower: char -> char)
    requires Lowers(lower) && IndexMarker(m)
    ensures Lower(m, lower) == m
  {
    forall i | 0 <= i < |m| ensures lower(m[i]) == m[i] {
      if 2 <= |m| <= 3 && m[0] == '-' && Digits(m[1..]) {
        if i > 0 { assert m[i] == m[1..][i - 1]; }
      } else if 0 < i < |m| - 1 {
        assert m[i] == m[1..|m| - 1][i - 1];
      }
    }
  }

  lemma LowerRoleMarker(m: string, lower: char -> char)
    requires Lowers(lower) && RoleMarker(m)
    ensures RoleMarker(Lower(m, lower))
  {
    if Spells(m, "_edit") { LowerSpells(m, "_edit", lower); }
    else if Spells(m, "_proxy") { LowerSpells(m, "_proxy", lower); }
    else if Spells(m, " copy") { LowerSpells(m, " copy", lower); }
    else {
      LowerSpells(m[..2], "_v", lower);
      LowerDigits(m[2..], lower);
      LowerParts(m[..2], m[2..], lower);
      assert m == m[..2] + m[2..];
      assert Lower(m, lower)[..2] == "_v" && Lower(m, lower)[2..] == m[2..];
    }
  }

  lemma {:induction false} LowerMarkers(ms: seq<string>, lower: char -> char) returns (ns: seq<string>)
    requires Lowers(lower) && Markers(Marker, ms)
    ensures Markers(Marker, ns) && Lower(Concat(ms), lower) == Concat(ns)
  {
    ns := [];
    if ms != [] {
      var rest := LowerMarkers(ms[1..], lower);
      var m := Lower(ms[0], lower);
      if IndexMarker(ms[0]) { LowerIndexMarker(ms[0], lower); } else { LowerRoleMarker(ms[0], lower); }
      LowerParts(ms[0], Concat(ms[1..]), lower);
      ns := [m] + rest;
      assert ns[1..] == rest;
    }
  }

  lemma {:induction false} ConcatEnds(ms: seq<string>)
    requires Markers(Marker, ms) && ms != []
    ensures Concat(ms) != "" && Concat(ms)[0] == ms[0][0] && !Space(Concat(ms)[|Concat(ms)| - 1])
  {
    MarkerShape(ms[0]);
    if |ms| > 1 { ConcatEnds(ms[1..]); } else { assert Concat(ms[1..]) == ""; }
  }

  predicate Blank(s: string) {
    forall i :: 0 <= i < |s| ==> Space(s[i])
  }

  lemma {:induction false} TrimLeftAppend(x: string, c: string)
    ensures TrimLeft(x + c) == if Blank(x) then TrimLeft(c) else TrimLeft(x) + c
    ensures Blank(x) <==> TrimLeft(x) == ""
    ensures !Blank(x) ==> TrimLeft(x)[|TrimLeft(x)| - 1] == x[|x| - 1]
  {
    if x == "" {
      assert x + c == c;
    } else if Space(x[0]) {
      assert (x + c)[1..] == x[1..] + c;
      TrimLeftAppend(x[1..], c);
      assert Blank(x[1..]) ==> Blank(x) by { assert forall i :: 1 <= i < |x| ==> x[i] == x[1..][i - 1]; }
    }
  }

  /** Exactly when appending markers to a name leaves its stem: never mind what the name is,
      it must not end in a space, and " copy" must not be all there is to name. */
  ghost predicate MarkersFallAway(x: string, ms: seq<string>) {
    ms == [] || if Blank(x) then !Spells(ms[0], " copy") else !Space(x[|x| - 1])
  }

  lemma NothingToTrim(s: string)
    requires s == "" || !Space(s[|s| - 1])
    ensures TrimRight(s) == s
  {
  }

  lemma PreparedName(x: string, c: string, lower: char -> char)
    requires !Blank(x) && c != "" && !Space(c[|c| - 1])
    ensures Prepared(x + c, lower) == Lower(TrimLeft(x) + c, lower)
  {
    TrimLeftAppend(x, c);
    NothingToTrim(TrimLeft(x) + c);
  }

  lemma PreparedAlone(x: string, lower: char -> char)
    requires !Blank(x) && !Space(x[|x| - 1])
    ensures Prepared(x, lower) == Lower(TrimLeft(x), lower)
  {
    TrimLeftAppend(x, "");
    NothingToTrim(TrimLeft(x));
  }

  /** A name that ends in a space keeps it, before a marker. */
  lemma AfterSpace(t: string, lower: char -> char)
    requires Lowers(lower) && t != "" && Space(t[|t| - 1])
    ensures |Normal(Marker, Lower(t, lower))| == |t|
  {
    BareBeforeSpace(Lower(t, lower));
  }

  lemma NameKept(x: string, ms: seq<string>, lower: char -> char)
    requires Lowers(lower) && Markers(Marker, ms) && ms != [] && !Blank(x) && !Space(x[|x| - 1])
    ensures Normal(Marker, Prepared(x + Concat(ms), lower)) == Normal(Marker, Prepared(x, lower))
  {
    ConcatEnds(ms);
    PreparedName(x, Concat(ms), lower);
    PreparedAlone(x, lower);
    NormalLowered(TrimLeft(x), ms, lower);
  }

  lemma TrimmedIsShort(x: string, lower: char -> char)
    requires !Blank(x) && Space(x[|x| - 1])
    ensures |Normal(Marker, Prepared(x, lower))| < |TrimLeft(x)|
  {
    TrimLeftAppend(x, "");
    assert Prepared(x, lower) == Lower(TrimRight(TrimLeft(x)), lower);
  }

  lemma SpaceIsKept(x: string, ms: seq<string>, lower: char -> char)
    requires Lowers(lower) && Markers(Marker, ms) && ms != [] && !Blank(x) && Space(x[|x| - 1])
    ensures |Normal(Marker, Prepared(x + Concat(ms), lower))| == |TrimLeft(x)|
  {
    ConcatEnds(ms);
    PreparedName(x, Concat(ms), lower);
    var t := TrimLeft(x);
    NormalLowered(t, ms, lower);
    assert t != "" && Space(t[|t| - 1]) by { TrimLeftAppend(x, ""); }
    AfterSpace(t, lower);
  }

  lemma PreparedBlank(x: string, c: string, lower: char -> char)
    requires Blank(x) && c != "" && !Space(c[0]) && !Space(c[|c| - 1])
    ensures Prepared(x + c, lower) == Lower(c, lower)
  {
    TrimLeftAppend(x, c);
  }

  lemma CopyIsLowered(m: string, lower: char -> char)
    requires Lowers(lower) && Spells(m, " copy")
    ensures m[0] == ' ' && !Space(m[1]) && Lower(m[1..], lower) == "copy"
  {
    LowerSpells(m, " copy", lower);
    assert Lower(m[1..], lower) == Lower(m, lower)[1..] == "copy";
  }

  /** " copy" alone is trimmed to a name of its own. */
  lemma CopyIsAName(x: string, ms: seq<string>, lower: char -> char)
    requires Lowers(lower) && Markers(Marker, ms) && ms != [] && Blank(x) && Spells(ms[0], " copy")
    ensures Normal(Marker, Prepared(x + Concat(ms), lower)) == "copy"
  {
    var word := ms[0][1..] + Concat(ms[1..]);
    CopyIsLowered(ms[0], lower);
    FirstSpace(x, ms);
    PreparedBlank(x + " ", word, lower);
    NormalLowered(ms[0][1..], ms[1..], lower);
    CopyIsBare();
  }

  lemma FirstSpace(x: string, ms: seq<string>)
    requires Markers(Marker, ms) && ms != [] && ms[0] != "" && ms[0][0] == ' '
    ensures var word := ms[0][1..] + Concat(ms[1..]);
            && x + Concat(ms) == (x + " ") + word
            && word != "" && word[0] == ms[0][1] && !Space(word[|word| - 1])
  {
    MarkerShape(ms[0]);
    ConcatEnds(ms);
    MoveSpace(x, ms[0], Concat(ms[1..]));
  }

  lemma MoveSpace(x: string, m: string, rest: string)
    requires |m| >= 2 && m[0] == ' '
    ensures x + (m + rest) == (x + " ") + (m[1..] + rest)
    ensures (m + rest)[|m + rest| - 1] == (m[1..] + rest)[|m[1..] + rest| - 1]
  {
    assert m == " " + m[1..];
  }

  lemma NormalLowered(s: string, ms: seq<string>, lower: char -> char)
    requires Lowers(lower) && Markers(Marker, ms)
    ensures Normal(Marker, Lower(s + Concat(ms), lower)) == Normal(Marker, Lower(s, lower))
  {
    var ns := LowerMarkers(ms, lower);
    LowerParts(s, Concat(ms), lower);
    MarkersAreUnambiguous();
    NormalIgnoresMarkers(Marker, Lower(s, lower), ns);
  }

  lemma MarkersAlone(x: string, ms: seq<string>, lower: char -> char)
    requires Lowers(lower) && Markers(Marker, ms) && ms != [] && Blank(x) && !Spells(ms[0], " copy")
    ensures Normal(Marker, Prepared(x + Concat(ms), lower)) == ""
  {
    ConcatEnds(ms);
    MarkerStart(ms[0]);
    PreparedBlank(x, Concat(ms), lower);
    NormalLowered("", ms, lower);
    assert "" + Concat(ms) == Concat(ms);
  }

  lemma MarkerStart(m: string)
    requires Marker(m) && !Spells(m, " copy")
    ensures !Space(m[0])
  {
    if !IndexMarker(m) && 3 <= |m| && Spells(m[..2], "_v") { assert m[0] == m[..2][0]; }
  }

  /** Any markers after any name: the stem is the name's own if and only if they fall away. */
  lemma StemIgnoresMarkersIff(x: string, ms: seq<string>, lower: char -> char)
    requires Lowers(lower) && Markers(Marker, ms)
    ensures Normal(Marker, Prepared(x + Concat(ms), lower)) == Normal(Marker, Prepared(x, lower)) <==> MarkersFallAway(x, ms)
  {
    if ms == [] { assert x + Concat(ms) == x; }
    else if Blank(x) {
      TrimLeftAppend(x, "");
      assert Prepared(x, lower) == "";
      if Spells(ms[0], " copy") { CopyIsAName(x, ms, lower); } else { MarkersAlone(x, ms, lower); }
    }
    else if Space(x[|x| - 1]) {
      TrimmedIsShort(x, lower);
      SpaceIsKept(x, ms, lower);
    }
    else { NameKept(x, ms, lower); }
  }

  /** What Stem returns for a name with an extension. */
  lemma ExtensionIsDropped(base: string, ext: string)
    requires base != "" && '.' !in ext
    ensures WithoutExtension(base + "." + ext) == base
  {
    var name := base + "." + ext;
    assert name[|base|] == '.';
    assert forall j :: |base| < j < |name| ==> name[j] == ext[j - |base| - 1];
  }

  /** Every derivative of a name, with any markers in any order and case and any extension, is
      analyzed to the stem of the name itself. */
  lemma DerivativesShareStem(x: string, ms: seq<string>, ext: string, lower: char -> char, stem: string, markers: seq<string>)
    requires Lowers(lower) && Markers(Marker, ms) && '.' !in ext
    requires x != "" && !Space(x[0]) && !Space(x[|x| - 1])
    requires Reduces(Marker, Prepared(WithoutExtension(x + Concat(ms) + "." + ext), lower), stem, markers)
    ensures stem == Normal(Marker, Lower(x, lower))
  {
    ExtensionIsDropped(x + Concat(ms), ext);
    IsNormal(Prepared(x + Concat(ms), lower), stem, markers);
    StemIgnoresMarkersIff(x, ms, lower);
    AlreadyTrimmed(x, lower);
  }

  /** Whatever stripping ends at is the normal form. */
  lemma IsNormal(s: string, stem: string, markers: seq<string>)
    requires Reduces(Marker, s, stem, markers)
    ensures stem == Normal(Marker, s)
  {
    MarkersAreUnambiguous();
    var ks := NormalReduces(Marker, s);
    ReducesUnique(Marker, s, stem, markers, Normal(Marker, s), ks);
  }

  lemma AlreadyTrimmed(x: string, lower: char -> char)
    requires x != "" && !Space(x[0]) && !Space(x[|x| - 1])
    ensures !Blank(x) && Prepared(x, lower) == Lower(x, lower)
  {
    NothingToTrim(x);
  }

  /** A hyphen and three or more digits are a camera's own numbering, not a duplicate index: nothing
      is stripped from such a name. */
  lemma CameraNumbersStay(x: string, digits: string)
    requires |digits| >= 3 && Digits(digits)
    ensures Normal(Marker, x + "-" + digits) == x + "-" + digits
  {
    var s := x + "-" + digits;
    forall i | 0 <= i < |s| ensures !Marker(s[i..]) {
      if Marker(s[i..]) {
        MarkerShape(s[i..]);
        EndsInDigits(s, |x|, i);
      }
    }
    NormalOfBare(Marker, s);
  }

  /** What opens a marker before a hyphen and only digits is that hyphen, and then too many. */
  lemma EndsInDigits(s: string, hyphen: nat, i: nat)
    requires hyphen + 3 < |s| && s[hyphen] == '-' && i < |s|
    requires forall j :: hyphen < j < |s| ==> '0' <= s[j] <= '9'
    requires Opens(s[i]) && forall j :: i < j < |s| ==> !Opens(s[j])
    ensures !Marker(s[i..])
  {
    assert i == hyphen;
    var m := s[i..];
    assert |m| > 3 && m[0] == '-';
    assert m[0] == m[..2][0];
  }
}
