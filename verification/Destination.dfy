/** Choosing a destination name: the budgeted suffix sweep of ResolveDestination against
    "the first name that is free or already holds this file". */
module Destination {
  import opened FastHash
  import opened Storage

  /** One call's inputs on an unchanging file system, in which a file that cannot be opened counts
      as Special. `render` is the path template applied to a file name; `roots` may contain "" for
      an unset root. */
  datatype Problem = Problem(
    disk: Files,
    roots: seq<string>,
    render: string -> string,
    name: string,
    src: string,
    hashBudget: int)

  datatype Resolution = Resolution(relPath: string, suffix: string, alreadyIngested: bool)

  const COLLISION_SAMPLE_SIZE := 256 * 1024

  /** fullBytesPerIter and collisionBytesPerIter: two files, three windows each. */
  const FULL := SAMPLE_SIZE * 3 * 2
  const COLLISION := COLLISION_SAMPLE_SIZE * 3 * 2

  const MAX_SUFFIX := 10000

  function Join(root: string, rel: string): string {
    root + "/" + rel
  }

  function LastDot(s: string): (i: int)
    ensures -1 <= i < |s|
    ensures i >= 0 ==> s[i] == '.'
    ensures forall j :: i < j < |s| ==> s[j] != '.'
  {
    if s == [] then -1 else if s[|s| - 1] == '.' then |s| - 1 else LastDot(s[..|s| - 1])
  }

  /** splitBase: the name up to its last dot, if that is not its first character. */
  function WithoutExtension(name: string): (stem: string)
    ensures stem <= name
  {
    if LastDot(name) <= 0 then name else name[..LastDot(name)]
  }

  /** SuffixedFilename: the suffix goes before the extension. */
  function SuffixedFilename(original: string, suffix: string): string {
    var stem := WithoutExtension(original);
    if suffix == "" then original else stem + suffix + original[|stem|..]
  }

  /** A suffix goes between stem and extension: the stem grows by it, the extension stays. */
  lemma SuffixKeepsExtension(original: string, suffix: string)
    requires '.' !in suffix
    ensures var named := SuffixedFilename(original, suffix);
            && WithoutExtension(named) == WithoutExtension(original) + suffix
            && named[|WithoutExtension(named)|..] == original[|WithoutExtension(original)|..]
  {
    var stem := WithoutExtension(original);
    var ext := original[|stem|..];
    var named := SuffixedFilename(original, suffix);
    assert named == stem + suffix + ext;
    if LastDot(original) > 0 {
      assert forall j :: |stem| < j < |original| ==> original[j] != '.';
      assert forall j :: |stem + suffix| < j < |named| ==> named[j] == original[j - |suffix|];
      assert named[|stem + suffix|] == '.';
    } else {
      assert ext == "" && named == original + suffix;
      assert forall j :: |original| <= j < |named| ==> named[j] == suffix[j - |original|];
      assert LastDot(named) <= 0;
    }
  }

  /** The number a decimal numeral stands for. */
  function Value(numeral: string): int {
    if numeral == "" then 0 else 10 * Value(numeral[..|numeral| - 1]) + (numeral[|numeral| - 1] as int - '0' as int)
  }

  /** Counters are numbered in decimal, most significant digit first, without leading zeros. */
  lemma {:induction false} DecimalReadsBack(n: nat)
    ensures Decimal(n) != "" && Value(Decimal(n)) == n && '.' !in Decimal(n)
    ensures forall i :: 0 <= i < |Decimal(n)| ==> '0' <= Decimal(n)[i] <= '9'
    ensures n > 0 ==> Decimal(n)[0] != '0'
  {
    if n < 10 {
      assert Decimal(n)[..0] == "";
    } else {
      DecimalReadsBack(n / 10);
      var d := Decimal(n);
      assert d[..|d| - 1] == Decimal(n / 10);
    }
  }

  function Decimal(n: nat): string {
    if n < 10 then [('0' as int + n) as char] else Decimal(n / 10) + [('0' as int + n % 10) as char]
  }

  function Suffix(counter: nat): string {
    if counter <= 1 then "" else "_" + Decimal(counter)
  }

  function Named(p: Problem, suffix: string): string {
    p.render(SuffixedFilename(p.name, suffix))
  }

  function Candidate(p: Problem, counter: nat): string {
    Named(p, Suffix(counter))
  }

  // ----- what the sweep looks for -----

  /** Same size and same sampled hash. */
  predicate SameSample(disk: Files, a: string, b: string, sample: int)
    requires sample > 0
  {
    && a in disk && b in disk && disk[a].Regular? && disk[b].Regular?
    && |disk[a].content| == |disk[b].content|
    && XxHash64(SampledStream(disk[a].content, |disk[a].content|, sample)) ==
       XxHash64(SampledStream(disk[b].content, |disk[b].content|, sample))
  }

  /** Something is at the name under some root. */
  predicate Occupied(p: Problem, rel: string) {
    exists i :: 0 <= i < |p.roots| && p.roots[i] != "" && Join(p.roots[i], rel) in p.disk
  }

  /** The number of roots that are set. */
  function RootsIn(roots: seq<string>): nat {
    if roots == [] then 0 else RootsIn(roots[..|roots| - 1]) + (if roots[|roots| - 1] == "" then 0 else 1)
  }

  /** The first n roots, as far as they are set, hold the source file under the name. */
  predicate HeldIn(p: Problem, rel: string, sample: int, n: nat)
    requires sample > 0 && n <= |p.roots|
  {
    forall i :: 0 <= i < n && p.roots[i] != "" ==> SameSample(p.disk, p.src, Join(p.roots[i], rel), sample)
  }

  /** There is a root, and every root holds the source file under the name. */
  predicate HeldEverywhere(p: Problem, rel: string, sample: int)
    requires sample > 0
  {
    RootsIn(p.roots) > 0 && HeldIn(p, rel, sample, |p.roots|)
  }

  predicate Free(p: Problem, counter: nat) {
    !Occupied(p, Candidate(p, counter))
  }

  predicate Identical(p: Problem, counter: nat) {
    HeldEverywhere(p, Candidate(p, counter), if counter == 1 then SAMPLE_SIZE else COLLISION_SAMPLE_SIZE)
  }

  /** The budget spent before `counter` when every affordable comparison before it was made. */
  function SpentBefore(p: Problem, counter: nat): int {
    if counter <= 1 then 0
    else (if FULL <= p.hashBudget then FULL else 0) + (counter - 2) * COLLISION
  }

  predicate Affordable(p: Problem, counter: nat) {
    SpentBefore(p, counter) + (if counter == 1 then FULL else COLLISION) <= p.hashBudget
  }

  predicate InRange(counter: nat) {
    1 <= counter <= MAX_SUFFIX
  }

  /** The sweep stops at a counter it can afford to compare and that is free or identical. */
  predicate Settles(p: Problem, counter: nat) {
    InRange(counter) && Affordable(p, counter) && (Identical(p, counter) || Free(p, counter))
  }

  ghost predicate FirstSettled(p: Problem, counter: nat) {
    Settles(p, counter) && forall k :: 1 <= k < counter ==> !Settles(p, k)
  }

  ghost predicate FirstFree(p: Problem, counter: nat) {
    InRange(counter) && Free(p, counter) && forall k :: 1 <= k < counter ==> !Free(p, k)
  }

  /** findNextFreeSuffix's answer. */
  ghost predicate NextFree(p: Problem, res: Resolution) {
    || (exists c :: FirstFree(p, c) && res == Resolution(Candidate(p, c), Suffix(c), false))
    || ((forall c :: InRange(c) ==> !Free(p, c)) && res == Resolution(Candidate(p, 1), "", false))
  }

  /** The sweep's answer: the first counter that settles it, or else the first free one. */
  ghost predicate Swept(p: Problem, res: Resolution) {
    || (exists c :: FirstSettled(p, c) && res == Resolution(Candidate(p, c), Suffix(c), Identical(p, c)))
    || ((forall c :: !Settles(p, c)) && NextFree(p, res))
  }

  /** ResolveDestination's answer, with the suffix an earlier file of the same stem got, if any. */
  ghost predicate Answer(p: Problem, known: string, res: Resolution) {
    if known != "" && HeldEverywhere(p, Named(p, known), SAMPLE_SIZE) then
      res == Resolution(Named(p, known), known, true)
    else if known != "" && !Occupied(p, Named(p, known)) then
      res == Resolution(Named(p, known), known, false)
    else
      Swept(p, res)
  }

  // ----- the code -----

  /** The bytes three windows of a file of this size hold. */
  function WindowBytes(size: int, sample: int): (n: int)
    requires sample > 0
    ensures 0 <= n <= 3 * sample
  {
    var r := Regions(size, sample);
    (r[0].end - r[0].start) + (r[1].end - r[1].start) + (r[2].end - r[2].start)
  }

  /** filesMatch and collisionFilesMatch, with the bytes they sample. */
  method FilesMatch(disk: Files, src: string, dst: string, sample: int) returns (same: bool, bytes: int)
    requires sample > 0
    ensures same == SameSample(disk, src, dst, sample)
    ensures 0 <= bytes <= 3 * 2 * sample
  {
    same, bytes := false, 0;
    if src !in disk || dst !in disk { return; }
    var a, b := disk[src], disk[dst];
    var sizeA := if a.Regular? then |a.content| else a.size;
    var sizeB := if b.Regular? then |b.content| else b.size;
    if sizeA != sizeB || a.Special? { return; }
    bytes := WindowBytes(sizeA, sample);
    if b.Special? { return; }
    bytes := bytes + WindowBytes(sizeB, sample);
    same := XxHash64(SampledStream(a.content, sizeA, sample)) == XxHash64(SampledStream(b.content, sizeB, sample));
  }

  lemma {:induction false} RootsInPrefix(roots: seq<string>, i: nat)
    requires i <= |roots|
    ensures RootsIn(roots[..i]) <= RootsIn(roots)
    decreases |roots|
  {
    if i < |roots| {
      assert roots[..|roots| - 1][..i] == roots[..i];
      RootsInPrefix(roots[..|roots| - 1], i);
    } else {
      assert roots[..i] == roots;
    }
  }

  /** One more root. */
  lemma NextRoot(roots: seq<string>, i: nat, unit: int)
    requires i < |roots| && unit >= 0
    ensures RootsIn(roots[..i + 1]) == RootsIn(roots[..i]) + (if roots[i] == "" then 0 else 1)
    ensures PerRoot(RootsIn(roots[..i + 1]), unit) <= PerRoot(RootsIn(roots), unit)
  {
    assert roots[..i + 1][..i] == roots[..i];
    RootsInPrefix(roots, i + 1);
    PerRootMonotone(RootsIn(roots[..i + 1]), RootsIn(roots), unit);
  }

  /** `unit` bytes for each of n roots. */
  function PerRoot(n: nat, unit: int): int {
    if n == 0 then 0 else PerRoot(n - 1, unit) + unit
  }

  lemma {:induction false} PerRootMonotone(m: nat, n: nat, unit: int)
    requires m <= n && unit >= 0
    ensures PerRoot(m, unit) <= PerRoot(n, unit)
  {
    if m < n { PerRootMonotone(m, n - 1, unit); }
  }

  lemma {:induction false} PerRootAdds(n: nat, a: int, b: int)
    ensures PerRoot(n, a) + PerRoot(n, b) == PerRoot(n, a + b)
  {
    if n > 0 { PerRootAdds(n - 1, a, b); }
  }

  lemma {:induction false} PerRootIsProduct(n: nat, unit: int)
    ensures PerRoot(n, unit) == n * unit
  {
    if n > 0 { PerRootIsProduct(n - 1, unit); }
  }

  /** checkRoots and checkCollisionRoots, which differ in the sample size only. */
  method CheckRoots(p: Problem, rel: string, sample: int) returns (allExist: bool, allMatch: bool, bytes: int)
    requires sample > 0
    ensures (allExist && allMatch) == HeldEverywhere(p, rel, sample)
    ensures 0 <= bytes <= PerRoot(RootsIn(p.roots), 3 * 2 * sample)
  {
    var validRoots := 0;
    bytes := 0;
    for i := 0 to |p.roots|
      invariant validRoots == RootsIn(p.roots[..i])
      invariant 0 <= bytes <= PerRoot(validRoots, 3 * 2 * sample)
      invariant HeldIn(p, rel, sample, i)
    {
      var there, same, cost := CheckRoot(p, rel, sample, i);
      NextRoot(p.roots, i, 3 * 2 * sample);
      if p.roots[i] != "" { validRoots := validRoots + 1; }
      bytes := bytes + cost;
      if !there || !same { return there, false, bytes; }
    }
    assert p.roots[..|p.roots|] == p.roots;
    return validRoots > 0, true, bytes;
  }

  /** The comparison under one root; a root that is not set has nothing to compare. */
  method CheckRoot(p: Problem, rel: string, sample: int, i: nat) returns (there: bool, same: bool, bytes: int)
    requires sample > 0 && i < |p.roots|
    ensures there && same ==> HeldIn(p, rel, sample, i) ==> HeldIn(p, rel, sample, i + 1)
    ensures !(there && same) ==> !HeldEverywhere(p, rel, sample)
    ensures 0 <= bytes <= if p.roots[i] == "" then 0 else 3 * 2 * sample
  {
    if p.roots[i] == "" { return true, true, 0; }
    var path := Join(p.roots[i], rel);
    there := path in p.disk;
    if !there { return false, false, 0; }
    same, bytes := FilesMatch(p.disk, p.src, path, sample);
  }

  method AnyExists(p: Problem, rel: string) returns (any: bool)
    ensures any == Occupied(p, rel)
  {
    for i := 0 to |p.roots|
      invariant forall k :: 0 <= k < i && p.roots[k] != "" ==> Join(p.roots[k], rel) !in p.disk
    {
      if p.roots[i] != "" && Join(p.roots[i], rel) in p.disk { return true; }
    }
    return false;
  }

  method FindNextFreeSuffix(p: Problem) returns (res: Resolution)
    ensures NextFree(p, res)
  {
    for counter := 1 to MAX_SUFFIX + 1
      invariant forall k :: 1 <= k < counter ==> !Free(p, k)
    {
      var any := AnyExists(p, Candidate(p, counter));
      if !any {
        assert FirstFree(p, counter);
        return Resolution(Candidate(p, counter), Suffix(counter), false);
      }
    }
    return Resolution(Candidate(p, 1), "", false);
  }

  function CostOf(counter: nat): int {
    if counter == 1 then FULL else COLLISION
  }

  /** The comparison at one counter: the full sample for the unsuffixed name, the small one
      for the others. */
  method TryCounter(p: Problem, counter: nat) returns (same: bool, free: bool, bytes: int)
    requires InRange(counter)
    ensures same == Identical(p, counter)
    ensures !same ==> free == Free(p, counter)
    ensures 0 <= bytes <= PerRoot(RootsIn(p.roots), CostOf(counter))
  {
    var rel := Candidate(p, counter);
    var allExist, allMatch;
    if counter == 1 {
      allExist, allMatch, bytes := CheckRoots(p, rel, SAMPLE_SIZE);
    } else {
      allExist, allMatch, bytes := CheckRoots(p, rel, COLLISION_SAMPLE_SIZE);
    }
    if allExist && allMatch { return true, false, bytes; }
    var any := AnyExists(p, rel);
    return false, !any, bytes;
  }

  /** What the budget counter holds when the sweep reaches `counter`. */
  predicate BudgetAt(p: Problem, counter: nat, hashesDone: int) {
    && 0 <= hashesDone && (hashesDone == 0 || hashesDone <= p.hashBudget)
    && (hashesDone == SpentBefore(p, counter) ||
        (counter > 1 && SpentBefore(p, counter) + COLLISION > p.hashBudget && hashesDone + COLLISION > p.hashBudget))
  }

  lemma BudgetStep(p: Problem, counter: nat, hashesDone: int)
    requires InRange(counter) && BudgetAt(p, counter, hashesDone)
    ensures hashesDone + CostOf(counter) <= p.hashBudget <==> Affordable(p, counter)
    ensures BudgetAt(p, counter + 1, if Affordable(p, counter) then hashesDone + CostOf(counter) else hashesDone)
  {
  }

  ghost predicate NoneSettledBefore(p: Problem, counter: nat) {
    forall k :: 1 <= k < counter ==> !Settles(p, k)
  }

  lemma NotSettledHere(p: Problem, counter: nat)
    requires NoneSettledBefore(p, counter) && !Settles(p, counter)
    ensures NoneSettledBefore(p, counter + 1)
  {
  }

  lemma SettledHere(p: Problem, counter: nat, same: bool)
    requires NoneSettledBefore(p, counter) && Settles(p, counter) && same == Identical(p, counter)
    ensures Swept(p, Resolution(Candidate(p, counter), Suffix(counter), same))
  {
    assert FirstSettled(p, counter);
  }

  lemma NoneSettled(p: Problem, res: Resolution)
    requires NoneSettledBefore(p, MAX_SUFFIX + 1) && NextFree(p, res)
    ensures Swept(p, res)
  {
    assert forall c :: Settles(p, c) ==> InRange(c);
  }

  /** One round of the sweep: compared if the budget allows, and charged for it. */
  method Round(p: Problem, counter: nat, before: int) returns (settled: bool, same: bool, hashesDone: int, bytes: int)
    requires InRange(counter) && BudgetAt(p, counter, before)
    ensures settled == Settles(p, counter) && (settled ==> same == Identical(p, counter))
    ensures BudgetAt(p, counter + 1, hashesDone)
    ensures 0 <= bytes && PerRoot(RootsIn(p.roots), before) + bytes <= PerRoot(RootsIn(p.roots), hashesDone)
  {
    BudgetStep(p, counter, before);
    settled, same, hashesDone, bytes := false, false, before, 0;
    if before + CostOf(counter) <= p.hashBudget {
      var free;
      same, free, bytes := TryCounter(p, counter);
      PerRootAdds(RootsIn(p.roots), before, CostOf(counter));
      hashesDone := before + CostOf(counter);
      settled := same || free;
    }
  }

  /** The sweep over the counters. The budget counter stays within the budget, and every byte
      it is charged stands for at most one byte read per root. */
  method Sweep(p: Problem) returns (res: Resolution, hashesDone: int, sampled: int)
    ensures Swept(p, res)
    ensures 0 <= hashesDone && (hashesDone == 0 || hashesDone <= p.hashBudget)
    ensures 0 <= sampled <= PerRoot(RootsIn(p.roots), hashesDone)
  {
    hashesDone, sampled := 0, 0;
    PerRootMonotone(0, RootsIn(p.roots), 0);
    for counter := 1 to MAX_SUFFIX + 1
      invariant NoneSettledBefore(p, counter)
      invariant BudgetAt(p, counter, hashesDone)
      invariant 0 <= sampled <= PerRoot(RootsIn(p.roots), hashesDone)
    {
      var settled, same, bytes;
      settled, same, hashesDone, bytes := Round(p, counter, hashesDone);
      sampled := sampled + bytes;
      if settled {
        SettledHere(p, counter, same);
        return Resolution(Candidate(p, counter), Suffix(counter), same), hashesDone, sampled;
      }
      NotSettledHere(p, counter);
    }
    res := FindNextFreeSuffix(p);
    NoneSettled(p, res);
  }

  /** ResolveDestination, with the budget counter and the bytes the comparisons sampled. The
      known-suffix comparison is not charged. */
  method ResolveDestination(p: Problem, known: string) returns (res: Resolution, hashesDone: int, sampled: int)
    ensures Answer(p, known, res)
    ensures res.alreadyIngested ==>
              HeldEverywhere(p, res.relPath, SAMPLE_SIZE) || HeldEverywhere(p, res.relPath, COLLISION_SAMPLE_SIZE)
    ensures !res.alreadyIngested ==> !Occupied(p, res.relPath) || forall c :: InRange(c) ==> !Free(p, c)
    ensures 0 <= hashesDone && (hashesDone == 0 || hashesDone <= p.hashBudget)
    ensures 0 <= sampled <= RootsIn(p.roots) * (hashesDone + (if known == "" then 0 else FULL))
  {
    var extra := 0;
    if known != "" {
      var rel := Named(p, known);
      var allExist, allMatch, bytes := CheckRoots(p, rel, SAMPLE_SIZE);
      PerRootIsProduct(RootsIn(p.roots), FULL);
      if allExist && allMatch { return Resolution(rel, known, true), 0, bytes; }
      var any := AnyExists(p, rel);
      if !any { return Resolution(rel, known, false), 0, bytes; }
      extra := bytes;
    }
    res, hashesDone, sampled := Sweep(p);
    AnswerIsSafe(p, known, res);
    PerRootAdds(RootsIn(p.roots), hashesDone, FULL);
    PerRootIsProduct(RootsIn(p.roots), hashesDone);
    PerRootIsProduct(RootsIn(p.roots), hashesDone + FULL);
    sampled := sampled + extra;
  }

  // ----- what the answer is worth -----

  /** The answer never names somebody else's file: it is a name every root holds this file
      under, or a name free in every root, unless all candidates are taken. */
  lemma AnswerIsSafe(p: Problem, known: string, res: Resolution)
    requires Answer(p, known, res)
    ensures res.alreadyIngested ==>
              HeldEverywhere(p, res.relPath, SAMPLE_SIZE) || HeldEverywhere(p, res.relPath, COLLISION_SAMPLE_SIZE)
    ensures !res.alreadyIngested ==>
              !Occupied(p, res.relPath) ||
              (res == Resolution(Candidate(p, 1), "", false) && forall c :: InRange(c) ==> !Free(p, c))
  {
  }

  /** With a budget for the first comparison, or for none at all, every counter before an
      affordable one is affordable. */
  lemma AffordableDownward(p: Problem, c: nat, k: nat)
    requires p.hashBudget >= FULL || p.hashBudget < COLLISION
    requires 1 <= k <= c && Affordable(p, c)
    ensures Affordable(p, k)
  {
  }

  /** With a budget that covers the first full comparison (or none), a name not already
      holding the file is the least free one, even when the budget runs out mid-sweep. */
  lemma LeastFreeSuffix(p: Problem, res: Resolution, free: nat)
    requires p.hashBudget >= FULL || p.hashBudget < COLLISION
    requires Swept(p, res) && !res.alreadyIngested
    requires InRange(free) && Free(p, free)
    ensures exists c :: FirstFree(p, c) && res == Resolution(Candidate(p, c), Suffix(c), false)
  {
    if c: nat :| FirstSettled(p, c) && res == Resolution(Candidate(p, c), Suffix(c), Identical(p, c)) {
      forall k | 1 <= k < c ensures !Free(p, k) {
        AffordableDownward(p, c, k);
        assert !Settles(p, k);
      }
      assert FirstFree(p, c);
    }
  }

  /** With a budget for every counter, the sweep is the simple search for the first name that
      is free or already holds the file. */
  lemma AmpleBudget(p: Problem, res: Resolution, some: nat)
    requires p.hashBudget >= FULL + MAX_SUFFIX * COLLISION
    requires Swept(p, res)
    requires InRange(some) && (Free(p, some) || Identical(p, some))
    ensures exists c: nat :: InRange(c) && (Free(p, c) || Identical(p, c))
              && (forall k :: 1 <= k < c ==> !Free(p, k) && !Identical(p, k))
              && res == Resolution(Candidate(p, c), Suffix(c), Identical(p, c))
  {
    forall c | InRange(c) && (Free(p, c) || Identical(p, c)) ensures Settles(p, c) { AmpleIsAffordable(p, c); }
    var c: nat :| FirstSettled(p, c) && res == Resolution(Candidate(p, c), Suffix(c), Identical(p, c));
    forall k | 1 <= k < c ensures !Free(p, k) && !Identical(p, k) { assert !Settles(p, k); }
  }

  lemma AmpleIsAffordable(p: Problem, c: nat)
    requires p.hashBudget >= FULL + MAX_SUFFIX * COLLISION && InRange(c)
    ensures Affordable(p, c)
  {
  }

  ghost predicate LeastFreeForAll(hashBudget: int) {
    forall p: Problem, res: Resolution ::
      p.hashBudget == hashBudget && Swept(p, res) && !res.alreadyIngested && (exists c :: InRange(c) && Free(p, c)) ==>
        exists c :: FirstFree(p, c) && res == Resolution(Candidate(p, c), Suffix(c), false)
  }

  /** The empty disk: a budget between the two comparison costs skips the unsuffixed name. */
  lemma SkipsFreeName(p: Problem)
    requires COLLISION <= p.hashBudget < FULL
    requires p.disk == map[] && p.roots == ["r"]
    ensures Free(p, 1) && Swept(p, Resolution(Candidate(p, 2), Suffix(2), false)) && Suffix(2) != Suffix(1)
  {
    assert p.roots[0] != "";
    assert !Identical(p, 2);
    assert !Affordable(p, 1);
    assert FirstSettled(p, 2);
  }

  /** Exactly when the least free suffix is promised: for a budget that covers the first full
      comparison, or too small for any comparison. */
  lemma LeastFreeIff(hashBudget: int)
    ensures LeastFreeForAll(hashBudget) <==> (hashBudget >= FULL || hashBudget < COLLISION)
  {
    if hashBudget >= FULL || hashBudget < COLLISION {
      forall p: Problem, res: Resolution |
        p.hashBudget == hashBudget && Swept(p, res) && !res.alreadyIngested && (exists c :: InRange(c) && Free(p, c))
        ensures exists c :: FirstFree(p, c) && res == Resolution(Candidate(p, c), Suffix(c), false)
      {
        var free: nat :| InRange(free) && Free(p, free);
        LeastFreeSuffix(p, res, free);
      }
    } else {
      var p := Problem(map[], ["r"], x => x, "a", "s", hashBudget);
      SkipsFreeName(p);
      var res := Resolution(Candidate(p, 2), Suffix(2), false);
      assert InRange(1) && Free(p, 1);
      assert forall c :: FirstFree(p, c) ==> c == 1;
    }
  }
}
