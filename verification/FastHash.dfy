/** The sampled fingerprint: an xxHash64 over the first, middle and last windows of a file
    and its size, read either at random (FastHash) or in one forward pass
    (StreamingFastHasher). xxHash64 itself is left uninterpreted: only the bytes fed to it
    matter here. */
module FastHash {
  import opened Wrappers

  newtype uint8 = x: int | 0 <= x < 256

  type Bytes = seq<uint8>

  type Digest = nat

  const XxHash64: Bytes -> Digest

  /** FastHashSampleSize: 2 MiB per window. */
  const SAMPLE_SIZE := 2 * 1024 * 1024

  /** The half-open window [start, end). */
  datatype Region = Region(start: int, end: int)

  function Clamp(v: int, size: int): int {
    if v < 0 then 0 else if v > size then size else v
  }

  /** sampleRegionsFor: the first, middle and last window. Every window lies inside the file
      and fits a buffer of `sample` bytes. */
  function Regions(size: int, sample: int): (regions: seq<Region>)
    requires sample > 0
    ensures |regions| == 3
    ensures forall i :: 0 <= i < 3 ==>
              && 0 <= regions[i].start <= regions[i].end
              && regions[i].end <= Clamp(size, size)
              && regions[i].end - regions[i].start <= sample
    ensures regions[0].start == 0 && regions[2].end == Clamp(size, size)
  {
    if size <= 0 then [Region(0, 0), Region(0, 0), Region(0, 0)]
    else
      var middleStart := Clamp(size / 2 - sample / 2, size);
      var lastStart := Clamp(size - sample, size);
      [Region(0, Clamp(sample, size)), Region(middleStart, Clamp(middleStart + sample, size)), Region(lastStart, size)]
  }

  /** The big-endian encoding of n in `width` bytes, wrapping modulo 256^width. */
  function BigEndian(n: int, width: nat): (b: Bytes)
    ensures |b| == width
    decreases width
  {
    if width == 0 then [] else BigEndian(n / 256, width - 1) + [(n % 256) as uint8]
  }

  /** The bytes FastHash feeds to the hash for a file whose first `size` bytes are `content`. */
  function SampledStream(content: Bytes, size: int, sample: int): Bytes
    requires sample > 0 && size <= |content|
  {
    var r := Regions(size, sample);
    content[r[0].start..r[0].end] + content[r[1].start..r[1].end] + content[r[2].start..r[2].end] + BigEndian(size, 8)
  }

  /** The fingerprint of a whole file. */
  function Fingerprint(content: Bytes): Digest {
    XxHash64(SampledStream(content, |content|, SAMPLE_SIZE))
  }

  // ----- where the bytes fed to the hash come from -----

  function Pow256(k: nat): (p: nat)
    ensures p > 0
  {
    if k == 0 then 1 else 256 * Pow256(k - 1)
  }

  /** Where the windows are. A file shorter than the sample is read whole, three times over. In any
      other file every window is a full sample: the first starts the file, the last ends it, and
      the middle one leaves equally much on both sides, or where that cannot be, one byte more
      before it in a file of even size and one byte more after it in one of odd size. */
  lemma WindowsPlaced(size: int, sample: int)
    requires sample > 0 && size > 0
    ensures var r := Regions(size, sample);
            if size < sample then r == [Region(0, size), Region(0, size), Region(0, size)]
            else
              && (forall i :: 0 <= i < 3 ==> r[i].end - r[i].start == sample)
              && r[0].start == 0 && r[2].end == size
              && r[1].start - (size - r[1].end) == if size % 2 == sample % 2 then 0 else if size % 2 == 0 then 1 else -1
  {
    assert size == 2 * (size / 2) + size % 2 && sample == 2 * (sample / 2) + sample % 2;
  }

  /** The i-th of the size bytes is the i-th most significant one. */
  lemma {:induction false} BigEndianDigit(n: int, width: nat, i: nat)
    requires n >= 0 && i < width
    ensures BigEndian(n, width)[i] as int == (n / Pow256(width - 1 - i)) % 256
    decreases width
  {
    if i < width - 1 {
      BigEndianDigit(n / 256, width - 1, i);
      DivideTwice(n, Pow256(width - 2 - i));
    }
  }

  lemma DivideTwice(n: int, d: int)
    requires n >= 0 && d > 0
    ensures (n / 256) / d == n / (256 * d)
  {
    var q := (n / 256) / d;
    var r := (n / 256) % d;
    assert n / 256 == q * d + r;
    assert n == 256 * (q * d + r) + n % 256;
    assert n == q * (256 * d) + (256 * r + n % 256) by {
      assert 256 * (q * d) == q * (256 * d);
    }
    assert 0 <= 256 * r + n % 256 < 256 * d;
    Quotient(n, 256 * d, q, 256 * r + n % 256);
  }

  lemma Quotient(n: int, d: int, q: int, r: int)
    requires d > 0 && n == q * d + r && 0 <= r < d
    ensures n / d == q
  {
    var diff := n / d - q;
    assert n == (n / d) * d + n % d;
    assert diff * d == r - n % d by {
      assert (n / d - q) * d == (n / d) * d - q * d;
    }
    assert diff >= 1 ==> diff * d >= d;
    assert diff <= -1 ==> diff * d <= -d;
  }

  // ----- the random-access form -----

  /** FastHashWithSampleSize over a reader of `content`. `faulty` says whether a read may fail
      for reasons of its own; a read past the end always does. */
  method FastHashWithSampleSize(content: Bytes, size: int, sampleSize: int, faulty: bool) returns (res: Result<Digest>)
    ensures var sample := if sampleSize <= 0 then SAMPLE_SIZE else sampleSize;
            && (res.Ok? ==> size <= |content| && res.value == XxHash64(SampledStream(content, size, sample)))
            && (res.Err? ==> faulty || size > |content|)
  {
    var sample := if sampleSize <= 0 then SAMPLE_SIZE else sampleSize;
    var regions := Regions(size, sample);
    var fed: Bytes := [];
    for i := 0 to 3
      invariant i > 0 ==> regions[0].end <= |content|
      invariant i > 1 ==> regions[1].end <= |content|
      invariant i > 2 ==> regions[2].end <= |content|
      invariant i == 0 ==> fed == []
      invariant i == 1 ==> fed == content[regions[0].start..regions[0].end]
      invariant i == 2 ==> fed == content[regions[0].start..regions[0].end] + content[regions[1].start..regions[1].end]
      invariant i == 3 ==>
                  fed == content[regions[0].start..regions[0].end] + content[regions[1].start..regions[1].end]
                         + content[regions[2].start..regions[2].end]
    {
      var reg := regions[i];
      if reg.end - reg.start == 0 { continue; }
      var fault: bool := *;
      if reg.end > |content| || (faulty && fault) { return Err; }
      fed := fed + content[reg.start..reg.end];
    }
    res := Ok(XxHash64(fed + BigEndian(size, 8)));
  }

  // ----- the streaming form -----

  /** What a window of a stream holds so far; bytes not yet seen are zero. */
  function Captured(fed: Bytes, r: Region): (window: Bytes)
    requires 0 <= r.start <= r.end
    ensures |window| == r.end - r.start
  {
    seq(r.end - r.start, j requires 0 <= j => if r.start + j < |fed| then fed[r.start + j] else 0)
  }

  /** A stream cut or zero-padded to `size` bytes. */
  function Fit(fed: Bytes, size: nat): (whole: Bytes)
    ensures |whole| == size
    ensures |fed| == size ==> whole == fed
  {
    if size <= |fed| then fed[..size] else fed + seq(size - |fed|, _ => 0)
  }

  lemma CapturedIsSlice(fed: Bytes, size: int, r: Region)
    requires 0 <= r.start <= r.end <= Clamp(size, size)
    ensures Captured(fed, r) == Fit(fed, Clamp(size, size))[r.start..r.end]
  {
  }

  class StreamingFastHasher {
    const size: int
    const regions: seq<Region>
    const bufs: seq<array<uint8>>
    var off: int
    /** Everything written so far. */
    ghost var fed: Bytes

    ghost predicate WellFormed()
    {
      && regions == Regions(size, SAMPLE_SIZE)
      && |bufs| == 3 && bufs[0] != bufs[1] && bufs[1] != bufs[2] && bufs[0] != bufs[2]
      && forall i :: 0 <= i < 3 ==> bufs[i].Length == regions[i].end - regions[i].start
    }

    ghost predicate Valid()
      reads this, bufs
    {
      && WellFormed()
      && off == |fed|
      && forall i :: 0 <= i < 3 ==> bufs[i][..] == Captured(fed, regions[i])
    }

    constructor (size: int)
      ensures Valid() && this.size == size && fed == []
      ensures fresh(bufs)
    {
      this.size := size;
      var r := Regions(size, SAMPLE_SIZE);
      regions := r;
      var b0 := new uint8[r[0].end - r[0].start](_ => 0);
      var b1 := new uint8[r[1].end - r[1].start](_ => 0);
      var b2 := new uint8[r[2].end - r[2].start](_ => 0);
      bufs := [b0, b1, b2];
      off := 0;
      fed := [];
      new;
      assert forall i :: 0 <= i < 3 ==> bufs[i][..] == Captured([], regions[i]);
    }

    /** Copies a chunk's overlap with window i into that window's buffer. */
    method CopyOverlap(i: nat, p: Bytes, chunkStart: int)
      requires WellFormed() && i < 3 && chunkStart == |fed|
      requires bufs[i][..] == Captured(fed, regions[i])
      modifies bufs[i]
      ensures bufs[i][..] == Captured(fed + p, regions[i])
    {
      var r := regions[i];
      var buf := bufs[i];
      var lo := if chunkStart > r.start then chunkStart else r.start;
      var hi := if chunkStart + |p| < r.end then chunkStart + |p| else r.end;
      assert forall j :: 0 <= j < buf.Length ==> buf[j] == buf[..][j] == Captured(fed, r)[j];
      if lo < hi {
        forall j | lo <= j < hi {
          buf[j - r.start] := p[j - chunkStart];
        }
      }
      assert forall j :: 0 <= j < buf.Length && lo <= r.start + j < hi ==> buf[j] == p[r.start + j - chunkStart];
      assert forall j :: 0 <= j < buf.Length ==> buf[j] == Captured(fed + p, r)[j];
    }

    /** Write: any chunk, of any length, also past the announced size. */
    method Write(p: Bytes) returns (n: nat)
      requires Valid()
      modifies this`off, this`fed, bufs
      ensures Valid() && n == |p|
      ensures fed == old(fed) + p
    {
      var chunkStart := off;
      for i := 0 to 3
        invariant fed == old(fed) && off == old(off)
        invariant forall k :: 0 <= k < i ==> bufs[k][..] == Captured(fed + p, regions[k])
        invariant forall k :: i <= k < 3 ==> bufs[k][..] == Captured(fed, regions[k])
      {
        CopyOverlap(i, p, chunkStart);
      }
      off := off + |p|;
      fed := fed + p;
      n := |p|;
    }

    /** Sum: for every history of writes, the digest FastHash would give for that stream cut
        or zero-padded to the announced size; the file's own fingerprint when all of it was
        written. */
    method Sum() returns (digest: Digest)
      requires Valid()
      ensures digest == XxHash64(SampledStream(Fit(fed, Clamp(size, size)), size, SAMPLE_SIZE))
      ensures |fed| == size ==> digest == Fingerprint(fed)
    {
      var stream: Bytes := bufs[0][..] + bufs[1][..] + bufs[2][..];
      digest := XxHash64(stream + BigEndian(size, 8));
      CapturedIsSlice(fed, size, regions[0]);
      CapturedIsSlice(fed, size, regions[1]);
      CapturedIsSlice(fed, size, regions[2]);
    }
  }

  function Flatten(chunks: seq<Bytes>): Bytes {
    if chunks == [] then [] else Flatten(chunks[..|chunks| - 1]) + chunks[|chunks| - 1]
  }

  /** However a file is split into consecutive writes, streaming it gives FastHash's digest. */
  method HashInChunks(content: Bytes, chunks: seq<Bytes>) returns (digest: Digest)
    requires Flatten(chunks) == content
    ensures digest == Fingerprint(content)
  {
    var h := new StreamingFastHasher(|content|);
    for i := 0 to |chunks|
      invariant h.Valid() && h.size == |content| && fresh(h) && fresh(h.bufs)
      invariant h.fed == Flatten(chunks[..i])
    {
      var _ := h.Write(chunks[i]);
      assert chunks[..i + 1][..i] == chunks[..i];
    }
    assert chunks[..|chunks|] == chunks;
    digest := h.Sum();
  }

  // ----- what the sample determines -----

  predicate Sampled(size: int, sample: int, j: int)
    requires sample > 0
  {
    exists i :: 0 <= i < 3 && Regions(size, sample)[i].start <= j < Regions(size, sample)[i].end
  }

  lemma WindowsCover(size: int, sample: int, j: int)
    requires sample > 0 && 0 <= j < size <= 3 * sample
    ensures Sampled(size, sample, j)
  {
    var r := Regions(size, sample);
    var i := if j < r[0].end then 0 else if j < r[1].end then 1 else 2;
    assert r[i].start <= j < r[i].end;
  }

  /** A byte no window reads, in a file longer than three samples. */
  function Unsampled(size: int, sample: int): (j: int)
    requires sample > 0 && size > 3 * sample
    ensures 0 <= j < size && !Sampled(size, sample, j)
  {
    if size / 2 - sample / 2 > sample then sample else size / 2 - sample / 2 + sample
  }

  /** The three windows read every byte exactly when the file is at most three samples long. */
  lemma WindowsCoverIff(size: int, sample: int)
    requires sample > 0
    ensures (forall j :: 0 <= j < size ==> Sampled(size, sample, j)) <==> size <= 3 * sample
  {
    if size <= 3 * sample {
      forall j | 0 <= j < size ensures Sampled(size, sample, j) {
        WindowsCover(size, sample, j);
      }
    } else {
      assert !Sampled(size, sample, Unsampled(size, sample));
    }
  }

  lemma {:induction false} BigEndianInjective(a: int, b: int, width: nat)
    requires 0 <= a < Pow256(width) && 0 <= b < Pow256(width)
    requires BigEndian(a, width) == BigEndian(b, width)
    ensures a == b
    decreases width
  {
    if width > 0 {
      var x, y := BigEndian(a / 256, width - 1), BigEndian(b / 256, width - 1);
      assert BigEndian(a, width)[..width - 1] == x && BigEndian(b, width)[..width - 1] == y;
      assert BigEndian(a, width)[width - 1] == (a % 256) as uint8;
      assert BigEndian(b, width)[width - 1] == (b % 256) as uint8;
      BigEndianInjective(a / 256, b / 256, width - 1);
    }
  }

  lemma FourParts(a: Bytes, b: Bytes, c: Bytes, d: Bytes)
    ensures var s := a + b + c + d;
            && |s| == |a| + |b| + |c| + |d|
            && s[..|a|] == a && s[|a|..|a| + |b|] == b
            && s[|a| + |b|..|a| + |b| + |c|] == c && s[|s| - |d|..] == d
  {
  }

  lemma StreamParts(content: Bytes, sample: int)
    requires sample > 0
    ensures var size := |content|;
            var r := Regions(size, sample);
            var s := SampledStream(content, size, sample);
            var n0, n1, n2 := r[0].end - r[0].start, r[1].end - r[1].start, r[2].end - r[2].start;
            && |s| == n0 + n1 + n2 + 8
            && s[..n0] == content[r[0].start..r[0].end]
            && s[n0..n0 + n1] == content[r[1].start..r[1].end]
            && s[n0 + n1..n0 + n1 + n2] == content[r[2].start..r[2].end]
            && s[|s| - 8..] == BigEndian(size, 8)
  {
    var r := Regions(|content|, sample);
    var a, b, c := content[r[0].start..r[0].end], content[r[1].start..r[1].end], content[r[2].start..r[2].end];
    var d := BigEndian(|content|, 8);
    assert SampledStream(content, |content|, sample) == a + b + c + d;
    FourParts(a, b, c, d);
  }

  lemma StreamDeterminesSize(a: Bytes, b: Bytes, sample: int)
    requires sample > 0
    requires |a| < 0x8000_0000_0000_0000 && |b| < 0x8000_0000_0000_0000
    requires SampledStream(a, |a|, sample) == SampledStream(b, |b|, sample)
    ensures |a| == |b|
  {
    StreamParts(a, sample);
    StreamParts(b, sample);
    assert Pow256(8) == 0x1_0000_0000_0000_0000 by {
      assert Pow256(2) == 65536 && Pow256(4) == 65536 * Pow256(2) && Pow256(6) == 65536 * Pow256(4);
      assert Pow256(8) == 65536 * Pow256(6);
    }
    BigEndianInjective(|a|, |b|, 8);
  }

  lemma StreamDeterminesWindows(a: Bytes, b: Bytes, sample: int)
    requires sample > 0 && |a| == |b|
    requires SampledStream(a, |a|, sample) == SampledStream(b, |b|, sample)
    ensures var r := Regions(|a|, sample);
            forall i :: 0 <= i < 3 ==> a[r[i].start..r[i].end] == b[r[i].start..r[i].end]
  {
    StreamParts(a, sample);
    StreamParts(b, sample);
    var r := Regions(|a|, sample);
    assert a[r[0].start..r[0].end] == b[r[0].start..r[0].end];
    assert a[r[1].start..r[1].end] == b[r[1].start..r[1].end];
    assert a[r[2].start..r[2].end] == b[r[2].start..r[2].end];
  }

  /** Up to three samples, the bytes fed to the hash determine the file. */
  lemma SampledStreamInjective(a: Bytes, b: Bytes, sample: int)
    requires sample > 0 && |a| <= 3 * sample && |b| <= 3 * sample
    requires |a| < 0x8000_0000_0000_0000 && |b| < 0x8000_0000_0000_0000
    requires SampledStream(a, |a|, sample) == SampledStream(b, |b|, sample)
    ensures a == b
  {
    StreamDeterminesSize(a, b, sample);
    StreamDeterminesWindows(a, b, sample);
    var r := Regions(|a|, sample);
    forall j | 0 <= j < |a| ensures a[j] == b[j] {
      WindowsCover(|a|, sample, j);
      var i :| 0 <= i < 3 && r[i].start <= j < r[i].end;
      assert a[j] == a[r[i].start..r[i].end][j - r[i].start];
      assert b[j] == b[r[i].start..r[i].end][j - r[i].start];
    }
  }

  /** Beyond three samples it does not: at every such size two different files are sampled
      alike. */
  lemma LongFilesCollide(size: nat, sample: int) returns (a: Bytes, b: Bytes)
    requires sample > 0 && size > 3 * sample
    ensures |a| == |b| == size && a != b
    ensures SampledStream(a, size, sample) == SampledStream(b, size, sample)
  {
    var gap := Unsampled(size, sample);
    a := seq(size, _ => 0);
    b := a[gap := 1];
    assert a[gap] != b[gap];
    var r := Regions(size, sample);
    forall i | 0 <= i < 3 ensures a[r[i].start..r[i].end] == b[r[i].start..r[i].end] {
      assert !(r[i].start <= gap < r[i].end);
    }
  }
}
