/** A file system whose every operation may fail, whose reads may observe wrong bytes, and
    under which the process may be stopped at any point. */
module Storage {
  import opened FastHash

  type Path = string

  type Hash = nat

  /** BLAKE3-256, left uninterpreted. */
  const Blake3: Bytes -> Hash

  /** Special is anything that is not a regular file (a directory, a device, a symlink), with the
      size a stat reports. The content of a regular file is what was handed to the operating
      system to write. */
  datatype Entry = Regular(content: Bytes) | Special(size: nat)

  type Files = map<Path, Entry>

  /** What an operation came to. Stopped means the process ended before or after its effect. */
  datatype Fate = Done | Failed | Stopped

  datatype Stat = Found(entry: Entry) | Missing | StatFailed | StatStopped

  datatype Read = Observed(hash: Hash) | ReadFailed | ReadStopped

  /** What a stat reports as the size. */
  function Size(e: Entry): nat {
    if e.Regular? then |e.content| else e.size
  }

  /** A complete copy: a regular file whose bytes hash to the wanted value. */
  predicate Complete(e: Entry, want: Hash) {
    e.Regular? && Blake3(e.content) == want
  }

  /** A read of the file at a path once observed other bytes than those of hash `hash`. */
  ghost predicate MisreadAs(lies: set<(Path, Hash)>, p: Path, hash: Hash) {
    exists h :: h != hash && (p, h) in lies
  }

  /** The two file maps agree at a path. */
  predicate Same(a: Files, b: Files, p: Path) {
    (p in a <==> p in b) && (p in a ==> a[p] == b[p])
  }

  // ----- the agent's own temporary names -----

  const TEMP_SUFFIX := ".branchdam-agent-tmp"

  function BaseStart(p: Path): (i: nat)
    ensures i <= |p|
    ensures forall j :: i <= j < |p| ==> p[j] != '/'
  {
    if p == [] then 0 else if p[|p| - 1] == '/' then |p| else BaseStart(p[..|p| - 1])
  }

  /** agentTempName: a hidden name next to the final one. */
  function AgentTempName(p: Path): Path {
    p[..BaseStart(p)] + "." + p[BaseStart(p)..] + TEMP_SUFFIX
  }

  /** A name only the agent gives: hidden, with its suffix. */
  predicate IsAgentTemp(p: Path) {
    |p| >= |TEMP_SUFFIX| && p[|p| - |TEMP_SUFFIX|..] == TEMP_SUFFIX
  }

  lemma AgentTempNameIsAgentTemp(p: Path)
    ensures IsAgentTemp(AgentTempName(p))
  {
    var t := AgentTempName(p);
    assert t[|t| - |TEMP_SUFFIX|..] == TEMP_SUFFIX;
  }

  lemma TempDiffers(p: Path)
    ensures AgentTempName(p) != p
  {
    assert |AgentTempName(p)| > |p|;
  }

  class Disk {
    var files: Files
    /** The lies of the disk: at which path which hash was observed that was not the file's. */
    ghost var lies: set<(Path, Hash)>
    /** What Verify has observed, in order. */
    ghost var readBacks: seq<(Path, Hash)>
    /** How many operations failed, stopped or lied without a reason in the files. An operation
        that adds none does what it is for. */
    ghost var faults: nat

    constructor (files: Files)
      ensures this.files == files && lies == {} && readBacks == [] && faults == 0
    {
      this.files := files;
      lies, readBacks, faults := {}, [], 0;
    }

    /** How an operation goes. */
    method Try() returns (r: Fate)
      modifies this`faults
      ensures faults == if r.Done? then old(faults) else old(faults) + 1
    {
      r := *;
      if !r.Done? { faults := faults + 1; }
    }

    method Lstat(p: Path) returns (r: Stat)
      modifies this`faults
      ensures r.Found? ==> p in files && files[p] == r.entry
      ensures r.Missing? ==> p !in files
      ensures old(faults) <= faults && (faults == old(faults) ==> r == if p in files then Found(files[p]) else Missing)
    {
      var fate := Try();
      if fate.Failed? { return StatFailed; }
      if fate.Stopped? { return StatStopped; }
      r := if p in files then Found(files[p]) else Missing;
    }

    method Remove(p: Path) returns (r: Fate)
      modifies this`files, this`faults
      ensures r.Done? ==> files == old(files) - {p}
      ensures r.Failed? ==> files == old(files)
      ensures r.Stopped? ==> files == old(files) || files == old(files) - {p}
      ensures old(faults) <= faults && (faults == old(faults) ==> r.Done?)
    {
      r := Try();
      var effect: bool := *;
      if r.Done? || (r.Stopped? && effect) { files := files - {p}; }
    }

    /** O_EXCL creation. */
    method CreateExclusive(p: Path) returns (r: Fate)
      modifies this`files, this`faults
      ensures r.Done? ==> p !in old(files) && files == old(files)[p := Regular([])]
      ensures r.Failed? ==> files == old(files)
      ensures r.Stopped? ==> files == old(files) || (p !in old(files) && files == old(files)[p := Regular([])])
      ensures old(faults) <= faults && (faults == old(faults) ==> r == if p in old(files) then Failed else Done)
    {
      r := Try();
      var effect: bool := *;
      if r.Done? && p in files { r := Failed; }
      if p !in files && (r.Done? || (r.Stopped? && effect)) { files := files[p := Regular([])]; }
    }

    /** io.Copy of a file into one just created, with the bytes that were read. A copy that
        does not finish leaves a part of them. */
    method CopyInto(src: Path, dst: Path) returns (r: Fate, streamed: Bytes)
      requires dst in files
      modifies this`files, this`lies, this`faults
      ensures dst in files && files[dst].Regular? && files == old(files)[dst := files[dst]]
      ensures r.Done? ==> files == old(files)[dst := Regular(streamed)]
      ensures r.Done? && src != dst ==>
                src in files && (Complete(files[src], Blake3(streamed)) || (src, Blake3(streamed)) in lies)
      ensures old(lies) <= lies <= old(lies) + {(src, Blake3(streamed))}
      ensures old(faults) <= faults
      ensures faults == old(faults) ==>
                if src in old(files) && old(files)[src].Regular? then r.Done? && old(files)[src] == Regular(streamed) else r.Failed?
    {
      r := Try();
      streamed := *;
      var part: Bytes := *;
      if src !in files || files[src].Special? {
        if r.Done? { r := Failed; }
      } else if streamed != files[src].content {
        faults := faults + 1;
        if Blake3(files[src].content) != Blake3(streamed) { lies := lies + {(src, Blake3(streamed))}; }
      }
      files := files[dst := Regular(if r.Done? then streamed else part)];
    }

    /** Writes bytes into a file just created. A write that does not finish leaves a part. */
    method Fill(dst: Path, bytes: Bytes) returns (r: Fate)
      requires dst in files
      modifies this`files, this`faults
      ensures dst in files && files[dst].Regular? && files == old(files)[dst := files[dst]]
      ensures r.Done? ==> files[dst] == Regular(bytes)
      ensures old(faults) <= faults && (faults == old(faults) ==> r.Done?)
    {
      r := Try();
      var part: Bytes := *;
      files := files[dst := Regular(if r.Done? then bytes else part)];
    }

    /** fsync, close and chtimes: no effect on names or bytes. */
    method Flush(p: Path) returns (r: Fate)
      modifies this`faults
      ensures old(faults) <= faults && (faults == old(faults) ==> r.Done?)
    {
      r := Try();
    }

    /** os.Rename, which replaces whatever is at the new name. */
    method Rename(from: Path, to: Path) returns (r: Fate)
      modifies this`files, this`faults
      ensures r.Done? ==> from in old(files) && files == (old(files) - {from})[to := old(files)[from]]
      ensures r.Failed? ==> files == old(files)
      ensures r.Stopped? ==> files == old(files) || (from in old(files) && files == (old(files) - {from})[to := old(files)[from]])
      ensures old(faults) <= faults && (faults == old(faults) ==> r == if from in old(files) then Done else Failed)
    {
      r := Try();
      var effect: bool := *;
      if r.Done? && from !in files { r := Failed; }
      if from in files && (r.Done? || (r.Stopped? && effect)) {
        files := (files - {from})[to := files[from]];
      }
    }

    /** Verify: the hash of the bytes a cache-defeating re-read observes. */
    method Verify(p: Path) returns (r: Read)
      modifies this`lies, this`readBacks, this`faults
      ensures readBacks == if r.Observed? then old(readBacks) + [(p, r.hash)] else old(readBacks)
      ensures r.Observed? ==> p in files && files[p].Regular? && (Complete(files[p], r.hash) || (p, r.hash) in lies)
      ensures old(lies) <= lies
      ensures lies != old(lies) ==> r.Observed? && !Complete(files[p], r.hash) && lies == old(lies) + {(p, r.hash)}
      ensures old(faults) <= faults
      ensures faults == old(faults) ==>
                r == if p in files && files[p].Regular? then Observed(Blake3(files[p].content)) else ReadFailed
    {
      var fate := Try();
      if fate.Stopped? { return ReadStopped; }
      if fate.Failed? || p !in files || files[p].Special? { return ReadFailed; }
      r := *;
      if !r.Observed? { r := Observed(Blake3(files[p].content)); }
      if r.hash != Blake3(files[p].content) {
        lies := lies + {(p, r.hash)};
        faults := faults + 1;
      }
      readBacks := readBacks + [(p, r.hash)];
    }

    /** renameNoClobber: refuse if anything is at the final name. */
    method RenameNoClobber(tmp: Path, final: Path) returns (r: Fate)
      modifies this`files, this`faults
      ensures r.Done? ==> final !in old(files) && tmp in old(files) && files == (old(files) - {tmp})[final := old(files)[tmp]]
      ensures r.Failed? ==> files == old(files)
      ensures r.Stopped? ==>
                files == old(files) ||
                (final !in old(files) && tmp in old(files) && files == (old(files) - {tmp})[final := old(files)[tmp]])
      ensures old(faults) <= faults
      ensures faults == old(faults) ==> r == if final !in old(files) && tmp in old(files) then Done else Failed
    {
      var st := Lstat(final);
      match st
      case StatStopped => return Stopped;
      case Found(_) => return Failed;
      case StatFailed => return Failed;
      case Missing =>
        r := Rename(tmp, final);
    }
  }
}
