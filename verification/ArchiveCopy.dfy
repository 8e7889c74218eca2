/** CopyToArchive: the crash-safe copy of a queued local file to its archive name. */
module ArchiveCopy {
  import opened Storage

  /** nil, the three permanent errors, any other error, and a stop of the process. */
  datatype CopyResult = Copied | ArchiveConflict | LocalCopyMismatch | VerifyMismatch | Transient | Stop

  /** What any number of attempts, each ending anywhere, may do to the file system: nothing
      outside the archive name and the agent's temporary name next to it; nothing to a file
      already at the archive name; and if a file appears there, it is complete. */
  ghost predicate OnlyCompletes(before: Files, after: Files, archive: Path, want: Hash) {
    && (forall p :: p != archive && p != AgentTempName(archive) ==> Same(before, after, p))
    && (archive in before ==> Same(before, after, archive))
    && (archive !in before && archive in after ==> Complete(after[archive], want))
  }

  /** The promise composes over attempts. */
  lemma OnlyCompletesTwice(a: Files, b: Files, c: Files, archive: Path, want: Hash)
    requires OnlyCompletes(a, b, archive, want) && OnlyCompletes(b, c, archive, want)
    ensures OnlyCompletes(a, c, archive, want)
  {
    forall p | p != archive && p != AgentTempName(archive) ensures Same(a, c, p) {
      assert Same(a, b, p) && Same(b, c, p);
    }
  }

  /** What the copy comes to when nothing fails: a file already there is accepted, or refused as a
      bad read-back when it has the local copy's size and as a conflict otherwise; a free name gets
      the local copy, unless that is missing or no longer the queued one. (A local copy at the
      temporary name is lost with it.) */
  function Expected(files: Files, local: Path, archive: Path, want: Hash): CopyResult {
    if archive in files then
      if Complete(files[archive], want) then Copied
      else if files[archive].Regular? && local in files && Size(files[local]) == Size(files[archive]) then VerifyMismatch
      else ArchiveConflict
    else if local !in files || local == AgentTempName(archive) || files[local].Special? then Transient
    else if Complete(files[local], want) then Copied
    else LocalCopyMismatch
  }

  /** The check of a file already at the archive name. Nothing is changed either way. */
  method CheckExisting(disk: Disk, local: Path, archive: Path, want: Hash, existing: Entry) returns (r: CopyResult)
    requires archive in disk.files && disk.files[archive] == existing
    modifies disk`lies, disk`readBacks, disk`faults
    ensures old(disk.lies) <= disk.lies && old(disk.faults) <= disk.faults
    ensures disk.faults == old(disk.faults) ==> r == Expected(disk.files, local, archive, want)
    ensures r == Copied ==>
              && disk.readBacks == old(disk.readBacks) + [(archive, want)] && existing.Regular?
              && (Complete(existing, want) || (archive, want) in disk.lies)
    ensures r == ArchiveConflict || r == VerifyMismatch ==> !Complete(existing, want) || MisreadAs(disk.lies, archive, want)
    ensures r != LocalCopyMismatch
  {
    if existing.Regular? {
      var read := disk.Verify(archive);
      if read.ReadStopped? { return Stop; }
      if read.ReadFailed? { return Transient; }
      if read.hash == want { return Copied; }
      var st := disk.Lstat(local);
      if st.StatStopped? { return Stop; }
      if st.Found? && Size(st.entry) == Size(existing) {
        return VerifyMismatch;
      }
    }
    r := ArchiveConflict;
  }

  /** Fills the temporary file from the local copy, hashing the bytes as they pass. On success
      the temporary file holds bytes that hash to `want`. */
  method StageCopy(disk: Disk, local: Path, tmp: Path, want: Hash) returns (r: CopyResult)
    modifies disk`files, disk`lies, disk`faults
    ensures old(disk.lies) <= disk.lies && old(disk.faults) <= disk.faults
    ensures disk.faults == old(disk.faults) ==>
              if local !in old(disk.files) || local == tmp || old(disk.files)[local].Special? then r == Transient
              else if Complete(old(disk.files)[local], want) then r == Copied && tmp in disk.files && disk.files[tmp] == old(disk.files)[local]
              else r == LocalCopyMismatch
    ensures disk.faults == old(disk.faults) && r != Copied ==> tmp !in disk.files
    ensures forall p :: p != tmp ==> Same(old(disk.files), disk.files, p)
    ensures r == Copied ==> tmp in disk.files && Complete(disk.files[tmp], want)
    ensures r == LocalCopyMismatch && local != tmp ==>
              local in disk.files && (!Complete(disk.files[local], want) || MisreadAs(disk.lies, local, want))
    ensures r in {Copied, LocalCopyMismatch, Transient, Stop}
  {
    var o := disk.Remove(tmp);
    if o.Stopped? { return Stop; }
    var srcStat := disk.Lstat(local);
    if srcStat.StatStopped? { return Stop; }
    if !srcStat.Found? { return Transient; }
    o := disk.CreateExclusive(tmp);
    if o.Stopped? { return Stop; }
    if o.Failed? { return Transient; }
    var streamed;
    o, streamed := disk.CopyInto(local, tmp);
    if o.Stopped? { return Stop; }
    if o.Done? {
      o := disk.Flush(tmp);
      if o.Stopped? { return Stop; }
    }
    if o.Failed? {
      o := disk.Remove(tmp);
      return if o.Stopped? then Stop else Transient;
    }
    if Blake3(streamed) != want {
      o := disk.Remove(tmp);
      return if o.Stopped? then Stop else LocalCopyMismatch;
    }
    o := disk.Flush(tmp);
    return if o.Stopped? then Stop else Copied;
  }

  /** Places the staged copy and reads it back. */
  method PlaceAndVerify(disk: Disk, tmp: Path, archive: Path, want: Hash) returns (r: CopyResult)
    requires tmp != archive && archive !in disk.files
    requires tmp in disk.files && Complete(disk.files[tmp], want)
    modifies disk
    ensures old(disk.lies) <= disk.lies && old(disk.faults) <= disk.faults
    ensures disk.faults == old(disk.faults) ==> r == Copied
    ensures archive in disk.files ==> disk.files[archive] == old(disk.files)[tmp]
    ensures forall p :: p != tmp && p != archive ==> Same(old(disk.files), disk.files, p)
    ensures archive in disk.files ==> Complete(disk.files[archive], want)
    ensures r == Copied ==> archive in disk.files && tmp !in disk.files && disk.readBacks == old(disk.readBacks) + [(archive, want)]
    ensures r in {Copied, VerifyMismatch, Transient, Stop}
    ensures r == VerifyMismatch ==> MisreadAs(disk.lies, archive, want)
  {
    var o := disk.RenameNoClobber(tmp, archive);
    if o.Stopped? { return Stop; }
    if o.Failed? {
      o := disk.Remove(tmp);
      return if o.Stopped? then Stop else Transient;
    }
    var read := disk.Verify(archive);
    if read.ReadStopped? { return Stop; }
    if read.ReadFailed? { return Transient; }
    if read.hash != want {
      o := disk.Remove(archive);
      return if o.Stopped? then Stop else VerifyMismatch;
    }
    return Copied;
  }

  /** CopyToArchive. Whatever fails, whatever is misread and wherever the process stops:
      only completes; succeeds only after reading the queued hash back; and leaves a
      finished copy alone, so a repeat changes nothing. */
  method CopyToArchive(disk: Disk, local: Path, archive: Path, want: Hash) returns (r: CopyResult)
    modifies disk
    ensures old(disk.lies) <= disk.lies && old(disk.faults) <= disk.faults
    ensures disk.faults == old(disk.faults) ==> r == Expected(old(disk.files), local, archive, want)
    ensures disk.faults == old(disk.faults) && r == Copied && archive !in old(disk.files) ==>
              archive in disk.files && local in old(disk.files) && disk.files[archive] == old(disk.files)[local]
    ensures OnlyCompletes(old(disk.files), disk.files, archive, want)
    ensures archive in old(disk.files) ==> disk.files == old(disk.files)
    ensures r == Copied ==> disk.readBacks == old(disk.readBacks) + [(archive, want)] && archive in disk.files
    ensures r == Copied ==>
              Complete(disk.files[archive], want) || (archive in old(disk.files) && (archive, want) in disk.lies)
    ensures archive !in old(disk.files) && (r == Copied || disk.faults == old(disk.faults)) ==> AgentTempName(archive) !in disk.files
    ensures r == ArchiveConflict ==>
              archive in old(disk.files) && (!Complete(old(disk.files)[archive], want) || MisreadAs(disk.lies, archive, want))
    ensures r == LocalCopyMismatch ==>
              && archive !in old(disk.files) && archive !in disk.files
              && (local == AgentTempName(archive) ||
                  (local in disk.files && (!Complete(disk.files[local], want) || MisreadAs(disk.lies, local, want))))
    ensures r == VerifyMismatch ==>
              MisreadAs(disk.lies, archive, want) || (archive in old(disk.files) && !Complete(old(disk.files)[archive], want))
    ensures archive in old(disk.files) && Complete(old(disk.files)[archive], want) && !MisreadAs(disk.lies, archive, want) ==>
              r in {Copied, Transient, Stop}
  {
    TempDiffers(archive);
    var st := disk.Lstat(archive);
    match st
    case StatStopped => return Stop;
    case StatFailed => return Transient;
    case Found(existing) =>
      r := CheckExisting(disk, local, archive, want, existing);
    case Missing =>
      var tmp := AgentTempName(archive);
      r := StageCopy(disk, local, tmp, want);
      assert Same(old(disk.files), disk.files, archive);
      if r != Copied { return; }
      ghost var staged := disk.files;
      r := PlaceAndVerify(disk, tmp, archive, want);
      forall p | p != archive && p != tmp ensures Same(old(disk.files), disk.files, p) {
        assert Same(old(disk.files), staged, p) && Same(staged, disk.files, p);
      }
  }

  /** Any number of attempts, retried after errors and stops alike. */
  method AnyAttempts(disk: Disk, local: Path, archive: Path, want: Hash)
    modifies disk
    ensures OnlyCompletes(old(disk.files), disk.files, archive, want)
  {
    var left: nat := *;
    while left > 0
      invariant OnlyCompletes(old(disk.files), disk.files, archive, want)
    {
      ghost var before := disk.files;
      var _ := CopyToArchive(disk, local, archive, want);
      OnlyCompletesTwice(old(disk.files), before, disk.files, archive, want);
      left := left - 1;
    }
  }
}
