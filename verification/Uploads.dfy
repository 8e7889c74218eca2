/** The rows of queued uploads. */
module Uploads {
  import opened Wrappers

  datatype UploadStatus = Pending | Failed | Done

  /** An upload row; `master` is the row of a queued sidecar's master, `local` the path of the local
      copy. */
  datatype UploadRow = UploadRow(
    name: string,
    master: Option<nat>,
    tail: string,
    byName: bool,
    status: UploadStatus,
    attempts: nat,
    next: int,
    serverRelPath: string,
    local: string)
}
