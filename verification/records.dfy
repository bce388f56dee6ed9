/**
 * The audit-log record (Models/FileChangeEvent.cs): a timestamp taken when
 * the record is built, the change type, the path, and an optional hash.
 */
module Records {
  import opened Wrappers

  /** Milliseconds since the epoch, UTC. */
  type UtcMillis = int

  datatype FileChangeEvent = FileChangeEvent(
    timestampUtc: UtcMillis,
    changeType: string,
    filePath: string,
    sha256Hash: Option<string>)

  /**
   * `new FileChangeEvent()`: the clock is read by the constructor itself,
   * the two strings default to empty and the hash to null.
   */
  function NewFileChangeEvent(utcNow: UtcMillis): (e: FileChangeEvent)
    ensures e.timestampUtc == utcNow
    ensures e.changeType == "" && e.filePath == ""
    ensures e.sha256Hash == None
  {
    FileChangeEvent(utcNow, "", "", None)
  }

  /**
   * `new FileChangeEvent { ChangeType = .., FilePath = .., Sha256Hash = .. }`:
   * the initializer assigns the three properties after construction and
   * leaves the constructor's timestamp alone.
   */
  function Initialized(utcNow: UtcMillis, changeType: string, path: string, hash: Option<string>): (e: FileChangeEvent)
    ensures e.timestampUtc == NewFileChangeEvent(utcNow).timestampUtc
    ensures e.changeType == changeType && e.filePath == path && e.sha256Hash == hash
  {
    NewFileChangeEvent(utcNow).(changeType := changeType, filePath := path, sha256Hash := hash)
  }
}
