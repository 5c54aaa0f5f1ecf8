/**
 How both energy counters reach the disk: make the directory, create a
 temporary file, write, fsync, rename over the real one; on an error the
 temporary file is unlinked.
 */
module AtomicFile {
  /** How a save ends: after `steps` of its five file operations an error is
      caught, an interrupt gets past the handlers, or the machine stops. With
      all five done the save is complete. */
  datatype Ending = Raises(steps: nat, unlinkFails: bool) | Interrupted(steps: nat) | Stops(steps: nat)

  predicate Commits(e: Ending) {
    e.steps >= 5
  }

  /** A file and whether its bytes have reached the disk. */
  datatype File<T> = File(content: T, synced: bool)

  function AfterPowerLoss<T>(f: File<T>, torn: T): T {
    if f.synced then f.content else torn
  }
}
