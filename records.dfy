/** The record the pipeline carries for each candidate file, and the run's counters. */
module Records {

  /**
   * One file: its path, its size as stat reported it, whether the size
   * bucketing marked it, and its CRC-32 digest in hexadecimal ("" until hashed).
   */
  datatype File = File(path: string, size: int, duplicate: bool, crc32Hash: string)

  /** The four counters of one run (the start time and elapsed time are not modelled). */
  datatype Stats = Stats(seenFiles: nat, filteredFiles: nat, duplicateFiles: nat, wastedSpace: int)

  /** The record the walk creates for a file of the given size: not marked, not hashed. */
  function NewFile(path: string, size: int): File
  {
    File(path, size, false, "")
  }
}
