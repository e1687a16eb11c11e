/**
 * The NTSTATUS values the EA tool tests, and how its read and write paths
 * turn the status of the kernel's query and set primitives into an outcome
 * and a C return or exit code.
 */
module EaStatus {

  /** A 32-bit NTSTATUS, read as unsigned. */
  type NtStatus = s: int | 0 <= s < 0x1_0000_0000

  const StatusSuccess: NtStatus := 0
  /** The file carries no extended attributes. */
  const StatusNoEasOnFile: NtStatus := 0xC000_0052

  /** The three outcomes of `EA_read`. */
  datatype ReadStatus = ReadOk | NoEasOnFile | ReadFailed(status: NtStatus)
  {
    /**
     * The code the program ends a read with: `EA_read` exits with 0 when
     * there are no attributes and returns -1 on any other failure.
     */
    function ExitCode(): int
    {
      match this
      case ReadOk => 0
      case NoEasOnFile => 0
      case ReadFailed(_) => -1
    }
  }

  /** How `EA_read` judges the status the query primitive returned. */
  function ClassifyQuery(status: NtStatus): (r: ReadStatus)
    ensures r == ReadOk <==> status == StatusSuccess
    ensures r == NoEasOnFile <==> status == StatusNoEasOnFile
    ensures r.ReadFailed? ==> r.status == status
    ensures r.ExitCode() == 0 <==> status == StatusSuccess || status == StatusNoEasOnFile
  {
    if status == StatusNoEasOnFile then NoEasOnFile
    else if status != StatusSuccess then ReadFailed(status)
    else ReadOk
  }

  /** The outcomes of `EA_write`. */
  datatype WriteStatus = WriteOk | NameTooLong | WriteFailed(status: NtStatus)
  {
    /**
     * `EA_write` returns 0 or -1; a name that is too long makes it exit
     * the program with -1.
     */
    function ExitCode(): int
    {
      if WriteOk? then 0 else -1
    }
  }

  /** How `EA_write` judges the status the set primitive returned. */
  function ClassifySet(status: NtStatus): (r: WriteStatus)
    ensures r.ExitCode() == 0 <==> status == StatusSuccess
    ensures r != NameTooLong
    ensures r.WriteFailed? ==> r.status == status
  {
    if status != StatusSuccess then WriteFailed(status) else WriteOk
  }
}
