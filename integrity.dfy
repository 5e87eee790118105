/** check_file_integrity: the only test the downloader applies before reporting success. */
module Integrity {
  import opened Files

  /** How many bytes are read from the head of the file to see that it is not empty. */
  const HeaderLength := 1024

  /**
   * True exactly when the file exists, has the expected length and is not empty;
   * in particular a non-positive expected size never passes.
   */
  function CheckFileIntegrity(file: Disk, expectedSize: int): (ok: bool)
    ensures ok <==> file.Some? && |file.value| == expectedSize && |file.value| > 0
    ensures expectedSize <= 0 ==> !ok
  {
    if file.None? then false
    else
      var actualSize := |file.value|;
      if actualSize == expectedSize then
        var header := file.value[..if actualSize < HeaderLength then actualSize else HeaderLength];
        |header| != 0
      else false
  }
}
