/** The destination file as the downloader sees it: absent, or present with its bytes. */
module Files {

  datatype Option<+T> = None | Some(value: T)

  newtype byte = b: int | 0 <= b < 256

  /** One block yielded by the streamed response body (it may be empty). */
  type Chunk = seq<byte>

  /** The destination path on disk. */
  type Disk = Option<seq<byte>>

  /** The bytes of a sequence of chunks in order: what writing each of them in turn adds. */
  function Concat(chunks: seq<Chunk>): seq<byte>
  {
    if chunks == [] then [] else Concat(chunks[..|chunks| - 1]) + chunks[|chunks| - 1]
  }

  /** `disk` holds a prefix of `content` (an absent file counts as the empty prefix). */
  ghost predicate PrefixOf(disk: Disk, content: seq<byte>)
  {
    disk.None? || (|disk.value| <= |content| && disk.value == content[..|disk.value|])
  }
}
