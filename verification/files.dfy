/** The records the scanner works on: a walked path together with the
    metadata `filepath.Walk` reported for it (Go's `img` struct). */
module Files {

  /** The parts of `os.FileInfo` the scanner reads. `modTime` is the
      modification instant in nanoseconds since the Unix epoch. */
  datatype FileInfo = FileInfo(name: string, isDir: bool, size: int, modTime: int)

  /** One walked entry: `FilePath` and `FileInfo` of Go's `img`. */
  datatype Img = Img(path: string, info: FileInfo)

  const NanosPerSecond: int := 1_000_000_000

  /** `ModTime().UTC().Unix()`: whole seconds since the epoch, rounded down
      (Go keeps the sub-second part of a `time.Time` non-negative, and
      Dafny's `/` by a positive divisor rounds down as well). */
  function UnixSeconds(f: Img): int {
    f.info.modTime / NanosPerSecond
  }

  /** The second `UnixSeconds` names is the one that contains the
      modification time, for times before the epoch too. */
  lemma UnixSecondsFloor(f: Img)
    ensures NanosPerSecond * UnixSeconds(f) <= f.info.modTime < NanosPerSecond * (UnixSeconds(f) + 1)
  {
  }

  /** Go's `imgMap`: a bucket key (a decimal size or an md5 hex digest)
      mapped to the records filed under it, in insertion order. */
  type ImgMap = map<string, seq<Img>>
}
