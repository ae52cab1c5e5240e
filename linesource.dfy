/**
 * What opening a file and scanning it line by line yields. Both readers
 * open the file, read every line with a `bufio.Scanner` and check
 * `scanner.Err()` only after the loop; the model receives the lines the
 * scanner delivered instead of reading them.
 */
module LineSource {

  datatype Source =
      /** `os.Open` returned an error; no line was read. */
    | Unopenable
      /** The lines the scanner delivered, and whether `scanner.Err()` reported an error after them. */
    | Scanned(lines: seq<string>, scanFailed: bool)

  /** Why loading a file produced no table. */
  datatype LoadError =
    | OpenError
    | ScanError
      /**
       * The line at `index` has no '=', so indexing the second piece of its
       * split is out of range; Go panics there, the model reports it.
       */
    | MalformedLine(index: nat)
}
