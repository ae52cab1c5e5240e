# proprdr property readers in Dafny

A model of the two revisions of the proprdr property-file reader. Each
turns the lines of a `key=value` text file into a flat `key → value` map:

- `Property` (property.go, package `main`, the earlier revision): the
  `propFile` store. `New` fills its `properties` map from every line. It
  splits on `=`, with no comment skipping and no trimming. `Get`,
  `GetAsInt` and `Size` read the map back.
- `Parser` (parser.go, package `proprdr`, the later revision): `parseFile`
  skips lines whose raw text starts with `#`. It stores the trimmed first
  and second `=`-pieces of every other line.

Supporting modules model the parts of Go's standard library that the code
relies on:

- `GoStrings`: `strings.HasPrefix`, `strings.Split` with a one-character
  separator (and `Join`, its inverse), and `strings.TrimSpace` over ASCII
  white space.
- `GoStrconv`: `strconv.Atoi` for a 64-bit `int`. It follows the digit loop
  of `ParseUint`, including its early range error, and the `int` range
  check of `ParseInt`.
- `LineSource`: what opening and scanning the file yields. This is either
  `Unopenable`, or the scanned lines plus whether `scanner.Err()` was set.
  It also holds the load errors.
- `Results`: the `Option` and `Result` wrappers.

File I/O is a parameter. `New` and `ParseFile` receive a `Source` instead
of a file name to open. `New` still records the file name in the store.

A line that the loop does not skip and that has no `=` makes Go index
`keyValue[1]` out of range, which panics. Both revisions model this as an
explicit outcome, `Failure(MalformedLine(i))`, where `i` is the first such
line. It is not a precondition. No map is produced, just as the panic
produces none.

Behaviours of the code that the model keeps as written:

- An empty or blank line is not skipped by either revision. It is a
  malformed line.
- The value is the text between the first `=` and the second `=`, not
  everything after the first `=`.
- The earlier revision's `Get` returns `""` for an absent key. It does not
  return a not-found error.
- Only the later revision trims keys and values. Only the later revision
  skips comments.

## Model

| member | source | states |
|---|---|---|
| `Property.PropFile.constructor` | property.go:33 | A new store records its file name and starts with an empty `properties` map. |
| `Property.PropFile.New` | property.go:26-48 | The outcome depends on the source. An open failure gives `OpenError`. A line without `=` gives `MalformedLine` at the first such line. Otherwise a scanner error gives `ScanError`. Otherwise the result is a fresh store holding the file name and `Table(lines)`, built by a loop whose invariant ties the map to the processed prefix. |
| `Property.PropFile.Get` | property.go:50-52 | A present key yields its stored value. An absent key yields the zero value `""`, not an error. |
| `Property.PropFile.GetAsInt` | property.go:54-60 | There is no error exactly when `Get(property)` is a decimal literal (an optional sign, then one or more digits) whose value fits a 64-bit `int`, and the number is then that value. On error the number is 0. An absent key always gives an error. |
| `Property.Key` | property.go:38-40 | The key of a line (`keyValue[0]`) contains no `=`. |
| `Property.Value` | property.go:38-40 | The value of a line (`keyValue[1]`) contains no `=`. |
| `Property.LineShape` | property.go:38-40 | The key is the raw text before the first `=`. The value is the raw text from there to the next `=` or the end of the line, so text after a second `=` is lost. |
| `Property.TableKeys` | property.go:36-40 | A key is in the map exactly when some line has that raw key. No line is skipped. |
| `Property.TableLastWins` | property.go:36-40 | For a key shared by several lines, the map holds the value of the last such line. |
| `Property.TableSize` | property.go:36-41 | The map has at most one entry per line. It has exactly one per line exactly when the keys are pairwise distinct, and at least one after a non-empty file. |
| `Property.GetAfterNew` | property.go:40-52 | After loading, `Get(k)` is the value of the last line with key `k`, or `""` when no line has key `k`. |
| `Property.SizeAfterNew` | property.go:62-64 | After loading, `Size()` equals the number of distinct raw keys among the lines. It is at most the number of lines, equal to it exactly when the keys are distinct, and greater than 0 for a non-empty file. |
| `Property.GetAsIntOfDecimal` | property.go:54-60 | A value written as the decimal form of an in-range `int` reads back as that number, with no error. |
| `Property.Table` | property.go:36-41 | The map the loop builds: every key and every value is free of `=`. `Property.TableKeys`, `Property.TableLastWins` and `Property.TableSize` state which entries it holds. |
| `Property.RawSplitExample` | property.go:38-40 | The line ` a = 1=2` stores `" 1"` under `" a "`: nothing is trimmed and `=2` is dropped. |
| `Parser.ParseFile` | parser.go:13-39 | The outcome depends on the source. An open failure gives `OpenError`. A non-comment line without `=` gives `MalformedLine` at the first such line. Otherwise a scanner error gives `ScanError`. Otherwise the result is `Table(lines)`, built by a loop with `continue` whose invariant ties the map to the processed prefix. |
| `Parser.Key` | parser.go:31 | The stored key has no white space at either end. |
| `Parser.Value` | parser.go:31 | The stored value has no white space at either end. |
| `Parser.LineShape` | parser.go:30-31 | The key is the trimmed text before the first `=`. The value is the trimmed text from there to the next `=` or the end of the line. |
| `Parser.IsComment` | parser.go:26 | A line is a comment exactly when its raw first character is `#`. A line that begins with white space is therefore never a comment. |
| `Parser.Table` | parser.go:22-32 | No contract of its own; it is the map the loop builds. `Parser.TableKeys`, `Parser.TableLastWins`, `Parser.TableEntriesComeFromLines`, `Parser.TableTrimmed`, `Parser.TableSize` and `Parser.CommentIgnored` state what it holds. |
| `Parser.CommentIgnored` | parser.go:25-28 | Inserting a line that starts with `#` anywhere in the input leaves the result unchanged. |
| `Parser.IndentedLineIsEntry` | parser.go:26-31 | A one-line file `indent + key + "=" + value` is not a comment, even when the key starts with `#`. Here the indent is non-empty white space, and the key and value are trimmed and free of `=`. Its result is the single entry `key → value`. |
| `Parser.CommentExample` | parser.go:25-28 | The line `#a = 1 ` adds nothing to the result. |
| `Parser.TableKeys` | parser.go:22-31 | A key is in the result exactly when some non-comment line has that trimmed key. |
| `Parser.TableLastWins` | parser.go:22-31 | For a trimmed key shared by several non-comment lines, the result holds the value of the last such line. |
| `Parser.TableEntriesComeFromLines` | parser.go:30-31 | Every entry of the result is the trimmed key and trimmed value of some non-comment line. |
| `Parser.TableTrimmed` | parser.go:31 | No key and no value in the result has white space at either end. |
| `Parser.TableSize` | parser.go:20-32 | The result has at most one entry per non-comment line. It has exactly one per non-comment line exactly when their trimmed keys are pairwise distinct. |
| `GoStrings.Split` | parser.go:30 | There is always at least one piece, and more than one exactly when the separator occurs. No piece contains the separator. |
| `GoStrings.SplitThenJoin` | property.go:38 | Joining the pieces with the separator gives back the line. |
| `GoStrings.JoinThenSplit` | property.go:38 | Splitting a join of separator-free pieces gives back the pieces. |
| `GoStrings.FirstTwoPieces` | property.go:38-40 | When the separator occurs, the line begins with the first piece, the separator and the second piece, followed by the end or another separator. |
| `GoStrings.TrimSpace` | parser.go:31 | The result has no white space at either end and is no longer than the input. |
| `GoStrings.TrimSpaceRemovesOnlySpace` | parser.go:31 | The input is the result with only white space before and after it. |
| `GoStrings.TrimSpaceOfPadded` | parser.go:31 | Trimming a trimmed text padded with white space gives back the text. |
| `GoStrings.TrimSpaceIdempotent` | parser.go:31 | Trimming twice is the same as trimming once. |
| `GoStrconv.ParseUintFromDigits` | property.go:55 | Go's overflow-checked digit loop yields the decimal value of the digits. It gives a range error exactly when that value exceeds the `uint64` maximum, and some error whenever a non-digit occurs. |
| `GoStrconv.ParseUintFrom` | property.go:55 | Go's digit loop succeeds only on all-digit text, with a result between the starting accumulator and the `uint64` maximum. `GoStrconv.ParseUintFromDigits` gives its exact result. |
| `GoStrconv.Atoi` | property.go:55 | A success is a decimal literal and lies in the 64-bit `int` range. `GoStrconv.AtoiMatchesLiteral` gives the exact outcome. |
| `GoStrconv.AtoiMatchesLiteral` | property.go:55 | `Atoi` succeeds exactly on decimal literals whose value is in the 64-bit `int` range, and returns that value. An out-of-range literal gives a range error. |
| `GoStrconv.AtoiEmpty` | property.go:50-55 | The empty string, which is what an absent key reads as, is a syntax error. |
| `GoStrconv.FormatNatValue` | property.go:55 | Reading back the decimal digits of a natural number gives that number. |
| `GoStrconv.AtoiFormatInt` | property.go:55 | The decimal form of every in-range `int` parses back to that number. The decimal form of any number outside the range gives a range error. |

## Left out

- Opening and closing the file, and `bufio.Scanner` tokenisation (property.go:27-35, parser.go:14-21). The model receives the scanned lines and whether the open or the scan failed.
- The `PropertyFile` interface (property.go:10-18). It only names the method set that `PropFile` has.
- `Property.PropFile.Size` has no contract of its own (it is `len(p.properties)`). `Property.SizeAfterNew` states what it counts.
- `Parser.Table` has no contract of its own. A quantified contract on it made every proof about the parser far costlier. `Parser.TableTrimmed`, `Parser.TableKeys`, `Parser.TableLastWins` and `Parser.TableSize` state what it holds.
- `GoStrings.TrimSpace` treats only ASCII white space as space. Go's `strings.TrimSpace` also trims Unicode white space such as U+0085 and U+00A0.
- `GoStrconv.Atoi` assumes a 64-bit platform. It models only the general `ParseInt` path, not the separate fast path for short inputs, which gives the same results. Go's `NumError` text (function name and input) is reduced to its kind, `ErrSyntax` or `ErrRange`.
- Operations that the two files do not contain are not modelled: refresh, change detection, single-key re-read, prefix lookup, float and boolean getters, and `Contains`. The source for them is not part of this model.
- Lines are modelled as strings of Unicode characters. Go's scanner yields byte strings, which may be invalid UTF-8, and such a line cannot be represented here. On valid UTF-8 the split on `=`, the `#` prefix test and the ASCII digit and space tests behave the same on bytes and on characters.
- The two revisions are kept separate. They live in different packages and differ in comment handling and trimming.
