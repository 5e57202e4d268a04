# vscode-visix-download, modelled in Dafny

The program lists the extensions installed in the VS Code editor
(`code --list-extensions --show-versions`), turns each output line of the form
`publisher.extension@version` into a record, and downloads every record's
`.vsix` package from open-vsx.org into a local directory, one after another,
reporting each success or failure and carrying on after a failure.

The model covers the three deterministic parts of `download-vsix.js` and the
order in which `main` runs them:

- `Text` — the string operations the parser is built from: `FirstIndex`
  (scanning for a separator), `Split` (`split("\n")`, with its inverse `Join`)
  and `NonEmpty` (`filter(Boolean)` on strings).
- `Listing` — the extension record, a hand-written matcher `ParseLine` for the
  pattern `^([^.]+)\.([^\@]+)\@(.+)$`, the declarative reading of that pattern
  (`WellFormed` and `Line`) with proofs that the two agree both ways, the
  list parser `ParseLines`/`ParseOutput`, and the inverse `ListOutput` (what
  the listing command prints) with a round-trip proof.
- `Registry` — the package file name and the download address, the fact
  that the address ends in exactly that file name, and the fact that the
  address determines the record while the file name does not.
- `Batch` — the status rule, the download loop `DownloadAll` as a method with
  a `while` loop over the indices, and `Run`, which creates the directory,
  lists, and downloads only when the listing succeeded.

Strings are sequences of characters. JavaScript strings are sequences of
UTF-16 code units, but every character the pattern tests (`.`, `@` and the
four line terminators) is a single code unit, so the match comes out the same.

Facts about the code that the model keeps:

- The pattern keeps `.` out of the publisher and `@` out of the extension,
  nothing more: `a@b.c@1` parses with publisher `a@b`, and
  `ms.vscode.cpptools@1` parses with extension `vscode.cpptools`. The first
  two groups also accept line terminators, so publisher and extension may
  hold a carriage return.
- The program keeps no list of outcomes and measures no time. For each
  record it prints a progress line before the download (line 66) and then a
  success line (line 69) or a failure line (line 71). The model records the
  attempts themselves: ordinal, file name, address, destination and result.
- `main` creates the download directory before it runs the listing command,
  so a listing failure still leaves the directory created.

## Model

| member | source | states |
|---|---|---|
| Text.FirstIndex | download-vsix.js:28 | the result is the position of the first occurrence of the character, or the length when there is none: no earlier position holds it |
| Text.Split | download-vsix.js:24 | `split("\n")` yields at least one segment and no segment holds a line feed |
| Text.JoinSplit | download-vsix.js:24 | gluing the segments back with line feeds gives the original text: splitting loses nothing |
| Text.SplitJoin | download-vsix.js:24 | splitting glued segments that hold no line feed gives exactly those segments back |
| Text.NonEmpty | download-vsix.js:25 | `filter(Boolean)` keeps no empty string, keeps only strings of the input, and is no longer than the input |
| Text.NonEmptyKeeps | download-vsix.js:25 | every non-empty line survives the filter |
| Text.NonEmptyAppend | download-vsix.js:25 | the filter works line by line, so it keeps the relative order of the lines |
| Text.NonEmptyOfNonEmpty | download-vsix.js:25 | a list with no empty string passes the filter unchanged |
| Listing.ParseLine | download-vsix.js:28-29 | when a line matches, the record's three fields satisfy the group constraints and `publisher + "." + extension + "@" + version` is the line itself |
| Listing.ParseLineComplete | download-vsix.js:28-29 | every text of the pattern's shape matches, and yields exactly the fields it was built from |
| Listing.ParseLineIff | download-vsix.js:28-29 | a line yields record x if and only if x's fields meet the group constraints and spell the line |
| Listing.SplitIsUnique | download-vsix.js:28 | a line splits into the three groups in at most one way |
| Listing.SplitPoints | download-vsix.js:28 | the publisher ends at the line's first `.` and the extension ends at the first `@` after it |
| Listing.ParseLineNone | download-vsix.js:29 | a line yields no record exactly when no well-formed record spells it |
| Listing.RejectsNoDot | download-vsix.js:28-29 | a line without `.` is dropped |
| Listing.RejectsLeadingDot | download-vsix.js:28-29 | a line starting with `.` is dropped |
| Listing.RejectsNoAt | download-vsix.js:28-29 | a line with no `@` after its first `.` is dropped |
| Listing.RejectsEmptyExtension | download-vsix.js:28-29 | a line whose first `.` is directly followed by `@` is dropped |
| Listing.RejectsBadVersion | download-vsix.js:28-29 | a line whose text after the separating `@` is empty or holds a line terminator is dropped |
| Listing.CarriageReturnLineDropped | download-vsix.js:28 | a line ending in a carriage return never matches, because `.` does not match it |
| Listing.CarriageReturnLinesDropped | download-vsix.js:26-31 | output whose every line ends in a carriage return (CRLF line endings) yields no records |
| Listing.FilterMap | download-vsix.js:26-31 | `map(...).filter(Boolean)` never yields more values than it is given; with FilterMapAppend, FilterMapOrder and FilterMapCons it is fully pinned down: the values of the elements that map to one, in input order |
| Listing.FilterMapAppend | download-vsix.js:26-31 | `map(...).filter(Boolean)` over two lists joined is the two results joined |
| Listing.FilterMapOrder | download-vsix.js:26-31 | each kept value comes from some input position, and those positions strictly increase |
| Listing.ParseLines | download-vsix.js:26-31 | there are no more records than lines, and every record is well-formed |
| Listing.ParseLinesAppend | download-vsix.js:26-31 | records of two blocks of lines are the records of the first block followed by those of the second |
| Listing.ParseLinesOrder | download-vsix.js:26-31 | the k-th record is parsed from a line whose position increases with k |
| Listing.ParseLinesAt | download-vsix.js:26-31 | a matching line's record sits after the records of the lines before it and before those of the lines after it |
| Listing.ParseOutput | download-vsix.js:22-31 | the records of the listing are no more than its non-empty lines, well-formed, and each spells one of the output's lines |
| Listing.ParseOutputRoundTrip | download-vsix.js:22-31 | reading what the listing command prints for a list of printable records gives back exactly that list, in order |
| Listing.NoiseLineDropped | download-vsix.js:23-31 | output made of two extension lines with a noise line (no `.`) between them and a final line feed gives the two records in order, the noise dropped |
| Registry.FileName | download-vsix.js:64 | the file name is exactly seven characters (`.`, `-` and `.vsix`) longer than the three fields together |
| Registry.FileNameParts | download-vsix.js:64 | the file name begins with the publisher and ends in `.vsix` |
| Registry.VsixUrl | download-vsix.js:39-40 | the address is `https://open-vsx.org/api/` + publisher + `/` + extension + `/` + version + `/file/` followed by exactly the file name the loop builds at line 64, so it begins with the API root and ends with that name |
| Registry.UrlInjective | download-vsix.js:39-40 | two records with the same download address are the same record |
| Registry.FileNameAmbiguous | download-vsix.js:64 | two different records, one with `-` in its extension and one with `-` in its version, get the same file name but different addresses; both are well-formed whenever the parts meet the group constraints |
| Batch.IsSuccessStatus | download-vsix.js:50 | a status that passes the check is a 2xx status; no other 2xx status passes (see OnlyOkPasses) |
| Batch.OnlyOkPasses | download-vsix.js:50 | every 2xx status other than 200 (201, 204, 206, …) is treated as a failure |
| Batch.Download | download-vsix.js:43-57 | a download succeeds exactly when a response with status 200 arrives and its body is streamed to the end |
| Batch.JoinPath | download-vsix.js:65 | the destination path ends with the file name |
| Batch.DownloadAll | download-vsix.js:60-73 | one attempt per record, in index order: attempt i has ordinal i + 1, record i's address, file name and destination, and succeeds exactly when the i-th reply is a complete 200, whatever earlier attempts did |
| Batch.Run | download-vsix.js:77-85 | the directory is ensured first; a listing failure ends the run with no download; otherwise every parsed record is attempted in listing order |

## Left out

- Running `code --list-extensions --show-versions` (line 22): an external process; the model takes its outcome as a `ListResult`, the output text or a failure.
- The HTTP request, redirect following (at most 5 hops), response streaming, `pipe` and the file write stream (lines 44-56): network and file I/O; the model takes the reply to the i-th request from a function `registry` and reduces it to `Download`'s success or failure.
- axios rejects non-2xx statuses itself before line 50 is reached; both routes end in the same failure, and the model does not separate them.
- An error emitted by the file write stream (line 51) has no listener in `downloadVsix`, so it is not turned into a rejection: `pipe` (line 53) re-emits it with no listener left, it is thrown as an uncaught exception outside the `try` of lines 67-72 and ends the process, so the records after it are never attempted. The model does not cover file-system write errors.
- `ensureDir` with `fs.existsSync` and `fs.mkdirSync` (line 16): a file-system side effect, recorded only as the `EnsureDir` effect at the head of the run and assumed to succeed; in the source a failing `mkdirSync` throws out of `main` at line 79 and ends the run before the listing.
- `path.join` normalisation and the platform's path separator (lines 13, 65): `JoinPath` joins with `/`.
- The text of the console messages (lines 66, 69, 71, 82, 84): presentation only; the ordinal printed at line 66 is kept in each attempt.
- DownloadAll, Run: every download is assumed to settle. axios is given no timeout (lines 44-49), and the promise of lines 52-56 settles only on the file stream's `finish` or the response's `error`; in the source a stalled response leaves the `await` of line 68 pending and stops the loop at that record, and a write-stream error is thrown as an uncaught exception and ends the process; either way the records after it are never attempted.
- The waiting of `async`/`await`: the loop is modelled as sequential, which is what awaiting each download makes it.
