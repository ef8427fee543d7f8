# Barcode scan demo: the output contract between scanner and server

The system is a small web demo for scanning train-ticket barcodes. A Go HTTP
server saves an uploaded image and runs a C++ scanner executable on it. The
scanner is built on stb_image and ZXing. It prints one record per decoded
barcode. The server's `parseOutput` then turns what the scanner printed into
the JSON record `{success, barcode, result}`. This project models both ends
of that contract and proves what each side does and what the server makes of
the scanner's lines.

- `sequences.dfy` (module `Sequences`): a regrouping fact about
  concatenation that the string proofs share.
- `server.dfy` (module `Server`): the parts of Go's `strings` package the
  parser relies on.
  - The parser calls `HasPrefix` and `SplitN`.
  - `SplitN` cuts at the first separator found by `IndexOf` (IndexByte).
    It follows Go's genSplit for every limit: zero, negative and positive.
  - `Count` gives the number of parts for a negative limit.
  - `Join` is not used by the parser. It is the reference the lemmas
    rejoin the parts with.
  - `parseOutput` is modelled as `ParseOutput`. Its result is an `Outcome`:
    either the returned `Result`, or `IndexOutOfRange` for the run-time
    panic Go raises when `parts[1]` or `parts[2]` does not exist.
  - It also models the CORS origin and the scan address built from `Config`.
- `scan.dfy` (module `Scanner`): the scanner's `main`.
  - C strings follow C's rules: `strlen` stops at the first NUL, and
    `strncmp` reads the NUL past the end.
  - It models the argument check, the `-b` test, the file choice and the
    load failure.
  - The imperative loop is the method `Scan`, which writes one record per
    barcode to standard output or standard error.
  - `Scan` is proved equal to the specification function `Expected`. The
    stream lemmas are proved about `Expected`.
- `pipeline.dfy` (module `Pipeline`): lemmas that parse the scanner's
  text-mode output with the server's parser.

Inputs the model cannot see become parameters:
- `loads` stands for `stbi_load`. It says whether the image named by a C
  string loads.
- `barcodes` stands for what `ZXing::ReadBarcodes` returned.
- Each `Barcode` carries the library's renderings of that barcode: the
  format name, the hex text and the error text.

The scanner writes one record per decoded barcode, with no separator in
`-b` mode. `NOT_FOUND` records go to standard error and end in a newline
only when there is an error text.

## Model

| member | source | states |
|---|---|---|
| Server.HasPrefix | cmd/server/server.go:41 | the prefix test holds exactly when "OK" is a prefix of the text |
| Server.SplitAtMost | cmd/server/server.go:45 | the loop of genSplit for a positive limit: cut at the first separator, at most `n - 1` times; it gives between one and `n` parts |
| Server.SplitN | cmd/server/server.go:45 | `strings.SplitN` for a one-byte separator: no parts exactly for limit 0, and at most `n` parts for a positive limit |
| Server.ParseOutput | cmd/server/server.go:36-51 | `parseOutput`: when it returns, `success` holds exactly for "OK"-prefixed text, and a failure is the zero record `{false, "", ""}`; otherwise it panics with `IndexOutOfRange` |
| Server.IndexOfFirst | cmd/server/server.go:45 | the separator search finds a position exactly when the text holds the separator, and then the first one |
| Server.SplitNJoin | cmd/server/server.go:45 | for every non-zero limit, the parts of `SplitN` joined with the separator give back the input |
| Server.SplitNLength | cmd/server/server.go:45 | `SplitN` gives no parts for limit 0; for a positive limit, the limit or one more than the number of separators, whichever is smaller; for a negative limit, one more than the number of separators |
| Server.SplitNSeparators | cmd/server/server.go:45 | no part but the last holds a separator, and the last holds none unless the limit was reached |
| Server.SplitNUnique | cmd/server/server.go:45 | with a positive limit, `SplitN` is the only split with those properties that rejoins to the input |
| Server.ParseNotOk | cmd/server/server.go:41-43 | text without the "OK" prefix gives the zero record `{false, "", ""}` |
| Server.ParsePanicIff | cmd/server/server.go:45-48 | the parser panics exactly for "OK"-prefixed text with fewer than two commas |
| Server.ParseFields | cmd/server/server.go:45-48 | "OK"-prefixed text `head,barcode,rest`, with no comma in `head` or `barcode`, gives that barcode and the whole of `rest` |
| Server.ParseSuccessShape | cmd/server/server.go:45-48 | a successful record is the text between the first and second comma, plus everything after the second; the barcode holds no comma |
| Server.ParseRoundTrip | cmd/server/server.go:45-48 | `"OK," + barcode + "," + rest` gives back the barcode and the rest whenever the barcode has no comma |
| Server.ParseOkLine | cmd/server/server.go:41-48 | any `OK,<middle>,<rest>` text is returned as a success, whatever commas it holds |
| Server.ParseMissingResult | cmd/server/server.go:45-48 | `OK,<barcode>` with no second comma makes the parser panic |
| Server.ParseOkayExample | cmd/server/server.go:41 | the prefix test is "OK" and not "OK,", so "OKAY,a,b" is a success with barcode "a" |
| Server.ParseExtraCommaExample | cmd/server/server.go:45-48 | only the first two commas cut, so the result keeps "Widget,Extra" |
| Server.ParsePlainExample | cmd/server/server.go:45-48 | "OK,12345,WidgetABC" gives barcode "12345" and result "WidgetABC" |
| Server.ParseShortExample | cmd/server/server.go:45-48 | "OK,12345" makes the parser panic |
| Server.CorsOrigin | cmd/server/server.go:111 | the origin header is the host, a colon, then the port |
| Server.ScanUrl | cmd/server/server.go:134 | the scan address is six bytes longer than host plus port and ends in "/scan" |
| Server.ScanUrlExtendsOrigin | cmd/server/server.go:134 | the scan address is the CORS origin followed by "/scan" |
| Server.DefaultAddresses | cmd/server/server.go:151-157 | with the default configuration the origin is http://localhost:54623 and the scan address http://localhost:54623/scan |
| Server.OriginNotInjective | cmd/server/server.go:111 | nothing is validated: a colon in the host or the port makes two configurations share one origin |
| Scanner.Strlen | zxing/scan.cpp:25 | `strlen` is the position of the first NUL, or the whole length when there is none |
| Scanner.CStr | zxing/scan.cpp:34-36 | the text a `char*` denotes is the NUL-free prefix of the argument that runs up to its first NUL or to its end |
| Scanner.IsBytesFlag | zxing/scan.cpp:25 | the flag test as written: `strlen(argv[1]) > 1` and `strncmp(argv[1], "-b", strlen(argv[1])) == 0`; `BytesFlagExactly` says what it accepts |
| Scanner.BytesOnly | zxing/scan.cpp:25-27 | `bytes_only` is set when `argc >= 3` and the flag test passes; `BytesOnlyIff` says when that is |
| Scanner.BytesFlagExactly | zxing/scan.cpp:25 | the `strlen`/`strncmp` test accepts an argument exactly when its C string is "-b" |
| Scanner.BytesFlagExamples | zxing/scan.cpp:25 | "-b" and "-b\0x" select bytes mode; "-", "-bx", "-c" and "" do not |
| Scanner.BytesOnlyIff | zxing/scan.cpp:25-27 | bytes mode is on exactly when there are at least two arguments and the first is the C string "-b" |
| Scanner.Filename | zxing/scan.cpp:25-30 | the file name is the first or the second argument |
| Scanner.FilenameChoice | zxing/scan.cpp:25-30 | with "-b" and a further argument the file is the second argument; without "-b", or with only one argument, it is the first |
| Scanner.LoneFlagIsFilename | zxing/scan.cpp:25-30 | a lone "-b" is taken as the file name, not as the flag |
| Scanner.UsageMessage | zxing/scan.cpp:17 | the usage line: `ERROR,Usage: [-b]`, the program name with no space before it, ` <image-file>` and a newline |
| Scanner.LoadFailureMessage | zxing/scan.cpp:36 | the load failure line: `ERROR,Failed to load image: `, the file name as a C string, and a newline |
| Scanner.TextLine | zxing/scan.cpp:80 | the text-mode record `OK,<format>,<hex>` and a newline; `ParseRoundTrip` and `SingleBarcodeRoundTrip` read it back |
| Scanner.NotFoundRecord | zxing/scan.cpp:70-73 | an invalid barcode's record: `NOT_FOUND`, then `,<error>` and a newline only when there is an error |
| Scanner.Expected | zxing/scan.cpp:14-86 | the whole run as a function of the arguments, the loader and the decoder: the usage error, the load failure, or the two streams with exit code 0; `Scan` is proved equal to it |
| Scanner.Scan | zxing/scan.cpp:14-86 | the imperative `main` gives exactly the standard output, standard error and exit code of `Expected` |
| Scanner.UsageError | zxing/scan.cpp:16-19 | without an image argument: exit code 1, empty standard output, and standard error starts with "ERROR," |
| Scanner.LoadFailure | zxing/scan.cpp:34-38 | an image that does not load: exit code 1, empty standard output, and an "ERROR," line naming the file |
| Scanner.ExitCodeIff | zxing/scan.cpp:14-86 | the exit code is 0 exactly when there is an image argument and the image loads, and 1 otherwise |
| Scanner.TextLineThen | zxing/scan.cpp:80 | a text-mode line followed by more output still starts with `OK,<format>,` |
| Scanner.StdoutAppend | zxing/scan.cpp:67-83 | standard output for two runs of barcodes is the concatenation of the two outputs |
| Scanner.StderrAppend | zxing/scan.cpp:67-75 | standard error for two runs of barcodes is the concatenation of the two |
| Scanner.ValidOnly | zxing/scan.cpp:67-75 | the barcodes kept are valid ones taken from the decoder's list, and every valid barcode of the list is kept |
| Scanner.ValidOnlyAppend | zxing/scan.cpp:67-75 | keeping the valid barcodes preserves decode order: those of two lists are those of the first followed by those of the second |
| Scanner.StdoutIsRecords | zxing/scan.cpp:67-83 | standard output is one record per valid barcode, in decode order: raw bytes in bytes mode, an `OK,<format>,<hex>` line otherwise |
| Scanner.RecordsAppend | zxing/scan.cpp:77-81 | the records of two lists of barcodes concatenate |
| Scanner.NoValidNoStdout | zxing/scan.cpp:67-83 | with no valid barcode, standard output stays empty |
| Scanner.AllValidNoStderr | zxing/scan.cpp:67-75 | when every barcode is valid, standard error stays empty |
| Scanner.NotFoundRunsTogether | zxing/scan.cpp:69-75 | two invalid barcodes without error text print "NOT_FOUNDNOT_FOUND", with no newline between them |
| Pipeline.CleanRun | zxing/scan.cpp:67-85 | a loaded image whose barcodes are all valid exits with 0 and writes nothing on standard error, so the combined output is standard output |
| Pipeline.FirstBarcodeParsed | cmd/server/server.go:45-48 | applied to text-mode output, the parser returns the first valid barcode's format as `barcode`, and its hex plus all later lines as `result`, when that format has no comma |
| Pipeline.SingleBarcodeRoundTrip | cmd/server/server.go:45-48 | one valid barcode whose format has no comma comes back as `{true, format, hex + "\n"}` |
| Pipeline.TextModeNeverPanics | cmd/server/server.go:41-48 | text-mode output never makes the parser panic, and the parser reports success exactly when a valid barcode was found |
| Pipeline.BytesModeCanPanic | zxing/scan.cpp:77-78 | bytes mode has no framing: a barcode whose content is "OK" makes the parser panic |

## Left out

- The HTTP handlers are not modelled: the multipart upload, the temporary file, JSON encoding, the Content-Type and Content-Length headers, and the 500 responses. They are I/O around `parseOutput`. Only the CORS origin value (cmd/server/server.go:111) is modelled.
- Running the scanner is not modelled (cmd/server/server.go:92-97). That covers the subprocess, its cancellation, and how `CombinedOutput` interleaves the two streams. It also covers the error that makes the server answer 500 without parsing when the exit code is non-zero. `Pipeline.CleanRun` states when the combined output is standard output alone.
- `homePage` template parsing and execution are not modelled. Only the address handed to the template is (cmd/server/server.go:134).
- `logRequest` and all logging are not modelled. `main`'s flag parsing, template file read and server start are left out too; only the default configuration is kept.
- stb_image and ZXing are inputs, not code: `loads` and `barcodes`. So are the renderings `ToString(format)`, `ToString(error)` and `ToHex(bytes)`, which are fields of `Barcode`. The decoder options and the pixel buffer are left out.
- `std::endl` is modelled as a newline; its flush is left out.
- With `argc == 0`, `argv[0]` is a null pointer and streaming it is undefined in C++. The model prints an empty program name.
- Strings are sequences of `char`, one per byte. Go strings and C byte streams are not modelled as separate types, and there is no text encoding.
- `Server.SplitN` handles only the one-byte separator `parseOutput` uses. The empty separator and separators longer than one byte are left out.
