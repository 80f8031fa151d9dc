# mdembed marker filter, modelled in Dafny

`mdembed` reads a Markdown file, removes the lines that carry earlier
embedding metadata, sends the remaining text to an embeddings API and prints
the first vector it gets back. This project models the part of
`embeddings.go` that has behaviour worth stating exactly:

- `stripEmbedding`, the line filter. It reads the document line by line with a
  `bufio.Scanner`. It drops every line whose `strings.TrimSpace` form begins
  with `<!-- embedding:`. It writes every other line, followed by `"\n"`, to a
  `bytes.Buffer`.
- The decisions of `getEmbedding`. An empty API key is an error. A transport
  or decoding failure is passed on. An empty `data` list is the error
  "no embedding returned". Otherwise the result is the first entry.

Two modules:

- `GoText` (`gotext.dfy`) gives the Go library behaviour the filter relies on:
  `unicode.IsSpace`, `strings.TrimSpace` (left trim, then right trim),
  `strings.HasPrefix`, `bufio`'s `dropCR` and the `bufio.ScanLines` splitting of
  a whole text. Splitting happens at each `\n`. One trailing `\r` is dropped
  from every line. A last segment without `\n` is still a line. A final `\n`
  does not start an extra empty line.
- `Embeddings` (`embeddings.dfy`) holds the filter. `Kept` and `Terminated` are
  the specification: `Kept` gives the surviving lines, and `Terminated` gives
  each line followed by its newline. `StripEmbedding` is the scanning loop,
  with an accumulator for the buffer, proved equal to `Strip = Terminated ∘ Kept`.
  This module also holds the lemmas about which lines survive and about
  re-reading the output, and `GetEmbedding` with the HTTP exchange passed in
  as a function parameter.

The filter reads lines that the scanner has already split, so the method takes
a `seq<string>`. `ScanLines` is used only to state properties that concern
the text itself: re-scanning the output, and a document without marker lines
coming out unchanged.

Two consequences of the scanner's behaviour are worth knowing:

- The filter is not idempotent in general. The scanner drops one trailing
  `\r` per pass, but the filter writes each line as it is. A line `a\r\r\n`
  comes out as `a\r\n`, and the second pass gives `a\n`.
  `StripIdempotent` states exactly when a second pass changes nothing: when no
  kept line ends in `\r`.
- `StripUnmarkedText` proves that a document with no `\r` and no marker
  lines comes out unchanged, except for an added final newline when the
  document is not empty and does not already end in one. A `\r` right before
  a `\n`, or at the very end, is dropped by the scanner, so CRLF line endings
  come out as LF.

## Model

| member | source | states |
|---|---|---|
| `GoText.IsSpace` | embeddings.go:23 | the white space set of `unicode.IsSpace` that `strings.TrimSpace` removes: tab, newline, vertical tab, form feed, carriage return, space, U+0085, U+00A0, U+1680, U+2000 to U+200A, U+2028, U+2029, U+202F, U+205F and U+3000 |
| `GoText.TrimLeft` | embeddings.go:23 | the left half of `strings.TrimSpace`: leading white space removed, never longer than its input (characterised by `TrimLeftSpec`) |
| `GoText.TrimRight` | embeddings.go:23 | the right half of `strings.TrimSpace`: trailing white space removed, never longer than its input (characterised by `TrimRightSpec`) |
| `GoText.TrimSpace` | embeddings.go:23 | `strings.TrimSpace`: the left trim, then the right trim of what remains; never longer than its input (characterised by `TrimSpaceFactor` and `TrimSpaceOf`) |
| `GoText.HasPrefix` | embeddings.go:23 | `strings.HasPrefix`: the string is at least as long as the prefix and its first characters are the prefix |
| `GoText.DropCR` | embeddings.go:20-22 | `bufio`'s `dropCR`: one trailing carriage return removed, if there is one |
| `GoText.ScanLines` | embeddings.go:20-22 | the lines a `bufio.Scanner` with `ScanLines` yields for a whole text (characterised by `ScanLinesShape` and `ScanLinesCons`) |
| `Embeddings.IsMarker` | embeddings.go:23 | the test of the loop: the trimmed line begins with `<!-- embedding:` |
| `Embeddings.Kept` | embeddings.go:21-25 | the lines that reach the buffer: every line except marker lines, in order; never more than the input (characterised by `KeptAppend`, `KeptMembers`, `KeptAll`, `KeptNone`) |
| `Embeddings.Terminated` | embeddings.go:26 | what the buffer holds after writing each line followed by `"\n"` (tied to `strings.Join` by `TerminatedIsJoin`) |
| `Embeddings.Strip` | embeddings.go:18-28 | the string `stripEmbedding` returns: the kept lines, each followed by a newline (the specification `StripEmbedding` is proved against) |
| `GoText.TrimSpaceFactor` | embeddings.go:23 | the trimmed form of a line is the factor between a run of white space at the front and one at the back, and it neither starts nor ends with white space |
| `GoText.TrimSpaceOf` | embeddings.go:23 | trimming any white space from around a text whose ends are not white space gives back exactly that text |
| `GoText.TrimLeftSpec` | embeddings.go:23 | the left trim leaves the suffix that starts at the first non-space character and removes only white space |
| `GoText.TrimRightSpec` | embeddings.go:23 | the right trim leaves the prefix that ends at the last non-space character and removes only white space |
| `GoText.TrimSpaceDropCR` | embeddings.go:20-23 | dropping the scanner's trailing carriage return never changes a line's trimmed form, so it never changes whether the line is a marker line |
| `GoText.ScanLinesShape` | embeddings.go:20-22 | no scanned line contains a newline, there are no more lines than characters, and only the empty text has no lines |
| `GoText.ScanLinesCons` | embeddings.go:20-22 | a text that starts with a line and a newline scans to that line, without one trailing carriage return, followed by the lines of the rest |
| `Embeddings.StripEmbedding` | embeddings.go:18-29 | the loop's buffer ends up holding exactly the kept lines, in order, each followed by one newline |
| `Embeddings.KeptAppend` | embeddings.go:21-27 | filtering a concatenation is concatenating the filtered parts, so kept lines keep their original relative order |
| `Embeddings.KeptMembers` | embeddings.go:22-26 | a line is in the output exactly when it is an input line and not a marker line; kept lines are not altered, not even trimmed |
| `Embeddings.KeptAll` | embeddings.go:21-27 | the filter keeps every line exactly when no line is a marker line |
| `Embeddings.KeptNone` | embeddings.go:19-24 | the filter keeps nothing exactly when every line is a marker line, which includes a document with no lines |
| `Embeddings.TerminatedIsJoin` | embeddings.go:26 | for at least one line, writing each line with its newline is joining the lines with newlines and adding one final newline (no lines write the empty string) |
| `Embeddings.TerminatedNewlines` | embeddings.go:26 | for lines without a newline, as the scanner yields them, each written line contributes exactly one newline character |
| `Embeddings.StripShape` | embeddings.go:19-27 | the output is empty or ends in a newline, and it is empty exactly when every input line is a marker line |
| `Embeddings.StripNoMarkers` | embeddings.go:21-27 | for a document of at least one line and without marker lines, the output is the input lines joined with newlines plus a final newline (a document of no lines gives the empty string, see `StripShape`) |
| `Embeddings.StripLineCount` | embeddings.go:22-26 | for lines without a newline, as the scanner yields them, the output has one newline per kept line, and there are never more kept lines than input lines |
| `Embeddings.ScanTerminated` | embeddings.go:20-26 | for lines without a newline, as the scanner yields them, scanning the output again gives the written lines back, each without one trailing carriage return |
| `Embeddings.StripRescan` | embeddings.go:18-28 | for lines without a newline, as the scanner yields them, a second pass of the filter over its own output writes the kept lines, each without one trailing carriage return |
| `Embeddings.TerminatedDropCRs` | embeddings.go:20-26 | dropping carriage returns never lengthens the output, and shortens it when some line ends in one |
| `Embeddings.StripIdempotent` | embeddings.go:18-28 | for lines without a newline, as the scanner yields them, a second pass over the output gives the same output exactly when no kept line ends in a carriage return |
| `Embeddings.StripIdempotentWithoutCR` | embeddings.go:18-28 | the filter is idempotent on any document that has no carriage return |
| `Embeddings.CarriageReturnNotIdempotent` | embeddings.go:20-26 | the document `a\r\r\n` filters to `a\r\n`, and a second pass gives `a\n` |
| `Embeddings.TerminatedScanLines` | embeddings.go:20-26 | a document without carriage returns, scanned and written line by line, comes back unchanged, with a newline added unless it is empty or already ends in one |
| `Embeddings.StripUnmarkedText` | embeddings.go:21-27 | a document without carriage returns and without marker lines comes out unchanged, up to a final newline |
| `Embeddings.MarkerInSpacesRemoved` | embeddings.go:23 | a line `   <!-- embedding: x -->  ` is a marker line despite the white space around it |
| `Embeddings.MarkerAfterTextKept` | embeddings.go:23 | a line `text <!-- embedding: x -->` is not a marker line, because the marker does not start its trimmed form |
| `Embeddings.MarkerExamples` | embeddings.go:21-27 | of those two lines, only the second comes out, unaltered and followed by a newline |
| `Embeddings.FirstEmbedding` | embeddings.go:53-66 | a transport or decoding failure is passed on; an empty `data` list is the error "no embedding returned"; otherwise the result is the first entry |
| `Embeddings.GetEmbedding` | embeddings.go:42-66 | an empty key is the "key not set" error whatever the exchange would answer, and no other input gives that error; otherwise the result is what `FirstEmbedding` makes of the response to a request for the text with the fixed model: its first entry, the passed-on failure, or "no embedding returned" |

## Left out

- The HTTP request, its headers, `http.DefaultClient.Do` and the closing of the response body (embeddings.go:47-62). These are network I/O. `GetEmbedding` receives the exchange as a function from the request to its outcome.
- JSON encoding of the request and decoding of the response (embeddings.go:47, 60, 92). These belong to the `encoding/json` library. A decoding failure is one of the `Failed` outcomes of the exchange.
- The `float64` values of an embedding. `GetEmbedding` is generic in the entry type.
- `main` (embeddings.go:69-94): the argument count check, opening the file, `panic`, and printing to stdout. This is process and file I/O.
- Reading `OPENAI_API_KEY` with `os.Getenv` (embeddings.go:43). The key is a string parameter.
- Scanner read errors (`sc.Err()`, embeddings.go:28) and the scanner's 64 KiB token limit. These belong to the reader and to `bufio`, not to the filter. The model returns only the text.
- Byte-level UTF-8 handling in `strings.TrimSpace`. Strings are sequences of code points here, so invalid UTF-8 is not modelled.
- Embeddings.StripIdempotent: the filter is not idempotent for every input, because the scanner drops one trailing carriage return per pass. The lemma therefore states idempotence exactly when no kept line ends in a carriage return, and `CarriageReturnNotIdempotent` gives an input that shows the difference.
