# A model of the MIME codecs

This project models the four codecs of the library in Dafny and proves what ties their halves
together: the multipart writer and reader, the quoted-printable writer and reader, the reader that
repairs broken UTF-8 characters in quoted-printable text, and the header codecs (RFC 2047
encoded-words, media types with the parameter extensions of RFC 2231).

`dafny verify dfyconfig.toml` checks everything.

## How the model is laid out

Objects whose methods change fields are classes with the same fields (`Part`, `Reader`, `Writer`,
`RErr`, `PMTErr`, the in-place line buffer and the two buffers of the UTF-8 reader). Each method is
proved against a small functional meaning, and the properties are proved about that meaning. A stream
is a byte sequence that ends; a sink is a byte sequence that only grows.

| files | what they hold |
|---|---|
| `Bytes`, `Bufio`, `Streams`, `Runes`, `Base64` | byte strings, the 4096-byte peek window, folding a machine over its input, UTF-8 lengths, base64 |
| `Delimiter`, `PartScan`, `PartIteration`, `MultipartReader` | the delimiter search, one peek, the part iterator, the classes |
| `MultipartWriter`, `MultipartRoundTrip`, `MultipartTruncation`, `MultipartForeign`, `MultipartSession` | the generator, when a message reads back, what is read of a message that was cut, messages of other writers, both ends together |
| `QPText`, `QPWriterSpec`, `QPWriter`, `QPReader`, `QPMeaning`, `QPRoundTrip`, `QPSession` | quoted-printable text and its grammar, the writer as a machine, the classes, text of other writers, the round trips |
| `Utf8Repair`, `Utf8Undo`, `QPUtf8`, `Utf8Session` | the repair machine, its conservation and undo laws, the class, whole runs |
| `EncodedWord`, `HeaderMeaning`, `WordCodec` | words and headers, headers of other writers, the encoder and decoder loops |
| `MediaType`, `MediaTypeLaws`, `MediaTypeGrammar`, `MediaTypeExtended`, `MediaTypeFormat`, `MediaTypeCodec` | parsing, its laws, the values without errors, extended values, formatting, the loops |

## What the proofs found

Each of these is a theorem with an exact condition, and where a property fails there is a lemma with
a concrete input. Where the code falls short of its documentation the model follows the code.

- A part reader delivers the bytes in front of the first true delimiter of the whole stream if and
  only if that delimiter, with its padding and newline, fits the 4096-byte window
  (`Delimiter.WindowedEndIsTrueEnd`). A longer delimiter line is taken for data
  (`Delimiter.PaddedDelimiterIsMissed`).
- `NextPart` takes any unterminated last line, and a bare end of the stream, for the end of the
  message: the test `err == io.EOF || err == io.EOF && ...` at multipart/multipart.go:316 never
  looks at the line. A message that was never closed is read exactly like the closed one
  (`MultipartTruncation.NeverClosed`). A cut can be noticed only inside a header block, where
  `NextPart` passes on whatever the header parser returns (`MultipartTruncation.CutIsRead`). Nothing
  here shows that any truncation is reported: that error may be `io.EOF`, which also stands for a
  clean end.
- A multipart message comes back if and only if no body holds a line that reads as a delimiter
  line; avoiding the boundary string at the start of lines is enough.
- The quoted-printable writer keeps its `cr` flag up while it escapes bytes, so in text mode an LF
  that follows a CR with only escaped bytes between them is dropped. Text comes back with its line
  endings turned into CRLF if and only if there is no such LF (`QPRoundTrip.StrayLFIsLost` has the
  three-byte input).
- The UTF-8 reader swallows the byte behind a release that exactly fills the caller's slice
  (`Utf8Repair.LetterIsSwallowed`). Every run delivers what the repair makes of the text without
  exactly the bytes that directly follow such a call, and all of it when there is none
  (`Utf8Session.Repair`). The reader gives nothing, without an error, to a slice no longer than what
  it holds; and a text that ends in CR, LF or CRLF directly behind an unbroken character of two or
  three bytes loses that character and the line break (`Utf8Undo.EndIsDelivered`,
  `Utf8Undo.LastLetterIsLost`).
- A text that needs no encoding is sent as it is, and decoding the header gives it back if and only if
  nothing in it can be decoded as a word (`EncodedWord.ComesBackIff`, `EncodedWord.LooksEncoded`).
- Encoded-words are bounded by 77 (Q) and 76 (base64) characters rather than the 75 of section 2 of
  RFC 2047, because the constant leaves out the two characters of the encoding; both bounds are
  reached. A word keeps to 75 if and only if its payload has at most 63 characters (Q) or stands for
  at most 45 bytes (base64); base64 text without four-byte characters does if and only if it has at
  most 45 bytes, and fully escaped Q text always does.
- `ParseMediaType` has a nil error exactly on the well-formed values of a grammar
  (`MediaTypeGrammar.NilErrorIffWellFormed`), and an error that `IsOkPMTError` accepts on every other
  value but the empty one.
- `FormatMediaType` and `ParseMediaType` are inverse, with a nil error, if and only if every
  parameter name is in lower case and without a star and every value is non-empty and without CR
  and LF (`MediaTypeFormat.EmptyValueIsLost` for a value that is lost); this includes those non-ASCII
  values that the test of bit 0x80 lets through.

## Model

| member | source | states |
|---|---|---|
| Delimiter.WindowedEndIsTrueEnd | multipart/multipart.go:432-460 | the end of a body found through windows is never before the first true delimiter of the whole stream, and is it if and only if that delimiter fits one window (or there is none) |
| Delimiter.PaddedDelimiterIsMissed | multipart/multipart.go:432-460 | a concrete stream on which the two ends differ: 4096 blanks behind the boundary |
| Delimiter.PrefixShowsDelimiter | multipart/multipart.go:441-459 | a peek shows a true delimiter if and only if it holds all of it |
| Delimiter.SkipLWSPDrops | multipart/multipart.go:465-470 | skipping white space drops the leading blanks and nothing else |
| Delimiter.TrueEnd | multipart/multipart.go:198-201 | the first position of a true delimiter in the stream, or the end of the stream |
| Delimiter.VisibleEnd | multipart/multipart.go:198-201 | the first position at which a full window shows a true delimiter, or the end of the stream |
| PartScan.EndsHereIsDelimiterTail | multipart/multipart.go:441-459 | the verdict on the bytes behind the boundary is exactly: two dashes, or blanks and a newline |
| PartScan.SafeCountIsSafe | multipart/multipart.go:202-218 | no peek makes the reader pass a delimiter, false candidates and the safety margin included; it stands still only in front of one or at the end of the stream |
| PartScan.VisibleEndShift | multipart/multipart.go:198-223 | consuming bytes of a body leaves the same end |
| PartScan.IsEmptyPartThroughWindow | multipart/multipart.go:415-430 | exactly when the empty-part test on a full window agrees with the one on the whole stream |
| PartScan.EmptyPartMeans | multipart/multipart.go:415-430 | the empty-part test accepts exactly a boundary, blanks and a newline, or a closing boundary, blanks, and a newline or the end |
| PartScan.LeftAfter | multipart/multipart.go:188-190 | once a byte was consumed, what is left of a part no longer depends on the empty-part test |
| MultipartReader.ChooseCopy | multipart/multipart.go:202-218 | the branches that choose `nCopy` compute the safe count |
| MultipartReader.Part.Read | multipart/multipart.go:171-231 | delivered bytes, side buffer and unread stream stay the original stream; never past the end of the part; a non-empty slice gets a byte or the end; the end is reported only when nothing is left |
| MultipartReader.Part.Fill | multipart/multipart.go:181-223 | a peek moves bytes into the side buffer without passing the end of the part, and leaves it empty only at that end |
| MultipartReader.Part.ReadBuffer | multipart/multipart.go:173-179 | delivering from the side buffer counts the bytes and leaves the rest of the same part |
| MultipartReader.Part.Close | multipart/multipart.go:233-236 | draining leaves the stream exactly at the end of the part |
| MultipartReader.Reader.constructor | multipart/multipart.go:108-118 | a new reader stands at the start of the stream with CRLF line ends |
| MultipartReader.Reader.IsBoundaryDelimiterLine | multipart/multipart.go:382-403 | recognises boundary lines, and switches to LF on the first one only |
| MultipartReader.Reader.NewPart | multipart/multipart.go:120-157 | a part starts behind the first blank line, or fails when the stream ends before it |
| MultipartReader.Reader.NextLine | multipart/multipart.go:314-367 | one turn of the loop is one step of the functional iteration |
| MultipartReader.Reader.OtherLine | multipart/multipart.go:343-366 | final, unexpected, skipped and separator lines |
| MultipartReader.Reader.NextPart | multipart/multipart.go:308-368 | drains the current part, then ends where the functional iteration over the drained stream ends, with the same result |
| MultipartSession.BodyEndIsTrueEnd | multipart/multipart.go:171-231 | a part that is not empty is what stands in front of the first true delimiter of the stream, if and only if that delimiter fits a window |
| MultipartSession.ReadChunks | multipart/multipart.go:171-231 | for any slice sizes the pieces read make up the front of the part, and all of it at the end, which comes at the latest when there were more non-empty slices than bytes |
| MultipartSession.Receive | multipart/multipart.go:308-368 | iterating and reading every part gives the bodies of the functional iteration, whatever the slices |
| MultipartWriter.PartWriter.Write | multipart/writer.go:178-187 | appends to the last body, or refuses once the part is closed |
| MultipartWriter.Writer.SetBoundary | multipart/writer.go:46-66 | accepts exactly 1 to 69 of the listed characters, before any part |
| MultipartWriter.BoundaryCharIs | multipart/writer.go:54-63 | the listed characters are the letters, the digits and twelve marks |
| MultipartWriter.Writer.CreatePart | multipart/writer.go:87-116 | closes the previous part and starts the next one on a fresh line; what is added to the sink is a delimiter line and a header block that, read field by field, says exactly the header; the sink stays the text of the parts |
| MultipartWriter.FieldsReadBack | multipart/writer.go:99-106 | cutting each line of a written block at its first colon gives the header back, keys without a colon and lines without CR or LF |
| MultipartWriter.WriteHead | multipart/writer.go:93-106 | the loop over the header writes the delimiter, one line for each field, and a blank line |
| MultipartWriter.Writer.Close | multipart/writer.go:156-165 | the sink is the whole message of the parts written |
| MultipartWriter.OpenTextAppend | multipart/writer.go:94-106 | one more part adds its head and body at the end of the message |
| MultipartRoundTrip.DelimiterFollows | multipart/multipart.go:441-459 | what the writer puts behind a body is a true delimiter that fits the window |
| MultipartRoundTrip.CannotCross | multipart/multipart.go:437-440 | a boundary without CR cannot start inside a body and reach over the line break behind it |
| MultipartRoundTrip.BodyReadsBack | multipart/multipart.go:198-230 | a body ends where it was written to end if and only if none of its lines reads as a delimiter line |
| MultipartRoundTrip.AvoidingIsEnough | multipart/writer.go:83-116 | a body that neither starts with the boundary nor has it behind a CRLF qualifies |
| MultipartRoundTrip.HeaderReadsBack | multipart/multipart.go:152-157 | a written header block is consumed exactly |
| MultipartRoundTrip.ScanAtDelimiter | multipart/multipart.go:308-368 | behind a body the iteration finds the next part, or the end |
| MultipartRoundTrip.MessageReadsBack | multipart/writer.go:87-165 | for any list of parts under an accepted boundary: exactly the bodies in order and then the end, if and only if no body holds a delimiter line |
| MultipartSession.Transmit | multipart/writer.go:87-187 | the same on real objects: bodies written in any pieces, read with any slices |
| MultipartForeign.BareEndsAtOnce | multipart/multipart.go:183-190 | an empty part with its delimiter directly behind the header ends at once, also in front of the closing delimiter |
| MultipartForeign.BodyEndsAtDelimiter | multipart/multipart.go:198-230 | with CRLF or LF line ends and blanks behind boundaries, a body ends at its delimiter if the boundary never stands at the start of one of its lines |
| MultipartForeign.DelimiterStartsPart | multipart/multipart.go:382-403 | a delimiter line with blanks starts a part, and the first one sets the line end of the message |
| MultipartForeign.ClosingEnds | multipart/multipart.go:373-380 | the closing line with blanks ends the message, with or without a newline and an epilogue behind it |
| MultipartForeign.ForeignMessageIsRead | multipart/multipart.go:308-368 | messages of other writers (LF or CRLF, padded delimiters, empty bodies without a line break, preamble and epilogue) are read as exactly their bodies |
| MultipartForeign.JunkBehindClosingFails | multipart/multipart.go:348-350 | a closing line with anything but blanks behind it is an error |
| MultipartForeign.OrdinaryLineFails | multipart/multipart.go:348-366 | behind the first part, a line that is neither a newline nor a boundary line is an error |
| MultipartForeign.LongLineFails | multipart/multipart.go:315-326 | a line that does not fit the buffer is an error |
| MultipartTruncation.HeaderCut | multipart/multipart.go:152-157 | no proper front of a header block has the blank line that ends it |
| MultipartTruncation.EmptyByCut | multipart/multipart.go:415-430 | a cut makes a part look empty only where it leaves a closing boundary and blanks |
| MultipartTruncation.CutInBody | multipart/multipart.go:314-323 | a message cut inside a body, or before the delimiter behind it can be told, is read to a clean end, with what is left as the last body |
| MultipartTruncation.CutIsRead | multipart/multipart.go:308-368 | for every message with clean bodies and every cut: the whole bodies in front of the cut and what is left of the body that was cut are read, and the header parser's error is met if and only if the cut leaves a delimiter line and not the whole header block behind it; otherwise the reading ends as if the message were complete |
| MultipartTruncation.NeverClosed | multipart/multipart.go:314-323 | a message without its closing delimiter is read exactly like the closed one, if no body has the boundary at the start of a line |
| QPWriterSpec.RunConcat | quotedprintable/writer.go:31-63 | how the input is cut into `Write` calls makes no difference to output or state |
| QPWriterSpec.StepKeeps | quotedprintable/writer.go:76-125 | every byte keeps whole encoded lines and a line of whole tokens of at most 75 bytes, and adds exactly what it denotes to the decoded text |
| QPWriterSpec.SoftBreakKeeps | quotedprintable/writer.go:146-159 | a soft break changes nothing of what was said |
| QPWriterSpec.HardBreakKeeps | quotedprintable/writer.go:85-95 | a hard break adds CRLF, if the line does not end in a blank |
| QPWriterSpec.CheckLastByteKeeps | quotedprintable/writer.go:130-144 | a blank at the end of a line becomes an escape with the same meaning |
| QPWriterSpec.ClosedIsEncoded | quotedprintable/writer.go:67-73 | the closed sink obeys rules 1 to 5 of section 6.7 of RFC 2045 and decodes to what the input denoted |
| QPWriter.Writer.Write | quotedprintable/writer.go:31-63 | batched writing is the byte-at-a-time machine, and returns the length of the input |
| QPWriter.Writer.WriteUpTo | quotedprintable/writer.go:41-46 | a pending batch is the machine over its bytes |
| QPWriter.Writer.WriteOne | quotedprintable/writer.go:77-106 | a literal byte or line break, in the 78-byte array |
| QPWriter.Writer.Encode | quotedprintable/writer.go:112-125 | an upper-case escape, on a new line when fewer than three bytes are free |
| QPWriter.Writer.CheckLastByte | quotedprintable/writer.go:130-144 | escapes a blank at the end in place |
| QPWriter.Writer.InsertSoftLineBreak | quotedprintable/writer.go:146-151 | an equals sign and a line end, within the array |
| QPWriter.Writer.Close | quotedprintable/writer.go:67-73 | flushes to a text within the rules that decodes to what was written |
| QPReader.Reader.Read | quotedprintable/reader.go:150-282 | for any slice sizes the calls deliver the line-by-line decoding piece by piece; tolerant reading ends in EOF only; strict reading ends in EOF if and only if no error was recorded |
| QPReader.Reader.ReadLine | quotedprintable/reader.go:169-198 | reading a line leaves what remains to be delivered unchanged |
| QPReader.Reader.Trim | quotedprintable/reader.go:177-197 | trimming, soft breaks and the line end that is put back; records exactly the bad soft breaks |
| QPReader.Reader.TakeByte | quotedprintable/reader.go:249-278 | one escape or one byte, a bad escape being a literal equals sign; records an error exactly where the text is not clean |
| QPReader.RErr.Add | quotedprintable/reader.go:43-52 | keeps the first four errors |
| QPReader.StrictIsPrefix | quotedprintable/reader.go:88-106 | the strict output is a prefix of the tolerant one, and all of it when no error is recorded |
| QPText.DecodeAll | quotedprintable/reader.go:150-198 | decoding never yields more bytes than it reads |
| QPText.LinesConcat | quotedprintable/reader.go:169-198 | whole lines decode independently of what follows them |
| QPText.DecodeHardLine | quotedprintable/reader.go:177-197 | a line of tokens that does not end in a blank decodes to its bytes and CRLF |
| QPText.DecodeSoftLine | quotedprintable/reader.go:182-190 | a line that ends in an equals sign decodes to its bytes alone |
| QPMeaning.ItemIsDecoded | quotedprintable/reader.go:249-278 | printable bytes, escapes with digits of either case, bytes that should have been escaped and stray equals signs: what each decodes to, and which are mistakes |
| QPMeaning.LineContent | quotedprintable/reader.go:177-197 | of a line with any line end, blanks in front of the end are dropped and nothing else; an equals sign joins it to the next one |
| QPMeaning.TextIsDecoded | quotedprintable/reader.go:150-282 | text of any mix of LF and CRLF lines, hard and soft, decodes to what its lines mean, and the strict reader finds an error if and only if there is a mistake in it |
| QPRoundTrip.EncodedDecodes | quotedprintable/writer.go:31-168 | every input gives a text within the rules that decodes to what the input denoted |
| QPRoundTrip.BinaryRoundTrip | quotedprintable/writer.go:31-73 | binary mode loses nothing |
| QPRoundTrip.FlagIsUp | quotedprintable/writer.go:78-106 | the `cr` flag is up exactly when a CR is followed by escaped bytes only |
| QPRoundTrip.TextRoundTrip | quotedprintable/writer.go:76-125 | text comes back with its line endings turned into CRLF if and only if no CR is separated from a later LF by escaped bytes and nothing else |
| QPRoundTrip.StrayLFIsLost | quotedprintable/writer.go:112-125 | the concrete input on which an LF is lost |
| QPRoundTrip.PrintableIsKept | quotedprintable/writer.go:31-110 | printable text that does not end in a blank is written as it is, but for soft breaks every 75 bytes |
| QPRoundTrip.StrictReadsEncoded | quotedprintable/reader.go:88-96 | the strict reader finds nothing wrong with the writer's output |
| QPSession.ReadChunks | quotedprintable/reader.go:150-282 | any run of calls delivers the remaining text in order, fills every slice until the end, and then says so |
| QPSession.Transmit | quotedprintable/writer.go:31-73 | both ends together, for any pieces written, any slices read, tolerant or strict: the output is at every time the front of what the input denotes, and all of it at the end; that is the input itself in binary mode, and in text mode the input with CRLF line ends if and only if no stray LF is lost |
| Utf8Repair.StepConserves | quotedprintable/qputf8.go:72-160 | every byte is kept, unless it joins two parts of a character or is swallowed |
| Utf8Repair.StepKeepsShape | quotedprintable/qputf8.go:72-160 | what each state holds has its shape, at most five bytes |
| Utf8Repair.FeedConserves | quotedprintable/qputf8.go:72-160 | on any input, emitted and held bytes are the input with nothing deleted but LF or CRLF blocks, each directly behind a lead byte with at most two continuation bytes and directly before a continuation byte |
| Utf8Repair.CallsCompose | quotedprintable/qputf8.go:39-70 | two calls deliver what one call on both pieces would |
| Utf8Repair.FilledCallLosesByte | quotedprintable/qputf8.go:147-156 | after a release that exactly filled a slice, precisely the next byte is lost |
| Utf8Repair.LetterIsSwallowed | quotedprintable/qputf8.go:147-156 | a concrete loss: a four-byte letter read into a slice of four bytes costs the letter behind it |
| Utf8Undo.BreaksAreUndone | quotedprintable/qputf8.go:72-160 | at most one line break put inside each multi-byte character is taken back, and nothing else is changed |
| Utf8Undo.Utf8HasPieces | quotedprintable/qputf8.go:72-160 | every well-formed UTF-8 text is made of the pieces that these laws speak of |
| Utf8Undo.Utf8ComesBack | quotedprintable/qputf8.go:72-160 | well-formed UTF-8 passes through unchanged, and comes back from every way to put at most one line break inside each of its characters |
| Utf8Undo.ModeAtEnd | quotedprintable/qputf8.go:47-51 | the machine ends behind a line break it holds exactly when the text ends in one directly behind an unbroken character of two or three bytes |
| Utf8Undo.EndIsDelivered | quotedprintable/qputf8.go:47-51 | all of the text is delivered if and only if it does not end so |
| Utf8Undo.LastLetterIsLost | quotedprintable/qputf8.go:47-51 | a concrete text that loses its last letter and newline |
| QPUtf8.FoldGrows | quotedprintable/qputf8.go:53-61 | output and held bytes never outgrow what was held and read, so the slice is never overrun |
| QPUtf8.Reader.Release | quotedprintable/qputf8.go:162-185 | emits held bytes as far as there is room, then starts over |
| QPUtf8.Reader.Switch | quotedprintable/qputf8.go:89-146 | the cases that touch the held bytes show the machine's verdict, in six bytes |
| QPUtf8.Reader.CycleByte | quotedprintable/qputf8.go:73-156 | one turn of the loop is one step of the machine, with every index in range |
| QPUtf8.Reader.Cycle | quotedprintable/qputf8.go:72-160 | the loop is the machine over the buffer; a slice is filled only behind the last byte |
| QPUtf8.Reader.Flush | quotedprintable/qputf8.go:47-52 | what is given out at the end, and in which states |
| QPUtf8.Reader.Read | quotedprintable/qputf8.go:39-70 | a call runs the machine on one more piece; the leftover branch is never taken (`Valid` has `pcb == ccb`); a slice no longer than what is held gets nothing |
| Utf8Session.DropLength | quotedprintable/qputf8.go:147-156 | all of a text is left exactly when no byte of it was swallowed |
| Utf8Session.LostGrows | quotedprintable/qputf8.go:147-156 | with one more call, the byte that directly follows a call whose release filled its slice is lost, and no other |
| Utf8Session.CallsAccount | quotedprintable/qputf8.go:39-70 | whatever the calls, they have delivered what the machine makes of the input without exactly these bytes, each of which stands directly behind a release |
| Utf8Session.RunIsAccountedFor | quotedprintable/qputf8.go:39-70 | the same of a whole run; at its end all that is due was delivered if and only if the last slice had room for what is flushed |
| Utf8Session.AmpleRun | quotedprintable/qputf8.go:53-61 | no release fills a slice of 519 bytes or more, and none is too short |
| Utf8Session.SwallowedButNotMissed | quotedprintable/qputf8.go:147-156 | a swallowed byte need not show in the output: a lone lead byte at the end would not be delivered anyway |
| Utf8Session.Repair | quotedprintable/qputf8.go:39-70 | every run, for any pieces and any non-empty slices, is a chain of calls that accounts for what was delivered: what the machine makes of the text without the bytes directly behind a call whose release exactly filled its slice; without such a call nothing is lost |
| Utf8Session.RepairBroken | quotedprintable/qputf8.go:39-70 | the same for a text with broken characters; if nothing was lost and the last slice was not too short, it is delivered whole if and only if it does not end in a line break directly behind a held character |
| Base64.RoundTrip | encodedword.go:306-310 | base64 is lossless |
| Base64.DigitIs | encodedword.go:79-108 | the digits are the alphabet of section 4 of RFC 4648 |
| Base64.DigitsHoldBits | encodedword.go:79-108 | four digits hold the bits of three bytes, the highest first |
| Base64.NewlinesAreIgnored | encodedword.go:306-310 | newlines inside base64 text make no difference |
| EncodedWord.QRoundTrip | encodedword.go:142-155 | Q decoding undoes Q encoding, and no payload contains a question mark |
| EncodedWord.ContentRoundTrip | encodedword.go:306-315 | the same for both encodings |
| EncodedWord.UnitCost | encodedword.go:121-130 | what the encoder counts for a unit is what it writes, and one unit always fits |
| EncodedWord.SplitIsFit | encodedword.go:79-139 | no word is empty or over its limit, and nothing is lost between them |
| EncodedWord.WordsAreUtf8 | encodedword.go:92-94 | every word of well-formed UTF-8 is well-formed (section 5 of RFC 2047) |
| EncodedWord.WordLength | encodedword.go:68-75 | whole words have at most 77 (Q) and 76 (B) characters |
| EncodedWord.WordTooLong | encodedword.go:68-75 | 77 is reached: 65 plain letters and one character that does not fit behind them |
| EncodedWord.Base64WordTooLong | encodedword.go:68-77 | 76 is reached by every text of 48 bytes that needs encoding |
| EncodedWord.WordWithin75 | encodedword.go:68-77 | a word is within the 75 characters of RFC 2047 if and only if its payload has at most 63 characters (Q), or stands for at most 45 bytes (base64) |
| EncodedWord.OneWordWithin75 | encodedword.go:79-139 | text that fits one word is within 75 characters if and only if it keeps to these sizes |
| EncodedWord.Base64Within75 | encodedword.go:79-108 | base64 text without four-byte characters is within 75 characters if and only if it has at most 45 bytes |
| EncodedWord.EscapedWithin75 | encodedword.go:112-139 | Q text of which every byte is escaped always is |
| EncodedWord.WordIsFound | encodedword.go:245-275 | a word is found with exactly its fields and its end |
| EncodedWord.DecodeWords | encodedword.go:285-297 | blanks between words are dropped and the words decode to their concatenation |
| EncodedWord.HeaderRoundTrip | encodedword.go:231-304 | decoding a header undoes encoding under UTF-8 in any case, for both encodings, however many words there are |
| EncodedWord.DecodingShrinks | encodedword.go:244-303 | decoding a word makes an ASCII text shorter |
| EncodedWord.ComesBackIff | encodedword.go:36-50 | of all texts, those come back that need encoding or in which no candidate for a word can be decoded, and no others |
| EncodedWord.LooksEncoded | encodedword.go:36-50 | a concrete loss: a text that needs no encoding and is decoded as a word |
| HeaderMeaning.HeaderIsDecoded | encodedword.go:231-304 | in a header of any number of words (either case of encoding letter, all three charsets) all plain text is kept, but for white space that only separates two words |
| HeaderMeaning.UnknownCharsetFails | encodedword.go:333-339 | a word with an unknown charset makes the header fail |
| HeaderMeaning.QItemsDecode | encodedword.go:364-390 | Q text from any writer decodes to its literal characters, spaces for underscores, and escaped bytes of either case |
| HeaderMeaning.BadQTextIsRefused | encodedword.go:364-390 | any other byte, or an equals sign without two digits, makes a word invalid |
| HeaderMeaning.Latin1IsConverted | encodedword.go:321-324 | ISO-8859-1 becomes well-formed UTF-8 with the bytes as codes |
| HeaderMeaning.AsciiIsConverted | encodedword.go:325-332 | US-ASCII has its other bytes replaced by U+FFFD |
| HeaderMeaning.WordTextIsPrintable | encodedword.go:142-155 | the text of a word holds no space, no question mark and nothing unprintable; a space is written as an underscore |
| HeaderMeaning.WordIsItem | encodedword.go:158-168 | a word is its charset, a lower-case letter and its text between the marks |
| HeaderMeaning.OnlySpecialTextIsEncoded | encodedword.go:36-50 | printable ASCII and tabs are sent as they are, and everything else starts with a word |
| EncodedWord.ClosedIsJoined | encodedword.go:172-176 | closing and opening words one by one writes them separated by single spaces |
| WordCodec.EncodeHeader | encodedword.go:36-41 | only text that needs it is encoded, into the words of the functional splitting |
| WordCodec.BEncodeWords | encodedword.go:90-107 | the splitting loop writes the words of the functional splitting |
| WordCodec.QEncodeWords | encodedword.go:119-138 | the same for Q, `currentLen` being the characters really written |
| WordCodec.QMeasure | encodedword.go:121-130 | the counted length of a unit is the length of its encoding |
| WordCodec.StandsNext | encodedword.go:96-104 | one turn of either loop keeps the words and the current one in step with the splitting |
| WordCodec.WriteQString | encodedword.go:142-155 | appends the Q encoding |
| WordCodec.DecodeHeaderText | encodedword.go:231-304 | the loop over candidates is the functional decoding, unhandled charsets included |
| WordCodec.DecodeCandidate | encodedword.go:270-297 | one turn: invalid words are passed on, blanks between words are dropped |
| WordCodec.QDecodeText | encodedword.go:364-390 | decodes in place, refusing exactly the invalid words |
| MediaType.TokenLengthSpans | mediatype.go:335-344 | a token is as long as it can be |
| MediaType.TokenCharIs | grammer.go:13-23 | token characters are the printable ones but for the fifteen of RFC 2045 |
| MediaType.ConsumeMediaParam | mediatype.go:381-406 | a parameter has a name and a value and strictly shortens the input |
| MediaType.DecimalInjective | mediatype.go:282-283 | different piece numbers print differently |
| MediaType.PieceKeysDiffer | mediatype.go:282-298 | every turn of the unbounded loop looks up a key of its own |
| MediaType.PiecesAreBounded | mediatype.go:282-301 | so the loop ends: there are no more pieces than keys |
| MediaTypeLaws.ParseIsTolerant | mediatype.go:57-67 | `IsOkPMTError` accepts the error of every value but the empty one, and then there are a non-empty type and a map |
| MediaTypeGrammar.ReadIsQuotable | mediatype.go:359-378 | what is read as a quoted string stands between quotes and has none of them, nor a newline, inside unless behind a backslash |
| MediaTypeGrammar.QuotableIsRead | mediatype.go:359-378 | and every such string is read, up to its closing quote |
| MediaTypeGrammar.ParamWasRead | mediatype.go:381-406 | a parameter that is read is a semicolon, a token, an equals sign and a token or a quoted string that is not empty, with white space around them |
| MediaTypeGrammar.ParamIsRead | mediatype.go:381-406 | and every such text is read, up to the next parameter |
| MediaTypeGrammar.NilErrorIffWellFormed | mediatype.go:194-308 | the error is nil if and only if the value is well-formed: a type text, then parameters with distinct names, then at most white space and a semicolon |
| MediaTypeGrammar.QuotedSays | mediatype.go:359-378 | a quoted string says its characters, a backslash only protecting the one behind it |
| MediaTypeGrammar.WellFormedSays | mediatype.go:194-308 | a well-formed value without starred names says its type in lower case and exactly its parameters |
| MediaTypeGrammar.SemicolonDropsStarred | mediatype.go:225-230 | behind a trailing semicolon starred parameters are dropped without an error |
| MediaTypeGrammar.TypeIsRepaired | mediatype.go:158-185 | what is made of a type that is none, case by case |
| MediaTypeLaws.FirstWins | mediatype.go:245-265 | the first of duplicate names wins, in the plain and in the continuation tables |
| MediaTypeLaws.DuplicatesCounted | mediatype.go:261-265 | an error is recorded exactly when names repeat |
| MediaTypeLaws.OrderDoesNotMatter | mediatype.go:269-305 | the map returned does not depend on the order of parameters with distinct names |
| MediaTypeLaws.StitchedMeaning | mediatype.go:272-305 | a base name maps to its decoded `name*`, or else to the pieces up to the first missing index |
| MediaTypeLaws.PiecesAreParams | mediatype.go:245-265 | the pieces are the first parameters with those names |
| MediaTypeLaws.StitchedOverrides | mediatype.go:272-305 | a stitched value overrides the plain parameter of the same name, and all others stay |
| MediaTypeExtended.CodesAreUnescaped | mediatype.go:408-445 | percent escapes of either case are undone wherever they are used |
| MediaTypeExtended.BadEscapeIsRefused | mediatype.go:417-423 | a percent sign without two digits spoils the whole value |
| MediaTypeExtended.ExtendedIsDecoded | mediatype.go:310-325 | an extended value says the text behind its second apostrophe if its charset is UTF-8 or US-ASCII in any case, and nothing otherwise |
| MediaTypeExtended.FewApostrophesSayNothing | mediatype.go:311-314 | a value with fewer than two apostrophes says nothing |
| MediaTypeExtended.ExtendedParses | mediatype.go:194-308 | parsing a `name*` parameter gives its decoded text under `name` |
| MediaTypeExtended.PiecesParse | mediatype.go:194-308 | parsing the pieces `name*0`, `name*1*` and so on, escaped or not, gives their concatenation under `name` |
| MediaTypeCodec.LossyCheck | mediatype.go:158-185 | repairs the type and records what was wrong; serious exactly on the empty value |
| MediaTypeCodec.ConsumeQuoted | mediatype.go:359-378 | the loop over a quoted string |
| MediaTypeCodec.ParseParams | mediatype.go:219-267 | the parameter loop collects the parameters read one after the other, one error for each duplicate |
| MediaTypeCodec.StitchPieces | mediatype.go:280-301 | the unbounded loop stops and joins the pieces up to the first missing one |
| MediaTypeCodec.Stitch | mediatype.go:272-305 | visiting the base names in any order gives the same map |
| MediaTypeCodec.ParseMediaType | mediatype.go:194-308 | the whole parser: type, map, early returns, and the error with its flag |
| MediaTypeCodec.UnescapedLength | mediatype.go:430 | the buffer made after the first pass has exactly the length of the result |
| MediaTypeCodec.CountPercents | mediatype.go:410-425 | the first pass succeeds exactly on well-formed escapes and counts them |
| MediaTypeCodec.FillUnescaped | mediatype.go:431-443 | the second pass fills the buffer exactly |
| MediaTypeCodec.PercentHexUnescape | mediatype.go:408-445 | both passes together |
| MediaTypeCodec.SortedKeys | mediatype.go:91-95 | the attribute names in order, each once |
| MediaTypeCodec.Quote | mediatype.go:111-123 | the loop with a lagging `offset` puts a backslash before every quote and backslash, or refuses the value |
| MediaTypeCodec.FormatMediaType | mediatype.go:74-127 | formats the attributes in their one order, or returns nothing on a standard violation; parsing what it returns gives the arguments back, with a nil error, if and only if they survive |
| MediaTypeCodec.OneOrder | mediatype.go:91-95 | the order of the attributes does not depend on the iteration of the map |
| MediaTypeFormat.QuotedReadsBack | mediatype.go:111-124 | reading undoes quoting, unless there is a newline in the text |
| MediaTypeFormat.ValueReadsBack | mediatype.go:351-379 | a formatted value is consumed exactly, or not at all when it is empty or has a newline |
| MediaTypeFormat.ParamsReadBack | mediatype.go:219-267 | the loop reads back all formatted parameters, or stops with an error |
| MediaTypeFormat.ResultKeys | mediatype.go:245-256 | names in a parsed map are in lower case and have no star |
| MediaTypeFormat.FormatThenParse | mediatype.go:74-127 | parsing undoes formatting with a nil error if and only if every name is in lower case without a star and every value is non-empty without CR and LF |
| MediaTypeFormat.FormatsIff | mediatype.go:74-127 | something is formatted if and only if the type is a type text, every name a token, and every value a token or without a character that has the bit 0x80 in its code |
| MediaTypeFormat.QuotedLength | mediatype.go:111-124 | quoting adds one backslash for each quote and backslash, and nothing else |
| MediaTypeFormat.EmptyValueIsLost | mediatype.go:402-404 | a concrete loss: a parameter with an empty value is formatted and cannot be read back |

## Left out

- QPReader.Reader.Read: lines of 4096 bytes and more (the carry-over in `prev` and `last`, quotedprintable/reader.go:200-248 and 255-263), whose result differs from decoding whole lines for some splits; the model has the precondition that lines fit the buffer.
- QPReader.RErr.Add: errors are kept as kinds; their texts and `RErr.Error` are not modelled.
- QPUtf8.Reader.Read: the reader underneath ends with EOF and no other error; an empty slice is left out only where the source indexes it out of range (held bytes that are due at the end).
- EncodedWord.WordWithin75: for text of several words that mixes plain and escaped characters (Q), or has four-byte characters (base64), the condition is stated word by word only.
- MultipartTruncation.CutIsRead: the header parser of net/textproto is not part of this model. `HeaderError` stands for whatever it returns on a block without a blank line, which may be `io.EOF`, the value of a clean end; nothing here shows that any truncation is reported. For a malformed header the source returns a part together with the error.
- MultipartReader.Reader.NewPart: header fields stay opaque and are consumed through the first blank line; the error path for malformed headers, and the choice of a quoted-printable decoder by `Content-Transfer-Encoding` and charset, are not modelled, so parts are read raw.
- MultipartReader.Part.Read: read errors other than the end of the stream. The peek is taken to be as full as the stream allows, as `bufio.Reader.Peek` guarantees, so the sizes of the reads underneath do not show.
- MultipartWriter.WriteHead: the header is a sequence of fields in the order in which the map happens to be iterated.
- MultipartWriter.PartWriter.Write: sinks that fail (here and in the quoted-printable writer).
- WordCodec.DecodeHeaderText: a custom `CharsetReader`; charset names are folded as ASCII.
- MediaTypeCodec.ParseMediaType: case folding and white space are those of ASCII, without the Unicode tables.
- `CheckNextPart`: a near copy of the `NextPart` loop over whatever is buffered.
- `WordDecoder.Decode`, the buffer pool, `checkMediaTypeDisposition` (the strict twin of the lossy check), `CreateFormFile`, `WriteField`, and the accessors of `Part`: only easy members.
- multipart/formdata.go, type.go, type_unix.go and the random boundary: files, OS tables, locks and randomness.
