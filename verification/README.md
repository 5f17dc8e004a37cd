# QL Quill document decoders

A Dafny model of the three decoders QStripper carries for QL Quill
word-processor documents (`_doc` files), and proofs about them.

A Quill document begins with a 20-byte header block: a 16-bit header-block
length (20), the magic `vrm1qdf0` at offsets 2..9, a big-endian 32-bit
pointer to the end of the body text at offset 10, and three table lengths at
14..19. The page header and page footer follow at offset 20, each ended by a
zero byte, and then the body text up to the pointer. Inside the body, byte 0
ends a paragraph and bytes 15..18 toggle bold, underline, subscript and
superscript.

- `QuillFormat` (quill_format.dfy): bytes, the magic, big-endian and signed
  32-bit reads, the zero-terminator scan, and the layout that `quill.cpp` and
  `mdichild.cpp` share.
- `Toggles` (toggles.dfy): the style-toggle machine both Qt decoders run.
  It keeps four "on" flags and a stack of open tags, and emits opening
  tags, closing tags and the "OUT OF SEQUENCE" marker.
- `Quill` (quill_doc.dfy): `QuillDoc::QuillDoc` and its getters. This is the
  permissive decoder. A paragraph break closes every open tag and resets
  all styles, HTML metacharacters are escaped, and 96 and 127 become
  `&pound;` and `&copy;`.
- `MdiChild` (mdi_child.dfy): `MdiChild::ReadQuillFile` and the empty-result
  test of `loadFile`. This is the strict decoder: styles carry across
  paragraphs, bytes pass through unescaped, and it reports whether any
  "off" toggle closed an attribute other than the most recent open one.
- `Stripper` (stripper.dfy): the per-file work of the QDOS `main`, its
  helpers `getline` and `getbuff`, and the body filter. The filter turns
  line ends into newlines, keeps tabs, drops control codes and wraps at
  column 80.
- `Results` (results.dfy): `Option`, `Result`, `Max`, `Min`.

The file is a `seq<byte>` and each stream read is an indexed read.
QDataStream returns 0 for a read that runs past the end of the file. A 16-bit
read that finds fewer than two bytes gives 0 as a whole, and each one-byte
read of the magic gives 0 on its own. The model reads the header-block length
and the magic this way. A file too short to hold them is therefore rejected
as the source rejects it. The Qt decoders never bound
their zero-terminator scans or the body loop. The model makes a read past the
end of the file after the magic an explicit `Failure` of type `Truncation`
(`ShortHeaderBlock`, `UnterminatedHeader`, `UnterminatedFooter`,
`ShortBody`), not a precondition. The stripper uses C stdio, where a read
past the end returns EOF (-1). The model follows that: `ReadChar` yields -1,
which the body filter drops, and `getline` returns 0, which `main` reports as
a read error.

Only quill.cpp checks the header-block length, which must be 20. mdichild.cpp
and stripper.c skip those two bytes unread. None of the three has a PC-format
dialect, character translation table or italic toggle. `quill.h` does not
declare the fields `quill.cpp` uses, so the model follows `quill.cpp`. It
reads the header-block length as an unsigned 16-bit value, the first thing
QDataStream reads in quill.cpp.

`loadFile` opens the file in `QFile::Text` mode (Qt 4). There every read drops
a byte 13, but `skipRawData` seeks over raw bytes. `TextModeStream` builds the
stream `ReadQuillFile` then sees: the first two bytes and the six table-length
bytes as stored, and every other byte read through text mode.

## Model

| member | source | states |
|---|---|---|
| QuillFormat.StreamMagicIffHasMagic | mdichild.cpp:105-113 | The eight magic bytes as QDataStream reads them, zero past the end of the file, equal `vrm1qdf0` exactly when the file holds the magic at offsets 2..9. Zero padding never forges it. |
| QuillFormat.BigEndian32 | quill.cpp:72-73 | The text-end pointer is the four bytes at offset 10, most significant first: its high and low halves are the two 16-bit words, and it is below 2^32. |
| QuillFormat.Signed32 | qdos/stripper.c:116 | stripper reads the pointer as a 68000 `long`: the same 32-bit pattern, in the signed range and congruent to the unsigned value modulo 2^32. |
| QuillFormat.FindZero | quill.cpp:81-86 | The terminator scan finds the first zero byte at or after the start: every byte before it is non-zero, and None means no zero up to the end of the file. |
| QuillFormat.ParseLayout | quill.cpp:72-95 | A file ending before offset 14 fails. On success the pointer is the big-endian word at 10, and the header is stored at offset 20 with no zero inside and a zero after it. The footer is stored the same way right after the header's terminator. The body start lies within the file. A missing header terminator means no zero byte from offset 20 on. |
| QuillFormat.LayoutNeedsTwoZeros | quill.cpp:78-95 | The header and footer parse exactly when the file reaches offset 14 and holds two zero bytes from offset 20 on. |
| QuillFormat.BodyBytes | quill.cpp:100-101 | The body loop reads max(0, pointer - (20 + \|header\| + 1 + \|footer\| + 1)) bytes, each the file byte at the matching offset. It fails (ShortBody) exactly when the pointer lies past both the end of the file and the body start. |
| Toggles.Toggle | quill.cpp:120-183 | A toggle whose flag is off pushes the attribute and emits its opening tag. One whose flag is on pops the stack and emits the closing tag, adding the OUT OF SEQUENCE marker and raising the error flag exactly when the popped entry is another attribute. The flag is negated, the control byte is never emitted, and the stack keeps one entry per flag that is on, so the pop never meets an empty stack. |
| Toggles.ToggleTwice | quill.cpp:120-135 | The same toggle twice restores the flags. It restores the whole state when the attribute was off, or on and on top of the stack. Otherwise the old top is replaced by the attribute and the error flag is raised. |
| Quill.EscapeByte | quill.cpp:115-118 | The text for a non-control body byte: tab, `<`, `>`, `&`, 96 and 127 become entities (so it starts with `&`), every other byte is itself, and no `<` or `>` is ever produced. Lines 185-187 supply the 96/127/default cases. |
| Quill.CloseAllLastInFirstOut | quill.cpp:105-112 | Emptying a stack emits the closing tags of the entries pushed last first. |
| Quill.Step | quill.cpp:102-188 | One body byte. Byte 0 turns every flag off and leaves the stack empty. It emits the closing tags of the whole stack, top first (`CloseAll`), followed by `</P>\n<P>`. A toggle byte is exactly the shared toggle of its attribute, so it flips only its own flag. Bytes 12 and 30 emit nothing and change nothing. Any other byte keeps the state and emits its escaped text. The stack/flag invariant is kept. |
| Quill.Run | quill.cpp:100-189 | The body loop keeps the stack size equal to the number of flags that are on. |
| Quill.FlagsFollowLastParagraph | quill.cpp:103-104 | After any body, an attribute is on exactly when its toggle byte occurs an odd number of times after the last paragraph break. |
| Quill.RunPrefix | quill.cpp:100-189 | Output is only ever appended: the text of any prefix of the body is a prefix of the text of the whole body. |
| Quill.NonControlByteEmitted | quill.cpp:115-187 | In any body, toggles and paragraph breaks included, every byte that is not a control byte has its escaped text emitted. The text comes right after the text of the bytes before it, so such bytes appear in order. |
| Quill.PlainBodyIsEscaped | quill.cpp:115-118 | A body with no control bytes leaves the state unchanged, and the text is the concatenation of its escaped bytes. |
| Quill.UnescapeEscape | quill.cpp:185-187 | Escaping loses nothing: the bytes are recovered from the escaped text. |
| Quill.PlainBodyRoundTrip | quill.cpp:98-189 | For a body with no control bytes, the decoded text reads back as exactly the body. |
| Quill.QuillDoc.IsValid | quill.cpp:235-238 | True exactly for a document the constructor decoded. |
| Quill.QuillDoc.GetError | quill.cpp:244-247 | The rejection message, or empty for a decoded document (line 192). |
| Quill.QuillDoc.GetText | quill.cpp:199-202 | The decoded body text. A rejected document never filled it, so it is empty. |
| Quill.QuillDoc.GetHeader | quill.cpp:217-220 | The page header. It is empty for a rejected document. |
| Quill.QuillDoc.GetFooter | quill.cpp:226-229 | The page footer. It is empty for a rejected document. |
| Quill.QuillDoc.GetTextLength | quill.cpp:208-211 | The text-end pointer read from offset 10. |
| Quill.Open | quill.cpp:32-193 | The length and magic are read as QDataStream reads them: a length cut short is 0, and each missing magic byte is 0. A header-block length other than 20 gives an invalid document with the length message (`HeaderLengthMessage`, line 55), and nothing more is read. A wrong magic gives the magic message (`MagicMessage`, line 68). A failure happens only after both checks pass. The document is valid exactly when both checks pass and the layout and body can be read. A valid document holds the pointer, the header and footer as Latin-1 text, and the decoded body. |
| Quill.ShortFileRejected | quill.cpp:51-70 | A file shorter than ten bytes is always an invalid document with a message: the length check or the magic check fails on QDataStream's zeros. A file shorter than two bytes reports length 0. |
| Quill.ValidIffNoError | quill.cpp:191-192 | A document is valid exactly when its error message is empty. A rejected one has empty text, header and footer. |
| Quill.ParagraphResetExample | quill.cpp:103-114 | Bold on, "A", a paragraph break, then "B" gives `<B>A</B></P>\n<P>B`. The state afterwards is the start state: bold does not reach "B". |
| MdiChild.Step | mdichild.cpp:142-213 | Byte 0 emits `</P>\n<P>` and changes no flag or stack. A toggle byte is exactly the shared toggle of its attribute, so it flips only its own flag. Bytes 12 and 30 emit nothing. Every other non-control byte, tab and `<` included, is emitted as itself. Only a toggle changes the state, and once the error flag is up it stays up. |
| MdiChild.Run | mdichild.cpp:140-214 | The loop keeps the stack size equal to the number of flags that are on. Once FormatError is true it stays true for the rest of the body. |
| MdiChild.RunPrefix | mdichild.cpp:141-214 | Output is only ever appended: the text of any prefix of the body is a prefix of the text of the whole body. |
| MdiChild.NonControlByteEmitted | mdichild.cpp:212 | In any body, toggles and paragraph breaks included, every byte that is not a control byte is emitted as itself. It comes right after the text of the bytes before it, so such bytes appear in order. |
| MdiChild.FlagsFollowWholeBody | mdichild.cpp:144 | Paragraph breaks reset nothing: an attribute is on exactly when its toggle byte occurs an odd number of times in the whole body. |
| MdiChild.PlainBodyPassesThrough | mdichild.cpp:212 | A body with no control bytes leaves the state unchanged and is copied through as Latin-1 text. |
| MdiChild.NoFormatErrorIffNested | mdichild.cpp:147-210 | FormatError stays false exactly when the toggles are strictly nested, meaning every "off" closes the most recent open attribute. While it is false, the stack lists the attributes still open, in opening order. |
| MdiChild.ReadQuillFile | mdichild.cpp:76-221 | A wrong magic gives the empty string. That includes a file too short to hold the magic, whose missing bytes QDataStream reads as 0. Otherwise the result is built by `Framed` (lines 216-219): `Header = H`, four newlines, `Contents = <P>` body `</P>`, four newlines, `Footer = F`. The result is empty exactly when the magic is wrong. A read past the end after the magic is a failure. |
| MdiChild.FirstTwoBytesIgnored | mdichild.cpp:102-103 | Files that differ only in their first two bytes decode identically. |
| MdiChild.DropCarriageReturns | mdichild.cpp:38 | What reads in QFile::Text mode return from a run of raw bytes: no 13 remains, and bytes without 13s come back unchanged. |
| MdiChild.DropKeepsOtherBytes | mdichild.cpp:38 | Text mode keeps every other byte value exactly as often as it occurs. |
| MdiChild.DropAppend | mdichild.cpp:38 | Dropping 13s distributes over concatenation, so the surviving bytes keep their order. |
| MdiChild.TextRead | mdichild.cpp:105-117 | n text-mode reads (the eight magic bytes and the 4-byte pointer) return at most n bytes, and fewer only at the end of the file. They consume at least as many raw bytes as they return, and when they return all n bytes the last raw byte consumed is the last one returned, not a skipped 13. |
| MdiChild.TextReadDrops | mdichild.cpp:105-117 | What the reads return is exactly the raw bytes they consumed, less their 13s. |
| MdiChild.TextReadPlain | mdichild.cpp:105-117 | Reads over bytes with no 13 return those bytes and consume exactly as many. |
| MdiChild.TextModeStream | mdichild.cpp:38-49 | The stream ReadQuillFile sees through loadFile's text-mode QFile is never longer than the file. |
| MdiChild.SkipsPassRawBytes | mdichild.cpp:103-124 | When the twelve bytes read between the two skips hold no 13, the stream is the file's first 20 bytes as stored, then the rest without its 13s: `skipRawData(2)` and `skipRawData(6)` pass over raw bytes. |
| MdiChild.PlainFileUnchanged | mdichild.cpp:38 | A file with no byte 13 reaches ReadQuillFile exactly as stored. |
| MdiChild.SkippedCarriageReturnKept | mdichild.cpp:120 | A 13 among the skipped table lengths stays in the stream. For a file with 13 at offset 15 the stream is the file itself, so the page header is read at offset 20, where dropping every 13 would change the file. |
| MdiChild.LoadFile | mdichild.cpp:52-61 | ReadQuillFile runs over the text-mode stream (`TextModeStream`, lines 38 and 46). The file is rejected as "not a Quill file" exactly when that stream lacks the magic. Otherwise the non-empty text is shown, with the out-of-sequence warning exactly when FormatError was set. |
| Stripper.GetLine | qdos/stripper.c:186-198 | getline returns a non-zero value exactly when a zero byte comes within the first n-1 reads. The value is then the number of characters before that zero plus one, at most n-1, and no earlier byte is zero. |
| Stripper.GetBuff | qdos/stripper.c:201-210 | getbuff reads the first min(n-1, bytes left) bytes of the stream and returns that count plus one, so it never returns 0. |
| Stripper.MagicRead | qdos/stripper.c:92-107 | The eight characters read after skipping two bytes equal `vrm1qdf0` exactly when bytes 2..9 of the file hold the magic. |
| Stripper.BodyChars | qdos/stripper.c:150-151 | The body loop reads one character per position from curpos up to, excluding, endpos. A position past the end of the file gives EOF. |
| Stripper.StripStep | qdos/stripper.c:153-174 | 0, 10 and 13 write one newline and reset the column. A tab is copied and counts one column. Other codes below 32, and EOF, write nothing. A printable character other than a space at column 80 is written last, preceded by a newline when the column is 80 (`StripStepPrintable` states the space case). A newline is written exactly in those cases, and only a tab can push the column past 80. |
| Stripper.StripStepPrintable | qdos/stripper.c:165-173 | A space at column 80 writes only the newline and resets the column. Every other printable character writes exactly itself, after a newline and with the column back at 1 when the column was 80, otherwise one column further. |
| Stripper.StripRun | qdos/stripper.c:149-176 | The loop writes only newlines, tabs and printable characters. Without tabs, the column starting at 0 never exceeds 80. |
| Stripper.RunKeepsColumn | qdos/stripper.c:149-176 | The column counter always equals the number of characters written since the last newline. Without tab bytes, no written line is longer than 80. |
| Stripper.PastColumnNeverWraps | qdos/stripper.c:165-173 | The wrap test is `wide == MAX_WIDE`. Once a tab has taken the column past 80, printable characters are copied one for one and never wrapped again. |
| Stripper.StripTextFromLayout | qdos/stripper.c:148-176 | The text written for a converted file is the body filter run from column 0 over the characters from the Qt layout's body start up to the text-end pointer read as signed. |
| Stripper.StrippedLinesFit | qdos/stripper.c:32 | In a converted file whose body, as the loop reads it, has no tab, every line of the output fits in MAX_WIDE = 80 columns. |
| Stripper.EndPos | qdos/stripper.c:116 | endpos is the text-end pointer as a signed 32-bit value. |
| Stripper.Strip | qdos/stripper.c:90-176 | A file is reported as not a Quill file exactly when bytes 2..9 are not the magic. It is a read error exactly when, with the magic right, either getline returns 0. Otherwise it is converted. |
| Stripper.CountsFollowLayout | qdos/stripper.c:120-136 | Both getline counts (`HeaderCount`, `FooterCount`: the header and footer calls at lines 121 and 129) are non-zero exactly when the layout parses with a header and a footer each shorter than 119 characters. Then curpos = 20 + both counts is the layout's body start, and endpos is the layout's pointer read as signed. |
| Stripper.StripAgreesWithLayout | qdos/stripper.c:92-150 | The stripper converts a file exactly when the magic is right and the Qt layout parses with header and footer under 119 characters. The filtered body then starts at the Qt body start and ends at the pointer read as signed. |
| Stripper.OutputName | qdos/stripper.c:138-140 | The output name is outdir, then the file name without its five-character device prefix and four-character extension, then `_txt`. A name shorter than nine characters keeps everything after the prefix, because strncat's count wraps as an unsigned size_t. |

## Left out

- Quill.Open: a read past the end of the file after the magic is a `Truncation` failure. Qt's QDataStream yields 0 there, which ends the header or footer scan and feeds zeros to the body loop. The length and magic reads return 0 past the end, as in the source.
- MdiChild.ReadQuillFile: a read past the end of the file after the magic is a `Truncation` failure, for the same reason as Quill.Open.
- MdiChild.LoadFile: inherits ReadQuillFile's `Truncation` failure for a file whose text-mode stream has the magic but ends inside the layout or body.
- Quill.QuillDoc.GetTextLength: requires a decoded document. A rejected one never assigns `fTextLength`, so the source returns an uninitialised value.
- Stripper.GetLine: requires n >= 2. For smaller n the loop never runs and the source tests an uninitialised `c`. Every call passes 120.
- Stripper.OutputName: requires a file name of 5 to 31 characters. `filename` and `output` are 32-byte buffers and the name starts with a five-character device prefix. Overflowing those buffers is not modelled.
- Stripper.MagicRead: a file too short to supply eight magic characters is "not a Quill file". In the source, `strcmp` would also compare stale bytes left by `fs_headr`. The byte after the eight characters (`buffer[8]`) is taken to be 0; in the source it is left over from `fs_headr`.
- `s[++f]` in getline and getbuff writes one byte past the characters read and can run past the buffer. The model keeps the return values and offsets, not the char arrays.
- File and stream I/O: QFile, QDataStream, fopen, fclose, fputc. The file is a byte sequence and the output is a returned string. The failure to open the output file (`goto oops`, which then closes a null stream) is not modelled.
- QDOS calls (`fs_headr` and its error branch, `sd_clear`, `fgetchid`), `printf` messages, the argument loop of `main`, and the usage text.
- `loadFile`'s file-open failure, its message boxes, `setHtml` and `setCurrentFile`.
- getbuff's zero return: getbuff always returns its count plus one, so main's two `read error` branches after getbuff cannot be taken.
