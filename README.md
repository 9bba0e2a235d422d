# Ticket generator to e-mail: a Dafny model of its pipeline

The Go service answers `POST /generate-qr` with an e-mail address, an event id
and a ticket quantity. It produces one PDF ticket per ticket number and mails
all of them to the buyer in one message. This project models and proves that
pipeline as written in `main.go`. The model has three parts:

- **Ticket generation** (`generateSeparatePDFs`): a transaction hash is taken
  over event id, quantity, e-mail and Unix time. Each ticket `i = 1..quantity`
  gets the code `<hash>-<i>`, and its PDF is written to
  `<event>_ticket_<i>.pdf`. The function returns the list of file names. The
  first PDF that cannot be written ends the batch with that error.
- **Message assembly** (`sendEmailWithAttachments`, `addAttachment`): a
  multipart/mixed message (section 5.1 of RFC 2046) is built in a
  `bytes.Buffer`. Its boundary is `----` followed by a random value in hex.
  After the header block and a plain-text part comes one part per attachment,
  with the file's base name in its headers. Each file is read in chunks of at
  most 1024 bytes and streamed through a base64 encoder (section 4 of RFC 4648).
  Each attachment file is removed right after its part is appended. After the
  close delimiter, the message goes to SMTP.
- **Base64 streaming**: the encoder holds 0-2 bytes of an unfinished group
  between writes and emits the padded final quantum on `Close`.

Modules, one file each:

- `Common`: bytes, `Option`/`Result`, the errors, `bytes.Buffer` and
  sequence facts.
- `Formatting`: `%d`, `%x`, `hex.EncodeToString` and `filepath.Split`, each
  with the parser that inverts it.
- `Base64`: encoding, a decoder and the stream encoder class.
- `Os`: a file system with scripted faults.
- `Tickets`: ticket generation.
- `Mime`: the message and its reader, the attachment loop on values, and the
  methods.
- `Pipeline`: the two steps of the request handler composed.

What the Go code calls outside `main.go` becomes a parameter of the model:
SHA-256, the clock, `rand.Int63n`, PDF rendering and whether SMTP accepts the
message. The file system is a `map<string, seq<byte>>` held by a class. Fixed
fault sets decide which create, open and remove calls fail. A per-path read
script decides how many bytes each `Read` delivers and where a read error
happens. A script of only `Give` steps is a file whose reads never fail but may
come back in short chunks.

A ticket service of this kind is meant to generate tickets concurrently and
keep records of them, to skip a ticket that fails without losing the rest, and
to delete the PDFs only once the mail has gone out. `main.go` does none of
these, and the model follows the code. Each of the points below is a proved
property, except where it describes what the code lacks:

- Tickets are generated one after another in index order, not by concurrent
  tasks: when ticket k's write fails, the file system holds exactly the PDFs
  of tickets 1..k-1 and no later ticket has been written. See
  `Tickets.GenerateSeparatePdfs` and `Tickets.OtherFilesKept`. The code also
  has no lock and keeps no record of transactions or tickets; the model has
  nothing of either.
- Generation is all-or-nothing. The first failed PDF write returns that error
  and no list; tickets are not skipped one by one. The PDFs already written
  stay on disk. See `Tickets.GenerateSeparatePdfs` and `Tickets.FirstFailure`.
- Each attachment file is removed as soon as its part is appended, before the
  message is sent. A later failed attachment or a failed SMTP send therefore
  still leaves the earlier attachments deleted, where keeping the files until
  the send succeeds was intended. See `Mime.AttachedRemovals` and
  `Mime.SendEmailWithAttachments`.
- Attachments appear in ticket order, because generation is sequential. See
  `Pipeline.TicketsDelivered`.

## Model

| member | source | states |
|---|---|---|
| Formatting.Numeral | main.go:190 | `%x` (and `%d` for magnitudes) prints at least one digit of the base, with no leading zero unless the value is 0 |
| Formatting.NumeralValue | main.go:190 | the digits `%x`/`%d` print denote exactly the value printed |
| Formatting.NumeralLength | main.go:190 | a value below base^k takes at most k digits |
| Formatting.Decimal | main.go:80 | `%d` of an int: a '-' exactly for a negative value, and decimal digits otherwise |
| Formatting.DecimalRoundTrip | main.go:70 | `%d` of any int, negative included, parses back to that int |
| Formatting.DecimalInjective | main.go:80 | two ints print the same `%d` text exactly when they are equal |
| Formatting.HexEncode | main.go:75 | `hex.EncodeToString` gives two lower-case hex digits per byte |
| Formatting.HexRoundTrip | main.go:75 | the hex text decodes back to exactly the bytes encoded |
| Formatting.Split | main.go:228 | `filepath.Split` returns dir and file whose concatenation is the path, with no separator in the file part and dir empty or ending in a separator |
| Formatting.Basename | main.go:228 | the file name addAttachment puts in the part headers: the second result of `filepath.Split` |
| Formatting.SplitUnique | main.go:228 | those three properties admit exactly one split, so the base name is determined |
| Tickets.HashInput | main.go:70 | the text hashed: event id, `%d` of the quantity, e-mail and `%d` of the Unix time, with no separators |
| Tickets.HashInputsDiffer | main.go:70 | with the same event, quantity and e-mail, the hashed texts are equal exactly when the Unix times are |
| Tickets.TransactionHash | main.go:72-75 | the transaction hash is 64 lower-case hex digits and decodes back to the 32-byte digest |
| Tickets.TicketCode | main.go:80 | the QR payload of ticket i: the transaction hash, '-', then `%d` of i |
| Tickets.TicketCodeRoundTrip | main.go:80 | a ticket code reads back as its transaction hash and ticket index |
| Tickets.TicketCodesDistinct | main.go:80 | every code of a transaction starts with the hash and '-', and codes of different indices differ |
| Tickets.TicketFileName | main.go:83 | the PDF file name of ticket i: event id, "_ticket_", `%d` of i, ".pdf" |
| Tickets.TicketFileNameRoundTrip | main.go:83 | the ticket index can be read back from a PDF file name |
| Tickets.TicketFileNamesDistinct | main.go:83 | two tickets of an event get the same file name exactly when their indices are equal |
| Tickets.PdfEntries | main.go:78-84 | the writes of a batch of n tickets in order: ticket k's rendering under ticket k's file name |
| Tickets.WriteAll | main.go:84 | the file map after those writes, each replacing the contents at its path |
| Tickets.TicketFileNames | main.go:77-90 | the success list has one name per ticket 1..quantity in index order, and is empty for a quantity below 1 |
| Tickets.TicketFileNamesUnique | main.go:83-88 | no two names of a batch are equal |
| Tickets.WriteNext | main.go:84 | writing tickets 1..n is writing 1..n-1, then ticket n's PDF under its name |
| Tickets.PdfFileWritten | main.go:77-88 | after tickets 1..n are written, ticket k's file holds ticket k's PDF for every k <= n |
| Tickets.OtherFilesKept | main.go:77-88 | writing tickets 1..n leaves every path outside their names as it was |
| Tickets.PdfFilesWritten | main.go:77-88 | both of the above together |
| Tickets.FirstFailure | main.go:77-87 | the first index from i on whose write fails (or quantity + 1): every index before it writes, and it fails when in range |
| Tickets.GenerateSeparatePdfs | main.go:67-91 | returns all names in order when no write fails, otherwise the first failing file's error; the file system holds exactly the PDFs of the tickets before the failure |
| Os.ServeRead | main.go:240 | a successful read delivers 1..min(buffer, remaining) bytes; EOF only at the end; no bytes with an error |
| Os.ReadsDeliver | main.go:239-245 | how many bytes the reads deliver before EOF or the first read error: at most what remains, and all of it when no read fails |
| Os.ReadsFailExactly | main.go:240-244 | a script of only `Give` steps, however short the chunks, always reaches EOF; one failing at once never does |
| Os.File.Read | main.go:240 | the buffer prefix receives the next file bytes, the position advances by the count, and a data read leaves unchanged whether the reads still to come fail and where they stop; an EOF or error read settles both |
| Os.FileSystem.CreateFile | main.go:84 | the write succeeds exactly for paths outside the create faults and then replaces that path's contents |
| Os.FileSystem.Open | main.go:222-225 | a handle at position 0 on the file's bytes exactly when the file exists and has no open fault |
| Os.FileSystem.Remove | main.go:206 | the path is removed exactly when it exists and has no remove fault; otherwise nothing changes |
| Common.Buffer.constructor | main.go:192 | `bytes.NewBuffer(nil)`: a new buffer holds no bytes |
| Common.Buffer.WriteString | main.go:193 | `WriteString` appends the text at the end of the buffer |
| Base64.SextetChar | main.go:236 | every 6-bit value has the alphabet character that decodes back to it |
| Base64.Quantum | main.go:236 | three bytes as four alphabet characters of six bits each, high bits first |
| Base64.Final | main.go:237 | one or two leftover bytes as two or three characters padded with '=' to four; nothing for none |
| Base64.Encode | main.go:235-249 | standard base64: one quantum per group of three bytes, then the final quantum of the 0-2 bytes left |
| Base64.QuantumRoundTrip | main.go:236 | a group of three bytes encodes to four characters that decode to those bytes |
| Base64.FinalRoundTrip | main.go:237 | the padded final quantum of one or two bytes decodes to those bytes |
| Base64.EncodedLength | main.go:236-237 | the encoding has four characters per started group of three bytes |
| Base64.RoundTrip | main.go:235-249 | decoding the encoding of any bytes gives those bytes back |
| Base64.EncodeCharset | main.go:236 | encoded text holds only alphabet and '=' characters, so no CR, LF or '-' (no line break or boundary inside a part) |
| Base64.GroupsAppend | main.go:246 | the groups of a whole number of groups followed by more input are the groups of each, in order |
| Base64.EncodeSplit | main.go:237 | the full encoding is the groups emitted so far followed by the final quantum of the bytes held back |
| Base64.Encoder.constructor | main.go:236 | a new encoder has consumed nothing and emitted nothing into the buffer |
| Base64.Encoder.Write | main.go:246 | a write adds its bytes to the input consumed and keeps the invariant: the buffer gained exactly the quanta of the complete groups consumed, with 0-2 bytes pending |
| Base64.Encoder.TopUp | main.go:246 | exactly as many leading bytes of the write as the pending group lacks (or all, if fewer) join the pending group and extend what was consumed, which only grows; the rest of the write is returned; the group is emitted when it reaches three bytes |
| Base64.Encoder.Interior | main.go:246 | with no group pending, the complete groups of the input are emitted and the remainder held back |
| Base64.Encoder.Close | main.go:237 | after any sequence of writes, the buffer holds the text it had at creation followed by the standard base64 encoding of everything written |
| Mime.Boundary | main.go:190 | "----" followed by `%x` of the random value |
| Mime.BoundaryShape | main.go:190 | for any value below 10^10 the boundary is "----" and 1 to 9 hex digits that give the value back |
| Mime.Delimiter | main.go:229 | the delimiter line that opens every part: CRLF, "--", the boundary, CRLF |
| Mime.CloseDelimiter | main.go:211 | the close delimiter: CRLF, "--", the boundary, "--", CRLF |
| Mime.HeaderBlock | main.go:193-196 | MIME-Version, To, Subject and a multipart/mixed Content-Type naming the boundary, each line ending in CRLF |
| Mime.TextPart | main.go:197-198 | the delimiter, the text/plain header, a blank line, the body and CRLF |
| Mime.PartHeader | main.go:229-233 | the delimiter, an application/pdf Content-Type naming the file, base64 transfer encoding, an attachment disposition naming the file, and a blank line |
| Mime.AttachmentPart | main.go:228-249 | an attachment's part: its header with the path's base name, then the base64 of the file's bytes |
| Mime.Parts | main.go:200-209 | the parts of the attachments, one per path in order |
| Mime.Message | main.go:192-213 | the message sent: header block, text part, the parts, then the close delimiter |
| Mime.PartsSnoc | main.go:200-204 | appending one more attachment part extends the parts text at its end |
| Mime.AfterTextIsCR | main.go:200-211 | what follows an attachment's base64 text starts with CR |
| Mime.ReadPartsRoundTrip | main.go:200-211 | the attachment parts and the close delimiter read back as exactly the encoded file bytes, in order, given the base names |
| Mime.MessageRoundTrip | main.go:192-211 | a reader recovers every attachment's bytes from the whole message: header block, text part, one part per attachment in order, close delimiter, nothing more |
| Mime.AttachError | main.go:221-245 | the error of addAttachment: an open failure when the path is missing or has an open fault, a read failure when a read meets an error before EOF, otherwise none |
| Mime.Delivered | main.go:239-245 | how many bytes of the file addAttachment reads and encodes before EOF or the read error: at most the file, and all of it when the attachment succeeds |
| Mime.AttachStep | main.go:201-208 | one round on values: an error stops the loop with the files as they were; otherwise the file's bytes are appended and its removal attempted |
| Mime.Attached | main.go:200-209 | the attachment loop on values: the rounds over the paths in order, stopping at the first error |
| Mime.AttachedAdvance | main.go:200-208 | a round that appends path i adds its bytes and removes the file unless removal fails |
| Mime.AttachedFails | main.go:200-204 | a path that cannot be appended ends the loop with its error and leaves the files as they were |
| Mime.AttachedStops | main.go:201-203 | after an error, later attachments change nothing |
| Mime.AttachedStop | main.go:200-204 | the loop fails exactly when it appended fewer parts than paths, with the error of the first path not appended |
| Mime.AttachedContents | main.go:200-209 | the bytes appended are the original contents of the first paths, in order, and no file is created or altered |
| Mime.AttachedRemovals | main.go:205-208 | removal was attempted for exactly the attachments appended and succeeded for those without a remove fault; every other file is untouched |
| Mime.AttachedSucceeds | main.go:200-204 | distinct existing attachments with no open fault and reads that never fail, however short their chunks, are all appended |
| Mime.AttachedAll | main.go:200-209 | such attachments, also without a remove fault, are appended with their bytes in order and all removed |
| Mime.WritePartHeader | main.go:229-233 | the five header writes append exactly the part header naming the file |
| Mime.AddAttachment | main.go:221-252 | the error is an open failure when the file is missing or cannot be opened, a read failure when a read fails before EOF, otherwise none. On success the part is appended, headers with the base name then the file's base64. After an open failure the message is unchanged; after a read failure it holds the part header followed by the base64 of exactly the bytes read before the error |
| Mime.AppendPart | main.go:229-251 | the part header, then the base64 of the whole file when every read succeeds; on a read error the deferred Close flushes the base64 of exactly the bytes read before it |
| Mime.CopyToEncoder | main.go:239-249 | the read loop succeeds exactly when the file's read script reaches EOF; it stops at the position the script determines, and the encoder has consumed exactly the file bytes up to there, which on success is the rest of the file |
| Mime.CopyChunk | main.go:240-248 | one read, and the bytes it gave written to the encoder; a data read keeps where reading on stops and whether it fails, an EOF or error read settles them |
| Mime.WriteHead | main.go:192-198 | the six opening writes append the header block and the text part |
| Mime.AttachOne | main.go:201-208 | one round of the loop: the error is the attachment's error and leaves the files alone; on success the part is appended and the file removed unless it has a remove fault |
| Mime.AppendAttachments | main.go:200-209 | the loop ends with the file system and error of the attachment-loop specification and, on success, the message extended by one part per attachment in order |
| Mime.SendEmailWithAttachments | main.go:181-219 | on an attachment error nothing is sent and that error is returned; otherwise the message sent is exactly the header block, text part, parts and close delimiter, and the result is the transport's verdict; the files are those of the attachment-loop specification either way |
| Pipeline.TicketsDelivered | main.go:51-58 | with no open, read or remove fault on the ticket files (reads may come back in short chunks), sending the names returned for n tickets attaches every ticket's PDF in ticket order and removes every ticket file |

## Left out

- The HTTP server and handler (main.go:37-65): JSON decoding and response codes. `Pipeline.TicketsDelivered` states only the composition of the two calls.
- PDF layout and QR encoding (main.go:78, 81, 93-143): rendering is a function parameter from ticket index, code, e-mail and event id to the bytes written. A QR error (main.go:95-99, 101-105) is printed and swallowed: `addQRCodeToPDF` returns before `pdf.AddPage()` (main.go:107), so the PDF written carries nothing it draws, neither the symbol nor the event, e-mail, venue or code text. That PDF is just another rendering.
- SHA-256 (main.go:72-73), `time.Now().Unix()` (main.go:70) and `rand.Int63n` (main.go:190) are parameters. So the model cannot state that different Unix times give different transaction hashes, only that they give different hashed texts.
- SMTP (main.go:182-189, 213-216): the credentials, server and authentication are left out. The send is a boolean parameter saying whether the transport accepts the message.
- Console and log output (main.go:85, 202, 207, 217): these have no effect on the result.
- Concurrent requests: net/http serves each request on its own goroutine (main.go:38-40), so two requests for the same event write and remove the same `<event>_ticket_<i>.pdf` paths at once (main.go:83, 206). The model's `FileSystem` belongs to a single request; interleavings between requests are not modelled.
- Line wrapping of base64 text to 76 characters: main.go writes the encoder's output unwrapped, and so does the model.
- Go's 768-byte inner loop in `base64.Encoder.Write` belongs to the standard library, not main.go. The model emits all complete groups of a write at once, which puts the same bytes in the buffer.
- Encoder write errors (main.go:246-248): the encoder writes into a `bytes.Buffer`, which never fails, so that error branch cannot be taken.
- `file.Close()` (main.go:226) returns nothing that main.go uses.
- Partial PDFs (main.go:84): `pdf.OutputFileAndClose` creates the file before writing it, so a write that fails midway can leave a partial PDF on disk. The model treats a failed write as writing nothing.
- Paths are Unix paths: `filepath.Split` splits at '/' only.
- Go strings are byte strings; the model writes them as Dafny strings holding one char per byte.
- Integer widths: ticket indices and quantities are unbounded ints. In Go, a `ticket_quantity` of 9223372036854775807 (the largest 64-bit `int`) makes `i <= ticketQuantity` at main.go:77 always true, so `i++` wraps and the loop never ends normally, where the model's loop ends with `Success`. The divergence cannot be reached in practice: long before that index the loop would have written more PDF files than a disk holds, and the first failed write ends it with an error.
- Header injection: `To:` and `Subject:` values are written unchecked (main.go:194-195). The model takes them as given and the reader expects them verbatim.
