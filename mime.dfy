/** Sending the tickets (sendEmailWithAttachments, addAttachment): a
    multipart/mixed message (section 5.1 of RFC 2046) is assembled in a buffer,
    each attachment streamed through the base64 encoder in chunks of at most
    1024 bytes, each attachment file removed as soon as it has been appended,
    and the finished message handed to the mail transport. */
module Mime {
  import opened Common
  import opened Formatting
  import Base64
  import Os

  /** The size of the read buffer in addAttachment. */
  const ChunkSize: nat := 1024

  /** The boundary (fmt "----%x"): four dashes and the random value in lower-case hex. */
  function Boundary(value: nat): string
  {
    "----" + Numeral(value, 16)
  }

  /** rand.Int63n(10000000000) gives a value below 10^10, so the boundary is four
      dashes and 1 to 9 hex digits, and it determines the value. */
  lemma BoundaryShape(value: nat)
    requires value < 10000000000
    ensures var b := Boundary(value);
      5 <= |b| <= 13 && b[..4] == "----" && IsLowerHex(b[4..]) && Value(b[4..], 16) == value
  {
    assert Pow(16, 9) == 68719476736;
    NumeralLength(value, 16, 9);
    NumeralValue(value, 16);
    assert Boundary(value)[4..] == Numeral(value, 16);
  }

  /** The line that opens a body part: CRLF, two dashes, the boundary, CRLF. */
  function Delimiter(boundary: string): string
  {
    "\r\n--" + boundary + "\r\n"
  }

  /** The line that ends the multipart body. */
  function CloseDelimiter(boundary: string): string
  {
    "\r\n--" + boundary + "--\r\n"
  }

  /** The message header. */
  function HeaderBlock(to: string, subject: string, boundary: string): string
  {
    "MIME-Version: 1.0\r\n" +
    ("To: " + to + "\r\n") +
    ("Subject: " + subject + "\r\n") +
    ("Content-Type: multipart/mixed; boundary=" + boundary + "\r\n")
  }

  /** The first body part: the plain-text body. */
  function TextPart(boundary: string, body: string): string
  {
    Delimiter(boundary) + ("Content-Type: text/plain; charset=utf-8\r\n\r\n" + body + "\r\n")
  }

  /** The delimiter and headers of an attachment part, up to the empty line. */
  function PartHeader(boundary: string, fileName: string): string
  {
    Delimiter(boundary) +
    ("Content-Type: application/pdf; name=\"" + fileName + "\"\r\n") +
    "Content-Transfer-Encoding: base64\r\n" +
    ("Content-Disposition: attachment; filename=\"" + fileName + "\"\r\n") +
    "\r\n"
  }

  /** An attachment part: headers naming the file's base name, then its bytes in base64. */
  function AttachmentPart(boundary: string, path: string, content: seq<byte>): string
  {
    PartHeader(boundary, Basename(path)) + Base64.Encode(content)
  }

  /** The attachment parts, in the order of the paths. */
  function Parts(boundary: string, paths: seq<string>, contents: seq<seq<byte>>): string
    requires |paths| == |contents|
    decreases |paths|
  {
    if paths == [] then []
    else AttachmentPart(boundary, paths[0], contents[0]) + Parts(boundary, paths[1..], contents[1..])
  }

  /** The whole message sendEmailWithAttachments hands to the transport. */
  function Message(to: string, subject: string, body: string, boundary: string,
                   paths: seq<string>, contents: seq<seq<byte>>): string
    requires |paths| == |contents|
  {
    HeaderBlock(to, subject, boundary) + TextPart(boundary, body) +
    Parts(boundary, paths, contents) + CloseDelimiter(boundary)
  }

  lemma {:induction false} PartsSnoc(boundary: string, paths: seq<string>, contents: seq<seq<byte>>,
                                     path: string, content: seq<byte>)
    requires |paths| == |contents|
    ensures Parts(boundary, paths + [path], contents + [content])
         == Parts(boundary, paths, contents) + AttachmentPart(boundary, path, content)
    decreases |paths|
  {
    var part := AttachmentPart(boundary, path, content);
    var all, allContents := paths + [path], contents + [content];
    if paths == [] {
      assert all[1..] == [] && allContents[1..] == [];
      assert Parts(boundary, all, allContents) == part + [];
      NoneAppended(part);
      EmptyPrepended(part);
    } else {
      var first := AttachmentPart(boundary, paths[0], contents[0]);
      assert all[0] == paths[0] && allContents[0] == contents[0];
      assert all[1..] == paths[1..] + [path];
      assert allContents[1..] == contents[1..] + [content];
      PartsSnoc(boundary, paths[1..], contents[1..], path, content);
      assert Parts(boundary, all, allContents) == first + (Parts(boundary, paths[1..], contents[1..]) + part);
      Assoc(first, Parts(boundary, paths[1..], contents[1..]), part);
    }
  }

  // A reader for the message: it recovers the attachments' bytes.

  /** Splits a text before its first CR. */
  function TakeText(s: string): (r: (string, string))
    ensures r.0 + r.1 == s && '\r' !in r.0 && (r.1 == [] || r.1[0] == '\r')
  {
    if s == [] || s[0] == '\r' then ([], s)
    else
      var (line, rest) := TakeText(s[1..]);
      ([s[0]] + line, rest)
  }

  /** The split before the first CR is the only one with the properties of TakeText. */
  lemma {:induction false} TakeTextUnique(line: string, rest: string)
    requires '\r' !in line && (rest == [] || rest[0] == '\r')
    ensures TakeText(line + rest) == (line, rest)
    decreases |line|
  {
    if line == [] {
      assert line + rest == rest;
    } else {
      assert (line + rest)[1..] == line[1..] + rest;
      TakeTextUnique(line[1..], rest);
      assert [line[0]] + line[1..] == line;
    }
  }

  /** Reads attachment parts with the given file names and the close delimiter:
      the decoded bytes of each part, in order, or None when the text has any
      other form. */
  function ReadParts(s: string, boundary: string, names: seq<string>): Option<seq<seq<byte>>>
    decreases |names|
  {
    if names == [] then
      if s == CloseDelimiter(boundary) then Some([]) else None
    else
      var header := PartHeader(boundary, names[0]);
      if |s| < |header| || s[..|header|] != header then None
      else
        var (text, rest) := TakeText(s[|header|..]);
        match Base64.Decode(text)
        case None => None
        case Some(content) =>
          match ReadParts(rest, boundary, names[1..])
          case None => None
          case Some(more) => Some([content] + more)
  }

  /** Reads a whole message with the given header fields, text and attachment names. */
  function ReadMessage(msg: string, to: string, subject: string, body: string, boundary: string,
                       names: seq<string>): Option<seq<seq<byte>>>
  {
    var head := HeaderBlock(to, subject, boundary) + TextPart(boundary, body);
    if |msg| < |head| || msg[..|head|] != head then None
    else ReadParts(msg[|head|..], boundary, names)
  }

  function Basenames(paths: seq<string>): (names: seq<string>)
  {
    seq(|paths|, i requires 0 <= i < |paths| => Basename(paths[i]))
  }

  /** Every delimiter line, and so every part header, starts with a CR. */
  lemma StartsWithCR(boundary: string, fileName: string)
    ensures |PartHeader(boundary, fileName)| > 0 && PartHeader(boundary, fileName)[0] == '\r'
    ensures |CloseDelimiter(boundary)| > 0 && CloseDelimiter(boundary)[0] == '\r'
  {
  }

  /** What follows an attachment's base64 text starts with a CR: the next part's
      delimiter or the close delimiter. */
  lemma AfterTextIsCR(boundary: string, paths: seq<string>, contents: seq<seq<byte>>)
    requires |paths| == |contents|
    ensures var rest := Parts(boundary, paths, contents) + CloseDelimiter(boundary);
      |rest| > 0 && rest[0] == '\r'
  {
    var parts := Parts(boundary, paths, contents);
    var close := CloseDelimiter(boundary);
    if paths == [] {
      StartsWithCR(boundary, []);
      assert parts + close == close;
    } else {
      var header := PartHeader(boundary, Basename(paths[0]));
      StartsWithCR(boundary, Basename(paths[0]));
      var part := AttachmentPart(boundary, paths[0], contents[0]);
      FirstOf(header, Base64.Encode(contents[0]));
      FirstOf(part, Parts(boundary, paths[1..], contents[1..]));
      FirstOf(parts, close);
    }
  }

  /** The attachment parts and the close delimiter are read back as the bytes
      that were encoded, given the base names of the paths. */
  lemma {:induction false} ReadPartsRoundTrip(boundary: string, paths: seq<string>, contents: seq<seq<byte>>)
    requires |paths| == |contents|
    ensures ReadParts(Parts(boundary, paths, contents) + CloseDelimiter(boundary), boundary, Basenames(paths))
         == Some(contents)
    decreases |paths|
  {
    var names := Basenames(paths);
    var close := CloseDelimiter(boundary);
    if paths == [] {
      assert Parts(boundary, paths, contents) + close == close;
    } else {
      var header := PartHeader(boundary, names[0]);
      var text := Base64.Encode(contents[0]);
      var more := Parts(boundary, paths[1..], contents[1..]);
      var rest := more + close;
      Regroup(header, text, more, close);
      Halves(header, text + rest);
      Base64.EncodeCharset(contents[0]);
      AfterTextIsCR(boundary, paths[1..], contents[1..]);
      TakeTextUnique(text, rest);
      Base64.RoundTrip(contents[0]);
      BasenamesTail(paths);
      ReadPartsRoundTrip(boundary, paths[1..], contents[1..]);
      ConsTail(contents);
    }
  }

  lemma BasenamesTail(paths: seq<string>)
    requires |paths| > 0
    ensures Basenames(paths[1..]) == Basenames(paths)[1..]
  {
  }

  /** A reader of the message recovers every attachment's bytes, in the order of
      the paths: the message is the header block, the text part, exactly one
      base64 part per attachment and the close delimiter, and nothing more. */
  lemma MessageRoundTrip(to: string, subject: string, body: string, boundary: string,
                         paths: seq<string>, contents: seq<seq<byte>>)
    requires |paths| == |contents|
    ensures ReadMessage(Message(to, subject, body, boundary, paths, contents), to, subject, body, boundary,
                        Basenames(paths)) == Some(contents)
  {
    var head := HeaderBlock(to, subject, boundary) + TextPart(boundary, body);
    var tail := Parts(boundary, paths, contents) + CloseDelimiter(boundary);
    assert Message(to, subject, body, boundary, paths, contents) == head + tail;
    Halves(head, tail);
    ReadPartsRoundTrip(boundary, paths, contents);
  }

  // What sending does to the files, stated on values.

  /** The file system and the attachment bytes after the attachment loop, and the
      error that ended it early, if any. */
  datatype Dispatch = Dispatch(files: map<string, seq<byte>>, contents: seq<seq<byte>>, failure: Option<Error>)

  /** The error addAttachment returns for `path`, if any: the file cannot be
      opened, or a read fails before EOF. */
  function AttachError(files: map<string, seq<byte>>, faults: Os.Faults, path: string): Option<Error>
  {
    if path !in files || path in faults.open then Some(OpenFailed(path))
    else if Os.ReadsFail(|files[path]|, Os.ReadScript(faults, path), ChunkSize) then Some(ReadFailed(path))
    else None
  }

  /** How many bytes of the file at `path` addAttachment reads, and so encodes,
      before EOF or the read error that ends it: the whole file when no read fails. */
  function Delivered(files: map<string, seq<byte>>, faults: Os.Faults, path: string): (k: nat)
    requires path in files
    ensures k <= |files[path]|
    ensures AttachError(files, faults, path).None? ==> k == |files[path]|
  {
    Os.ReadsDeliver(|files[path]|, Os.ReadScript(faults, path), ChunkSize)
  }

  /** One round of the attachment loop: append the file, then try to remove it. */
  function AttachStep(d: Dispatch, faults: Os.Faults, path: string): Dispatch
  {
    match AttachError(d.files, faults, path)
    case Some(e) => Dispatch(d.files, d.contents, Some(e))
    case None =>
      var files := if path !in faults.remove then d.files - {path} else d.files;
      Dispatch(files, d.contents + [d.files[path]], None)
  }

  /** The attachment loop over `paths`, stopping at the first error. */
  function Attached(files: map<string, seq<byte>>, faults: Os.Faults, paths: seq<string>): Dispatch
    decreases |paths|
  {
    if paths == [] then Dispatch(files, [], None)
    else
      var d := Attached(files, faults, paths[..|paths| - 1]);
      if d.failure.Some? then d else AttachStep(d, faults, paths[|paths| - 1])
  }

  /** One more round of the loop after i attachments were appended: path i is
      appended and its removal attempted. */
  lemma AttachedAdvance(files: map<string, seq<byte>>, faults: Os.Faults, paths: seq<string>, i: nat,
                        current: map<string, seq<byte>>, contents: seq<seq<byte>>)
    requires i < |paths| && Attached(files, faults, paths[..i]) == Dispatch(current, contents, None)
    requires AttachError(current, faults, paths[i]).None?
    ensures paths[i] in current
    ensures Attached(files, faults, paths[..i + 1])
         == Dispatch(if paths[i] in faults.remove then current else current - {paths[i]},
                     contents + [current[paths[i]]], None)
  {
    assert paths[..i + 1][..i] == paths[..i];
  }

  /** The loop ends with the error of path i when that path cannot be appended. */
  lemma AttachedFails(files: map<string, seq<byte>>, faults: Os.Faults, paths: seq<string>, i: nat,
                      current: map<string, seq<byte>>, contents: seq<seq<byte>>)
    requires i < |paths| && Attached(files, faults, paths[..i]) == Dispatch(current, contents, None)
    requires AttachError(current, faults, paths[i]).Some?
    ensures Attached(files, faults, paths) == Dispatch(current, contents, AttachError(current, faults, paths[i]))
  {
    assert paths[..i + 1][..i] == paths[..i];
    AttachedStops(files, faults, paths[..i + 1], paths[i + 1..]);
    TakeDrop(paths, i + 1);
  }

  /** Once an attachment has failed, later paths change nothing. */
  lemma {:induction false} AttachedStops(files: map<string, seq<byte>>, faults: Os.Faults,
                                         paths: seq<string>, more: seq<string>)
    requires Attached(files, faults, paths).failure.Some?
    ensures Attached(files, faults, paths + more) == Attached(files, faults, paths)
    decreases |more|
  {
    if more == [] {
      assert paths + more == paths;
    } else {
      var all := paths + more;
      assert all[..|all| - 1] == paths + more[..|more| - 1];
      AttachedStops(files, faults, paths, more[..|more| - 1]);
      assert Attached(files, faults, all) == Attached(files, faults, all[..|all| - 1]);
    }
  }

  /** Where the attachment loop stopped: with k the number of attachments appended,
      the loop ended early exactly when k is short of the paths, and then with the
      error of path k in the file system as it was at that point. */
  lemma {:induction false} AttachedStop(files: map<string, seq<byte>>, faults: Os.Faults, paths: seq<string>)
    ensures var d := Attached(files, faults, paths);
      && |d.contents| <= |paths|
      && (d.failure.None? <==> |d.contents| == |paths|)
      && (d.failure.Some? ==> d.failure == AttachError(d.files, faults, paths[|d.contents|]))
    decreases |paths|
  {
    if paths != [] {
      var init := paths[..|paths| - 1];
      AttachedStop(files, faults, init);
      var d0 := Attached(files, faults, init);
      if d0.failure.Some? {
        assert paths[|d0.contents|] == init[|d0.contents|];
      }
    }
  }

  /** The bytes appended are those of the first paths, in order, as they were
      before sending began. */
  lemma {:induction false} AttachedContents(files: map<string, seq<byte>>, faults: Os.Faults, paths: seq<string>)
    ensures var d := Attached(files, faults, paths);
      && |d.contents| <= |paths|
      && (forall p :: p in d.files ==> p in files && d.files[p] == files[p])
      && (forall j :: 0 <= j < |d.contents| ==> paths[j] in files && d.contents[j] == files[paths[j]])
    decreases |paths|
  {
    if paths != [] {
      var init := paths[..|paths| - 1];
      AttachedContents(files, faults, init);
      AttachedStop(files, faults, init);
    }
  }

  /** Removal was attempted for the attachments appended and for no others, and
      succeeded for those without a removal fault. */
  lemma {:induction false} AttachedRemovals(files: map<string, seq<byte>>, faults: Os.Faults, paths: seq<string>)
    ensures var d := Attached(files, faults, paths);
      && |d.contents| <= |paths|
      && d.files == files - (set p | p in paths[..|d.contents|] && p !in faults.remove)
    decreases |paths|
  {
    if paths != [] {
      var init := paths[..|paths| - 1];
      var path := paths[|paths| - 1];
      AttachedRemovals(files, faults, init);
      var d0 := Attached(files, faults, init);
      var k0 := |d0.contents|;
      if d0.failure.None? && AttachError(d0.files, faults, path).None? {
        AttachedStop(files, faults, init);
        assert init[..k0] == init;
        assert paths[..k0 + 1] == init + [path];
        assert (set p | p in paths[..k0 + 1] && p !in faults.remove)
            == (set p | p in init && p !in faults.remove) + (if path !in faults.remove then {path} else {});
      } else {
        assert paths[..k0] == init[..k0];
      }
    }
  }

  /** Attaching distinct files that exist and meet no open, read or remove fault
      succeeds, however their reads are chunked, appends their bytes in order and
      leaves none of them on disk. */
  lemma AttachedAll(files: map<string, seq<byte>>, faults: Os.Faults, paths: seq<string>)
    requires forall i, j :: 0 <= i < j < |paths| ==> paths[i] != paths[j]
    requires forall i :: 0 <= i < |paths| ==> paths[i] in files
    requires forall i :: 0 <= i < |paths| ==>
      paths[i] !in faults.open && paths[i] !in faults.remove && Os.NoReadFault(faults, paths[i])
    ensures Attached(files, faults, paths).failure.None?
    ensures |Attached(files, faults, paths).contents| == |paths|
    ensures forall i :: 0 <= i < |paths| ==> Attached(files, faults, paths).contents[i] == files[paths[i]]
    ensures forall i :: 0 <= i < |paths| ==> paths[i] !in Attached(files, faults, paths).files
  {
    AttachedSucceeds(files, faults, paths);
    AttachedStop(files, faults, paths);
    AttachedContents(files, faults, paths);
    AttachedRemovals(files, faults, paths);
    assert paths[..|paths|] == paths;
  }

  lemma {:induction false} AttachedSucceeds(files: map<string, seq<byte>>, faults: Os.Faults, paths: seq<string>)
    requires forall i, j :: 0 <= i < j < |paths| ==> paths[i] != paths[j]
    requires forall i :: 0 <= i < |paths| ==> paths[i] in files
    requires forall i :: 0 <= i < |paths| ==> paths[i] !in faults.open && Os.NoReadFault(faults, paths[i])
    ensures Attached(files, faults, paths).failure.None?
    decreases |paths|
  {
    if paths != [] {
      var init := paths[..|paths| - 1];
      var path := paths[|paths| - 1];
      AttachedSucceeds(files, faults, init);
      AttachedStop(files, faults, init);
      AttachedRemovals(files, faults, init);
      var d0 := Attached(files, faults, init);
      assert init[..|d0.contents|] == init;
      assert path !in init;
      assert path in d0.files;
      Os.ReadsFailExactly(|d0.files[path]|, Os.ReadScript(faults, path), ChunkSize);
    }
  }

  /** The five header writes of addAttachment, which together append the part header. */
  method WritePartHeader(msg: Buffer, boundary: string, fileName: string)
    modifies msg
    ensures msg.data == old(msg.data) + PartHeader(boundary, fileName)
  {
    var delimiter, contentType, encoding, disposition, blank :=
      Delimiter(boundary),
      "Content-Type: application/pdf; name=\"" + fileName + "\"\r\n",
      "Content-Transfer-Encoding: base64\r\n",
      "Content-Disposition: attachment; filename=\"" + fileName + "\"\r\n",
      "\r\n";
    msg.WriteString(delimiter);
    msg.WriteString(contentType);
    msg.WriteString(encoding);
    msg.WriteString(disposition);
    msg.WriteString(blank);
    ghost var part := PartHeader(boundary, fileName);
    assert part == (((delimiter + contentType) + encoding) + disposition) + blank;
    AppendFive(old(msg.data), delimiter, contentType, encoding, disposition, blank);
  }

  /** addAttachment: open the file, then append its part (see AppendPart); the
      error says which step failed. */
  method AddAttachment(msg: Buffer, fs: Os.FileSystem, attachmentPath: string, boundary: string)
    returns (err: Option<Error>)
    modifies msg
    ensures err == AttachError(old(fs.files), fs.faults, attachmentPath)
    ensures err.None? ==>
      msg.data == old(msg.data) + AttachmentPart(boundary, attachmentPath, old(fs.files)[attachmentPath])
    ensures err.Some? && err.value.OpenFailed? ==> msg.data == old(msg.data)
    ensures err.Some? && err.value.ReadFailed? ==>
      attachmentPath in old(fs.files) &&
      msg.data == old(msg.data) +
        AttachmentPart(boundary, attachmentPath,
                       old(fs.files)[attachmentPath][..Delivered(old(fs.files), fs.faults, attachmentPath)])
  {
    var file := fs.Open(attachmentPath);
    if file == null {
      return Some(OpenFailed(attachmentPath));
    }
    var (_, fileName) := Split(attachmentPath);
    assert fileName == Basename(attachmentPath);
    var ok := AppendPart(msg, file, boundary, fileName);
    if !ok {
      return Some(ReadFailed(attachmentPath));
    }
    return None;
  }

  /** The rest of addAttachment once the file is open: append the part headers,
      then stream the file through a base64 encoder reading at most 1024 bytes at
      a time; the deferred Close of the encoder flushes the last group, on the
      error path too. The result is false when a read fails before EOF. */
  method AppendPart(msg: Buffer, file: Os.File, boundary: string, fileName: string) returns (ok: bool)
    requires file.Valid() && file.pos == 0
    modifies msg, file
    ensures ok == !Os.ReadsFail(|file.content|, old(file.script), ChunkSize)
    ensures ok ==> msg.data == old(msg.data) + (PartHeader(boundary, fileName) + Base64.Encode(file.content))
    ensures !ok ==>
      msg.data == old(msg.data) +
        (PartHeader(boundary, fileName) +
         Base64.Encode(file.content[..Os.ReadsDeliver(|file.content|, old(file.script), ChunkSize)]))
  {
    ghost var content, script := file.content, file.script;
    WritePartHeader(msg, boundary, fileName);
    ghost var header := msg.data;
    var buffer := new byte[ChunkSize];
    var encoder := new Base64.Encoder(msg);
    assert file.pos == 0 && file.script == script;
    ok := CopyToEncoder(file, buffer, encoder);
    ghost var k, consumed := file.pos, encoder.consumed;
    assert k == Os.ReadsDeliver(|content|, script, ChunkSize);
    assert consumed == [] + content[0..k];
    encoder.Close();
    EmptyPrepended(content[0..k]);
    assert consumed == content[..k];
    Assoc(old(msg.data), PartHeader(boundary, fileName), Base64.Encode(consumed));
    if ok {
      assert content[..k] == content;
    }
  }

  /** The read loop of addAttachment: read the file to its end through `buffer`
      and write each chunk read to the encoder. The result is false when a read
      fails before EOF, and on success the encoder has consumed the rest of the file. */
  method CopyToEncoder(file: Os.File, buffer: array<byte>, encoder: Base64.Encoder) returns (ok: bool)
    requires file.Valid() && encoder.Valid() && buffer.Length > 0
    modifies file, buffer, encoder, encoder.w
    ensures ok == !Os.ReadsFail(|file.content| - old(file.pos), old(file.script), buffer.Length)
    ensures encoder.Valid()
    ensures ok ==> encoder.consumed == old(encoder.consumed) + file.content[old(file.pos)..]
    ensures file.pos == old(file.pos) + Os.ReadsDeliver(|file.content| - old(file.pos), old(file.script), buffer.Length)
    ensures file.pos <= |file.content| && encoder.consumed == old(encoder.consumed) + file.content[old(file.pos)..file.pos]
  {
    ghost var fails, end := file.WillFail(buffer.Length), file.StopsAt(buffer.Length);
    ghost var from := file.pos;
    ghost var consumed := encoder.consumed;
    var status := Os.Data;
    while status == Os.Data
      invariant file.Valid() && encoder.Valid() && from <= file.pos
      invariant encoder.consumed == consumed + file.content[from..file.pos]
      invariant status == Os.Data ==> file.WillFail(buffer.Length) == fails && file.StopsAt(buffer.Length) == end
      invariant status != Os.Data ==> fails == (status == Os.ReadError) && file.pos == end
      decreases |file.content| - file.pos, if status == Os.Data then 1 else 0
    {
      ghost var before, mid := file.pos, encoder.consumed;
      status := CopyChunk(file, buffer, encoder);
      assert encoder.consumed == mid + file.content[before..file.pos];
      ExtendSlice(consumed, file.content, from, before, file.pos);
    }
    ok := status == Os.Eof;
    SliceJoin(file.content, from, file.pos, file.pos);
  }

  /** One turn of the copy loop: one read, and the bytes it gave written to the encoder. */
  method CopyChunk(file: Os.File, buffer: array<byte>, encoder: Base64.Encoder) returns (status: Os.ReadStatus)
    requires file.Valid() && encoder.Valid() && buffer.Length > 0
    modifies file, buffer, encoder, encoder.w
    ensures file.Valid() && encoder.Valid() && old(file.pos) <= file.pos
    ensures status == Os.Data ==> old(file.pos) < file.pos
    ensures encoder.consumed == old(encoder.consumed) + file.content[old(file.pos)..file.pos]
    ensures status == Os.Data ==> file.WillFail(buffer.Length) == old(file.WillFail(buffer.Length))
    ensures status == Os.Data ==> file.StopsAt(buffer.Length) == old(file.StopsAt(buffer.Length))
    ensures status != Os.Data ==> old(file.WillFail(buffer.Length)) == (status == Os.ReadError)
    ensures status != Os.Data ==> old(file.StopsAt(buffer.Length)) == file.pos
  {
    var n;
    n, status := file.Read(buffer);
    ghost var pos, script := file.pos, file.script;
    if status == Os.Data {
      encoder.Write(buffer[..n]);
    }
    assert file.pos == pos && file.script == script;
  }

  /** The six writes that open the message in sendEmailWithAttachments: the
      header block, then the text part. */
  method WriteHead(msg: Buffer, to: string, subject: string, body: string, boundary: string)
    modifies msg
    ensures msg.data == old(msg.data) + (HeaderBlock(to, subject, boundary) + TextPart(boundary, body))
  {
    var version, toLine, subjectLine, contentType, delimiter, text :=
      "MIME-Version: 1.0\r\n",
      "To: " + to + "\r\n",
      "Subject: " + subject + "\r\n",
      "Content-Type: multipart/mixed; boundary=" + boundary + "\r\n",
      Delimiter(boundary),
      "Content-Type: text/plain; charset=utf-8\r\n\r\n" + body + "\r\n";
    msg.WriteString(version);
    msg.WriteString(toLine);
    msg.WriteString(subjectLine);
    msg.WriteString(contentType);
    msg.WriteString(delimiter);
    msg.WriteString(text);
    assert HeaderBlock(to, subject, boundary) == ((version + toLine) + subjectLine) + contentType;
    assert TextPart(boundary, body) == delimiter + text;
    AppendSix(old(msg.data), version, toLine, subjectLine, contentType, delimiter, text);
  }

  /** The attachment loop of sendEmailWithAttachments: append each attachment and
      then try to remove its file (a failed removal is only logged), stopping at
      the first attachment that cannot be appended. */
  method AppendAttachments(msg: Buffer, fs: Os.FileSystem, attachments: seq<string>, boundary: string)
    returns (err: Option<Error>)
    modifies msg, fs
    ensures var d := Attached(old(fs.files), fs.faults, attachments);
      && fs.files == d.files && err == d.failure
      && (err.None? ==> |d.contents| == |attachments| &&
                        msg.data == old(msg.data) + Parts(boundary, attachments, d.contents))
  {
    ghost var head := msg.data;
    ghost var contents: seq<seq<byte>> := [];
    var i := 0;
    while i < |attachments|
      invariant 0 <= i <= |attachments|
      invariant Attached(old(fs.files), fs.faults, attachments[..i]) == Dispatch(fs.files, contents, None)
      invariant |contents| == i
      invariant msg.data == head + Parts(boundary, attachments[..i], contents)
    {
      var attachment := attachments[i];
      ghost var current := fs.files;
      var e := AttachOne(msg, fs, attachment, boundary);
      if e.Some? {
        AttachedFails(old(fs.files), fs.faults, attachments, i, current, contents);
        return e;
      }
      ghost var content := current[attachment];
      assert msg.data == head + Parts(boundary, attachments[..i + 1], contents + [content]) by {
        TakeOneMore(attachments, i);
        PartsSnoc(boundary, attachments[..i], contents, attachment, content);
        Assoc(head, Parts(boundary, attachments[..i], contents), AttachmentPart(boundary, attachment, content));
      }
      assert Attached(old(fs.files), fs.faults, attachments[..i + 1]) == Dispatch(fs.files, contents + [content], None) by {
        AttachedAdvance(old(fs.files), fs.faults, attachments, i, current, contents);
      }
      contents := contents + [content];
      i := i + 1;
    }
    TakeDrop(attachments, i);
    return None;
  }

  /** One round of the attachment loop: append the attachment, and when that
      succeeds try to remove its file (a failed removal is only logged). */
  method AttachOne(msg: Buffer, fs: Os.FileSystem, attachment: string, boundary: string)
    returns (err: Option<Error>)
    modifies msg, fs
    ensures err == AttachError(old(fs.files), fs.faults, attachment)
    ensures err.Some? ==> fs.files == old(fs.files)
    ensures err.None? ==>
      attachment in old(fs.files) &&
      msg.data == old(msg.data) + AttachmentPart(boundary, attachment, old(fs.files)[attachment]) &&
      fs.files == if attachment in fs.faults.remove then old(fs.files) else old(fs.files) - {attachment}
  {
    err := AddAttachment(msg, fs, attachment, boundary);
    if err.None? {
      var _ := fs.Remove(attachment);
    }
  }

  /** sendEmailWithAttachments: assemble the message, removing each attachment file
      right after it is appended, and hand the message to the transport only when
      every attachment was appended. */
  method SendEmailWithAttachments(fs: Os.FileSystem, to: string, subject: string, body: string,
                                  attachments: seq<string>, boundaryValue: nat, transportAccepts: bool)
    returns (err: Option<Error>, sent: Option<string>)
    modifies fs
    ensures var d := Attached(old(fs.files), fs.faults, attachments);
      && fs.files == d.files
      && (d.failure.Some? ==> err == d.failure && sent == None)
      && (d.failure.None? ==>
            |d.contents| == |attachments| &&
            sent == Some(Message(to, subject, body, Boundary(boundaryValue), attachments, d.contents)) &&
            err == if transportAccepts then None else Some(TransportFailed))
  {
    var boundary := Boundary(boundaryValue);
    var msg := new Buffer();
    ghost var head := HeaderBlock(to, subject, boundary) + TextPart(boundary, body);
    WriteHead(msg, to, subject, body, boundary);
    EmptyPrepended(head);
    err := AppendAttachments(msg, fs, attachments, boundary);
    if err.Some? {
      return err, None;
    }
    ghost var contents := Attached(old(fs.files), fs.faults, attachments).contents;
    assert msg.data == head + Parts(boundary, attachments, contents);
    msg.WriteString(CloseDelimiter(boundary));
    sent := Some(msg.data);
    assert sent == Some(Message(to, subject, body, boundary, attachments, contents));
    if !transportAccepts {
      return Some(TransportFailed), sent;
    }
    return None, sent;
  }
}
