/** Ticket generation (generateSeparatePDFs): the transaction hash, the code
    each ticket's QR symbol carries, the PDF file names, and the loop that
    writes one PDF per ticket and stops at the first failed write. */
module Tickets {
  import opened Common
  import opened Formatting
  import Os

  /** A SHA-256 digest: 32 bytes. The hash function itself is a parameter. */
  type Digest = d: seq<byte> | |d| == 32 witness seq(32, _ => 0)

  /** The length of the transaction hash in hex digits. */
  const HashLength: nat := 64

  /** The text that is hashed (fmt "%s%d%s%d"): event id, quantity, e-mail, Unix time. */
  function HashInput(email: string, eventID: string, ticketQuantity: int, unixTime: int): string
  {
    eventID + Decimal(ticketQuantity) + email + Decimal(unixTime)
  }

  /** Requests with the same event, quantity and e-mail at different instants hash
      different texts, so the salt is what separates them. */
  lemma HashInputsDiffer(email: string, eventID: string, ticketQuantity: int, t1: int, t2: int)
    ensures HashInput(email, eventID, ticketQuantity, t1) == HashInput(email, eventID, ticketQuantity, t2) <==> t1 == t2
  {
    var prefix := eventID + Decimal(ticketQuantity) + email;
    var a, b := HashInput(email, eventID, ticketQuantity, t1), HashInput(email, eventID, ticketQuantity, t2);
    assert a[|prefix|..] == Decimal(t1);
    assert b[|prefix|..] == Decimal(t2);
    DecimalInjective(t1, t2);
  }

  /** The transaction hash: hex.EncodeToString of the digest. It is 64 lower-case
      hex digits and determines the digest. */
  function TransactionHash(digest: Digest): (h: string)
    ensures |h| == HashLength && IsLowerHex(h)
    ensures HexDecode(h) == Some(digest)
  {
    HexRoundTrip(digest);
    HexEncode(digest)
  }

  /** The code in ticket `i`'s QR symbol (fmt "%s-%d"). */
  function TicketCode(hash: string, i: int): string
  {
    hash + "-" + Decimal(i)
  }

  /** Reads a ticket code back into its transaction hash and ticket index. */
  function ParseTicketCode(code: string): Option<(string, int)>
  {
    if |code| > HashLength + 1 && code[HashLength] == '-' && IsLowerHex(code[..HashLength]) then
      match ParseDecimal(code[HashLength + 1..])
      case None => None
      case Some(i) => Some((code[..HashLength], i))
    else None
  }

  lemma TicketCodeRoundTrip(hash: string, i: int)
    requires |hash| == HashLength && IsLowerHex(hash)
    ensures ParseTicketCode(TicketCode(hash, i)) == Some((hash, i))
  {
    var digits := Decimal(i);
    assert |digits| >= 1;
    var code := hash + "-" + digits;
    assert code[..HashLength] == hash;
    assert code[HashLength] == '-';
    assert code[HashLength + 1..] == digits;
    DecimalRoundTrip(i);
    assert ParseTicketCode(code) == Some((hash, i));
  }

  /** All codes of one transaction start with its hash and a '-', and codes of
      different tickets differ. */
  lemma TicketCodesDistinct(hash: string, i: int, j: int)
    ensures TicketCode(hash, i)[..|hash| + 1] == hash + "-"
    ensures TicketCode(hash, i) == TicketCode(hash, j) <==> i == j
  {
    assert TicketCode(hash, i)[|hash| + 1..] == Decimal(i);
    assert TicketCode(hash, j)[|hash| + 1..] == Decimal(j);
    DecimalInjective(i, j);
  }

  /** The PDF file name of ticket `i` (fmt "%s_ticket_%d.pdf"). */
  function TicketFileName(eventID: string, i: int): string
  {
    eventID + "_ticket_" + Decimal(i) + ".pdf"
  }

  /** Reads the ticket index back out of a file name of the event. */
  function TicketIndex(eventID: string, name: string): Option<int>
  {
    var head := eventID + "_ticket_";
    if |name| >= |head| + 4 && name[..|head|] == head && name[|name| - 4..] == ".pdf" then
      ParseDecimal(name[|head|..|name| - 4])
    else None
  }

  lemma TicketFileNameRoundTrip(eventID: string, i: int)
    ensures TicketIndex(eventID, TicketFileName(eventID, i)) == Some(i)
  {
    var head := eventID + "_ticket_";
    var name := TicketFileName(eventID, i);
    assert name == head + Decimal(i) + ".pdf";
    assert name[..|head|] == head && name[|name| - 4..] == ".pdf";
    assert name[|head|..|name| - 4] == Decimal(i);
    DecimalRoundTrip(i);
  }

  lemma TicketFileNamesDistinct(eventID: string, i: int, j: int)
    ensures TicketFileName(eventID, i) == TicketFileName(eventID, j) <==> i == j
  {
    TicketFileNameRoundTrip(eventID, i);
    TicketFileNameRoundTrip(eventID, j);
  }

  /** The names generateSeparatePDFs returns on success: one per ticket
      1..ticketQuantity, in index order; none when the quantity is not positive. */
  function TicketFileNames(eventID: string, ticketQuantity: int): (names: seq<string>)
    ensures |names| == if ticketQuantity > 0 then ticketQuantity else 0
    ensures forall k :: 0 <= k < |names| ==> names[k] == TicketFileName(eventID, k + 1)
    decreases ticketQuantity
  {
    if ticketQuantity <= 0 then []
    else TicketFileNames(eventID, ticketQuantity - 1) + [TicketFileName(eventID, ticketQuantity)]
  }

  /** No two attachments of one batch share a name. */
  lemma TicketFileNamesUnique(eventID: string, ticketQuantity: int)
    ensures forall a, b :: 0 <= a < b < |TicketFileNames(eventID, ticketQuantity)| ==>
      TicketFileNames(eventID, ticketQuantity)[a] != TicketFileNames(eventID, ticketQuantity)[b]
  {
    var names := TicketFileNames(eventID, ticketQuantity);
    forall a, b | 0 <= a < b < |names|
      ensures names[a] != names[b]
    {
      assert names[a] == TicketFileName(eventID, a + 1) && names[b] == TicketFileName(eventID, b + 1);
      TicketFileNamesDistinct(eventID, a + 1, b + 1);
    }
  }

  /** The PDF bytes for ticket `index` with the given code, e-mail and event id.
      Layout and QR rendering are outside the model. */
  type Renderer = (int, string, string, string) -> seq<byte>

  /** The first `n` files of a batch: name and contents of tickets 1..n. */
  function PdfEntries(eventID: string, email: string, hash: string, render: Renderer, n: nat)
    : seq<(string, seq<byte>)>
  {
    seq(n, k => (TicketFileName(eventID, k + 1), render(k + 1, TicketCode(hash, k + 1), email, eventID)))
  }

  /** The file map after writing `entries` in order. */
  function WriteAll(files: map<string, seq<byte>>, entries: seq<(string, seq<byte>)>): map<string, seq<byte>>
  {
    if entries == [] then files
    else WriteAll(files, entries[..|entries| - 1])[entries[|entries| - 1].0 := entries[|entries| - 1].1]
  }

  /** After the first `n` tickets are written, each of their files holds its own
      ticket's PDF, and every other path is as before. */
  lemma PdfFilesWritten(files: map<string, seq<byte>>, eventID: string, email: string,
                        hash: string, render: Renderer, n: nat)
    ensures var m := WriteAll(files, PdfEntries(eventID, email, hash, render, n));
      && (forall k :: 1 <= k <= n ==>
            TicketFileName(eventID, k) in m && m[TicketFileName(eventID, k)] == render(k, TicketCode(hash, k), email, eventID))
      && (forall p :: p !in TicketFileNames(eventID, n) ==>
            (p in m <==> p in files) && (p in files ==> m[p] == files[p]))
  {
    forall k | 1 <= k <= n
      ensures var m := WriteAll(files, PdfEntries(eventID, email, hash, render, n));
        TicketFileName(eventID, k) in m && m[TicketFileName(eventID, k)] == render(k, TicketCode(hash, k), email, eventID)
    {
      PdfFileWritten(files, eventID, email, hash, render, n, k);
    }
    OtherFilesKept(files, eventID, email, hash, render, n);
  }

  /** Ticket k's file holds ticket k's PDF once the first n >= k tickets are written. */
  lemma {:induction false} PdfFileWritten(files: map<string, seq<byte>>, eventID: string, email: string,
                                          hash: string, render: Renderer, n: nat, k: int)
    requires 1 <= k <= n
    ensures var m := WriteAll(files, PdfEntries(eventID, email, hash, render, n));
      TicketFileName(eventID, k) in m && m[TicketFileName(eventID, k)] == render(k, TicketCode(hash, k), email, eventID)
  {
    WriteNext(files, eventID, email, hash, render, n);
    if k < n {
      TicketFileNamesDistinct(eventID, k, n);
      PdfFileWritten(files, eventID, email, hash, render, n - 1, k);
    }
  }

  /** Writing the first n tickets leaves every path outside their names as it was. */
  lemma {:induction false} OtherFilesKept(files: map<string, seq<byte>>, eventID: string, email: string,
                                          hash: string, render: Renderer, n: nat)
    ensures var m := WriteAll(files, PdfEntries(eventID, email, hash, render, n));
      forall p :: p !in TicketFileNames(eventID, n) ==>
        (p in m <==> p in files) && (p in files ==> m[p] == files[p])
  {
    if n > 0 {
      WriteNext(files, eventID, email, hash, render, n);
      OtherFilesKept(files, eventID, email, hash, render, n - 1);
      var name := TicketFileName(eventID, n);
      var previous := TicketFileNames(eventID, n - 1);
      var names := TicketFileNames(eventID, n);
      assert names == previous + [name];
      forall p | p !in names
        ensures p !in previous && p != name
      {
        assert names[n - 1] == name;
      }
    }
  }

  /** Writing the first n tickets is writing the first n - 1, then ticket n. */
  lemma WriteNext(files: map<string, seq<byte>>, eventID: string, email: string, hash: string,
                  render: Renderer, n: nat)
    requires n > 0
    ensures WriteAll(files, PdfEntries(eventID, email, hash, render, n))
         == WriteAll(files, PdfEntries(eventID, email, hash, render, n - 1))
              [TicketFileName(eventID, n) := render(n, TicketCode(hash, n), email, eventID)]
  {
    var entries := PdfEntries(eventID, email, hash, render, n);
    assert entries[..n - 1] == PdfEntries(eventID, email, hash, render, n - 1);
  }

  /** The index of the first ticket from `i` on whose file cannot be created, or
      the index after the last ticket when every write succeeds. */
  function FirstFailure(eventID: string, i: int, ticketQuantity: int, create: set<string>): (k: int)
    ensures i <= k && (k <= ticketQuantity || k == if i > ticketQuantity then i else ticketQuantity + 1)
    ensures forall j :: i <= j < k ==> TicketFileName(eventID, j) !in create
    ensures k <= ticketQuantity ==> TicketFileName(eventID, k) in create
    decreases ticketQuantity - i
  {
    if i > ticketQuantity then i
    else if TicketFileName(eventID, i) in create then i
    else FirstFailure(eventID, i + 1, ticketQuantity, create)
  }

  /** generateSeparatePDFs: derive the transaction hash, then for i = 1..quantity
      write ticket i's PDF and append its name. The first failed write ends the
      batch with that error and no list; the PDFs already written stay on disk. */
  method GenerateSeparatePdfs(fs: Os.FileSystem, email: string, eventID: string, ticketQuantity: int,
                              unixTime: int, sha256: string -> Digest, render: Renderer)
    returns (result: Result<seq<string>>)
    modifies fs
    ensures var k := FirstFailure(eventID, 1, ticketQuantity, fs.faults.create);
      && (k > ticketQuantity ==> result == Success(TicketFileNames(eventID, ticketQuantity)))
      && (k <= ticketQuantity ==> result == Failure(WriteFailed(TicketFileName(eventID, k))))
      && fs.files == WriteAll(old(fs.files), PdfEntries(eventID, email,
           TransactionHash(sha256(HashInput(email, eventID, ticketQuantity, unixTime))), render, k - 1))
  {
    var attachments: seq<string> := [];
    var hashStr := TransactionHash(sha256(HashInput(email, eventID, ticketQuantity, unixTime)));
    ghost var first := FirstFailure(eventID, 1, ticketQuantity, fs.faults.create);
    var i := 1;
    while i <= ticketQuantity
      invariant 1 <= i <= first
      invariant i <= ticketQuantity + 1 || i == 1
      invariant first == FirstFailure(eventID, i, ticketQuantity, fs.faults.create)
      invariant attachments == TicketFileNames(eventID, i - 1)
      invariant fs.files == WriteAll(old(fs.files), PdfEntries(eventID, email, hashStr, render, i - 1))
    {
      var url := TicketCode(hashStr, i);
      var pdf := render(i, url, email, eventID);
      var fileName := TicketFileName(eventID, i);
      var ok := fs.CreateFile(fileName, pdf);
      if !ok {
        assert first == i;
        return Failure(WriteFailed(fileName));
      }
      WriteNext(old(fs.files), eventID, email, hashStr, render, i);
      attachments := attachments + [fileName];
      i := i + 1;
    }
    assert first == i;
    assert TicketFileNames(eventID, i - 1) == TicketFileNames(eventID, ticketQuantity);
    return Success(attachments);
  }
}
