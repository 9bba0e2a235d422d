/** The request handler's two steps in sequence: the files the ticket loop
    writes are the attachments the mail step sends and then removes. */
module Pipeline {
  import opened Common
  import Os
  import Tickets
  import Mime

  /** When no ticket file meets an open, read or remove fault (its reads may
      still come back in short chunks), sending the names returned for a batch
      of n tickets attaches every ticket's PDF, in ticket order, and leaves none
      of the ticket files on disk. */
  lemma TicketsDelivered(files: map<string, seq<byte>>, faults: Os.Faults, eventID: string, email: string,
                         hash: string, render: Tickets.Renderer, n: nat)
    requires forall k :: 1 <= k <= n ==>
      var name := Tickets.TicketFileName(eventID, k);
      name !in faults.open && name !in faults.remove && Os.NoReadFault(faults, name)
    ensures var written := Tickets.WriteAll(files, Tickets.PdfEntries(eventID, email, hash, render, n));
      var d := Mime.Attached(written, faults, Tickets.TicketFileNames(eventID, n));
      && d.failure.None?
      && |d.contents| == n
      && (forall k :: 1 <= k <= n ==> d.contents[k - 1] == render(k, Tickets.TicketCode(hash, k), email, eventID))
      && (forall k :: 1 <= k <= n ==> Tickets.TicketFileName(eventID, k) !in d.files)
  {
    var written := Tickets.WriteAll(files, Tickets.PdfEntries(eventID, email, hash, render, n));
    var names := Tickets.TicketFileNames(eventID, n);
    assert forall i, j :: 0 <= i < j < |names| ==> names[i] != names[j] by {
      Tickets.TicketFileNamesUnique(eventID, n);
    }
    forall i | 0 <= i < |names|
      ensures names[i] in written
      ensures names[i] !in faults.open && names[i] !in faults.remove && Os.NoReadFault(faults, names[i])
    {
      assert names[i] == Tickets.TicketFileName(eventID, i + 1);
      Tickets.PdfFileWritten(files, eventID, email, hash, render, n, i + 1);
    }
    Mime.AttachedAll(written, faults, names);
    var d := Mime.Attached(written, faults, names);
    forall k | 1 <= k <= n
      ensures d.contents[k - 1] == render(k, Tickets.TicketCode(hash, k), email, eventID)
      ensures Tickets.TicketFileName(eventID, k) !in d.files
    {
      assert names[k - 1] == Tickets.TicketFileName(eventID, k);
      Tickets.PdfFileWritten(files, eventID, email, hash, render, n, k);
    }
  }
}
