/** The file operations main.go performs, on an abstract file system: a map
    from path to contents, with the faults the operating system may report
    fixed in advance. What a read call returns is not in main.go's control
    either: a per-path script says how many bytes each read delivers and
    where a read error strikes. */
module Os {
  import opened Common

  /** How the system serves one read call: deliver up to `n` bytes, or fail. */
  datatype ReadStep = Give(n: nat) | Fail

  /** What a read call reports. */
  datatype ReadStatus = Data | Eof | ReadError

  /** One served read: its status, the byte count, and the script left for later reads. */
  datatype Served = Served(status: ReadStatus, n: nat, script: seq<ReadStep>)

  /** The faults the file system reports. A path in `create` cannot be written,
      one in `open` cannot be opened, one in `remove` cannot be removed, and
      reads of a path follow its script in `scripts` (by default every read
      delivers as much as the caller's buffer holds). */
  datatype Faults = Faults(
    create: set<string>,
    open: set<string>,
    remove: set<string>,
    scripts: map<string, seq<ReadStep>>)

  function ReadScript(faults: Faults, path: string): seq<ReadStep>
  {
    if path in faults.scripts then faults.scripts[path] else []
  }

  /** Reads of `path` never fail: every step of its script delivers bytes, though
      perhaps fewer than the caller asks for. */
  predicate NoReadFault(faults: Faults, path: string)
  {
    forall s :: 0 <= s < |ReadScript(faults, path)| ==> ReadScript(faults, path)[s].Give?
  }

  /** One read into a buffer of `cap` bytes with `rem` bytes left before the end of
      the file. A read that does not fail delivers at least one byte unless the file
      is at its end (the os.File contract), and never more than fits or remains. */
  function ServeRead(rem: nat, script: seq<ReadStep>, cap: nat): (r: Served)
    requires cap > 0
    ensures r.status == Data ==> 1 <= r.n <= rem && r.n <= cap
    ensures r.status != Data ==> r.n == 0
    ensures r.status == Eof ==> rem == 0
    ensures rem > 0 && (script == [] || script[0].Give?) ==> r.status == Data
    ensures |r.script| <= |script|
  {
    if script != [] && script[0].Fail? then Served(ReadError, 0, script[1..])
    else if rem == 0 then Served(Eof, 0, script)
    else
      var limit := if cap < rem then cap else rem;
      var want := if script == [] then limit else script[0].n;
      var n := if want < 1 then 1 else if want > limit then limit else want;
      Served(Data, n, if script == [] then [] else script[1..])
  }

  /** Whether reading to the end of a file with `rem` bytes left, `cap` bytes at a
      time, meets a read error before EOF. */
  function ReadsFail(rem: nat, script: seq<ReadStep>, cap: nat): bool
    requires cap > 0
    decreases rem
  {
    var r := ServeRead(rem, script, cap);
    match r.status
    case Eof => false
    case ReadError => true
    case Data => ReadsFail(rem - r.n, r.script, cap)
  }

  /** How many bytes reading to the end of a file with `rem` bytes left, `cap`
      bytes at a time, delivers before EOF or the first read error: all of them
      when no read fails. */
  function ReadsDeliver(rem: nat, script: seq<ReadStep>, cap: nat): (k: nat)
    requires cap > 0
    ensures k <= rem
    ensures !ReadsFail(rem, script, cap) ==> k == rem
    decreases rem
  {
    var r := ServeRead(rem, script, cap);
    match r.status
    case Eof => 0
    case ReadError => 0
    case Data => r.n + ReadsDeliver(rem - r.n, r.script, cap)
  }

  /** A file read without a scripted fault always reaches EOF, and one whose
      script fails at once never does. */
  lemma {:induction false} ReadsFailExactly(rem: nat, script: seq<ReadStep>, cap: nat)
    requires cap > 0
    ensures (forall i :: 0 <= i < |script| ==> script[i].Give?) ==> !ReadsFail(rem, script, cap)
    ensures script != [] && script[0].Fail? ==> ReadsFail(rem, script, cap)
    decreases rem
  {
    var r := ServeRead(rem, script, cap);
    if r.status == Data {
      if forall i :: 0 <= i < |script| ==> script[i].Give? {
        assert r.script == [] || r.script == script[1..];
      }
      ReadsFailExactly(rem - r.n, r.script, cap);
    }
  }

  /** An open file: its contents, the read position and what is left of its read script. */
  class File {
    const content: seq<byte>
    var pos: nat
    var script: seq<ReadStep>

    ghost predicate Valid()
      reads this
    {
      pos <= |content|
    }

    /** Whether reading on from here, `cap` bytes at a time, meets a read error before EOF. */
    ghost predicate WillFail(cap: nat)
      requires Valid() && cap > 0
      reads this
    {
      ReadsFail(|content| - pos, script, cap)
    }

    /** The position at which reading on from here stops, at EOF or at the first read error. */
    ghost function StopsAt(cap: nat): nat
      requires Valid() && cap > 0
      reads this
    {
      pos + ReadsDeliver(|content| - pos, script, cap)
    }

    constructor (content: seq<byte>, script: seq<ReadStep>)
      ensures Valid() && this.content == content && this.script == script && pos == 0
    {
      this.content := content;
      this.script := script;
      pos := 0;
    }

    /** file.Read(buf): fill a prefix of `buf` with the next bytes of the file. */
    method Read(buf: array<byte>) returns (n: nat, status: ReadStatus)
      requires Valid() && buf.Length > 0
      modifies this, buf
      ensures Valid()
      ensures var r := ServeRead(|content| - old(pos), old(script), buf.Length);
        status == r.status && n == r.n && script == r.script
      ensures pos == old(pos) + n && buf[..n] == content[old(pos)..pos]
      ensures status == Data ==> WillFail(buf.Length) == old(WillFail(buf.Length))
      ensures status == Data ==> StopsAt(buf.Length) == old(StopsAt(buf.Length))
      ensures status != Data ==> old(WillFail(buf.Length)) == (status == ReadError)
      ensures status != Data ==> old(StopsAt(buf.Length)) == pos
    {
      var r := ServeRead(|content| - pos, script, buf.Length);
      n, status, script := r.n, r.status, r.script;
      var i := 0;
      while i < n
        invariant 0 <= i <= n <= |content| - pos
        invariant buf[..i] == content[pos..pos + i]
        modifies buf
      {
        buf[i] := content[pos + i];
        i := i + 1;
      }
      pos := pos + n;
    }
  }

  /** The file system: the files that exist and the faults it reports. */
  class FileSystem {
    var files: map<string, seq<byte>>
    const faults: Faults

    constructor (files: map<string, seq<byte>>, faults: Faults)
      ensures this.files == files && this.faults == faults
    {
      this.files := files;
      this.faults := faults;
    }

    /** Create (or truncate) the file at `path` and write `data` to it. */
    method CreateFile(path: string, data: seq<byte>) returns (ok: bool)
      modifies this
      ensures ok == (path !in faults.create)
      ensures files == if ok then old(files)[path := data] else old(files)
    {
      ok := path !in faults.create;
      if ok {
        files := files[path := data];
      }
    }

    /** os.Open: a fresh handle reading the file from its start, or null. */
    method Open(path: string) returns (f: File?)
      ensures (f != null) == (path in files && path !in faults.open)
      ensures f != null ==>
        fresh(f) && f.Valid() && f.pos == 0 &&
        f.content == files[path] && f.script == ReadScript(faults, path)
    {
      if path in files && path !in faults.open {
        f := new File(files[path], ReadScript(faults, path));
      } else {
        f := null;
      }
    }

    /** os.Remove: fails when the file does not exist or cannot be removed. */
    method Remove(path: string) returns (ok: bool)
      modifies this
      ensures ok == (path in old(files) && path !in faults.remove)
      ensures files == if ok then old(files) - {path} else old(files)
    {
      ok := path in files && path !in faults.remove;
      if ok {
        files := files - {path};
      }
    }
  }
}
