/** Values shared by the whole model: bytes, optional values and results, the
    errors the pipeline reports, and the growing byte buffer (Go's bytes.Buffer)
    that the message is assembled into. A Go string is a sequence of bytes; the
    model writes it as a Dafny `string` holding one char per byte. */
module Common {

  /** One byte of a file. */
  newtype byte = x: int | 0 <= x < 256

  datatype Option<+T> = None | Some(value: T)

  datatype Result<+T> = Success(value: T) | Failure(error: Error)

  /** The errors the pipeline can return. */
  datatype Error =
    | WriteFailed(path: string)   // pdf.OutputFileAndClose could not create the file
    | OpenFailed(path: string)    // os.Open of an attachment failed
    | ReadFailed(path: string)    // file.Read of an attachment failed before EOF
    | TransportFailed             // smtp.SendMail reported an error

  /** A growing buffer of bytes, written to only at its end. */
  class Buffer {
    var data: string

    constructor ()
      ensures data == []
    {
      data := [];
    }

    method WriteString(s: string)
      modifies this
      ensures data == old(data) + s
    {
      data := data + s;
    }
  }

  // Facts about concatenation, stated once for any element type so that the
  // proofs about long texts need not rediscover them.

  lemma Assoc<T>(a: seq<T>, b: seq<T>, c: seq<T>)
    ensures (a + b) + c == a + (b + c)
  {
  }

  lemma Halves<T>(head: seq<T>, tail: seq<T>)
    ensures |head + tail| >= |head| && (head + tail)[..|head|] == head && (head + tail)[|head|..] == tail
  {
  }

  lemma FirstOf<T>(x: seq<T>, y: seq<T>)
    requires |x| > 0
    ensures |x + y| > 0 && (x + y)[0] == x[0]
  {
  }

  lemma NoneAppended<T>(s: seq<T>)
    ensures s + [] == s
  {
  }

  lemma EmptyPrepended<T>(s: seq<T>)
    ensures [] + s == s
  {
  }

  lemma ConsTail<T>(s: seq<T>)
    requires |s| > 0
    ensures [s[0]] + s[1..] == s
  {
  }

  lemma FirstThree<T>(s: seq<T>)
    requires |s| >= 3
    ensures [s[0], s[1], s[2]] + s[3..] == s
  {
  }

  lemma TakeOneMore<T>(s: seq<T>, i: nat)
    requires i < |s|
    ensures s[..i + 1] == s[..i] + [s[i]]
  {
  }

  lemma TakeDrop<T>(s: seq<T>, i: nat)
    requires i <= |s|
    ensures s[..i] + s[i..] == s && (i == |s| ==> s[..i] == s)
  {
  }

  lemma SliceJoin<T>(s: seq<T>, a: nat, b: nat, c: nat)
    requires a <= b <= c <= |s|
    ensures s[a..c] == s[a..b] + s[b..c] && (c == |s| ==> s[a..c] == s[a..])
  {
  }

  lemma ExtendSlice<T>(t: seq<T>, s: seq<T>, a: nat, b: nat, c: nat)
    requires a <= b <= c <= |s|
    ensures (t + s[a..b]) + s[b..c] == t + s[a..c]
  {
    SliceJoin(s, a, b, c);
  }

  lemma Regroup<T>(a: seq<T>, b: seq<T>, c: seq<T>, d: seq<T>)
    ensures ((a + b) + c) + d == a + (b + (c + d))
  {
  }

  /** Appending five pieces one by one appends their concatenation. */
  lemma AppendFive<T>(o: seq<T>, a: seq<T>, b: seq<T>, c: seq<T>, d: seq<T>, e: seq<T>)
    ensures ((((o + a) + b) + c) + d) + e == o + ((((a + b) + c) + d) + e)
  {
  }

  /** Appending six pieces one by one appends the first four and the last two. */
  lemma AppendSix<T>(o: seq<T>, a: seq<T>, b: seq<T>, c: seq<T>, d: seq<T>, e: seq<T>, f: seq<T>)
    ensures (((((o + a) + b) + c) + d) + e) + f == o + ((((a + b) + c) + d) + (e + f))
  {
  }
}
