/** The standard base64 encoding of section 4 of RFC 4648 (Go's
    base64.StdEncoding), its decoder, and the streaming encoder that
    base64.NewEncoder returns: a writer that holds back the 0-2 bytes of an
    incomplete group until more input or Close arrives. */
module Base64 {
  import opened Common

  /** The character of the standard alphabet for a 6-bit value. */
  function SextetChar(v: nat): (c: char)
    requires v < 64
    ensures SextetValue(c) == v
  {
    if v < 26 then ('A' as int + v) as char
    else if v < 52 then ('a' as int + v - 26) as char
    else if v < 62 then ('0' as int + v - 52) as char
    else if v == 62 then '+'
    else '/'
  }

  /** The 6-bit value of an alphabet character, or -1 for any other char. */
  function SextetValue(c: char): (v: int)
    ensures -1 <= v < 64
  {
    if 'A' <= c <= 'Z' then c as int - 'A' as int
    else if 'a' <= c <= 'z' then c as int - 'a' as int + 26
    else if '0' <= c <= '9' then c as int - '0' as int + 52
    else if c == '+' then 62
    else if c == '/' then 63
    else -1
  }

  /** The padding character. */
  const Pad: char := '='

  /** A 24-bit group of three bytes as four alphabet characters, high bits first. */
  function Quantum(a: byte, b: byte, c: byte): string
  {
    var x, y, z := a as int, b as int, c as int;
    [SextetChar(x / 4), SextetChar(x % 4 * 16 + y / 16), SextetChar(y % 16 * 4 + z / 64), SextetChar(z % 64)]
  }

  /** The final, padded quantum for the one or two bytes left over (none for zero). */
  function Final(t: seq<byte>): string
    requires |t| < 3
  {
    if |t| == 0 then []
    else if |t| == 1 then [SextetChar(t[0] as int / 4), SextetChar(t[0] as int % 4 * 16), Pad, Pad]
    else
      var x, y := t[0] as int, t[1] as int;
      [SextetChar(x / 4), SextetChar(x % 4 * 16 + y / 16), SextetChar(y % 16 * 4), Pad]
  }

  /** StdEncoding.EncodeToString: a quantum for each complete group of three
      bytes, then the padded final quantum for the 0-2 bytes left over. */
  function Encode(s: seq<byte>): string
    decreases |s|
  {
    if |s| < 3 then Final(s) else Quantum(s[0], s[1], s[2]) + Encode(s[3..])
  }

  /** The quanta of the complete groups of `s`, with no padding: what the stream
      encoder has output once `s` is behind it. */
  function Groups(s: seq<byte>): string
    decreases |s|
  {
    if |s| < 3 then [] else Quantum(s[0], s[1], s[2]) + Groups(s[3..])
  }

  /** The length of the input that forms complete groups (len(p) / 3 * 3). */
  function Whole(n: nat): nat
  {
    n / 3 * 3
  }

  lemma WholeBounds(n: nat)
    ensures Whole(n) <= n < Whole(n) + 3 && Whole(n) % 3 == 0
  {
  }

  /** Decodes four alphabet characters into three bytes; None for any other char. */
  function DecodeQuantum(q: string): Option<seq<byte>>
    requires |q| == 4
  {
    var v0, v1, v2, v3 := SextetValue(q[0]), SextetValue(q[1]), SextetValue(q[2]), SextetValue(q[3]);
    if v0 < 0 || v1 < 0 || v2 < 0 || v3 < 0 then None
    else Some([(v0 * 4 + v1 / 16) as byte, (v1 % 16 * 16 + v2 / 4) as byte, (v2 % 4 * 64 + v3) as byte])
  }

  /** Decodes the last quantum, which may carry one or two padding characters. */
  function DecodeFinal(q: string): Option<seq<byte>>
    requires |q| == 4
  {
    var v0, v1, v2 := SextetValue(q[0]), SextetValue(q[1]), SextetValue(q[2]);
    if q[2] == Pad && q[3] == Pad then
      if v0 < 0 || v1 < 0 then None else Some([(v0 * 4 + v1 / 16) as byte])
    else if q[3] == Pad then
      if v0 < 0 || v1 < 0 || v2 < 0 then None
      else Some([(v0 * 4 + v1 / 16) as byte, (v1 % 16 * 16 + v2 / 4) as byte])
    else DecodeQuantum(q)
  }

  /** A standard base64 decoder: None when the text is not a padded encoding. */
  function Decode(e: string): Option<seq<byte>>
  {
    if e == [] then Some([])
    else if |e| < 4 then None
    else if |e| == 4 then DecodeFinal(e)
    else match DecodeQuantum(e[..4])
      case None => None
      case Some(head) =>
        match Decode(e[4..])
        case None => None
        case Some(tail) => Some(head + tail)
  }

  lemma {:induction false} GroupsAppend(a: seq<byte>, b: seq<byte>)
    requires |a| % 3 == 0
    ensures Groups(a + b) == Groups(a) + Groups(b)
    decreases |a|
  {
    if a == [] {
      assert a + b == b;
    } else {
      assert (a + b)[3..] == a[3..] + b;
      GroupsAppend(a[3..], b);
      Assoc(Quantum(a[0], a[1], a[2]), Groups(a[3..]), Groups(b));
    }
  }

  lemma QuantumRoundTrip(a: byte, b: byte, c: byte)
    ensures DecodeQuantum(Quantum(a, b, c)) == Some([a, b, c])
    ensures DecodeFinal(Quantum(a, b, c)) == Some([a, b, c])
  {
    var x, y, z := a as int, b as int, c as int;
    assert (x % 4 * 16 + y / 16) / 16 == x % 4 && (x % 4 * 16 + y / 16) % 16 == y / 16;
    assert (y % 16 * 4 + z / 64) / 4 == y % 16 && (y % 16 * 4 + z / 64) % 4 == z / 64;
  }

  lemma FinalRoundTrip(t: seq<byte>)
    requires 1 <= |t| < 3
    ensures DecodeFinal(Final(t)) == Some(t)
  {
    var x := t[0] as int;
    if |t| == 2 {
      var y := t[1] as int;
      assert (x % 4 * 16 + y / 16) / 16 == x % 4 && (x % 4 * 16 + y / 16) % 16 == y / 16;
      assert (y % 16 * 4) / 4 == y % 16;
      assert [t[0], t[1]] == t;
    } else {
      assert (x % 4 * 16) / 16 == x % 4;
      assert [t[0]] == t;
    }
  }

  /** Decoding a complete quantum followed by more text. */
  lemma DecodeStep(q: string, rest: string, head: seq<byte>, tail: seq<byte>)
    requires |q| == 4 && |rest| > 0
    requires DecodeQuantum(q) == Some(head) && Decode(rest) == Some(tail)
    ensures Decode(q + rest) == Some(head + tail)
  {
    Halves(q, rest);
  }

  /** The encoded length is four characters for every started group of three bytes. */
  lemma {:induction false} EncodedLength(s: seq<byte>)
    ensures |Encode(s)| == 4 * ((|s| + 2) / 3)
    decreases |s|
  {
    if |s| >= 3 {
      EncodedLength(s[3..]);
      assert (|s| + 2) / 3 == (|s| - 3 + 2) / 3 + 1;
    }
  }

  /** Decoding the encoding of a group followed by the encoding of the rest. */
  lemma RoundTripStep(s: seq<byte>)
    requires |s| >= 3
    requires Decode(Encode(s[3..])) == Some(s[3..])
    ensures Decode(Encode(s)) == Some(s)
  {
    var q := Quantum(s[0], s[1], s[2]);
    var head := [s[0], s[1], s[2]];
    QuantumRoundTrip(s[0], s[1], s[2]);
    FirstThree(s);
    if |s| > 3 {
      EncodedLength(s[3..]);
      DecodeStep(q, Encode(s[3..]), head, s[3..]);
    } else {
      assert Encode(s[3..]) == [];
      NoneAppended(q);
      NoneAppended(head);
      assert Decode(q) == DecodeFinal(q);
    }
  }

  /** The decoder recovers every input from its encoding, byte for byte. */
  lemma {:induction false} RoundTrip(s: seq<byte>)
    ensures Decode(Encode(s)) == Some(s)
    decreases |s|
  {
    if |s| < 3 {
      if |s| > 0 {
        FinalRoundTrip(s);
      }
    } else {
      RoundTrip(s[3..]);
      RoundTripStep(s);
    }
  }

  /** A character that base64 output may hold. */
  predicate IsBase64Char(c: char)
  {
    SextetValue(c) >= 0 || c == Pad
  }

  lemma {:induction false} EncodeAlphabet(s: seq<byte>)
    ensures forall i :: 0 <= i < |Encode(s)| ==> IsBase64Char(Encode(s)[i])
    decreases |s|
  {
    if |s| >= 3 {
      EncodeAlphabet(s[3..]);
      var q := Quantum(s[0], s[1], s[2]);
      assert forall i :: 0 <= i < |q| ==> IsBase64Char(q[i]);
    }
  }

  /** Encoded text holds only alphabet and padding characters: in particular no
      CR, LF or '-', so it cannot contain a line break or a MIME boundary delimiter. */
  lemma EncodeCharset(s: seq<byte>)
    ensures forall i :: 0 <= i < |Encode(s)| ==> IsBase64Char(Encode(s)[i])
    ensures '\r' !in Encode(s) && '\n' !in Encode(s) && '-' !in Encode(s)
  {
    EncodeAlphabet(s);
    assert !IsBase64Char('\r') && !IsBase64Char('\n') && !IsBase64Char('-');
  }

  lemma ModAdd(a: nat, b: nat)
    requires a % 3 == 0
    ensures (a + b) % 3 == b % 3
  {
    var k := a / 3;
    assert a == 3 * k;
  }

  /** Appending the encoding of more complete groups to a text that ends with
      the encoding of `done`. */
  lemma EmitGroups(text: string, prefix: string, done: seq<byte>, more: seq<byte>)
    requires |done| % 3 == 0 && |more| % 3 == 0
    requires text == prefix + Groups(done)
    ensures |done + more| % 3 == 0
    ensures text + Groups(more) == prefix + Groups(done + more)
  {
    ModAdd(|done|, |more|);
    assert |done + more| % 3 == 0;
    GroupsAppend(done, more);
    Assoc(prefix, Groups(done), Groups(more));
  }

  /** Appending the encoding of one more group to a text that ends with the
      encoding of `done`. */
  lemma EmitQuantum(text: string, prefix: string, done: seq<byte>, group: seq<byte>)
    requires |done| % 3 == 0 && |group| == 3
    requires text == prefix + Groups(done)
    ensures |done + group| % 3 == 0
    ensures text + Quantum(group[0], group[1], group[2]) == prefix + Groups(done + group)
  {
    var quantum := Quantum(group[0], group[1], group[2]);
    assert Groups(group) == quantum + Groups([]);
    NoneAppended(quantum);
    EmitGroups(text, prefix, done, group);
  }

  /** Encoding a whole number of groups followed by the 0-2 bytes left over. */
  lemma {:induction false} EncodeSplit(groups: seq<byte>, rest: seq<byte>)
    requires |groups| % 3 == 0 && |rest| < 3
    ensures Encode(groups + rest) == Groups(groups) + Final(rest)
    decreases |groups|
  {
    if groups == [] {
      assert groups + rest == rest;
    } else {
      assert (groups + rest)[3..] == groups[3..] + rest;
      EncodeSplit(groups[3..], rest);
      Assoc(Quantum(groups[0], groups[1], groups[2]), Groups(groups[3..]), Final(rest));
    }
  }

  /** base64.NewEncoder(StdEncoding, w): a stream encoder writing into `w`.
      `consumed` is everything written to it so far; `emitted`, its longest
      prefix of complete groups, is what the encoder has output since `start`;
      the 0-2 bytes after it are held in `pending`. */
  class Encoder {
    const w: Buffer
    var pending: seq<byte>
    ghost var consumed: seq<byte>
    ghost var emitted: seq<byte>
    ghost const start: string

    ghost predicate Valid()
      reads this, w
    {
      consumed == emitted + pending && |pending| < 3 && |emitted| % 3 == 0 &&
      w.data == start + Groups(emitted)
    }

    constructor (w: Buffer)
      ensures Valid() && this.w == w
      ensures consumed == [] && start == w.data
    {
      this.w := w;
      pending := [];
      consumed := [];
      emitted := [];
      start := w.data;
    }

    /** Write: complete the pending group first, then emit every complete group
        of the rest and keep its last 0-2 bytes pending. */
    method Write(p: seq<byte>)
      requires Valid()
      modifies this, w
      ensures Valid()
      ensures consumed == old(consumed) + p
    {
      var rest := p;
      if |pending| > 0 {
        rest := TopUp(p);
        if |pending| > 0 {
          return;
        }
      }
      Interior(rest);
    }

    /** The leading fringe of Write: move the leading input bytes, as many as the
        pending group lacks, into it and emit it once it holds three; the rest of
        the input is returned. */
    method TopUp(p: seq<byte>) returns (rest: seq<byte>)
      requires Valid() && |pending| > 0
      modifies this, w
      ensures Valid()
      ensures |rest| <= |p| && |p| - |rest| == if |p| < 3 - old(|pending|) then |p| else 3 - old(|pending|)
      ensures consumed == old(consumed) + p[..|p| - |rest|] && rest == p[|p| - |rest|..]
      ensures consumed + rest == old(consumed) + p
      ensures pending != [] ==> rest == []
    {
      var take := if |p| < 3 - |pending| then |p| else 3 - |pending|;
      var fill := p[..take];
      rest := p[take..];
      TakeDrop(p, take);
      Assoc(emitted, pending, fill);
      Assoc(consumed, fill, rest);
      pending := pending + fill;
      consumed := emitted + pending;
      if |pending| == 3 {
        var quantum := Quantum(pending[0], pending[1], pending[2]);
        EmitQuantum(w.data, start, emitted, pending);
        w.WriteString(quantum);
        emitted := emitted + pending;
        pending := [];
        NoneAppended(emitted);
      }
    }

    /** The interior of Write: with no group pending, emit every complete group
        of the input and keep the remainder. */
    method Interior(rest: seq<byte>)
      requires Valid() && pending == []
      modifies this, w
      ensures Valid()
      ensures consumed == old(consumed) + rest
    {
      var whole := Whole(|rest|);
      WholeBounds(|rest|);
      var groups := rest[..whole];
      TakeDrop(rest, whole);
      NoneAppended(emitted);
      Assoc(emitted, groups, rest[whole..]);
      EmitGroups(w.data, start, emitted, groups);
      w.WriteString(Groups(groups));
      emitted := emitted + groups;
      pending := rest[whole..];
      consumed := consumed + rest;
    }

    /** Close: flush the pending bytes as the padded final quantum. */
    method Close()
      requires Valid()
      modifies this, w
      ensures w.data == old(start + Encode(consumed))
      ensures pending == []
    {
      EncodeSplit(emitted, pending);
      if |pending| > 0 {
        w.WriteString(Final(pending));
        pending := [];
      }
    }
  }
}
