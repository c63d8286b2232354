/** The SSH wire strings of section 5 of RFC 4251, the cursor that reads them, and
    the reassembly of an agent's reply from the chunks a socket delivers. */
module AgentWire {
  import opened Bits
  import opened Wrappers

  type Bytes = seq<Byte>

  const LENGTH_LIMIT: nat := 0x1_0000_0000

  function Uint32Of(b: Bytes): (n: nat)
    requires |b| == 4
    ensures n < LENGTH_LIMIT
  {
    var (b0: int, b1: int, b2: int, b3: int) := (b[0], b[1], b[2], b[3]);
    0x1_0000 * (0x100 * b0 + b1) + (0x100 * b2 + b3)
  }

  function PackUint32(n: nat): (b: Bytes)
    requires n < LENGTH_LIMIT
    ensures |b| == 4
    ensures Uint32Of(b) == n
  {
    var hi, lo := n / 0x1_0000, n % 0x1_0000;
    [hi / 0x100, hi % 0x100, lo / 0x100, lo % 0x100]
  }

  /** The most significant byte comes first. */
  lemma PackDescends(n: nat)
    requires n < LENGTH_LIMIT
    ensures var b := PackUint32(n);
            var (b0: int, b1: int, b2: int, b3: int) := (b[0], b[1], b[2], b[3]);
            n == 0x100_0000 * b0 + 0x1_0000 * b1 + 0x100 * b2 + b3
  {
  }

  /** A length-prefixed string; a length outside 32 bits cannot be packed. */
  function WireString(b: Bytes): Result<Bytes> {
    if |b| < LENGTH_LIMIT then Ok(PackUint32(|b|) + b) else Err
  }

  /** A slice that stops at the end of its buffer. */
  function Slice(b: Bytes, from: nat, to: nat): (r: Bytes)
    requires from <= to
    ensures |r| <= to - from
  {
    var lo, hi := if from < |b| then from else |b|, if to < |b| then to else |b|;
    b[lo..hi]
  }

  // ---- The cursor ----------------------------------------------------------

  /** What reading one string at a position answers, and where it leaves the cursor:
      past the end when the buffer stops short. */
  function StringAt(buf: Bytes, at: nat): (Result<Bytes>, nat) {
    if at + 4 > |buf| then (Err, at + 4)
    else
      var n := Uint32Of(buf[at..at + 4]);
      (Ok(Slice(buf, at + 4, at + 4 + n)), at + 4 + n)
  }

  class Reader {
    const buf: Bytes
    var at: nat

    constructor (b: Bytes)
      ensures buf == b && at == 0
    {
      buf := b;
      at := 0;
    }

    method Skip(n: nat)
      modifies this
      ensures at == old(at) + n
    {
      at := at + n;
    }

    method ReadByte() returns (r: Result<Byte>)
      modifies this
      ensures at == old(at) + 1
      ensures r == if old(at) < |buf| then Ok(buf[old(at)]) else Err
    {
      at := at + 1;
      if at - 1 >= |buf| {
        return Err;
      }
      r := Ok(buf[at - 1]);
    }

    method ReadUint32() returns (r: Result<nat>)
      modifies this
      ensures at == old(at) + 4
      ensures r == if old(at) + 4 <= |buf| then Ok(Uint32Of(buf[old(at)..old(at) + 4])) else Err
    {
      at := at + 4;
      var field := Slice(buf, at - 4, at);
      if |field| != 4 {
        return Err;
      }
      r := Ok(Uint32Of(field));
    }

    method ReadString() returns (r: Result<Bytes>)
      modifies this
      ensures (r, at) == StringAt(buf, old(at))
    {
      var n := ReadUint32();
      if n.Err? {
        return Err;
      }
      at := at + n.value;
      r := Ok(Slice(buf, at - n.value, at));
    }

    /** Reads count strings, as the identity listing of an agent does. */
    method ReadStrings(count: nat) returns (r: Result<seq<Bytes>>)
      modifies this
      ensures (r, at) == StringsAt(buf, old(at), count)
    {
      var strings := [];
      ghost var start := at;
      PrependNothing(StringsAt(buf, at, count));
      while |strings| < count
        invariant |strings| <= count
        invariant StringsAt(buf, start, count) == Prepended(strings, StringsAt(buf, at, count - |strings|))
        decreases count - |strings|
      {
        var s := ReadString();
        if s.Err? {
          return Err;
        }
        PrependTwice(strings, [s.value], StringsAt(buf, at, count - |strings| - 1));
        strings := strings + [s.value];
      }
      assert strings + [] == strings;
      r := Ok(strings);
    }
  }

  function Prepended(done: seq<Bytes>, rest: (Result<seq<Bytes>>, nat)): (Result<seq<Bytes>>, nat) {
    if rest.0.Err? then rest else (Ok(done + rest.0.value), rest.1)
  }

  lemma PrependNothing(rest: (Result<seq<Bytes>>, nat))
    ensures Prepended([], rest) == rest
  {
    if rest.0.Ok? {
      assert [] + rest.0.value == rest.0.value;
    }
  }

  lemma PrependTwice(a: seq<Bytes>, b: seq<Bytes>, rest: (Result<seq<Bytes>>, nat))
    ensures Prepended(a, Prepended(b, rest)) == Prepended(a + b, rest)
  {
    if rest.0.Ok? {
      assert a + (b + rest.0.value) == a + b + rest.0.value;
    }
  }

  function StringsAt(buf: Bytes, at: nat, count: nat): (Result<seq<Bytes>>, nat)
    decreases count
  {
    if count == 0 then (Ok([]), at)
    else
      var (s, next) := StringAt(buf, at);
      if s.Err? then (Err, next) else Prepended([s.value], StringsAt(buf, next, count - 1))
  }

  predicate Packable(parts: seq<Bytes>) {
    forall i :: 0 <= i < |parts| ==> |parts[i]| < LENGTH_LIMIT
  }

  /** The strings of a message, one after another. */
  function Frame(parts: seq<Bytes>): Bytes
    requires Packable(parts)
  {
    if parts == [] then [] else WireString(parts[0]).value + Frame(parts[1..])
  }

  /** The buffer holds the part from a position on. */
  predicate Holds(buf: Bytes, at: nat, part: Bytes) {
    at + |part| <= |buf| && buf[at..at + |part|] == part
  }

  lemma HoldsBoth(buf: Bytes, at: nat, a: Bytes, b: Bytes)
    requires Holds(buf, at, a + b)
    ensures Holds(buf, at, a) && Holds(buf, at + |a|, b)
  {
    assert buf[at..at + |a|] == (a + b)[..|a|];
    assert buf[at + |a|..at + |a| + |b|] == (a + b)[|a|..];
  }

  lemma StringReadsBack(buf: Bytes, at: nat, part: Bytes)
    requires |part| < LENGTH_LIMIT && Holds(buf, at, WireString(part).value)
    ensures StringAt(buf, at) == (Ok(part), at + |WireString(part).value|)
  {
    HoldsBoth(buf, at, PackUint32(|part|), part);
  }

  /** Reading a framed list anywhere in a buffer gives the list back and stops at its end. */
  lemma {:induction false} FrameReadsBack(buf: Bytes, at: nat, parts: seq<Bytes>)
    requires Packable(parts) && Holds(buf, at, Frame(parts))
    ensures StringsAt(buf, at, |parts|) == (Ok(parts), at + |Frame(parts)|)
    decreases |parts|
  {
    if parts != [] {
      var first := WireString(parts[0]).value;
      HoldsBoth(buf, at, first, Frame(parts[1..]));
      StringReadsBack(buf, at, parts[0]);
      FrameReadsBack(buf, at + |first|, parts[1..]);
      assert [parts[0]] + parts[1..] == parts;
    }
  }

  // ---- The agent's reply ---------------------------------------------------

  /** The bytes the chunks deliver before the peer closes: an empty chunk is the close. */
  function Delivered(chunks: seq<Bytes>): Bytes {
    if chunks == [] || chunks[0] == [] then [] else chunks[0] + Delivered(chunks[1..])
  }

  /** A whole reply needs its length field and as many bytes as that names. */
  predicate Complete(got: Bytes) {
    |got| >= 4 && |got| >= 4 + Uint32Of(got[..4])
  }

  function ReplyOf(stream: Bytes): Result<Bytes> {
    if Complete(stream) then Ok(stream[4..4 + Uint32Of(stream[..4])]) else Err
  }

  /** Once complete, a reply is settled: later bytes do not change it. */
  lemma ReplySettled(got: Bytes, later: Bytes)
    requires Complete(got)
    ensures ReplyOf(got + later) == ReplyOf(got)
  {
    var n := Uint32Of(got[..4]);
    assert (got + later)[..4] == got[..4];
    assert (got + later)[4..4 + n] == got[4..4 + n];
  }

  lemma {:induction false} DeliveredStep(got: Bytes, chunks: seq<Bytes>, i: nat)
    requires i < |chunks| && chunks[i] != []
    ensures got + Delivered(chunks[i..]) == got + chunks[i] + Delivered(chunks[i + 1..])
  {
    assert chunks[i..][1..] == chunks[i + 1..];
    assert got + (chunks[i] + Delivered(chunks[i + 1..])) == got + chunks[i] + Delivered(chunks[i + 1..]);
  }

  /** The reply is a function of the bytes delivered, however they were split. */
  method Reassemble(chunks: seq<Bytes>) returns (r: Result<Bytes>)
    ensures r == ReplyOf(Delivered(chunks))
  {
    var got, i := [], 0;
    while !Complete(got)
      invariant i <= |chunks|
      invariant Delivered(chunks) == got + Delivered(chunks[i..])
      decreases |chunks| - i
    {
      if i == |chunks| || chunks[i] == [] {
        assert got + [] == got;
        return Err;
      }
      DeliveredStep(got, chunks, i);
      got := got + chunks[i];
      i := i + 1;
    }
    ReplySettled(got, Delivered(chunks[i..]));
    r := Ok(got[4..4 + Uint32Of(got[..4])]);
  }

  /** A string written by one side is the payload the other reassembles, from any
      chunking that delivers it, and whatever follows it on the stream. */
  lemma ReplyReadsBack(payload: Bytes, trailing: Bytes)
    requires |payload| < LENGTH_LIMIT
    ensures ReplyOf(WireString(payload).value + trailing) == Ok(payload)
  {
    var stream := WireString(payload).value + trailing;
    assert stream[..4] == PackUint32(|payload|);
    assert stream[4..4 + |payload|] == payload;
  }

  /** A reply cut short anywhere is refused, never truncated. */
  lemma ShortReplyRefused(payload: Bytes, keep: nat)
    requires |payload| < LENGTH_LIMIT && keep < |WireString(payload).value|
    ensures ReplyOf(WireString(payload).value[..keep]) == Err
  {
    var stream := WireString(payload).value;
    if keep >= 4 {
      assert stream[..keep][..4] == PackUint32(|payload|);
    }
  }
}
