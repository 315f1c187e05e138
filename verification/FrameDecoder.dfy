/** src/magit_server.c: the resumable decoder of length-prefixed frames. */
module FrameDecoder {
  import opened Chunks

  type Byte = x: int | 0 <= x < 256

  const MAX_MESSAGE_SIZE := 64 * 1024
  const LENGTH_SIZE := 4

  /** `ntohl` of four bytes in network order. */
  function BigEndian(b: seq<Byte>): (n: nat)
    requires |b| == 4
    ensures n < 0x1_0000_0000
  {
    (((b[0] as int) * 256 + b[1] as int) * 256 + b[2] as int) * 256 + b[3] as int
  }

  lemma NetworkOrder(b: seq<Byte>)
    requires |b| == 4
    ensures BigEndian(b) == 0x100_0000 * b[0] as int + 0x1_0000 * b[1] as int + 0x100 * b[2] as int + b[3] as int
  {
  }

  predicate Acceptable(length: nat) {
    0 < length <= MAX_MESSAGE_SIZE
  }

  // ---- what a byte stream means -----------------------------------------------

  /** After the complete frames: bytes of a frame still to be completed, or a length that ends the conversation. */
  datatype Tail = More(bytes: seq<Byte>) | Broken

  datatype Decoded = Decoded(frames: seq<seq<Byte>>, tail: Tail)

  /** Parse a whole stream at once. */
  function Decode(s: seq<Byte>): Decoded
    decreases |s|
  {
    if |s| < LENGTH_SIZE then Decoded([], More(s))
    else
      var n := BigEndian(s[..LENGTH_SIZE]);
      if !Acceptable(n) then Decoded([], Broken)
      else if |s| < LENGTH_SIZE + n then Decoded([], More(s))
      else
        var d := Decode(s[LENGTH_SIZE + n..]);
        Decoded([s[LENGTH_SIZE..LENGTH_SIZE + n]] + d.frames, d.tail)
  }

  /** The first frame of a stream, when it is complete. */
  predicate HasFrame(s: seq<Byte>) {
    |s| >= LENGTH_SIZE && Acceptable(BigEndian(s[..LENGTH_SIZE])) && |s| >= LENGTH_SIZE + BigEndian(s[..LENGTH_SIZE])
  }

  /** Parsing can be resumed from the unfinished tail, and nothing follows a broken one. */
  lemma {:induction false} DecodeResume(s: seq<Byte>, more: seq<Byte>)
    ensures match Decode(s).tail
            case Broken => Decode(s + more) == Decode(s)
            case More(p) => Decode(s + more) == Decoded(Decode(s).frames + Decode(p + more).frames, Decode(p + more).tail)
    decreases |s|
  {
    hide BigEndian;
    if HasFrame(s) {
      var n := BigEndian(s[..LENGTH_SIZE]);
      FirstFrameKept(s, more);
      DecodeResume(s[LENGTH_SIZE + n..], more);
      var rest := Decode(s[LENGTH_SIZE + n..]);
      if rest.tail.More? {
        Prepend([s[LENGTH_SIZE..LENGTH_SIZE + n]], rest.frames, Decode(rest.tail.bytes + more).frames);
      }
    } else if |s| >= LENGTH_SIZE && !Acceptable(BigEndian(s[..LENGTH_SIZE])) {
      assert (s + more)[..LENGTH_SIZE] == s[..LENGTH_SIZE];
    } else {
      assert [] + Decode(s + more).frames == Decode(s + more).frames;
    }
  }

  lemma Prepend<T>(a: seq<T>, b: seq<T>, c: seq<T>)
    ensures a + (b + c) == a + b + c
  {
  }

  lemma FirstFrameKept(s: seq<Byte>, more: seq<Byte>)
    requires HasFrame(s)
    ensures var n := BigEndian(s[..LENGTH_SIZE]);
      && (s + more)[..LENGTH_SIZE] == s[..LENGTH_SIZE]
      && (s + more)[LENGTH_SIZE + n..] == s[LENGTH_SIZE + n..] + more
      && (s + more)[LENGTH_SIZE..LENGTH_SIZE + n] == s[LENGTH_SIZE..LENGTH_SIZE + n]
  {
    hide BigEndian;
  }

  /** What the tail of a stream becomes when bytes are added to it, as long as no frame is exceeded. */
  lemma TailGrows(p: seq<Byte>)
    ensures |p| < LENGTH_SIZE ==> Decode(p) == Decoded([], More(p))
    ensures |p| >= LENGTH_SIZE && !Acceptable(BigEndian(p[..LENGTH_SIZE])) ==> Decode(p) == Decoded([], Broken)
    ensures |p| >= LENGTH_SIZE && Acceptable(BigEndian(p[..LENGTH_SIZE])) && |p| < LENGTH_SIZE + BigEndian(p[..LENGTH_SIZE]) ==>
              Decode(p) == Decoded([], More(p))
    ensures |p| >= LENGTH_SIZE && Acceptable(BigEndian(p[..LENGTH_SIZE])) && |p| == LENGTH_SIZE + BigEndian(p[..LENGTH_SIZE]) ==>
              Decode(p) == Decoded([p[LENGTH_SIZE..]], More([]))
  {
    hide BigEndian;
    if |p| >= LENGTH_SIZE && |p| == LENGTH_SIZE + BigEndian(p[..LENGTH_SIZE]) {
      assert p[LENGTH_SIZE..|p|] == p[LENGTH_SIZE..] && p[|p|..] == [];
    }
  }

  /** Bytes of a length are added to a stream that ends inside a length, or that is broken and takes no more. */
  lemma LengthGrows(s: seq<Byte>, had: seq<Byte>, x: seq<Byte>)
    requires |had| + |x| <= LENGTH_SIZE
    requires match Decode(s).tail
             case More(p) => p == had
             case Broken => |had| == LENGTH_SIZE && !Acceptable(BigEndian(had))
    ensures Decode(s + x).frames == Decode(s).frames
    ensures |had + x| < LENGTH_SIZE ==> Decode(s + x).tail == More(had + x)
    ensures |had + x| == LENGTH_SIZE ==> Decode(s + x).tail == if Acceptable(BigEndian(had + x)) then More(had + x) else Broken
  {
    hide Decode, BigEndian;
    DecodeResume(s, x);
    TailGrows(had + x);
    assert Decode(s).frames + [] == Decode(s).frames;
    assert |had + x| == LENGTH_SIZE ==> (had + x)[..LENGTH_SIZE] == had + x;
    assert |had| == LENGTH_SIZE ==> had + x == had;
  }

  // ---- the decoder ------------------------------------------------------------

  /** `memcpy(dst + at, data + from, n)`. */
  method CopyInto(dst: array<Byte>, at: nat, data: seq<Byte>, from: nat, n: nat)
    requires at + n <= dst.Length && from + n <= |data|
    modifies dst
    ensures dst[..at + n] == old(dst[..at]) + data[from..from + n]
    ensures n == 0 ==> dst[..] == old(dst[..])
  {
    forall k | 0 <= k < n {
      dst[at + k] := data[from + k];
    }
  }

  datatype ParserState = ReadLength | ReadPayload

  lemma Extended(start: seq<Byte>, data: seq<Byte>, i: nat, j: nat)
    requires i <= j <= |data|
    ensures start + data[..i] + data[i..j] == start + data[..j]
    ensures j == |data| ==> data[..j] == data && data[i..j] == data[i..]
  {
    assert data[..i] + data[i..j] == data[..j];
  }

  class Parser {
    var state: ParserState
    var lengthBuf: array<Byte>
    var lengthReceived: nat
    var payloadBuf: array<Byte>
    var payloadLength: nat
    var payloadReceived: nat
    /** The payloads handed to the message handler so far. */
    var delivered: seq<seq<Byte>>
    /** How often a protocol error was reported and the stream closed. */
    var errors: nat
    /** All bytes consumed so far. */
    ghost var received: seq<Byte>

    ghost predicate Shape()
      reads this`lengthBuf, this`payloadBuf
    {
      lengthBuf.Length == LENGTH_SIZE && payloadBuf.Length == MAX_MESSAGE_SIZE && lengthBuf != payloadBuf
    }

    /** The buffers hold the tail of a stream. */
    ghost predicate Holds(tail: Tail)
      requires Shape()
      reads this`state, this`lengthBuf, this`lengthReceived, this`payloadBuf, this`payloadLength, this`payloadReceived
      reads lengthBuf, payloadBuf
    {
      match tail
      case Broken => state.ReadLength? && lengthReceived == LENGTH_SIZE && !Acceptable(BigEndian(lengthBuf[..]))
      case More(p) =>
        match state
        case ReadLength => lengthReceived < LENGTH_SIZE && p == lengthBuf[..lengthReceived]
        case ReadPayload =>
          && Acceptable(payloadLength) && payloadReceived < payloadLength
          && payloadLength == BigEndian(lengthBuf[..])
          && p == lengthBuf[..] + payloadBuf[..payloadReceived]
    }

    ghost predicate Valid()
      reads this, lengthBuf, payloadBuf
    {
      && Shape()
      && delivered == Decode(received).frames
      && Holds(Decode(received).tail)
    }

    constructor ()
      ensures Valid() && received == [] && delivered == [] && errors == 0
      ensures fresh(lengthBuf) && fresh(payloadBuf)
    {
      state, lengthReceived, payloadLength, payloadReceived := ReadLength, 0, 0, 0;
      lengthBuf, payloadBuf := new Byte[LENGTH_SIZE], new Byte[MAX_MESSAGE_SIZE];
      delivered, errors, received := [], 0, [];
    }

    method Reset()
      modifies this`state, this`lengthReceived, this`payloadLength, this`payloadReceived
      ensures state == ReadLength && lengthReceived == payloadLength == payloadReceived == 0
    {
      state := ReadLength;
      lengthReceived, payloadLength, payloadReceived := 0, 0, 0;
    }

    /** The READ_LENGTH half of the loop body; the result is false on a protocol error. */
    method TakeLength(data: seq<Byte>, from: nat) returns (offset: nat, ok: bool)
      requires Valid() && state.ReadLength? && from < |data|
      modifies this, lengthBuf
      ensures lengthBuf == old(lengthBuf) && payloadBuf == old(payloadBuf)
      ensures from <= offset <= |data| && received == old(received) + data[from..offset]
      ensures Valid() && errors == old(errors) + if ok then 0 else 1
      ensures lengthReceived < 4 ==> ok
      ensures lengthReceived == 4 ==> (ok <==> 1 <= BigEndian(lengthBuf[..]) <= 65536)
      ensures !ok ==> Decode(received).tail.Broken?
      ensures ok ==> Decode(received).tail.More? && offset > from && (state.ReadLength? ==> offset == |data|)
    {
      hide Decode, BigEndian;
      var need := LENGTH_SIZE - lengthReceived;
      var available := |data| - from;
      var copy := if need < available then need else available;
      offset := from + copy;
      ghost var had, x := lengthBuf[..lengthReceived], data[from..offset];
      assert lengthReceived == LENGTH_SIZE ==> had == lengthBuf[..];
      LengthGrows(received, had, x);
      CopyInto(lengthBuf, lengthReceived, data, from, copy);
      lengthReceived := lengthReceived + copy;
      received := received + x;
      assert lengthBuf[..lengthReceived] == had + x;
      if lengthReceived < LENGTH_SIZE {
        ok := true;
      } else {
        assert lengthBuf[..] == had + x;
        payloadLength := BigEndian(lengthBuf[..]);
        ok := 0 < payloadLength <= MAX_MESSAGE_SIZE;
        if ok {
          payloadReceived := 0;
          state := ReadPayload;
        } else {
          errors := errors + 1;
        }
      }
    }

    /** The READ_PAYLOAD half of the loop body. */
    method TakePayload(data: seq<Byte>, from: nat) returns (offset: nat)
      requires Valid() && state.ReadPayload? && from <= |data| && Decode(received).tail.More?
      modifies this, payloadBuf
      ensures lengthBuf == old(lengthBuf) && payloadBuf == old(payloadBuf) && errors == old(errors)
      ensures from <= offset <= |data| && received == old(received) + data[from..offset]
      ensures Valid() && Decode(received).tail.More?
      ensures state.ReadPayload? ==> offset == |data|
      ensures from < |data| ==> from < offset
    {
      hide Decode, BigEndian;
      var need := payloadLength - payloadReceived;
      var available := |data| - from;
      var copy := if need < available then need else available;
      offset := from + copy;
      ghost var had, x := lengthBuf[..] + payloadBuf[..payloadReceived], data[from..offset];
      DecodeResume(received, x);
      TailGrows(had + x);
      assert (had + x)[..LENGTH_SIZE] == lengthBuf[..];
      assert Decode(received).frames + [] == Decode(received).frames;
      CopyInto(payloadBuf, payloadReceived, data, from, copy);
      payloadReceived := payloadReceived + copy;
      received := received + x;
      assert lengthBuf[..] + payloadBuf[..payloadReceived] == had + x;
      if payloadReceived == payloadLength {
        assert (had + x)[LENGTH_SIZE..] == payloadBuf[..payloadLength];
        delivered := delivered + [payloadBuf[..payloadLength]];
        Reset();
      }
    }

    /** `consume_bytes`: whatever arrives, the payloads delivered are those of the whole stream so far. */
    method Consume(data: seq<Byte>)
      requires Valid()
      modifies this, lengthBuf, payloadBuf
      ensures lengthBuf == old(lengthBuf) && payloadBuf == old(payloadBuf)
      ensures Valid() && received == old(received) + data
      ensures errors == old(errors) + if data != [] && Decode(received).tail.Broken? then 1 else 0
      ensures ParseOf(received, Decoded(delivered, Decode(received).tail))
    {
      hide Decode, BigEndian, Holds, ParseOf;
      var offset := 0;
      ghost var start := received;
      assert start + data[..0] == start;
      while offset < |data|
        invariant offset <= |data| && received == start + data[..offset]
        invariant lengthBuf == old(lengthBuf) && payloadBuf == old(payloadBuf)
        invariant Valid() && errors == old(errors)
        invariant offset > 0 ==> Decode(received).tail.More?
        decreases |data| - offset
      {
        ghost var before := offset;
        var ok := true;
        if state == ReadLength {
          offset, ok := TakeLength(data, offset);
          Extended(start, data, before, offset);
        } else {
          HoldsPayload();
        }
        if !ok {
          DecodeResume(received, data[offset..]);
          Extended(start, data, offset, |data|);
          received := received + data[offset..];
          DecodeParses(received, Decode(received));
          return;
        }
        if state == ReadPayload {
          ghost var middle := offset;
          offset := TakePayload(data, offset);
          Extended(start, data, middle, offset);
        }
      }
      assert data[..|data|] == data;
      DecodeParses(received, Decode(received));
    }

    lemma HoldsPayload()
      requires Valid() && state.ReadPayload?
      ensures Decode(received).tail.More?
    {
    }
  }

  /** Feed a stream in chunks of any sizes. */
  method FeedAll(chunks: seq<seq<Byte>>) returns (delivered: seq<seq<Byte>>)
    ensures delivered == Decode(Flatten(chunks)).frames
  {
    var p := new Parser();
    var i := 0;
    while i < |chunks|
      invariant 0 <= i <= |chunks| && p.Valid() && fresh(p) && fresh(p.lengthBuf) && fresh(p.payloadBuf)
      invariant p.received == Flatten(chunks[..i])
    {
      p.Consume(chunks[i]);
      assert chunks[..i + 1][..i] == chunks[..i];
      i := i + 1;
    }
    assert chunks[..i] == chunks;
    delivered := p.delivered;
  }

  // ---- frames as written ------------------------------------------------------

  /** Four bytes in network order, as the server's reply header and the client's request header are written. */
  function Header(length: nat): (b: seq<Byte>)
    requires length < 0x1_0000_0000
    ensures |b| == 4
  {
    [length / 256 / 256 / 256, length / 256 / 256 % 256, length / 256 % 256, length % 256]
  }

  lemma HeaderRoundTrip(length: nat)
    requires length < 0x1_0000_0000
    ensures BigEndian(Header(length)) == length
  {
  }

  function Frame(body: seq<Byte>): seq<Byte>
    requires |body| < 0x1_0000_0000
  {
    Header(|body|) + body
  }

  /** A written frame is read back, whatever follows it, exactly if its body has 1 to 65536 bytes. */
  lemma FrameDecodes(body: seq<Byte>, rest: seq<Byte>)
    requires |body| < 0x1_0000_0000
    ensures Decode(Frame(body) + rest) ==
            if 1 <= |body| <= 65536 then Decoded([body] + Decode(rest).frames, Decode(rest).tail) else Decoded([], Broken)
  {
    hide BigEndian;
    var s := Frame(body) + rest;
    HeaderRoundTrip(|body|);
    assert s[..LENGTH_SIZE] == Header(|body|);
    assert s[LENGTH_SIZE..LENGTH_SIZE + |body|] == body;
    assert s[LENGTH_SIZE + |body|..] == rest;
  }

  lemma HeaderBack(b: seq<Byte>)
    requires |b| == 4
    ensures Header(BigEndian(b)) == b
  {
    var n1 := b[0] as int * 256 + b[1] as int;
    var n2 := n1 * 256 + b[2] as int;
    assert BigEndian(b) / 256 == n2 && BigEndian(b) % 256 == b[3];
    assert n2 / 256 == n1 && n2 % 256 == b[2];
  }

  ghost predicate Sendable(frames: seq<seq<Byte>>) {
    forall i :: 0 <= i < |frames| ==> 1 <= |frames[i]| <= 65536
  }

  /** Messages as they are written one after the other. */
  function Written(frames: seq<seq<Byte>>): seq<Byte>
    requires Sendable(frames)
  {
    if frames == [] then [] else Frame(frames[0]) + Written(frames[1..])
  }

  /** What follows the complete frames: less than a frame, or four bytes that are no length of a message. */
  ghost predicate Leftover(left: seq<Byte>, tail: Tail) {
    match tail
    case More(p) => p == left && (|p| >= 4 ==> 1 <= BigEndian(p[..4]) <= 65536 && |p| < 4 + BigEndian(p[..4]))
    case Broken => |left| >= 4 && !(1 <= BigEndian(left[..4]) <= 65536)
  }

  lemma DecodeFirst(s: seq<Byte>)
    requires HasFrame(s)
    ensures var n := BigEndian(s[..LENGTH_SIZE]);
            var d := Decode(s[LENGTH_SIZE + n..]);
            1 <= n <= 65536 && Decode(s) == Decoded([s[LENGTH_SIZE..LENGTH_SIZE + n]] + d.frames, d.tail)
  {
    hide BigEndian;
  }

  lemma DecodeNone(s: seq<Byte>)
    requires !HasFrame(s)
    ensures Decode(s).frames == [] && Leftover(s, Decode(s).tail)
  {
    hide BigEndian;
  }

  /** A stream is its frames as they were written, and a rest that holds no further frame. */
  lemma {:induction false} DecodeInverts(s: seq<Byte>) returns (left: seq<Byte>)
    ensures Sendable(Decode(s).frames)
    ensures s == Written(Decode(s).frames) + left && Leftover(left, Decode(s).tail)
    decreases |s|
  {
    hide BigEndian, Decode, Leftover, Written, Sendable;
    if HasFrame(s) {
      var n := BigEndian(s[..4]);
      DecodeFirst(s);
      left := DecodeInverts(s[4 + n..]);
      HeaderBack(s[..4]);
      FirstWritten(s[4..4 + n], Decode(s[4 + n..]).frames);
      ThreeParts(s, n);
      Prepend(s[..4] + s[4..4 + n], Written(Decode(s[4 + n..]).frames), left);
    } else {
      DecodeNone(s);
      NothingWritten();
      left := s;
    }
  }

  lemma ThreeParts(s: seq<Byte>, n: nat)
    requires 4 + n <= |s|
    ensures s == s[..4] + s[4..4 + n] + s[4 + n..]
  {
  }

  lemma NothingWritten()
    ensures Sendable([]) && Written([]) == []
  {
  }

  lemma FirstWritten(body: seq<Byte>, frames: seq<seq<Byte>>)
    requires Sendable(frames) && 1 <= |body| <= 65536
    ensures Sendable([body] + frames) && Written([body] + frames) == Header(|body|) + body + Written(frames)
  {
    assert ([body] + frames)[1..] == frames;
  }

  /** Messages written one after the other are all read back, whatever unfinished rest follows them. */
  lemma {:induction false} WrittenDecodes(frames: seq<seq<Byte>>, left: seq<Byte>, tail: Tail)
    requires Sendable(frames) && Leftover(left, tail)
    ensures Decode(Written(frames) + left) == Decoded(frames, tail)
  {
    if frames == [] {
      NothingWritten();
      LeftoverDecodes(left, tail);
      assert [] + left == left;
    } else {
      hide Decode, Frame, Leftover;
      var more := Written(frames[1..]);
      WrittenDecodes(frames[1..], left, tail);
      FrameDecodes(frames[0], more + left);
      Prepend(Frame(frames[0]), more, left);
    }
  }

  lemma LeftoverDecodes(left: seq<Byte>, tail: Tail)
    requires Leftover(left, tail)
    ensures Decode(left) == Decoded([], tail)
  {
    hide BigEndian;
  }

  /** What a parse of a stream has to be, with no parser in it. */
  ghost predicate ParseOf(s: seq<Byte>, d: Decoded) {
    Sendable(d.frames) && exists left :: s == Written(d.frames) + left && Leftover(left, d.tail)
  }

  /** There is exactly one, and the parser finds it. */
  lemma DecodeParses(s: seq<Byte>, d: Decoded)
    ensures d == Decode(s) <==> ParseOf(s, d)
  {
    hide Decode, Leftover, Written;
    var _ := DecodeInverts(s);
    if ParseOf(s, d) {
      var left :| s == Written(d.frames) + left && Leftover(left, d.tail);
      WrittenDecodes(d.frames, left, d.tail);
    }
  }
}
