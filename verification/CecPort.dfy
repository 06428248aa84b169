/**
  The CEC helper's stdin side: frames with a two-byte length are cut out of
  whatever pieces the reads deliver, and each request is answered once.
*/
module CecFraming {
  import opened Bytes

  const MAX_FRAME: nat := 256
  const CAPACITY: nat := 2 + MAX_FRAME

  datatype Frame = Frame(tag: Byte, reqId: nat, body: seq<Byte>)

  // The frames at the front of a stream, the bytes of an unfinished one, and
  // whether the next length is one that no frame has.
  datatype Parsed = Parsed(frames: seq<Frame>, rest: seq<Byte>, bad: bool)

  function Pair(high: Byte, low: Byte): (n: nat)
    ensures n < 0x1_0000
  {
    high as nat * 0x100 + low as nat
  }

  function FrameLength(s: seq<Byte>): nat
    requires |s| >= 2
  {
    Pair(s[0], s[1])
  }

  function BadLength(flen: nat): bool { flen < 3 || flen > MAX_FRAME }

  function FirstFrame(s: seq<Byte>): Frame
    requires |s| >= 2 && !BadLength(FrameLength(s)) && |s| >= 2 + FrameLength(s)
  {
    Frame(s[2], Pair(s[3], s[4]), s[5..2 + FrameLength(s)])
  }

  function Parse(s: seq<Byte>): (p: Parsed)
    ensures |p.rest| <= |s| && (!p.bad ==> |p.rest| < CAPACITY)
    decreases |s|
  {
    if |s| < 2 then Parsed([], s, false)
    else if BadLength(FrameLength(s)) then Parsed([], s, true)
    else if |s| < 2 + FrameLength(s) then Parsed([], s, false)
    else
      var p := Parse(s[2 + FrameLength(s)..]);
      p.(frames := [FirstFrame(s)] + p.frames)
  }

  predicate Complete(s: seq<Byte>) {
    |s| >= 2 && !BadLength(FrameLength(s)) && |s| >= 2 + FrameLength(s)
  }

  // One step of the parser, on a stream and on any longer one.
  lemma ParseFirst(a: seq<Byte>, b: seq<Byte>)
    requires Complete(a)
    ensures Complete(a + b)
    ensures var p := Parse(a[2 + FrameLength(a)..] + b);
      Parse(a + b) == p.(frames := [FirstFrame(a)] + p.frames)
  {
    var n := 2 + FrameLength(a);
    assert FrameLength(a + b) == FrameLength(a);
    assert (a + b)[n..] == a[n..] + b && (a + b)[5..n] == a[5..n];
    assert FirstFrame(a + b) == FirstFrame(a);
  }

  lemma ParseStops(a: seq<Byte>, b: seq<Byte>)
    requires !Complete(a)
    ensures Parse(a) == Parsed([], a, |a| >= 2 && BadLength(FrameLength(a)))
    ensures Parse(a).bad ==> Parse(a + b) == Parsed([], a + b, true)
  {
    if |a| >= 2 {
      assert FrameLength(a + b) == FrameLength(a);
    }
  }

  // Where the stream is cut does not matter: what a piece leaves over is parsed
  // with what follows it, and a bad length stays one.
  lemma {:induction false} ParseInPieces(a: seq<Byte>, b: seq<Byte>)
    ensures Parse(a).bad ==> Parse(a + b) == Parsed(Parse(a).frames, Parse(a).rest + b, true)
    ensures !Parse(a).bad ==>
      Parse(a + b) == Parse(Parse(a).rest + b).(frames := Parse(a).frames + Parse(Parse(a).rest + b).frames)
    decreases |a|
  {
    hide Parse;
    if Complete(a) {
      hide Complete, FirstFrame;
      var rest := a[2 + FrameLength(a)..];
      ParseInPieces(rest, b);
      ParseFirst(a, b);
      ParseFirst(a, []);
      assert a + [] == a && rest + [] == rest;
      var first, p := [FirstFrame(a)], Parse(rest);
      if !p.bad {
        var r := Parse(p.rest + b);
        assert first + (p.frames + r.frames) == (first + p.frames) + r.frames;
      }
    } else {
      ParseStops(a, b);
      assert [] + Parse(a + b).frames == Parse(a + b).frames;
    }
  }

  // The frame as it is sent.
  function Wire(f: Frame): (b: seq<Byte>)
    requires f.reqId < 0x1_0000 && |f.body| <= MAX_FRAME - 3
    ensures |b| == 5 + |f.body|
  {
    var total := 3 + |f.body|;
    [total / 0x100, total % 0x100, f.tag, f.reqId / 0x100, f.reqId % 0x100] + f.body
  }

  // What is sent is read back by the same framing.
  lemma ParseInvertsWire(f: Frame)
    requires f.reqId < 0x1_0000 && |f.body| <= MAX_FRAME - 3
    ensures Parse(Wire(f)) == Parsed([f], [], false)
  {
    var w := Wire(f);
    SplitPair(3 + |f.body|);
    SplitPair(f.reqId);
    assert FrameLength(w) == 3 + |f.body|;
    assert FirstFrame(w) == f by {
      assert w[5..|w|] == f.body;
    }
    assert w[|w|..] == [];
  }

  lemma SplitPair(n: nat)
    requires n < 0x1_0000
    ensures Pair(n / 0x100, n % 0x100) == n
  {
  }

  lemma WireAppends(out: seq<Byte>, f: Frame)
    requires f.reqId < 0x1_0000 && |f.body| <= MAX_FRAME - 3
    requires Parse(out).rest == [] && !Parse(out).bad
    ensures Parse(out + Wire(f)) == Parsed(Parse(out).frames + [f], [], false)
  {
    ParseInPieces(out, Wire(f));
    assert [] + Wire(f) == Wire(f);
    ParseInvertsWire(f);
  }
}

module CecHelper {
  import opened Bytes
  import opened CecFraming
  import opened Wrappers

  const EINVAL: nat := 22
  const ENOSYS: nat := 38
  const OK: Byte := 0x80
  const ERR: Byte := 0x81

  const EXIT_OK: nat := 0
  const EXIT_PROTOCOL: nat := 2
  const EXIT_IO: nat := 3

  // The size of the struct a request carries.
  function Want(tag: Byte): nat {
    if tag == 0x04 then 92 else if tag == 0x06 then 4 else if tag == 0x07 then 56 else 0
  }

  predicate Known(tag: Byte) { 0x01 <= tag <= 0x08 }

  // The size of the struct its answer carries.
  function ReplySize(tag: Byte): nat
    requires Known(tag)
  {
    match tag
    case 0x01 => 76
    case 0x02 => 2
    case 0x03 => 92
    case 0x04 => 92
    case 0x05 => 4
    case 0x06 => 0
    case 0x07 => 56
    case _ => 68
  }

  function Errno(e: nat): (b: seq<Byte>)
    requires e < 0x1_0000_0000
    ensures |b| == 4
  {
    [e % 0x100, e / 0x100 % 0x100, e / 0x1_0000 % 0x100, e / 0x100_0000]
  }

  // The answer a request may get: its own id, and the error that its size or
  // tag calls for, else what the device said.
  ghost predicate Answers(request: Frame, reply: Frame) {
    && reply.reqId == request.reqId
    && if |request.body| != Want(request.tag) then reply.tag == ERR && reply.body == Errno(EINVAL)
       else if !Known(request.tag) then reply.tag == ERR && reply.body == Errno(ENOSYS)
       else
         || (reply.tag == OK && |reply.body| == ReplySize(request.tag))
         || (reply.tag == ERR && |reply.body| == 4)
  }

  datatype Read = Data(bytes: seq<Byte>) | Again | Failed

  class Port {
    const inbuf: array<Byte>
    var inlen: nat
    var exited: Option<nat>
    // All bytes sent to stdout.
    var out: seq<Byte>
    // All bytes read, and the requests handled.
    ghost var fed: seq<Byte>
    ghost var handled: seq<Frame>

    // Between reads: what was handled and what is kept depend on the bytes read
    // alone, there is room for more, and every request has its answer.
    ghost predicate Valid()
      reads this, inbuf
    {
      && inbuf.Length == CAPACITY && inlen <= CAPACITY
      && handled == Parse(fed).frames && inbuf[..inlen] == Parse(fed).rest
      && Answered()
      && (exited == None ==> !Parse(fed).bad && inlen < CAPACITY)
    }

    ghost predicate Answered()
      reads this
    {
      && Parse(out).rest == [] && !Parse(out).bad
      && var replies := Parse(out).frames;
      && |replies| == |handled|
      && forall i :: 0 <= i < |handled| ==> Answers(handled[i], replies[i])
    }

    constructor ()
      ensures Valid() && fresh(inbuf) && fed == [] && handled == [] && exited == None
    {
      inbuf := new Byte[CAPACITY](i => 0);
      inlen, exited, out := 0, None, [];
      fed, handled := [], [];
    }

    method SendFrame(tag: Byte, reqId: nat, body: seq<Byte>)
      requires reqId < 0x1_0000 && |body| <= MAX_FRAME - 3
      modifies this`out
      ensures out == old(out) + Wire(Frame(tag, reqId, body))
    {
      out := out + Wire(Frame(tag, reqId, body));
    }

    // The device's answer to one ioctl: the struct it filled in, or an error.
    method IoctlReply(reqId: nat, size: nat) returns (ghost reply: Frame)
      requires reqId < 0x1_0000 && size <= MAX_FRAME - 3
      modifies this`out
      ensures reply.reqId == reqId && |reply.body| <= MAX_FRAME - 3 && out == old(out) + Wire(reply)
      ensures (reply.tag == OK && |reply.body| == size) || (reply.tag == ERR && |reply.body| == 4)
    {
      if * {
        var e: nat := *;
        var body := Errno(e % 0x1_0000_0000);
        SendFrame(ERR, reqId, body);
        reply := Frame(ERR, reqId, body);
      } else {
        assert |seq<Byte>(size, i => 0)| == size;
        var body: seq<Byte> :| |body| == size;
        SendFrame(OK, reqId, body);
        reply := Frame(OK, reqId, body);
      }
    }

    method HandleRequest(tag: Byte, reqId: nat, body: seq<Byte>)
      requires reqId < 0x1_0000 && Answered()
      modifies this`out, this`handled
      ensures Answered() && handled == old(handled) + [Frame(tag, reqId, body)]
    {
      ghost var reply;
      if |body| != Want(tag) {
        SendFrame(ERR, reqId, Errno(EINVAL));
        reply := Frame(ERR, reqId, Errno(EINVAL));
      } else if Known(tag) {
        reply := IoctlReply(reqId, ReplySize(tag));
      } else {
        SendFrame(ERR, reqId, Errno(ENOSYS));
        reply := Frame(ERR, reqId, Errno(ENOSYS));
      }
      WireAppends(old(out), reply);
      handled := handled + [Frame(tag, reqId, body)];
    }

    // Takes in one read and handles every complete frame.
    method ProcessStdin(read: Read)
      requires Valid() && exited == None
      requires read.Data? ==> |read.bytes| <= CAPACITY - inlen
      modifies this`inlen, this`exited, this`out, this`fed, this`handled, inbuf
      ensures Valid()
      ensures fed == old(fed) + if read.Data? then read.bytes else []
      ensures read == Again ==> exited == None
      ensures read == Failed ==> exited == Some(EXIT_IO)
      ensures read.Data? && read.bytes == [] ==> exited == Some(EXIT_OK)
      ensures read.Data? && read.bytes != [] ==> exited == if Parse(fed).bad then Some(EXIT_PROTOCOL) else None
    {
      match read
      case Again => return;
      case Failed =>
        exited := Some(EXIT_IO);
        return;
      case Data(bytes) =>
        if bytes == [] {
          assert fed + [] == fed;
          exited := Some(EXIT_OK);
          return;
        }
        ghost var kept := inbuf[..inlen];
        forall i | 0 <= i < |bytes| {
          inbuf[inlen + i] := bytes[i];
        }
        inlen := inlen + |bytes|;
        assert inbuf[..inlen] == kept + bytes;
        ParseInPieces(fed, bytes);
        fed := fed + bytes;
        HandleFrames();
    }

    // The bytes read parse like the requests handled and what is in the buffer.
    ghost predicate Pending()
      reads this`inlen, this`fed, this`handled, inbuf
    {
      && inbuf.Length == CAPACITY && inlen <= CAPACITY
      && var p := Parse(inbuf[..inlen]);
      Parse(fed) == p.(frames := handled + p.frames)
    }

    method HandleFrames()
      requires Pending() && Answered() && exited == None
      modifies this`inlen, this`exited, this`out, this`handled, inbuf
      ensures Valid()
      ensures exited == if Parse(fed).bad then Some(EXIT_PROTOCOL) else None
    {
      hide Parse;
      while inlen >= 2
        invariant Pending() && Answered() && exited == None
      {
        ghost var s := inbuf[..inlen];
        ParseStopsHere(s);
        var flen := Pair(inbuf[0], inbuf[1]);
        if flen < 3 || flen > MAX_FRAME {
          exited := Some(EXIT_PROTOCOL);
          return;
        }
        if inlen < 2 + flen {
          break;
        }
        HandleFirst();
      }
      ParseStopsHere(inbuf[..inlen]);
    }

    lemma ParseStopsHere(s: seq<Byte>)
      ensures !Complete(s) ==> Parse(s) == Parsed([], s, |s| >= 2 && BadLength(FrameLength(s)))
      ensures forall frames: seq<Frame> :: frames + [] == frames
    {
      if !Complete(s) {
        ParseStops(s, []);
      }
    }

    // Moves the rest of the buffer to the front.
    method Shift(n: nat)
      requires n <= inlen <= inbuf.Length
      modifies this`inlen, inbuf
      ensures inlen == old(inlen) - n && inbuf[..inlen] == old(inbuf[n..inlen])
    {
      inlen := inlen - n;
      forall i | 0 <= i < inlen {
        inbuf[i] := inbuf[n + i];
      }
    }

    method HandleFirst()
      requires Pending() && Answered() && Complete(inbuf[..inlen])
      modifies this`inlen, this`out, this`handled, inbuf
      ensures Pending() && Answered() && inlen < old(inlen)
    {
      hide Parse, Answers;
      ghost var s, before := inbuf[..inlen], handled;
      var flen := Pair(inbuf[0], inbuf[1]);
      ParseFirst(s, []);
      ghost var rest := s[2 + flen..];
      assert s + [] == s && rest + [] == rest;
      var tag, reqId, body := inbuf[2], Pair(inbuf[3], inbuf[4]), inbuf[5..2 + flen];
      ghost var first := Frame(tag, reqId, body);
      assert first == FirstFrame(s) by {
        assert body == s[5..2 + flen];
      }
      hide FirstFrame;
      HandleRequest(tag, reqId, body);
      Shift(2 + flen);
      assert inbuf[..inlen] == rest;
      assert before + ([first] + Parse(rest).frames) == (before + [first]) + Parse(rest).frames;
    }

    // A whole stream, cut by the reads in any way.
    method Serve(stream: seq<Byte>)
      requires Valid() && exited == None && fed == [] && inlen == 0
      modifies this`inlen, this`exited, this`out, this`fed, this`handled, inbuf
      ensures Valid() && handled == Parse(stream).frames
      ensures exited == Some(if Parse(stream).bad then EXIT_PROTOCOL else EXIT_OK)
    {
      var at := 0;
      while at < |stream| && exited == None
        invariant Valid() && at <= |stream| && fed == stream[..at]
        invariant exited == if Parse(fed).bad then Some(EXIT_PROTOCOL) else None
      {
        var room := CAPACITY - inlen;
        var left := |stream| - at;
        var n: nat :| 1 <= n <= room && n <= left;
        assert stream[..at] + stream[at..at + n] == stream[..at + n];
        ProcessStdin(Data(stream[at..at + n]));
        at := at + n;
      }
      ParseInPieces(fed, stream[at..]);
      assert stream == stream[..at] + stream[at..];
      if exited == None {
        assert stream[at..] == [] && fed == stream;
        ProcessStdin(Data([]));
        assert fed == stream + [] == stream;
      }
    }
  }
}
