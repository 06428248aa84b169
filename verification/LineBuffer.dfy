/**
  The renderer's stdin: bytes collected into lines, overlong lines dropped
  whole, and reading stopped by an exit.
*/
module LineSplitting {
  import opened Bytes

  type Text = seq<Byte>

  const NEWLINE: Byte := 10

  // The bytes after the last newline.
  function Tail(s: Text): Text {
    if s == [] || s[|s| - 1] == NEWLINE then [] else Tail(s[..|s| - 1]) + [s[|s| - 1]]
  }

  // The lines that end in a newline.
  function Lines(s: Text): seq<Text> {
    if s == [] then []
    else
      var init := s[..|s| - 1];
      if s[|s| - 1] == NEWLINE then Lines(init) + [Tail(init)] else Lines(init)
  }

  function Joined(lines: seq<Text>): Text {
    if lines == [] then [] else Joined(lines[..|lines| - 1]) + lines[|lines| - 1] + [NEWLINE]
  }

  // The lines and the tail are the text again, and hold no newline: so they are
  // the one way to split it.
  lemma {:induction false} JoinInvertsSplit(s: Text)
    ensures Joined(Lines(s)) + Tail(s) == s
    ensures NEWLINE !in Tail(s) && forall line :: line in Lines(s) ==> NEWLINE !in line
  {
    if s != [] {
      var init, c := s[..|s| - 1], s[|s| - 1];
      JoinInvertsSplit(init);
      assert s == init + [c];
      if c == NEWLINE {
        assert Lines(s)[..|Lines(s)| - 1] == Lines(init);
        assert Joined(Lines(s)) == Joined(Lines(init)) + Tail(init) + [c] == init + [c];
      } else {
        assert Joined(Lines(init)) + (Tail(init) + [c]) == (Joined(Lines(init)) + Tail(init)) + [c];
      }
    }
  }

  // The lines of at most `max` bytes.
  function Short(lines: seq<Text>, max: nat): (r: seq<Text>)
    ensures |r| <= |lines|
  {
    if lines == [] then []
    else
      var rest, line := Short(lines[..|lines| - 1], max), lines[|lines| - 1];
      if |line| <= max then rest + [line] else rest
  }

  // How many of the lines, the unfinished one included, are longer than `max`.
  function Overlong(s: Text, max: nat): nat {
    |Lines(s)| - |Short(Lines(s), max)| + if |Tail(s)| > max then 1 else 0
  }

  // One more byte.
  lemma SplitOneMore(s: Text, c: Byte, max: nat)
    ensures Tail(s + [c]) == if c == NEWLINE then [] else Tail(s) + [c]
    ensures Lines(s + [c]) == if c == NEWLINE then Lines(s) + [Tail(s)] else Lines(s)
    ensures Short(Lines(s + [c]), max)
      == Short(Lines(s), max) + if c == NEWLINE && |Tail(s)| <= max then [Tail(s)] else []
  {
    assert (s + [c])[..|s|] == s;
    if c == NEWLINE {
      assert Lines(s + [c])[..|Lines(s)|] == Lines(s);
    }
  }
}

module LineReader {
  import opened Bytes
  import opened LineSplitting

  const CHUNK: nat := 4096

  datatype DrainEnd = Drained | Eof | Stopped | Budget

  datatype Read = Data(bytes: Text) | EndOfInput | Interrupted | WouldBlock | Failed

  class LineBuffer {
    const max: nat
    var buf: Text
    var discarding: bool
    var overflowed: nat
    // The lines handled, and whether one of them decided an exit.
    var handled: seq<Text>
    var stopped: bool
    // The bytes fed.
    ghost var fed: Text

    // The buffer is the unfinished line, unless that is already too long; the
    // lines handled are those that fit, up to the one that exits.
    ghost predicate Valid()
      reads this
    {
      && discarding == (|Tail(fed)| > max)
      && buf == (if discarding then [] else Tail(fed))
      && overflowed == Overlong(fed, max)
      && handled <= Short(Lines(fed), max)
      && (stopped || handled == Short(Lines(fed), max))
    }

    constructor (max: nat)
      ensures Valid() && fed == [] && handled == [] && !stopped && this.max == max
    {
      this.max := max;
      buf, discarding, overflowed := [], false, 0;
      handled, stopped, fed := [], false, [];
    }

    // A complete line: a command, unless an exit was decided already.
    method OnLine(line: Text)
      modifies this`handled, this`stopped
      ensures old(stopped) ==> stopped && handled == old(handled)
      ensures !old(stopped) ==> handled == old(handled) + [line]
    {
      if !stopped {
        handled := handled + [line];
        stopped := *;
      }
    }

    method FeedByte(c: Byte)
      requires Valid()
      modifies this`buf, this`discarding, this`overflowed, this`handled, this`stopped, this`fed
      ensures Valid() && fed == old(fed) + [c]
      ensures old(stopped) ==> stopped && handled == old(handled)
      ensures old(handled) <= handled && (stopped && !old(stopped) ==> |handled| > |old(handled)|)
    {
      hide Lines, Tail, Short;
      SplitOneMore(fed, c, max);
      fed := fed + [c];
      if c == NEWLINE {
        if !discarding {
          OnLine(buf);
        }
        buf, discarding := [], false;
      } else if discarding {
      } else if |buf| >= max {
        buf, discarding, overflowed := [], true, overflowed + 1;
      } else {
        buf := buf + [c];
      }
    }

    method Feed(data: Text)
      requires Valid()
      modifies this`buf, this`discarding, this`overflowed, this`handled, this`stopped, this`fed
      ensures Valid() && fed == old(fed) + data
      ensures old(stopped) ==> stopped && handled == old(handled)
      ensures old(handled) <= handled && (stopped && !old(stopped) ==> |handled| > |old(handled)|)
    {
      hide LineBuffer.Valid;
      for i := 0 to |data|
        invariant Valid() && fed == old(fed) + data[..i]
        invariant old(stopped) ==> stopped && handled == old(handled)
        invariant old(handled) <= handled && (stopped && !old(stopped) ==> |handled| > |old(handled)|)
      {
        FeedByte(data[i]);
        assert old(fed) + data[..i] + [data[i]] == old(fed) + data[..i + 1];
      }
      assert data[..|data|] == data;
    }

    // What the input holds right now: any of the outcomes of a read.
    method ReadChunk() returns (read: Read)
      ensures read.Data? ==> 0 < |read.bytes| <= CHUNK
    {
      var what: nat := *;
      match what
      case 0 => read := EndOfInput;
      case 1 => read := Interrupted;
      case 2 => read := WouldBlock;
      case 3 => read := Failed;
      case _ =>
        assert 0 < |[NEWLINE]| <= CHUNK;
        var bytes: Text :| 0 < |bytes| <= CHUNK;
        read := Data(bytes);
    }

    // Reads until the input would block, ends, an exit is decided, or the
    // budget of reads is spent. An exit is decided by a line that ends in the
    // `last` bytes read: nothing is read after them, and no line after it is
    // handled.
    method Drain(maxReads: nat) returns (end: DrainEnd, count: nat, ghost before: Text, ghost last: Text)
      requires Valid()
      modifies this`buf, this`discarding, this`overflowed, this`handled, this`stopped, this`fed
      ensures Valid() && old(fed) <= fed && count <= maxReads
      ensures end == Stopped <==> stopped
      ensures old(stopped) ==> fed == old(fed) && handled == old(handled)
      ensures end == Budget ==> count == maxReads
      ensures |fed| <= |old(fed)| + CHUNK * count
      ensures stopped && !old(stopped) ==>
                && fed == before + last && |last| <= CHUNK && old(fed) <= before
                && Short(Lines(before), max) < handled <= Short(Lines(fed), max)
    {
      hide LineBuffer.Valid;
      count, before, last := 0, [], [];
      while count < maxReads
        invariant Valid() && old(fed) <= fed && count <= maxReads
        invariant old(stopped) ==> stopped && fed == old(fed) && handled == old(handled)
        invariant |fed| <= |old(fed)| + CHUNK * count
        invariant stopped && !old(stopped) ==>
                    && fed == before + last && |last| <= CHUNK && old(fed) <= before
                    && Short(Lines(before), max) < handled
      {
        if stopped {
          HandledFits();
          return Stopped, count, before, last;
        }
        AllHandled();
        var read := ReadChunk();
        count := count + 1;
        match read
        case Data(bytes) =>
          before, last := fed, bytes;
          Feed(bytes);
        case EndOfInput => return Eof, count, before, last;
        case Interrupted =>
        case WouldBlock => return Drained, count, before, last;
        case Failed => return Eof, count, before, last;
      }
      HandledFits();
      end := if stopped then Stopped else Budget;
    }

    lemma AllHandled()
      requires Valid() && !stopped
      ensures handled == Short(Lines(fed), max)
    {
    }

    lemma HandledFits()
      requires Valid()
      ensures handled <= Short(Lines(fed), max)
    {
    }
  }
}
