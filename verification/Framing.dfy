/** Length-prefixed framing: what a receiver makes of a byte stream that arrives in arbitrary pieces, with
    timeouts in between. */
module Framing {
  import opened Options

  type Byte = n: int | 0 <= n < 256

  // ---- Encoding ----

  const MAX_LENGTH: nat := 0x1_0000_0000

  /** `to_bytes(4, byteorder='big')` */
  function Prefix(n: nat): seq<Byte>
    requires n < MAX_LENGTH
  {
    [n / 0x100_0000, n / 0x1_0000 % 0x100, n / 0x100 % 0x100, n % 0x100]
  }

  /** `int.from_bytes(..., byteorder='big')` */
  function FromBytes(bytes: seq<Byte>): nat {
    if bytes == [] then 0 else FromBytes(bytes[..|bytes| - 1]) * 0x100 + bytes[|bytes| - 1]
  }

  lemma FourBytes(p: seq<Byte>, a: int, b: int, c: int, d: int)
    requires |p| == 4 && p[0] == a && p[1] == b && p[2] == c && p[3] == d
    ensures FromBytes(p) == ((a * 0x100 + b) * 0x100 + c) * 0x100 + d
  {
    assert p[..3][..2] == p[..2] && p[..2][..1] == p[..1] && p[..1][..0] == [];
    assert FromBytes(p[..1]) == a;
    assert FromBytes(p[..2]) == a * 0x100 + b;
    assert FromBytes(p[..3]) == (a * 0x100 + b) * 0x100 + c;
  }

  lemma DivideAgain(n: nat)
    ensures n / 0x100_0000 * 0x100 + n / 0x1_0000 % 0x100 == n / 0x1_0000
    ensures n / 0x1_0000 * 0x100 + n / 0x100 % 0x100 == n / 0x100
    ensures n / 0x100 * 0x100 + n % 0x100 == n
  {
    assert n / 0x1_0000 == n / 0x100 / 0x100;
    assert n / 0x100_0000 == n / 0x1_0000 / 0x100;
  }

  lemma PrefixRoundTrip(n: nat)
    requires n < MAX_LENGTH
    ensures |Prefix(n)| == 4 && FromBytes(Prefix(n)) == n
  {
    FourBytes(Prefix(n), n / 0x100_0000, n / 0x1_0000 % 0x100, n / 0x100 % 0x100, n % 0x100);
    DivideAgain(n);
    hide FromBytes, Prefix;
  }

  lemma SameDigits(high: nat, low: Byte, high': nat, low': Byte)
    requires high * 0x100 + low == high' * 0x100 + low'
    ensures high == high' && low == low'
  {
  }

  lemma {:induction false} FromBytesIsInjective(a: seq<Byte>, b: seq<Byte>)
    requires |a| == |b| && FromBytes(a) == FromBytes(b)
    ensures a == b
  {
    if a != [] {
      var x, y := a[..|a| - 1], b[..|b| - 1];
      SameDigits(FromBytes(x), a[|a| - 1], FromBytes(y), b[|b| - 1]);
      FromBytesIsInjective(x, y);
      assert a == x + [a[|a| - 1]] && b == y + [b[|b| - 1]];
    }
  }

  function Frame(message: seq<Byte>): seq<Byte>
    requires |message| < MAX_LENGTH
  {
    Prefix(|message|) + message
  }

  predicate Fits(messages: seq<seq<Byte>>) {
    forall m :: m in messages ==> |m| < MAX_LENGTH
  }

  function Stream(messages: seq<seq<Byte>>): seq<Byte>
    requires Fits(messages)
  {
    if messages == [] then [] else Frame(messages[0]) + Stream(messages[1..])
  }

  /** The sending side: the bytes handed to the socket so far. */
  class Sender {
    var sent: seq<Byte>

    constructor ()
      ensures sent == []
    {
      sent := [];
    }

    /** Fails, and sends nothing, when the length does not fit into the prefix. */
    method Put(message: seq<Byte>) returns (ok: bool)
      modifies this
      ensures ok <==> |message| < MAX_LENGTH
      ensures sent == if ok then old(sent) + Frame(message) else old(sent)
    {
      if |message| >= MAX_LENGTH {
        return false;
      }
      var lengthPrefix := Prefix(|message|);
      sent := sent + (lengthPrefix + message);
      ok := true;
    }
  }

  // ---- The receiving side ----

  /** What the socket delivers next: some bytes, or a timeout of the pending call. */
  datatype Delivery = Chunk(bytes: seq<Byte>) | Expiry

  datatype Symbol = Data(byte: Byte) | Timeout

  function AsSymbols(bytes: seq<Byte>): seq<Symbol> {
    seq(|bytes|, i requires 0 <= i < |bytes| => Data(bytes[i]))
  }

  /** The deliveries with the chunk boundaries forgotten. */
  function Symbols(deliveries: seq<Delivery>): seq<Symbol> {
    if deliveries == [] then []
    else (if deliveries[0].Chunk? then AsSymbols(deliveries[0].bytes) else [Timeout]) + Symbols(deliveries[1..])
  }

  datatype Reading = Got(bytes: seq<Byte>, rest: seq<Symbol>) | Interrupted(rest: seq<Symbol>) | Closed

  /** Reading n bytes: a timeout or the end of the stream loses those read so far. */
  function Read(s: seq<Symbol>, n: nat): Reading {
    if n == 0 then Got([], s)
    else if s == [] then Closed
    else if s[0].Timeout? then Interrupted(s[1..])
    else
      match Read(s[1..], n - 1)
      case Got(bytes, rest) => Got([s[0].byte] + bytes, rest)
      case other => other
  }

  /** Reading one frame. */
  function ReadFrame(s: seq<Symbol>): Reading {
    match Read(s, 4)
    case Got(prefix, rest) => Read(rest, FromBytes(prefix))
    case other => other
  }

  datatype Received<T> = Object(value: T) | DoneMessage | QueueEmpty

  class Receiver<T> {
    /** Decoding and parsing of a frame; fails on malformed text. */
    const loads: seq<Byte> -> Option<T>
    var pending: seq<Delivery>

    /** The socket never delivers an empty chunk before its end. */
    ghost predicate Valid()
      reads this
    {
      forall d :: d in pending ==> d.Chunk? ==> d.bytes != []
    }

    constructor (loads: seq<Byte> -> Option<T>, pending: seq<Delivery>)
      requires forall d :: d in pending ==> d.Chunk? ==> d.bytes != []
      ensures Valid() && this.loads == loads && this.pending == pending
    {
      this.loads, this.pending := loads, pending;
    }

    /** `recv(n)`: up to n bytes of the next chunk, none at the end of the stream. */
    method Recv(n: nat) returns (chunk: seq<Byte>, timedOut: bool)
      requires Valid() && n > 0
      modifies this
      ensures Valid() && |chunk| <= n
      ensures timedOut ==> chunk == [] && old(Symbols(pending)) == [Timeout] + Symbols(pending)
      ensures !timedOut ==> old(Symbols(pending)) == AsSymbols(chunk) + Symbols(pending)
      ensures !timedOut && chunk == [] ==> Symbols(pending) == []
    {
      if pending == [] {
        return [], false;
      }
      var head := pending[0];
      if head.Expiry? {
        pending := pending[1..];
        return [], true;
      }
      if |head.bytes| <= n {
        pending := pending[1..];
        return head.bytes, false;
      }
      chunk, timedOut := head.bytes[..n], false;
      var rest := Chunk(head.bytes[n..]);
      assert AsSymbols(head.bytes) == AsSymbols(chunk) + AsSymbols(rest.bytes);
      assert ([rest] + pending[1..])[1..] == pending[1..];
      pending := [rest] + pending[1..];
    }

    /** The accumulating loop of `get`. */
    method ReadExactly(n: nat) returns (data: seq<Byte>, reading: Reading)
      requires Valid()
      modifies this
      ensures Valid() && reading == Read(old(Symbols(pending)), n)
      ensures reading.Got? ==> data == reading.bytes && Symbols(pending) == reading.rest
      ensures reading.Interrupted? ==> Symbols(pending) == reading.rest
      ensures reading.Closed? ==> Symbols(pending) == []
    {
      ghost var start := Symbols(pending);
      data := [];
      while |data| < n
        invariant Valid() && |data| <= n
        invariant start == AsSymbols(data) + Symbols(pending)
        decreases n - |data|
      {
        ghost var before := Symbols(pending);
        var chunk, timedOut := Recv(n - |data|);
        if timedOut {
          ReadInterrupted(data, Symbols(pending), n);
          assert start == AsSymbols(data) + ([Timeout] + Symbols(pending));
          return data, Interrupted(Symbols(pending));
        }
        if chunk == [] {
          ReadClosed(data, n);
          assert start == AsSymbols(data);
          return data, Closed;
        }
        assert AsSymbols(data + chunk) == AsSymbols(data) + AsSymbols(chunk);
        data := data + chunk;
      }
      ReadWhole(data, Symbols(pending));
      reading := Got(data, Symbols(pending));
    }

    /** The result, and what is left, depend on the symbols alone: not on how the bytes were cut into chunks. */
    method Get() returns (received: Received<T>)
      requires Valid()
      modifies this
      ensures Valid()
      ensures match ReadFrame(old(Symbols(pending)))
        case Got(data, rest) =>
          && received == (match loads(data) case Some(value) => Object(value) case None => DoneMessage)
          && Symbols(pending) == rest
        case Interrupted(rest) => received == QueueEmpty && Symbols(pending) == rest
        case Closed => received == DoneMessage && Symbols(pending) == []
    {
      var lengthBytes, first := ReadExactly(4);
      if first.Interrupted? {
        return QueueEmpty;
      }
      if first.Closed? {
        return DoneMessage;
      }
      var data, second := ReadExactly(FromBytes(lengthBytes));
      if second.Interrupted? {
        return QueueEmpty;
      }
      if second.Closed? {
        return DoneMessage;
      }
      match loads(data) {
        case Some(value) => received := Object(value);
        case None => received := DoneMessage;
      }
    }

    /** Gets objects until the end of the stream, or a malformed frame, and goes on after timeouts. */
    method GetAll() returns (objects: seq<T>)
      requires Valid()
      modifies this
      ensures Valid() && objects == Parsed(loads, Recovered(old(Symbols(pending))))
    {
      hide ReadFrame, Recovered, Parsed, Symbols;
      ghost var all := Parsed(loads, Recovered(Symbols(pending)));
      objects := [];
      while true
        invariant Valid() && objects + Parsed(loads, Recovered(Symbols(pending))) == all
        decreases |Symbols(pending)|
      {
        RecoveredStep(loads, Symbols(pending));
        var received := Get();
        match received {
          case Object(value) =>
            ghost var rest := Parsed(loads, Recovered(Symbols(pending)));
            assert objects + ([value] + rest) == (objects + [value]) + rest;
            objects := objects + [value];
          case DoneMessage =>
            return;
          case QueueEmpty =>
        }
      }
    }
  }

  // ---- Reading symbols ----

  lemma {:induction false} ReadWhole(bytes: seq<Byte>, rest: seq<Symbol>)
    ensures Read(AsSymbols(bytes) + rest, |bytes|) == Got(bytes, rest)
  {
    if bytes == [] {
      assert AsSymbols(bytes) + rest == rest;
    } else {
      assert (AsSymbols(bytes) + rest)[1..] == AsSymbols(bytes[1..]) + rest;
      ReadWhole(bytes[1..], rest);
      assert bytes == [bytes[0]] + bytes[1..];
    }
  }

  lemma {:induction false} ReadInterrupted(bytes: seq<Byte>, rest: seq<Symbol>, n: nat)
    requires |bytes| < n
    ensures Read(AsSymbols(bytes) + ([Timeout] + rest), n) == Interrupted(rest)
  {
    if bytes == [] {
      assert AsSymbols(bytes) + ([Timeout] + rest) == [Timeout] + rest;
    } else {
      assert (AsSymbols(bytes) + ([Timeout] + rest))[1..] == AsSymbols(bytes[1..]) + ([Timeout] + rest);
      ReadInterrupted(bytes[1..], rest, n - 1);
    }
  }

  lemma {:induction false} ReadClosed(bytes: seq<Byte>, n: nat)
    requires |bytes| < n
    ensures Read(AsSymbols(bytes), n) == Closed
  {
    if bytes != [] {
      assert AsSymbols(bytes)[1..] == AsSymbols(bytes[1..]);
      ReadClosed(bytes[1..], n - 1);
    }
  }

  /** The bytes of a stream, without its timeouts. */
  function Bytes(s: seq<Symbol>): seq<Byte> {
    if s == [] then [] else (if s[0].Data? then [s[0].byte] else []) + Bytes(s[1..])
  }

  /** What a read does to the stream. */
  lemma {:induction false} ReadEffect(s: seq<Symbol>, n: nat)
    ensures match Read(s, n)
      case Got(bytes, rest) => |bytes| == n && s == AsSymbols(bytes) + rest && Bytes(s) == bytes + Bytes(rest)
      case Interrupted(rest) =>
        |rest| < |s| && |Bytes(rest)| <= |Bytes(s)| && (s[0].Data? ==> |Bytes(rest)| < |Bytes(s)|)
      case Closed => true
  {
    if n == 0 {
      assert AsSymbols([]) + s == s;
    } else if s != [] && s[0].Data? {
      ReadEffect(s[1..], n - 1);
      ReadStep(s, n);
      assert Bytes(s) == [s[0].byte] + Bytes(s[1..]);
      hide AsSymbols, Bytes, Read;
      if Read(s[1..], n - 1).Got? {
        OneMoreSymbol(s, s[0].byte, Read(s[1..], n - 1).bytes, Read(s[1..], n - 1).rest);
      }
    }
  }

  lemma ReadStep(s: seq<Symbol>, n: nat)
    requires n > 0 && s != [] && s[0].Data?
    ensures Read(s, n) == match Read(s[1..], n - 1)
      case Got(bytes, rest) => Got([s[0].byte] + bytes, rest)
      case other => other
  {
  }

  lemma OneMoreSymbol(s: seq<Symbol>, first: Byte, bytes: seq<Byte>, rest: seq<Symbol>)
    requires s != [] && s[0] == Data(first) && s[1..] == AsSymbols(bytes) + rest
    requires Bytes(s) == [first] + (bytes + Bytes(rest))
    ensures s == AsSymbols([first] + bytes) + rest && Bytes(s) == ([first] + bytes) + Bytes(rest)
  {
    hide Bytes;
    assert AsSymbols([first] + bytes) == [Data(first)] + AsSymbols(bytes);
    assert s == [s[0]] + s[1..];
  }

  /** The same for a whole frame: one that is read was there in one piece. */
  lemma FrameEffect(s: seq<Symbol>)
    ensures match ReadFrame(s)
      case Got(data, rest) =>
        && |rest| < |s| && |data| < MAX_LENGTH
        && s == AsSymbols(Frame(data)) + rest && Bytes(s) == Frame(data) + Bytes(rest)
      case Interrupted(rest) =>
        |rest| < |s| && |Bytes(rest)| <= |Bytes(s)| && (s[0].Data? ==> |Bytes(rest)| < |Bytes(s)|)
      case Closed => true
  {
    ReadEffect(s, 4);
    if Read(s, 4).Got? {
      var prefix, rest := Read(s, 4).bytes, Read(s, 4).rest;
      var n := FromBytes(prefix);
      ReadEffect(rest, n);
      PrefixIsUnique(prefix);
      hide Read, FromBytes, Prefix, Bytes;
      if Read(rest, n).Got? {
        JoinReads(s, prefix, rest, Read(rest, n).bytes, Read(rest, n).rest);
      }
      hide AsSymbols;
    }
  }

  lemma JoinReads(s: seq<Symbol>, a: seq<Byte>, rest: seq<Symbol>, b: seq<Byte>, rest': seq<Symbol>)
    requires s == AsSymbols(a) + rest && rest == AsSymbols(b) + rest'
    requires Bytes(s) == a + Bytes(rest) && Bytes(rest) == b + Bytes(rest')
    ensures s == AsSymbols(a + b) + rest' && Bytes(s) == (a + b) + Bytes(rest')
  {
    hide Bytes;
  }

  lemma {:induction false} PrefixIsUnique(prefix: seq<Byte>)
    requires |prefix| == 4
    ensures FromBytes(prefix) < MAX_LENGTH && prefix == Prefix(FromBytes(prefix))
  {
    FourBytes(prefix, prefix[0], prefix[1], prefix[2], prefix[3]);
    PrefixRoundTrip(FromBytes(prefix));
    FromBytesIsInjective(prefix, Prefix(FromBytes(prefix)));
  }

  // ---- Whole streams ----

  /** All messages that repeated reading gets out of a stream, timeouts notwithstanding. */
  function Recovered(s: seq<Symbol>): seq<seq<Byte>>
    decreases |s|
  {
    FrameEffect(s);
    match ReadFrame(s)
    case Got(data, rest) => [data] + Recovered(rest)
    case Interrupted(rest) => Recovered(rest)
    case Closed => []
  }

  /** The objects in the frames, up to the first malformed one. */
  function Parsed<T>(loads: seq<Byte> -> Option<T>, frames: seq<seq<Byte>>): seq<T> {
    if frames == [] then []
    else
      match loads(frames[0])
      case None => []
      case Some(value) => [value] + Parsed(loads, frames[1..])
  }

  lemma {:induction false} RecoveredStep<T>(loads: seq<Byte> -> Option<T>, s: seq<Symbol>)
    ensures match ReadFrame(s)
      case Got(data, rest) =>
        && |rest| < |s|
        && Parsed(loads, Recovered(s))
           == (match loads(data) case None => [] case Some(value) => [value] + Parsed(loads, Recovered(rest)))
      case Interrupted(rest) => |rest| < |s| && Parsed(loads, Recovered(s)) == Parsed(loads, Recovered(rest))
      case Closed => Parsed(loads, Recovered(s)) == []
  {
    FrameEffect(s);
    hide ReadFrame, Frame, Bytes, AsSymbols;
    if ReadFrame(s).Got? {
      assert Recovered(s)[1..] == Recovered(ReadFrame(s).rest);
    }
  }

  /** The stream carries the messages with timeouts between frames only. */
  ghost predicate Uninterrupted(s: seq<Symbol>, messages: seq<seq<Byte>>)
    requires Fits(messages)
  {
    if s != [] && s[0].Timeout? then Uninterrupted(s[1..], messages)
    else if messages == [] then s == []
    else
      var frame := AsSymbols(Frame(messages[0]));
      frame <= s && Uninterrupted(s[|frame|..], messages[1..])
  }

  lemma {:induction false} RecoveredIsInTheStream(s: seq<Symbol>)
    ensures Fits(Recovered(s)) && |Stream(Recovered(s))| <= |Bytes(s)|
    decreases |s|
  {
    FrameEffect(s);
    match ReadFrame(s) {
      case Got(data, rest) =>
        RecoveredIsInTheStream(rest);
        assert ([data] + Recovered(rest))[1..] == Recovered(rest);
      case Interrupted(rest) =>
        RecoveredIsInTheStream(rest);
      case Closed =>
    }
  }

  lemma ReadFrameOf(message: seq<Byte>, rest: seq<Symbol>)
    requires |message| < MAX_LENGTH
    ensures ReadFrame(AsSymbols(Frame(message)) + rest) == Got(message, rest)
  {
    assert AsSymbols(Frame(message)) + rest == AsSymbols(Prefix(|message|)) + (AsSymbols(message) + rest);
    ReadWhole(Prefix(|message|), AsSymbols(message) + rest);
    PrefixRoundTrip(|message|);
    ReadWhole(message, rest);
  }

  lemma {:induction false} UninterruptedIsRecovered(s: seq<Symbol>, messages: seq<seq<Byte>>)
    requires Fits(messages) && Uninterrupted(s, messages)
    ensures Recovered(s) == messages
    decreases |s|
  {
    if s != [] && s[0].Timeout? {
      UninterruptedIsRecovered(s[1..], messages);
    } else if messages != [] {
      var frame := AsSymbols(Frame(messages[0]));
      var rest := s[|frame|..];
      assert s == frame + rest;
      ReadFrameOf(messages[0], rest);
      UninterruptedIsRecovered(rest, messages[1..]);
      assert messages == [messages[0]] + messages[1..];
    }
  }

  /** A receiver recovers exactly the sent messages, in order, exactly when no timeout falls inside a frame.
      How the bytes were cut into chunks plays no part. */
  lemma {:induction false} RecoveredIffUninterrupted(s: seq<Symbol>, messages: seq<seq<Byte>>)
    requires Fits(messages) && Bytes(s) == Stream(messages)
    ensures Recovered(s) == messages <==> Uninterrupted(s, messages)
    decreases |s|
  {
    if Uninterrupted(s, messages) {
      UninterruptedIsRecovered(s, messages);
    } else if Recovered(s) == messages {
      FrameEffect(s);
      hide Read, Prefix, FromBytes;
      if ReadFrame(s).Got? {
        var data, rest := ReadFrame(s).bytes, ReadFrame(s).rest;
        assert messages[0] == data && messages[1..] == Recovered(rest);
        SamePrefix(Frame(data), Bytes(rest), Stream(messages[1..]));
        RecoveredIffUninterrupted(rest, messages[1..]);
        FrameThenRest(s, data, rest, messages);
      } else if ReadFrame(s).Interrupted? {
        RecoveredIsInTheStream(ReadFrame(s).rest);
        if s[0].Timeout? {
          InterruptedAtOnce(s);
          RecoveredIffUninterrupted(s[1..], messages);
        }
      } else {
        NothingRecovered(s);
      }
    }
  }

  lemma SamePrefix(a: seq<Byte>, b: seq<Byte>, c: seq<Byte>)
    requires a + b == a + c
    ensures b == c
  {
    assert (a + b)[|a|..] == b && (a + c)[|a|..] == c;
  }

  lemma FrameThenRest(s: seq<Symbol>, data: seq<Byte>, rest: seq<Symbol>, messages: seq<seq<Byte>>)
    requires Fits(messages) && messages != [] && messages[0] == data
    requires s == AsSymbols(Frame(data)) + rest
    ensures Uninterrupted(s, messages) <==> Uninterrupted(rest, messages[1..])
  {
    assert s[0] == AsSymbols(Frame(data))[0];
    assert s[|AsSymbols(Frame(data))|..] == rest;
  }

  lemma InterruptedAtOnce(s: seq<Symbol>)
    requires s != [] && s[0].Timeout?
    ensures ReadFrame(s) == Interrupted(s[1..])
  {
  }

  lemma NothingRecovered(s: seq<Symbol>)
    requires ReadFrame(s).Closed?
    ensures Recovered(s) == []
    ensures Bytes(s) == [] ==> s == [] || s[0].Timeout?
    ensures s != [] ==> !s[0].Timeout?
  {
  }

  function Dumped<T>(dumps: T -> seq<Byte>, objects: seq<T>): seq<seq<Byte>> {
    if objects == [] then [] else [dumps(objects[0])] + Dumped(dumps, objects[1..])
  }

  lemma {:induction false} ParsedDumped<T(!new)>(
    dumps: T -> seq<Byte>, loads: seq<Byte> -> Option<T>, objects: seq<T>)
    requires forall x :: loads(dumps(x)) == Some(x)
    ensures Parsed(loads, Dumped(dumps, objects)) == objects
  {
    if objects != [] {
      ParsedDumped(dumps, loads, objects[1..]);
      assert objects == [objects[0]] + objects[1..];
      assert Dumped(dumps, objects)[1..] == Dumped(dumps, objects[1..]);
    }
  }

  /** End to end: without timeouts inside frames, the objects that were sent are the objects that are received. */
  lemma SentObjectsAreReceived<T(!new)>(
    dumps: T -> seq<Byte>, loads: seq<Byte> -> Option<T>, objects: seq<T>, s: seq<Symbol>)
    requires forall x :: loads(dumps(x)) == Some(x)
    requires Fits(Dumped(dumps, objects)) && Uninterrupted(s, Dumped(dumps, objects))
    ensures Parsed(loads, Recovered(s)) == objects
  {
    UninterruptedIsRecovered(s, Dumped(dumps, objects));
    ParsedDumped(dumps, loads, objects);
  }
}
