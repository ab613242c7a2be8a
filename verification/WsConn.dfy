/**
 The worker's end of a WebSocket connection (worker/wsclient.go): the frame
 writer and reader, the reading loop that answers pings, and the close.
 What comes from outside is fixed per connection: the bytes the peer sent,
 the masking keys drawn, and how much of each write the network takes.
 */
module WsConn {
  import opened Common
  import opened WsFrames

  const NORMAL_CLOSURE: seq<Byte> := [0x03, 0xE8]

  /** The messages before the peer's close frame. */
  function BeforeClose(ms: seq<Message>): seq<Message> {
    if ms == [] || ms[0].opcode == OP_CLOSE then [] else [ms[0]] + BeforeClose(ms[1..])
  }

  predicate Closes(ms: seq<Message>) {
    exists i :: 0 <= i < |ms| && ms[i].opcode == OP_CLOSE
  }

  /** The payloads of the messages with an opcode, in order. */
  function Payloads(ms: seq<Message>, opcode: Opcode): seq<seq<Byte>> {
    if ms == [] then []
    else
      var n := |ms| - 1;
      Payloads(ms[..n], opcode) + (if ms[n].opcode == opcode then [ms[n].payload] else [])
  }

  /** The pongs that answer the pings among some messages. */
  function PongsFor(ms: seq<Message>): seq<Message> {
    Map(Payloads(ms, OP_PING), p => Message(OP_PONG, p))
  }

  lemma {:induction false} BeforeCloseIs(ms: seq<Message>, before: seq<Message>, rest: seq<Message>)
    requires !Closes(before) && ms == before + rest
    requires rest == [] || rest[0].opcode == OP_CLOSE
    ensures BeforeClose(ms) == before && (Closes(ms) <==> rest != [])
  {
    if before == [] {
      assert ms == rest;
    } else {
      assert ms[1..] == before[1..] + rest;
      assert before[0].opcode != OP_CLOSE;
      assert !Closes(before[1..]) by {
        assert forall i :: 0 <= i < |before[1..]| ==> before[1..][i] == before[i + 1];
      }
      BeforeCloseIs(ms[1..], before[1..], rest);
    }
    assert rest != [] ==> ms[|before|].opcode == OP_CLOSE;
    assert rest == [] ==> ms == before;
  }

  lemma PayloadsSnoc(ms: seq<Message>, m: Message, opcode: Opcode)
    ensures Payloads(ms + [m], opcode) == Payloads(ms, opcode) + (if m.opcode == opcode then [m.payload] else [])
  {
    assert (ms + [m])[..|ms|] == ms;
  }

  /** What gets written while the messages `ms` are read: their pongs, if the connection is open. */
  function Replies(open: bool, ms: seq<Message>): seq<Message> {
    if open then PongsFor(ms) else []
  }

  lemma RepliesNone(open: bool)
    ensures Replies(open, []) == []
  {
  }

  lemma PayloadsNone(opcode: Opcode)
    ensures Payloads([], opcode) == []
  {
  }

  lemma RepliesSnoc(open: bool, ms: seq<Message>, m: Message)
    ensures Replies(open, ms + [m]) ==
            if m.opcode == OP_PING && open then Replies(open, ms) + [Message(OP_PONG, m.payload)] else Replies(open, ms)
  {
    PayloadsSnoc(ms, m, OP_PING);
  }

  lemma {:induction false} RepliesAppend(open: bool, a: seq<Message>, b: seq<Message>)
    ensures Replies(open, a + b) == Replies(open, a) + Replies(open, b)
  {
    if b == [] {
      assert a + b == a;
    } else {
      var n := |b| - 1;
      assert a + b == (a + b[..n]) + [b[n]] && b == b[..n] + [b[n]];
      RepliesAppend(open, a, b[..n]);
      RepliesSnoc(open, a + b[..n], b[n]);
      RepliesSnoc(open, b[..n], b[n]);
    }
  }

  /** Messages of other kinds add no payloads. */
  lemma {:induction false} QuietAppend(a: seq<Message>, b: seq<Message>, opcode: Opcode)
    requires forall i :: 0 <= i < |b| ==> b[i].opcode != opcode
    ensures Payloads(a + b, opcode) == Payloads(a, opcode)
  {
    if b == [] {
      assert a + b == a;
    } else {
      var n := |b| - 1;
      assert a + b == (a + b[..n]) + [b[n]];
      QuietAppend(a, b[..n], opcode);
      PayloadsSnoc(a + b[..n], b[n], opcode);
    }
  }

  ghost predicate Quiet(ms: seq<Message>) {
    forall i :: 0 <= i < |ms| ==> ms[i].opcode != OP_TEXT && ms[i].opcode != OP_CLOSE
  }

  lemma QuietNone()
    ensures Quiet([])
  {
  }

  lemma QuietSnoc(ms: seq<Message>, m: Message)
    requires Quiet(ms)
    ensures Quiet(ms + [m]) <==> m.opcode != OP_TEXT && m.opcode != OP_CLOSE
  {
    assert (ms + [m])[|ms|] == m;
    assert forall i :: 0 <= i < |ms| ==> (ms + [m])[i] == ms[i];
  }

  /** One more text has been read, after some messages that deliver nothing. */
  lemma TextRead(open: bool, read: seq<Message>, skipped: seq<Message>, text: Message)
    requires !Closes(read) && Quiet(skipped) && text.opcode == OP_TEXT
    ensures var all := read + skipped + [text];
            && !Closes(all)
            && Payloads(all, OP_TEXT) == Payloads(read, OP_TEXT) + [text.payload]
            && Replies(open, all) == Replies(open, read) + Replies(open, skipped)
  {
    QuietAppend(read, skipped, OP_TEXT);
    PayloadsSnoc(read + skipped, text, OP_TEXT);
    RepliesAppend(open, read, skipped);
    RepliesSnoc(open, read + skipped, text);
  }

  /** The stream has ended, at the peer's close frame or at an error. */
  lemma StreamEnded(open: bool, read: seq<Message>, skipped: seq<Message>, rest: seq<Message>)
    requires !Closes(read) && Quiet(skipped) && (rest == [] || rest[0].opcode == OP_CLOSE)
    ensures var all := read + skipped + rest;
            && (Closes(all) <==> rest != [])
            && Payloads(BeforeClose(all), OP_TEXT) == Payloads(read, OP_TEXT)
            && Replies(open, BeforeClose(all)) == Replies(open, read) + Replies(open, skipped)
  {
    QuietAppend(read, skipped, OP_TEXT);
    RepliesAppend(open, read, skipped);
    BeforeCloseIs(read + skipped + rest, read + skipped, rest);
  }

  /** What a write of `frame` puts on the wire when the network takes `room` bytes. */
  function Cut(frame: seq<Byte>, room: nat): seq<Byte> {
    if room < |frame| then frame[..room] else frame
  }

  /** Whether a chunk is what the `k`-th write puts on the wire for the message `m`. */
  ghost predicate Carried(rand: nat -> Key, net: nat -> nat, k: nat, chunk: seq<Byte>, m: Message) {
    chunk == Cut(Serialize(ClientFrame(m.opcode, m.payload, rand(k))), net(k))
  }

  /** Whether each write carries its message, as far as the network takes it. */
  ghost predicate Carries(rand: nat -> Key, net: nat -> nat, written: seq<seq<Byte>>, log: seq<Message>) {
    && |written| == |log|
    && forall k :: 0 <= k < |log| ==> Carried(rand, net, k, written[k], log[k])
  }

  /** When no write is cut short, the peer's reader gets the messages written, in order. */
  lemma WrittenReadsBack(rand: nat -> Key, net: nat -> nat, written: seq<seq<Byte>>, log: seq<Message>)
    requires Carries(rand, net, written, log)
    requires forall k :: 0 <= k < |log| ==> |log[k].payload| <= MAX_FRAME_SIZE && net(k) >= MAX_FRAME_SIZE + 14
    ensures DecodeAll(Flatten(written)) == log
  {
    forall k | 0 <= k < |log|
      ensures ReadsAs(DecodeAll, written[k], log[k])
    {
      SerializedReadsAs(ClientFrame(log[k].opcode, log[k].payload, rand(k)));
    }
    ChunksReadBack(written, log, DecodeAll, []);
    assert Flatten(written) + [] == Flatten(written);
  }

  class Conn {
    const rand: nat -> Key
    const net: nat -> nat
    /** Bytes received and not yet read; after them the stream ends. */
    var input: seq<Byte>
    /** The bytes each write put on the wire. */
    var written: seq<seq<Byte>>
    var closed: bool
    /** Whether the TCP connection is still open. */
    var open: bool
    /** The messages handed to the network while it was open. */
    ghost var log: seq<Message>

    ghost predicate Valid()
      reads this
    {
      Carries(rand, net, written, log)
    }

    constructor (rand: nat -> Key, net: nat -> nat, input: seq<Byte>)
      ensures Valid() && log == [] && this.input == input && !closed && open
      ensures this.rand == rand && this.net == net
    {
      this.rand, this.net, this.input := rand, net, input;
      written, closed, open, log := [], false, true, [];
    }

    method WriteFrame(opcode: Opcode, payload: seq<Byte>) returns (ok: bool)
      requires Valid()
      modifies this`written, this`log
      ensures Valid() && log == if open then old(log) + [Message(opcode, payload)] else old(log)
      ensures ok <==> open && |Serialize(ClientFrame(opcode, payload, rand(|old(written)|)))| <= net(|old(written)|)
    {
      var maskKey := rand(|written|);
      ghost var w := ClientFrame(opcode, payload, maskKey);
      var header: seq<Byte> := [0x80 + opcode];
      var length := |payload|;
      if length <= 125 {
        header := header + [length + 0x80];
      } else if length <= 65535 {
        header := header + [126 + 0x80];
        header := header + BigEndian(length, 2);
      } else {
        header := header + [127 + 0x80];
        header := header + BigEndian(length, 8);
      }
      assert header == [FirstByte(w), SecondByte(w)] + ExtendedLength(w);
      header := header + maskKey;
      var masked := MaskCopy(payload, maskKey);
      ok := Send(header + masked, Message(opcode, payload));
    }

    /** The masking loop of the writer. */
    method MaskCopy(payload: seq<Byte>, maskKey: Key) returns (masked: seq<Byte>)
      ensures masked == Masked(payload, Some(maskKey))
    {
      var buffer := new Byte[|payload|];
      var i := 0;
      while i < |payload|
        invariant 0 <= i <= |payload|
        invariant forall j :: 0 <= j < i ==> buffer[j] == Xor(payload[j], maskKey[j % 4])
      {
        buffer[i] := Xor(payload[i], maskKey[i % 4]);
        i := i + 1;
      }
      masked := buffer[..];
    }

    /** One write to the network, which may take only part of it. */
    method Send(bytes: seq<Byte>, ghost m: Message) returns (ok: bool)
      requires Valid() && bytes == Serialize(ClientFrame(m.opcode, m.payload, rand(|written|)))
      modifies this`written, this`log
      ensures Valid() && log == if open then old(log) + [m] else old(log)
      ensures ok <==> open && |bytes| <= net(|old(written)|)
    {
      hide Serialize;
      if !open { return false; }
      ok := |bytes| <= net(|written|);
      var chunk := Cut(bytes, net(|written|));
      assert Carried(rand, net, |written|, chunk, m);
      written := written + [chunk];
      log := log + [m];
    }

    /** io.ReadFull: all `n` bytes, or an error after taking whatever is left. */
    method ReadFull(n: nat) returns (ok: bool, bytes: seq<Byte>)
      modifies this`input
      ensures ok <==> n <= |old(input)|
      ensures ok ==> bytes == old(input)[..n] && input == old(input)[n..]
      ensures !ok ==> input == []
    {
      ok := n <= |input|;
      if ok {
        bytes, input := input[..n], input[n..];
      } else {
        bytes, input := [], [];
      }
    }

    method ReadFrame() returns (error: Option<ReadError>, opcode: Opcode, payload: seq<Byte>)
      modifies this`input
      ensures Decode(old(input)) ==
              if error.Some? then Rejected(error.value, input) else Frame(opcode, payload, input)
    {
      opcode, payload := 0, [];
      ghost var s := input;
      var ok, header := ReadFull(2);
      if !ok { return Some(ShortHeader), 0, []; }
      opcode := header[0] % 16;
      if RsvBits(header[0]) != 0 { return Some(BadRsv), 0, []; }
      var masked := header[1] >= 0x80;
      var length: nat := header[1] % 128;
      if length == 126 {
        var okExt, ext := ReadFull(2);
        if !okExt { return Some(ShortLength), 0, []; }
        assert ext == s[2..4];
        length := FromBigEndian(ext);
      } else if length == 127 {
        var okExt, ext := ReadFull(8);
        if !okExt { return Some(ShortLength), 0, []; }
        assert ext == s[2..10];
        length := FromBigEndian(ext);
        if length >= Pow256(8) / 2 { return Some(BadLength), 0, []; }
      }
      ghost var at := 2 + ExtensionSize(s[1]);
      assert input == s[at..] && length == AnnouncedLength(s);
      error, payload := ReadBody(masked, length, s, at);
      assert Decode(s) == DecodeBody(s, at, length);
    }

    /** The part of readFrame after the length: key, size limit, payload, unmasking in place. */
    method ReadBody(masked: bool, length: nat, ghost s: seq<Byte>, ghost at: nat)
      returns (error: Option<ReadError>, payload: seq<Byte>)
      requires 2 <= at <= |s| && input == s[at..] && masked == (s[1] >= 0x80)
      modifies this`input
      ensures DecodeBody(s, at, length) ==
              if error.Some? then Rejected(error.value, input) else Frame(s[0] % 16, payload, input)
    {
      payload := [];
      var maskKey: Key := [0, 0, 0, 0];
      if masked {
        var okKey, key := ReadFull(4);
        if !okKey { return Some(ShortKey), []; }
        maskKey := key;
      }
      assert input == s[at + KeySize(s[1])..];
      if length > MAX_FRAME_SIZE { return Some(TooLarge), []; }
      SliceOfSuffixIfFits(s, at + KeySize(s[1]), length);
      var ok, raw := ReadFull(length);
      if !ok { return Some(ShortPayload), []; }
      if masked {
        raw := MaskInPlace(raw, maskKey);
      }
      return None, raw;
    }

    /** The unmasking loop of the reader. */
    method MaskInPlace(raw: seq<Byte>, maskKey: Key) returns (payload: seq<Byte>)
      ensures payload == Masked(raw, Some(maskKey))
    {
      hide Xor;
      var buffer := new Byte[|raw|](i requires 0 <= i < |raw| => raw[i]);
      var i := 0;
      while i < buffer.Length
        invariant 0 <= i <= buffer.Length
        invariant forall j :: 0 <= j < i ==> buffer[j] == Xor(raw[j], maskKey[j % 4])
        invariant forall j :: i <= j < buffer.Length ==> buffer[j] == raw[j]
      {
        buffer[i] := Xor(buffer[i], maskKey[i % 4]);
        i := i + 1;
      }
      payload := buffer[..];
    }

    /** Best-effort close frame, then the TCP connection goes down; only the first call acts. */
    method Close(lockFree: bool)
      requires Valid()
      modifies this`written, this`log, this`closed, this`open
      ensures Valid() && closed
      ensures old(closed) ==> open == old(open) && log == old(log)
      ensures !old(closed) ==>
                && !open
                && log == if lockFree && old(open) then old(log) + [Message(OP_CLOSE, NORMAL_CLOSURE)] else old(log)
    {
      if closed { return; }
      closed := true;
      if lockFree {
        var _ := WriteFrame(OP_CLOSE, NORMAL_CLOSURE);
      }
      open := false;
    }

    /** The messages still to be read. */
    ghost function Stream(): seq<Message>
      reads this`input
    {
      DecodeAll(input)
    }

    method ReadMessage() returns (m: Option<Message>)
      requires Valid()
      modifies this`input
      ensures Valid() && old(Stream()) == if m.Some? then [m.value] + Stream() else []
      ensures m.Some? ==> |input| < |old(input)|
    {
      var error, opcode, payload := ReadFrame();
      m := if error.Some? then None else Some(Message(opcode, payload));
    }

    /** Whether the reading loop goes on after a message that is not text. */
    method React(m: Message, lockFree: bool) returns (go: bool)
      requires Valid()
      modifies this`written, this`log, this`closed, this`open
      ensures Valid() && (go <==> m.opcode != OP_CLOSE)
      ensures go ==> closed == old(closed) && open == old(open)
      ensures go ==> log == if m.opcode == OP_PING && open then old(log) + [Message(OP_PONG, m.payload)] else old(log)
      ensures !go ==> closed
      ensures !go ==> log == if lockFree && !old(closed) && old(open)
                             then old(log) + [Message(OP_CLOSE, NORMAL_CLOSURE)] else old(log)
    {
      go := true;
      if m.opcode == OP_PING {
        var _ := WriteFrame(OP_PONG, m.payload);
      } else if m.opcode == OP_CLOSE {
        Close(lockFree);
        go := false;
      }
    }

    /**
     Reads frames until a text frame or an error, answering pings on the way
     and closing when the peer closes; `skipped` lists what it read before.
     The result is the text, or nothing and the close frame if there was one.
     */
    method ReadText(lockFree: bool)
      returns (text: Option<seq<Byte>>, ghost skipped: seq<Message>, ghost last: seq<Message>)
      requires Valid()
      modifies this
      ensures Valid()
      ensures Quiet(skipped)
      ensures text.Some? ==> |input| < |old(input)| && last == [Message(OP_TEXT, text.value)]
      ensures text.None? && last != [] ==> |last| == 1 && last[0].opcode == OP_CLOSE && closed
      ensures last == [] ==> old(Stream()) == skipped
      ensures last != [] ==> old(Stream()) == skipped + last + Stream()
      ensures text.Some? || last == [] ==> closed == old(closed) && open == old(open)
      ensures text.None? && last != [] && lockFree && !old(closed) && old(open) ==>
                log == old(log) + Replies(old(open), skipped) + [Message(OP_CLOSE, NORMAL_CLOSURE)]
      ensures text.Some? || last == [] || !lockFree || old(closed) || !old(open) ==>
                log == old(log) + Replies(old(open), skipped)
    {
      hide Replies, DecodeAll, Carries, Quiet;
      skipped, last := [], [];
      RepliesNone(open);
      QuietNone();
      while true
        invariant Valid() && closed == old(closed) && open == old(open) && |input| <= |old(input)|
        invariant Quiet(skipped)
        invariant old(Stream()) == skipped + Stream()
        invariant log == old(log) + Replies(open, skipped)
        decreases |input|
      {
        var m := ReadMessage();
        if m.None? { return None, skipped, []; }
        Concat3(skipped, [m.value], Stream());
        if m.value.opcode == OP_TEXT { return Some(m.value.payload), skipped, [m.value]; }
        RepliesSnoc(open, skipped, m.value);
        QuietSnoc(skipped, m.value);
        var go := React(m.value, lockFree);
        if !go { return None, skipped, [m.value]; }
        skipped := skipped + [m.value];
      }
    }

    /**
     The session's reading loop: texts are taken off the connection until the
     first error.  It delivers exactly the text frames before the peer's close
     frame, and writes exactly the pongs of the pings among them, in order.
     */
    method ReadSession(lockFree: bool) returns (texts: seq<seq<Byte>>)
      requires Valid()
      modifies this
      ensures Valid()
      ensures texts == Payloads(BeforeClose(old(Stream())), OP_TEXT)
      ensures var answered := old(log) + Replies(old(open), BeforeClose(old(Stream())));
              log == if Closes(old(Stream())) && lockFree && !old(closed) && old(open)
                     then answered + [Message(OP_CLOSE, NORMAL_CLOSURE)] else answered
      ensures Closes(old(Stream())) ==> closed
    {
      hide Replies, DecodeAll, Payloads, BeforeClose, Carries, Quiet;
      texts := [];
      ghost var read := [];
      RepliesNone(open);
      PayloadsNone(OP_TEXT);
      while true
        invariant Valid() && closed == old(closed) && open == old(open)
        invariant !Closes(read) && old(Stream()) == read + Stream()
        invariant texts == Payloads(read, OP_TEXT)
        invariant log == old(log) + Replies(open, read)
        decreases |input|
      {
        var text, skipped, last := ReadText(lockFree);
        if text.None? {
          StreamEnded(old(open), read, skipped, if last == [] then [] else last + Stream());
          Concat3(old(log), Replies(old(open), read), Replies(old(open), skipped));
          assert last == [] ==> read + skipped + [] == read + skipped;
          assert last != [] ==> read + skipped + (last + Stream()) == read + (skipped + last + Stream());
          return;
        }
        TextRead(open, read, skipped, last[0]);
        Concat3(old(log), Replies(open, read), Replies(open, skipped));
        texts := texts + [text.value];
        read := read + skipped + last;
      }
    }
  }
}
