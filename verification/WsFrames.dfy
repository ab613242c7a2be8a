/**
 The frame format of section 5.2 of RFC 6455 and the worker's reader for it
 (worker/wsclient.go).  `Serialize` is the format as the RFC lays it out,
 with every choice a sender has; `Decode` is what the worker's reader does.
 */
module WsFrames {
  import opened Common

  const OP_TEXT: Opcode := 0x1
  const OP_CLOSE: Opcode := 0x8
  const OP_PING: Opcode := 0x9
  const OP_PONG: Opcode := 0xA
  const MAX_FRAME_SIZE := 1_048_576

  type Byte = n: nat | n < 256

  type Opcode = n: nat | n < 16

  type Key = k: seq<Byte> | |k| == 4 witness [0, 0, 0, 0]

  // --- bits of bytes and big-endian numbers ---

  /** Exclusive or of the low `k` bits of two numbers. */
  function XorBits(a: nat, b: nat, k: nat): (r: nat)
    decreases k
  {
    if k == 0 then 0 else 2 * XorBits(a / 2, b / 2, k - 1) + (if a % 2 == b % 2 then 0 else 1)
  }

  lemma {:induction false} XorBitsTwice(a: nat, b: nat, k: nat)
    requires a < Pow2(k)
    ensures XorBits(a, b, k) < Pow2(k) && XorBits(XorBits(a, b, k), b, k) == a
    decreases k
  {
    if k > 0 {
      var r, bit := XorBits(a / 2, b / 2, k - 1), if a % 2 == b % 2 then 0 else 1;
      XorBitsTwice(a / 2, b / 2, k - 1);
      Halve(r, bit);
      assert XorBits(a, b, k) == 2 * r + bit;
      XorOnce(2 * r + bit, b, k);
      assert (if bit == b % 2 then 0 else 1) == a % 2;
    }
  }

  lemma Halve(n: nat, bit: nat)
    requires bit < 2
    ensures (2 * n + bit) / 2 == n && (2 * n + bit) % 2 == bit
  {
  }

  lemma XorOnce(a: nat, b: nat, k: nat)
    requires k > 0
    ensures XorBits(a, b, k) == 2 * XorBits(a / 2, b / 2, k - 1) + (if a % 2 == b % 2 then 0 else 1)
  {
  }

  /** A binary digit, the lowest being the 0th. */
  function Bit(n: nat, k: nat): nat
    decreases k
  {
    if k == 0 then n % 2 else Bit(n / 2, k - 1)
  }

  /** Each digit of the exclusive or tells whether the two digits differ. */
  lemma {:induction false} XorIsBitwise(a: nat, b: nat, n: nat, k: nat)
    requires k < n
    ensures Bit(XorBits(a, b, n), k) == if Bit(a, k) == Bit(b, k) then 0 else 1
    decreases n
  {
    XorOnce(a, b, n);
    Halve(XorBits(a / 2, b / 2, n - 1), if a % 2 == b % 2 then 0 else 1);
    if k > 0 {
      XorIsBitwise(a / 2, b / 2, n - 1, k - 1);
    }
  }

  function Pow2(k: nat): nat {
    if k == 0 then 1 else 2 * Pow2(k - 1)
  }

  function Xor(a: Byte, b: Byte): Byte {
    XorBitsTwice(a, b, 8);
    XorBits(a, b, 8)
  }

  lemma XorTwice(a: Byte, b: Byte)
    ensures Xor(Xor(a, b), b) == a
  {
    XorBitsTwice(a, b, 8);
  }

  function Pow256(k: nat): (p: nat)
    ensures p >= 1
  {
    if k == 0 then 1 else 256 * Pow256(k - 1)
  }

  /** The low `k` bytes of a number, most significant first. */
  function BigEndian(n: nat, k: nat): (s: seq<Byte>)
    ensures |s| == k
  {
    if k == 0 then [] else BigEndian(n / 256, k - 1) + [n % 256]
  }

  function FromBigEndian(s: seq<Byte>): (n: nat)
    ensures n < Pow256(|s|)
  {
    if s == [] then 0 else 256 * FromBigEndian(s[..|s| - 1]) + s[|s| - 1]
  }

  lemma {:induction false} BigEndianRoundTrip(n: nat, k: nat)
    requires n < Pow256(k)
    ensures FromBigEndian(BigEndian(n, k)) == n
  {
    if k > 0 {
      BigEndianRoundTrip(n / 256, k - 1);
      assert BigEndian(n, k)[..k - 1] == BigEndian(n / 256, k - 1);
    }
  }

  lemma {:induction false} FromBigEndianRoundTrip(s: seq<Byte>)
    ensures BigEndian(FromBigEndian(s), |s|) == s
  {
    if s != [] {
      var head, last := s[..|s| - 1], s[|s| - 1];
      FromBigEndianRoundTrip(head);
      assert FromBigEndian(s) / 256 == FromBigEndian(head);
      assert FromBigEndian(s) % 256 == last;
      assert s == head + [last];
    }
  }

  /** The first byte counts most. */
  lemma {:induction false} FirstByteCountsMost(b: Byte, s: seq<Byte>)
    ensures FromBigEndian([b] + s) == b * Pow256(|s|) + FromBigEndian(s)
  {
    hide Pow256;
    if s == [] {
      PowersOf256(0);
      assert [b] + s == [b] && [b][..0] == [];
    } else {
      var n := |s| - 1;
      assert ([b] + s)[..|s|] == [b] + s[..n];
      FirstByteCountsMost(b, s[..n]);
      PowersOf256(n);
      Shifted(b, Pow256(n));
    }
  }

  lemma PowersOf256(k: nat)
    ensures Pow256(0) == 1 && Pow256(k + 1) == 256 * Pow256(k)
  {
  }

  lemma Shifted(b: int, p: int)
    ensures 256 * (b * p) == b * (256 * p)
  {
  }

  // --- the wire format ---

  datatype LengthForm = Short | Extended16 | Extended64

  /** A frame with every choice its sender made: FIN, length form and mask. */
  datatype Wire = Wire(fin: bool, opcode: Opcode, form: LengthForm, mask: Option<Key>, payload: seq<Byte>)

  predicate WellFormed(w: Wire) {
    match w.form
    case Short => |w.payload| <= 125
    case Extended16 => |w.payload| < Pow256(2)
    case Extended64 => |w.payload| < Pow256(8) / 2
  }

  /** Section 5.3 of RFC 6455; without a key the payload travels as it is. */
  function Masked(payload: seq<Byte>, mask: Option<Key>): (r: seq<Byte>)
    ensures |r| == |payload|
  {
    if mask.None? then payload
    else seq(|payload|, i requires 0 <= i < |payload| => Xor(payload[i], mask.value[i % 4]))
  }

  lemma MaskTwice(payload: seq<Byte>, mask: Option<Key>)
    ensures Masked(Masked(payload, mask), mask) == payload
  {
    if mask.Some? {
      var m := Masked(payload, mask);
      forall i | 0 <= i < |payload|
        ensures Masked(m, mask)[i] == payload[i]
      {
        XorTwice(payload[i], mask.value[i % 4]);
      }
    }
  }

  function FirstByte(w: Wire): Byte
  {
    (if w.fin then 0x80 else 0) + w.opcode
  }

  function SecondByte(w: Wire): Byte {
    (if w.mask.Some? then 0x80 else 0) +
    (match w.form
     case Short => if |w.payload| <= 125 then |w.payload| else 0
     case Extended16 => 126
     case Extended64 => 127)
  }

  function ExtendedLength(w: Wire): seq<Byte> {
    match w.form
    case Short => []
    case Extended16 => BigEndian(|w.payload|, 2)
    case Extended64 => BigEndian(|w.payload|, 8)
  }

  function KeyBytes(mask: Option<Key>): seq<Byte> {
    if mask.Some? then mask.value else []
  }

  function Header(w: Wire): seq<Byte> {
    [FirstByte(w), SecondByte(w)] + ExtendedLength(w) + KeyBytes(w.mask)
  }

  function Serialize(w: Wire): (s: seq<Byte>)
    ensures |s| >= 2
  {
    Header(w) + Masked(w.payload, w.mask)
  }

  // --- the reader ---

  datatype ReadError = ShortHeader | BadRsv | ShortLength | BadLength | ShortKey | TooLarge | ShortPayload

  /** `rest` is what the reader leaves unread; a short read consumes everything. */
  datatype Decoded =
    | Frame(opcode: Opcode, payload: seq<Byte>, rest: seq<Byte>)
    | Rejected(error: ReadError, rest: seq<Byte>)

  /** The three reserved bits of the first header byte. */
  function RsvBits(b: Byte): nat {
    b / 16 % 8
  }

  function ExtensionSize(b: Byte): nat {
    if b % 128 == 126 then 2 else if b % 128 == 127 then 8 else 0
  }

  /** The payload length as the header and its extension announce it. */
  function AnnouncedLength(s: seq<Byte>): nat
    requires |s| >= 2 && |s| >= 2 + ExtensionSize(s[1])
  {
    var x := ExtensionSize(s[1]);
    if x == 0 then s[1] % 128 else FromBigEndian(s[2..2 + x])
  }

  /** Reads one frame off the front of a byte stream. */
  function Decode(s: seq<Byte>): (r: Decoded)
    ensures r.Frame? ==> |r.rest| + 2 <= |s| && |r.payload| <= MAX_FRAME_SIZE
  {
    if |s| < 2 then Rejected(ShortHeader, [])
    else if RsvBits(s[0]) != 0 then Rejected(BadRsv, s[2..])
    else if |s| < 2 + ExtensionSize(s[1]) then Rejected(ShortLength, [])
    else if ExtensionSize(s[1]) == 8 && AnnouncedLength(s) >= Pow256(8) / 2 then Rejected(BadLength, s[10..])
    else DecodeBody(s, 2 + ExtensionSize(s[1]), AnnouncedLength(s))
  }

  /** How many bytes of masking key the header announces. */
  function KeySize(b: Byte): nat {
    if b >= 0x80 then 4 else 0
  }

  function KeyAt(s: seq<Byte>, at: nat): (mask: Option<Key>)
    requires |s| >= 2 && at + KeySize(s[1]) <= |s|
    ensures KeyBytes(mask) == s[at..at + KeySize(s[1])]
  {
    if s[1] >= 0x80 then Some(s[at..at + 4]) else None
  }

  /** The rest of `Decode`, from the masking key on. */
  function DecodeBody(s: seq<Byte>, at: nat, length: nat): (r: Decoded)
    requires 2 <= at <= |s|
    ensures r.Frame? ==> |r.rest| + 2 <= |s| && |r.payload| <= MAX_FRAME_SIZE
  {
    var body := at + KeySize(s[1]);
    if |s| < body then Rejected(ShortKey, [])
    else if length > MAX_FRAME_SIZE then Rejected(TooLarge, s[body..])
    else if |s| < body + length then Rejected(ShortPayload, [])
    else Frame(s[0] % 16, Masked(s[body..body + length], KeyAt(s, at)), s[body + length..])
  }

  // --- the reader accepts exactly the format ---

  lemma HeaderBits(w: Wire)
    requires WellFormed(w)
    ensures RsvBits(FirstByte(w)) == 0 && FirstByte(w) % 16 == w.opcode
    ensures SecondByte(w) >= 0x80 <==> w.mask.Some?
    ensures ExtensionSize(SecondByte(w)) == |ExtendedLength(w)|
    ensures w.form.Short? ==> SecondByte(w) % 128 == |w.payload|
  {
  }

  lemma SerializedFront(w: Wire, rest: seq<Byte>)
    ensures var s, x := Serialize(w) + rest, |ExtendedLength(w)|;
            && |s| >= 2 + x && s[0] == FirstByte(w) && s[1] == SecondByte(w)
            && s[2..2 + x] == ExtendedLength(w)
  {
    var h, e := [FirstByte(w), SecondByte(w)], ExtendedLength(w);
    var more := KeyBytes(w.mask) + Masked(w.payload, w.mask) + rest;
    Seams(h, e, more, []);
    assert Serialize(w) + rest == h + e + more + [];
  }

  lemma LengthIsAnnounced(w: Wire, rest: seq<Byte>)
    requires WellFormed(w)
    ensures var s := Serialize(w) + rest;
            && RsvBits(s[0]) == 0 && ExtensionSize(s[1]) == |ExtendedLength(w)|
            && |s| >= 2 + ExtensionSize(s[1]) && AnnouncedLength(s) == |w.payload|
  {
    HeaderBits(w);
    SerializedFront(w, rest);
    if w.form.Extended16? {
      BigEndianRoundTrip(|w.payload|, 2);
    } else if w.form.Extended64? {
      BigEndianRoundTrip(|w.payload|, 8);
    }
  }

  /** After the header and the extended length the reader knows the payload size. */
  lemma DecodeHeader(w: Wire, rest: seq<Byte>)
    requires WellFormed(w)
    ensures Decode(Serialize(w) + rest) ==
            DecodeBody(Serialize(w) + rest, 2 + |ExtendedLength(w)|, |w.payload|)
  {
    LengthIsAnnounced(w, rest);
  }

  /** The reader's last stage on a stream cut into its parts. */
  lemma DecodeBodyParts(front: seq<Byte>, mask: Option<Key>, payload: seq<Byte>, rest: seq<Byte>)
    requires |front| >= 2 && (front[1] >= 0x80 <==> mask.Some?)
    ensures DecodeBody(front + KeyBytes(mask) + Masked(payload, mask) + rest, |front|, |payload|) ==
            if |payload| > MAX_FRAME_SIZE then Rejected(TooLarge, Masked(payload, mask) + rest)
            else Frame(front[0] % 16, payload, rest)
  {
    Seams(front, KeyBytes(mask), Masked(payload, mask), rest);
    var s := front + KeyBytes(mask) + Masked(payload, mask) + rest;
    assert s[0] == front[0] && s[1] == front[1];
    assert KeyAt(s, |front|) == mask;
    MaskTwice(payload, mask);
  }

  /** Whatever follows it, a serialized frame of acceptable size is read back exactly. */
  lemma DecodeSerialized(w: Wire, rest: seq<Byte>)
    requires WellFormed(w)
    ensures |w.payload| <= MAX_FRAME_SIZE ==> Decode(Serialize(w) + rest) == Frame(w.opcode, w.payload, rest)
    ensures |w.payload| > MAX_FRAME_SIZE ==>
              Decode(Serialize(w) + rest) == Rejected(TooLarge, Masked(w.payload, w.mask) + rest)
  {
    DecodeHeader(w, rest);
    HeaderBits(w);
    DecodeBodyParts([FirstByte(w), SecondByte(w)] + ExtendedLength(w), w.mask, w.payload, rest);
  }

  /** The frame at the front of a stream the reader accepts, with its sender's choices. */
  function WireOf(s: seq<Byte>): Wire
    requires Decode(s).Frame?
  {
    var x := ExtensionSize(s[1]);
    Wire(s[0] >= 0x80, s[0] % 16,
         if x == 0 then Short else if x == 2 then Extended16 else Extended64,
         KeyAt(s, 2 + x), Decode(s).payload)
  }

  lemma FrameIsBody(s: seq<Byte>)
    requires Decode(s).Frame?
    ensures |s| >= 2 + ExtensionSize(s[1])
    ensures Decode(s) == DecodeBody(s, 2 + ExtensionSize(s[1]), AnnouncedLength(s))
  {
    hide DecodeBody, AnnouncedLength, FromBigEndian, Pow256;
  }

  lemma BodyOfFrame(s: seq<Byte>, at: nat, length: nat)
    requires 2 <= at <= |s| && DecodeBody(s, at, length).Frame?
    ensures var body, r := at + KeySize(s[1]), DecodeBody(s, at, length);
            && body + length <= |s|
            && r.payload == Masked(s[body..body + length], KeyAt(s, at))
            && r.rest == s[body + length..]
  {
    hide Masked, KeyAt;
  }

  lemma WireOfLength(s: seq<Byte>)
    requires Decode(s).Frame?
    ensures WellFormed(WireOf(s)) && |WireOf(s).payload| == AnnouncedLength(s)
    ensures ExtendedLength(WireOf(s)) == s[2..2 + ExtensionSize(s[1])]
  {
    var x := ExtensionSize(s[1]);
    assert |WireOf(s).payload| == AnnouncedLength(s);
    if x > 0 {
      FromBigEndianRoundTrip(s[2..2 + x]);
    }
  }

  lemma WireOfHeader(s: seq<Byte>)
    requires Decode(s).Frame?
    ensures WellFormed(WireOf(s)) && FirstByte(WireOf(s)) == s[0] && SecondByte(WireOf(s)) == s[1]
  {
    hide FromBigEndian, Masked, Pow256, BigEndian, KeyAt;
    WireOfLength(s);
  }

  lemma WireOfBody(s: seq<Byte>)
    requires Decode(s).Frame?
    ensures var w, x := WireOf(s), ExtensionSize(s[1]);
            var at := 2 + x + KeySize(s[1]);
            && at + |w.payload| <= |s|
            && KeyBytes(w.mask) == s[2 + x..at]
            && Masked(w.payload, w.mask) == s[at..at + |w.payload|]
            && Decode(s).rest == s[at + |w.payload|..]
  {
    hide Decode, DecodeBody, Masked, AnnouncedLength;
    FrameIsBody(s);
    var x := ExtensionSize(s[1]);
    var at, n := 2 + x + KeySize(s[1]), AnnouncedLength(s);
    BodyOfFrame(s, 2 + x, n);
    MaskTwice(s[at..at + n], KeyAt(s, 2 + x));
  }

  /** Nothing but a well-formed frame is ever accepted. */
  lemma DecodedIsSerialized(s: seq<Byte>)
    requires Decode(s).Frame?
    ensures WellFormed(WireOf(s))
    ensures Serialize(WireOf(s)) + Decode(s).rest == s
  {
    var w, x := WireOf(s), ExtensionSize(s[1]);
    var at := 2 + x + KeySize(s[1]);
    WireOfLength(s);
    WireOfHeader(s);
    WireOfBody(s);
    Pieces(s, 2 + x, at, at + |w.payload|);
  }

  /** A frame cut short is never taken for a frame. */
  lemma StrictPrefixRejected(w: Wire, k: nat)
    requires WellFormed(w) && k < |Serialize(w)|
    ensures Decode(Serialize(w)[..k]).Rejected?
  {
    var s := Serialize(w);
    var p := s[..k];
    if Decode(p).Frame? {
      var v, rest := WireOf(p), Decode(p).rest;
      DecodedIsSerialized(p);
      Rejoin(s, k, Serialize(v), rest);
      DecodeSerialized(v, rest + s[k..]);
      assert s + [] == s;
      DecodeSerialized(w, []);
      assert false;
    }
  }

  // --- streams of frames ---

  datatype Message = Message(opcode: Opcode, payload: seq<Byte>)

  /** The frames a reader takes off a stream before its first error. */
  function DecodeAll(s: seq<Byte>): seq<Message>
    decreases |s|
  {
    match Decode(s)
    case Frame(opcode, payload, rest) => [Message(opcode, payload)] + DecodeAll(rest)
    case Rejected(_, _) => []
  }

  predicate Readable(w: Wire) {
    WellFormed(w) && |w.payload| <= MAX_FRAME_SIZE
  }

  lemma SerializedReadsAs(w: Wire)
    requires Readable(w)
    ensures ReadsAs(DecodeAll, Serialize(w), ContentOf(w))
  {
    forall more
      ensures DecodeAll(Serialize(w) + more) == [ContentOf(w)] + DecodeAll(more)
    {
      DecodeSerialized(w, more);
    }
  }

  function ContentOf(w: Wire): Message {
    Message(w.opcode, w.payload)
  }

  /** Reading a stream of frames gives back their contents, in order, and then goes on after them. */
  lemma StreamRoundTrip(frames: seq<Wire>, tail: seq<Byte>)
    requires forall i :: 0 <= i < |frames| ==> Readable(frames[i])
    ensures DecodeAll(Flatten(Map(frames, Serialize)) + tail) == Map(frames, ContentOf) + DecodeAll(tail)
  {
    forall i | 0 <= i < |frames|
      ensures ReadsAs(DecodeAll, Map(frames, Serialize)[i], Map(frames, ContentOf)[i])
    {
      SerializedReadsAs(frames[i]);
    }
    ChunksReadBack(Map(frames, Serialize), Map(frames, ContentOf), DecodeAll, tail);
  }

  /** What the worker writes: one final, masked frame in the shortest length form. */
  function ClientFrame(opcode: Opcode, payload: seq<Byte>, key: Key): (w: Wire)
    ensures |payload| <= MAX_FRAME_SIZE ==> Readable(w)
  {
    Wire(true, opcode,
         if |payload| <= 125 then Short else if |payload| <= 65535 then Extended16 else Extended64,
         Some(key), payload)
  }

  /** How many bytes a length form takes besides the second one. */
  function LengthBytes(form: LengthForm): nat {
    match form
    case Short => 0
    case Extended16 => 2
    case Extended64 => 8
  }

  lemma FrontBytes(w: Wire)
    requires WellFormed(w)
    ensures (FirstByte(w) >= 0x80 <==> w.fin) && FirstByte(w) % 128 == w.opcode
    ensures (SecondByte(w) >= 0x80 <==> w.mask.Some?)
    ensures SecondByte(w) % 128 == if w.form.Short? then |w.payload| else if w.form.Extended16? then 126 else 127
    ensures |ExtendedLength(w)| == LengthBytes(w.form)
  {
  }

  lemma SerializedParts(w: Wire)
    ensures Serialize(w) ==
            [FirstByte(w), SecondByte(w)] + ExtendedLength(w) + KeyBytes(w.mask) + Masked(w.payload, w.mask)
  {
  }

  /** Where a frame's parts lie: FIN, mask bit, length, key and payload, byte by byte. */
  lemma WireLayout(w: Wire)
    requires WellFormed(w)
    ensures var s, x, n := Serialize(w), 2 + LengthBytes(w.form), |w.payload|;
            && |s| == x + (if w.mask.Some? then 4 else 0) + n
            && (s[0] >= 0x80 <==> w.fin) && s[0] % 128 == w.opcode
            && (s[1] >= 0x80 <==> w.mask.Some?)
            && s[1] % 128 == (if w.form.Short? then n else if w.form.Extended16? then 126 else 127)
            && (!w.form.Short? ==> FromBigEndian(s[2..x]) == n)
            && (w.mask.None? ==> s[x..] == w.payload)
            && (w.mask.Some? ==>
                  s[x..x + 4] == w.mask.value &&
                  forall i :: 0 <= i < n ==> s[x + 4 + i] == Xor(w.payload[i], w.mask.value[i % 4]))
  {
    hide FirstByte, SecondByte, Xor, Pow256, Serialize, BigEndian, FromBigEndian;
    FrontBytes(w);
    SerializedFront(w, []);
    var s, x := Serialize(w), 2 + LengthBytes(w.form);
    var front := [FirstByte(w), SecondByte(w)] + ExtendedLength(w);
    SerializedParts(w);
    assert s == Serialize(w) + [] == front + KeyBytes(w.mask) + Masked(w.payload, w.mask) + [];
    Seams(front, KeyBytes(w.mask), Masked(w.payload, w.mask), []);
    if w.form.Extended16? {
      BigEndianRoundTrip(|w.payload|, 2);
    } else if w.form.Extended64? {
      BigEndianRoundTrip(|w.payload|, 8);
    }
    if w.mask.Some? {
      forall i | 0 <= i < |w.payload|
        ensures s[x + 4 + i] == Xor(w.payload[i], w.mask.value[i % 4])
      {
        assert s[x + 4 + i] == Masked(w.payload, w.mask)[i];
      }
    }
  }

  /** The worker's frames are final and masked with the key they carry, in the shortest length form. */
  lemma ClientFrameOnTheWire(opcode: Opcode, payload: seq<Byte>, key: Key)
    requires |payload| < Pow256(8) / 2
    ensures var s, n := Serialize(ClientFrame(opcode, payload, key)), |payload|;
            var x := if n <= 125 then 2 else if n <= 65535 then 4 else 10;
            && |s| == x + 4 + n
            && s[0] == 0x80 + opcode
            && s[1] == 0x80 + (if n <= 125 then n else if n <= 65535 then 126 else 127)
            && (n > 125 ==> FromBigEndian(s[2..x]) == n)
            && s[x..x + 4] == key
            && forall i :: 0 <= i < n ==> s[x + 4 + i] == Xor(payload[i], key[i % 4])
  {
    hide Serialize, Xor;
    ShortestIsWellFormed(opcode, payload, key);
    WireLayout(ClientFrame(opcode, payload, key));
  }

  lemma ShortestIsWellFormed(opcode: Opcode, payload: seq<Byte>, key: Key)
    requires |payload| < Pow256(8) / 2
    ensures WellFormed(ClientFrame(opcode, payload, key))
  {
    assert Pow256(2) == 65536;
  }
}
