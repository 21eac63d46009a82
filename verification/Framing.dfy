/** The wire format: a 16-bit type and a 32-bit length, both big-endian, then the body.
    Bytes may arrive in pieces of any size. */
module Framing {
  import opened Wrappers

  type Byte = x: nat | x < 256
  type Bytes = seq<Byte>

  datatype Message = Message(kind: nat, body: Bytes)

  datatype ReadError = InvalidType(kind: nat) | TooLarge(size: nat)

  const MT_INVALID := 0
  const MT_INVALID_OUT_OF_RANGE := 13

  predicate ValidKind(kind: nat) { MT_INVALID < kind < MT_INVALID_OUT_OF_RANGE }

  // ---- Integers on the wire ----

  /** host_to_network_short and host_to_network_long, with the truncation of their argument. */
  function PutU16(n: nat): (b: Bytes)
    ensures |b| == 2
  {
    [(n / 256) % 256, n % 256]
  }

  function PutU32(n: nat): (b: Bytes)
    ensures |b| == 4
  {
    PutU16(n / 65536) + PutU16(n)
  }

  /** after_u16_read and after_u32_read. */
  function GetU16(b: Bytes): (n: nat)
    requires |b| == 2
    ensures n < 65536
  {
    var h: nat, l: nat := b[0], b[1];
    h * 256 + l
  }

  function GetU32(b: Bytes): (n: nat)
    requires |b| == 4
    ensures n < 0x1_0000_0000
  {
    GetU16(b[..2]) * 65536 + GetU16(b[2..])
  }

  lemma U16RoundTrip(n: nat, b: Bytes)
    ensures n < 65536 ==> GetU16(PutU16(n)) == n
    ensures |b| == 2 ==> PutU16(GetU16(b)) == b
  {
    if |b| == 2 {
      assert GetU16(b) / 256 == b[0] && GetU16(b) % 256 == b[1];
    }
  }

  lemma U32Parts(n: nat)
    requires n < 0x1_0000_0000
    ensures PutU16(n) == PutU16(n % 65536) && n / 65536 < 65536
  {
    var h, l := n / 65536, n % 65536;
    var a, b := l / 256, l % 256;
    assert n == (h * 256 + a) * 256 + b && 0 <= a < 256;
    assert n / 256 == h * 256 + a && n % 256 == b;
    assert (h * 256 + a) % 256 == a;
  }

  /** Both integers go out with their most significant byte first. */
  lemma PutByNumbers(n: nat, m: nat)
    ensures PutU16(n)[0] as int * 256 + PutU16(n)[1] == n % 65536
    ensures var b := PutU32(m);
            ((b[0] as int * 256 + b[1]) * 256 + b[2]) * 256 + b[3] == m % 0x1_0000_0000
  {
    HighLow(n);
    HighLow(m);
    HighLow(m / 65536);
    Halves(m);
  }

  lemma HighLow(n: nat)
    ensures (n / 256) % 256 * 256 + n % 256 == n % 65536
  {
    var h := n / 256;
    LowPart(n, h / 256, h % 256, n % 256);
  }

  lemma LowPart(n: nat, high: nat, middle: nat, low: nat)
    requires n == (high * 256 + middle) * 256 + low && middle < 256 && low < 256
    ensures n % 65536 == middle * 256 + low
  {
    assert n == high * 65536 + (middle * 256 + low);
  }

  lemma Halves(m: nat)
    ensures (m / 65536) % 65536 * 65536 + m % 65536 == m % 0x1_0000_0000
  {
    var q, r := m / 0x1_0000_0000, m % 0x1_0000_0000;
    assert m / 65536 == q * 65536 + r / 65536 && m % 65536 == r % 65536;
  }

  lemma U32RoundTrip(n: nat)
    requires n < 0x1_0000_0000
    ensures GetU32(PutU32(n)) == n
  {
    hide PutU16, GetU16;
    U32Parts(n);
    U16RoundTrip(n / 65536, []);
    U16RoundTrip(n % 65536, []);
    assert PutU32(n)[..2] == PutU16(n / 65536) && PutU32(n)[2..] == PutU16(n % 65536);
  }

  lemma U32BytesRoundTrip(b: Bytes)
    requires |b| == 4
    ensures PutU32(GetU32(b)) == b
  {
    hide PutU16, GetU16;
    var v := GetU32(b);
    assert v / 65536 == GetU16(b[..2]) && v % 65536 == GetU16(b[2..]);
    U32Parts(v);
    U16RoundTrip(0, b[..2]);
    U16RoundTrip(0, b[2..]);
    assert b == b[..2] + b[2..];
  }

  // ---- The format ----

  function Encode(m: Message): Bytes { PutU16(m.kind) + PutU32(|m.body|) + m.body }

  function EncodeAll(ms: seq<Message>): Bytes {
    if ms == [] then [] else Encode(ms[0]) + EncodeAll(ms[1..])
  }

  /** write_message: the header is laid out in its buffer, the body follows. */
  method WriteMessage(kind: nat, body: Bytes) returns (wire: Bytes)
    ensures wire == Encode(Message(kind, body))
    ensures |wire| == 6 + |body| && wire[6..] == body
    ensures wire[0] as int * 256 + wire[1] == kind % 65536
    ensures ((wire[2] as int * 256 + wire[3]) * 256 + wire[4]) * 256 + wire[5] == |body| % 0x1_0000_0000
  {
    PutByNumbers(kind, |body|);
    hide PutU16, PutU32;
    var header := new Byte[6](_ => 0);
    var netId, netSize := PutU16(kind), PutU32(|body|);
    for i := 0 to 2
      invariant forall j :: 0 <= j < i ==> header[j] == netId[j]
    {
      header[i] := netId[i];
    }
    for i := 0 to 4
      invariant forall j :: 0 <= j < 2 ==> header[j] == netId[j]
      invariant forall j :: 0 <= j < i ==> header[2+j] == netSize[j]
    {
      header[2+i] := netSize[i];
    }
    assert header[..] == netId + netSize;
    wire := header[..] + body;
  }

  /** What a whole byte string holds: the messages up to its end or to the first error. */
  function Decode(b: Bytes, maxSize: nat): (seq<Message>, Option<ReadError>)
    decreases |b|
  {
    if |b| < 2 then ([], None)
    else
      var kind := GetU16(b[..2]);
      if !ValidKind(kind) then ([], Some(InvalidType(kind)))
      else if |b| < 6 then ([], None)
      else
        var size := GetU32(b[2..6]);
        if size > maxSize then ([], Some(TooLarge(size)))
        else if |b| < 6 + size then ([], None)
        else
          var (ms, e) := Decode(b[6+size..], maxSize);
          ([Message(kind, b[6..6+size])] + ms, e)
  }

  /** Reading, in numbers: two bytes of type, of which 1 to 12 are valid, four bytes of length, at
      most the limit, most significant byte first, and then the body. */
  lemma DecodeByNumbers(b: Bytes, maxSize: nat)
    ensures |b| < 2 ==> Decode(b, maxSize) == ([], None)
    ensures |b| >= 2 ==>
              var kind := b[0] as int * 256 + b[1];
              && (!(1 <= kind <= 12) ==> Decode(b, maxSize) == ([], Some(InvalidType(kind))))
              && (1 <= kind <= 12 && |b| < 6 ==> Decode(b, maxSize) == ([], None))
    ensures |b| >= 6 && 1 <= b[0] as int * 256 + b[1] <= 12 ==>
              var size := ((b[2] as int * 256 + b[3]) * 256 + b[4]) * 256 + b[5];
              && (size > maxSize ==> Decode(b, maxSize) == ([], Some(TooLarge(size))))
              && (size <= maxSize && |b| < 6 + size ==> Decode(b, maxSize) == ([], None))
              && (size <= maxSize && |b| >= 6 + size ==>
                    var rest := Decode(b[6+size..], maxSize);
                    Decode(b, maxSize) == ([Message(b[0] as int * 256 + b[1], b[6..6+size])] + rest.0, rest.1))
  {
    hide *;
    DecodeIs(b, maxSize);
    if |b| >= 2 {
      GetByNumbers(b[..2], []);
      ValidByNumbers(GetU16(b[..2]));
    }
    if |b| >= 6 {
      GetByNumbers([], b[2..6]);
    }
  }

  lemma ValidByNumbers(kind: nat)
    ensures ValidKind(kind) <==> 1 <= kind <= 12
  {
  }

  lemma DecodeIs(b: Bytes, maxSize: nat)
    ensures |b| < 2 ==> Decode(b, maxSize) == ([], None)
    ensures |b| >= 2 && !ValidKind(GetU16(b[..2])) ==>
              Decode(b, maxSize) == ([], Some(InvalidType(GetU16(b[..2]))))
    ensures 2 <= |b| < 6 && ValidKind(GetU16(b[..2])) ==> Decode(b, maxSize) == ([], None)
    ensures |b| >= 6 && ValidKind(GetU16(b[..2])) ==>
              var size := GetU32(b[2..6]);
              && (size > maxSize ==> Decode(b, maxSize) == ([], Some(TooLarge(size))))
              && (size <= maxSize && |b| < 6 + size ==> Decode(b, maxSize) == ([], None))
              && (size <= maxSize && |b| >= 6 + size ==>
                    var rest := Decode(b[6+size..], maxSize);
                    Decode(b, maxSize) == ([Message(GetU16(b[..2]), b[6..6+size])] + rest.0, rest.1))
  {
    hide GetU16, GetU32, ValidKind;
  }

  lemma GetByNumbers(b: Bytes, c: Bytes)
    ensures |b| == 2 ==> GetU16(b) == b[0] as int * 256 + b[1]
    ensures |c| == 4 ==> GetU32(c) == ((c[0] as int * 256 + c[1]) * 256 + c[2]) * 256 + c[3]
  {
    if |c| == 4 {
      assert c[..2] == [c[0], c[1]] && c[2..] == [c[2], c[3]];
    }
  }

  predicate Sendable(m: Message, maxSize: nat) {
    ValidKind(m.kind) && |m.body| <= maxSize && |m.body| < 0x1_0000_0000
  }

  lemma DecodeFirst(m: Message, rest: Bytes, maxSize: nat)
    requires Sendable(m, maxSize)
    ensures Decode(Encode(m) + rest, maxSize) ==
            ([m] + Decode(rest, maxSize).0, Decode(rest, maxSize).1)
  {
    hide PutU16, PutU32, GetU16, GetU32;
    var b := Encode(m) + rest;
    U16RoundTrip(m.kind, []);
    U32RoundTrip(|m.body|);
    assert b[..2] == PutU16(m.kind) && b[2..6] == PutU32(|m.body|);
    assert b[6..6+|m.body|] == m.body && b[6+|m.body|..] == rest;
  }

  lemma {:induction false} DecodeAfter(ms: seq<Message>, rest: Bytes, maxSize: nat)
    requires forall i :: 0 <= i < |ms| ==> Sendable(ms[i], maxSize)
    ensures Decode(EncodeAll(ms) + rest, maxSize) == (ms + Decode(rest, maxSize).0, Decode(rest, maxSize).1)
  {
    hide Decode, Encode;
    if ms == [] {
      assert EncodeAll(ms) + rest == rest;
      assert ms + Decode(rest, maxSize).0 == Decode(rest, maxSize).0;
    } else {
      DecodeAfter(ms[1..], rest, maxSize);
      assert EncodeAll(ms) + rest == Encode(ms[0]) + (EncodeAll(ms[1..]) + rest);
      DecodeFirst(ms[0], EncodeAll(ms[1..]) + rest, maxSize);
      assert [ms[0]] + (ms[1..] + Decode(rest, maxSize).0) == ms + Decode(rest, maxSize).0;
    }
  }

  lemma {:induction false} EncodeAllLast(ms: seq<Message>, m: Message)
    ensures EncodeAll(ms + [m]) == EncodeAll(ms) + Encode(m)
  {
    if ms == [] {
      assert ms + [m] == [m] && [m][1..] == [];
    } else {
      assert (ms + [m])[0] == ms[0] && (ms + [m])[1..] == ms[1..] + [m];
      EncodeAllLast(ms[1..], m);
    }
  }

  /** Reading what was written gives exactly the messages written. */
  lemma DecodeOfEncode(ms: seq<Message>, maxSize: nat)
    requires forall i :: 0 <= i < |ms| ==> Sendable(ms[i], maxSize)
    ensures Decode(EncodeAll(ms), maxSize) == (ms, None)
  {
    DecodeAfter(ms, [], maxSize);
    assert EncodeAll(ms) + [] == EncodeAll(ms);
    assert ms + [] == ms;
  }

  /** Reading a prefix of any bytes gives a prefix of their messages. */
  lemma {:induction false} DecodeOfPrefix(b: Bytes, k: nat, maxSize: nat)
    requires k <= |b|
    ensures Decode(b[..k], maxSize).0 <= Decode(b, maxSize).0
    ensures Decode(b[..k], maxSize).1.Some? ==> Decode(b[..k], maxSize) == Decode(b, maxSize)
    decreases |b|
  {
    var p := b[..k];
    if k < 2 {
    } else {
      assert p[..2] == b[..2];
      if ValidKind(GetU16(b[..2])) && k >= 6 {
        assert p[2..6] == b[2..6];
        var size := GetU32(b[2..6]);
        if size <= maxSize && k >= 6 + size {
          assert p[6..6+size] == b[6..6+size];
          assert p[6+size..] == b[6+size..][..k-6-size];
          DecodeOfPrefix(b[6+size..], k - 6 - size, maxSize);
        }
      }
    }
  }

  /** Whatever is read stands in the bytes, message after message, in its one encoding. */
  lemma {:induction false} EncodeOfDecode(b: Bytes, maxSize: nat)
    ensures EncodeAll(Decode(b, maxSize).0) <= b
    ensures forall i :: 0 <= i < |Decode(b, maxSize).0| ==> Sendable(Decode(b, maxSize).0[i], maxSize)
    decreases |b|
  {
    hide Encode, GetU16, GetU32;
    if |b| < 6 || !ValidKind(GetU16(b[..2])) {
    } else {
      var size := GetU32(b[2..6]);
      if size <= maxSize && |b| >= 6 + size {
        var m := Message(GetU16(b[..2]), b[6..6+size]);
        var rest := b[6+size..];
        EncodeOfDecode(rest, maxSize);
        EncodedAtFront(b, size);
        assert b == b[..6+size] + rest;
        var ms := Decode(b, maxSize).0;
        assert ms[0] == m && ms[1..] == Decode(rest, maxSize).0;
      }
    }
  }

  lemma EncodedAtFront(b: Bytes, size: nat)
    requires |b| >= 6 + size && size == GetU32(b[2..6])
    ensures Encode(Message(GetU16(b[..2]), b[6..6+size])) == b[..6+size]
  {
    hide PutU16, PutU32, GetU16, GetU32;
    U16RoundTrip(0, b[..2]);
    U32BytesRoundTrip(b[2..6]);
    assert b[..6+size] == b[..2] + b[2..6] + b[6..6+size];
  }

  // ---- The read path ----

  /** Which part of a message is awaited, with what its header has said so far. */
  datatype Stage = AwaitType | AwaitSize(kind: nat) | AwaitBody(kind: nat, size: nat)

  function Needed(s: Stage): nat {
    match s case AwaitType => 2 case AwaitSize(_) => 4 case AwaitBody(_, size) => size
  }

  /** The header bytes that led to the stage. */
  function HeaderOf(s: Stage): Bytes {
    match s
    case AwaitType => []
    case AwaitSize(kind) => PutU16(kind)
    case AwaitBody(kind, size) => PutU16(kind) + PutU32(size)
  }

  predicate StageOk(s: Stage, maxSize: nat) {
    match s
    case AwaitType => true
    case AwaitSize(kind) => ValidKind(kind)
    case AwaitBody(kind, size) => ValidKind(kind) && size <= maxSize && size < 0x1_0000_0000
  }

  /** Too few bytes for the stage: nothing to read yet. */
  lemma DecodeWaits(s: Stage, pending: Bytes, maxSize: nat)
    requires StageOk(s, maxSize) && |pending| < Needed(s)
    ensures Decode(HeaderOf(s) + pending, maxSize) == ([], None)
  {
    HeaderRead(s, pending);
  }

  lemma HeaderRead(s: Stage, pending: Bytes)
    ensures var b := HeaderOf(s) + pending;
            && (!s.AwaitType? && s.kind < 65536 ==> |b| >= 2 && GetU16(b[..2]) == s.kind)
            && (s.AwaitBody? && s.size < 0x1_0000_0000 ==> |b| >= 6 && GetU32(b[2..6]) == s.size && b[6..] == pending)
  {
    var b := HeaderOf(s) + pending;
    if !s.AwaitType? {
      assert b[..2] == PutU16(s.kind);
      U16RoundTrip(s.kind, []);
    }
    if s.AwaitBody? {
      assert b[2..6] == PutU32(s.size);
      if s.size < 0x1_0000_0000 { U32RoundTrip(s.size); }
    }
  }

  /** The size is read from its four bytes: an error above the limit, part of the header below. */
  lemma SizeRead(kind: nat, pending: Bytes, maxSize: nat)
    requires ValidKind(kind) && |pending| >= 4
    ensures var size := GetU32(pending[..4]);
            var rest := HeaderOf(AwaitSize(kind)) + pending;
            && HeaderOf(AwaitBody(kind, size)) + pending[4..] == rest
            && (size > maxSize ==> Decode(rest, maxSize) == ([], Some(TooLarge(size))))
  {
    hide PutU16, PutU32, GetU16, GetU32;
    var got := pending[..4];
    U32BytesRoundTrip(got);
    assert pending == got + pending[4..];
    HeaderRead(AwaitSize(kind), pending);
    assert (HeaderOf(AwaitSize(kind)) + pending)[2..6] == got;
  }

  /** Behind messages that were read comes what is read of the rest. */
  lemma ErrorAfter(ms: seq<Message>, rest: Bytes, maxSize: nat, e: Option<ReadError>)
    requires forall i :: 0 <= i < |ms| ==> Sendable(ms[i], maxSize)
    requires Decode(rest, maxSize) == ([], e)
    ensures Decode(EncodeAll(ms) + rest, maxSize) == (ms, e)
  {
    hide Decode, EncodeAll, Sendable;
    DecodeAfter(ms, rest, maxSize);
    assert ms + [] == ms;
  }

  class MessageReader {
    const maxSize: nat
    var stage: Stage
    var pending: Bytes
    var delivered: seq<Message>
    var error: Option<ReadError>
    ghost var received: Bytes

    /** The bytes received are those of the messages delivered, of the header so far and the
        bytes not consumed; after an error they are what they are. */
    ghost predicate Consistent()
      reads this
    {
      && StageOk(stage, maxSize)
      && (forall i :: 0 <= i < |delivered| ==> Sendable(delivered[i], maxSize))
      && (error.None? ==> received == EncodeAll(delivered) + HeaderOf(stage) + pending)
      && (error.Some? ==> Decode(received, maxSize) == (delivered, error))
    }

    /** At rest everything that can be read has been. */
    ghost predicate Valid()
      reads this
    {
      Consistent() && (error.Some? || |pending| < Needed(stage))
    }

    constructor (maxSize: nat)
      ensures Valid() && received == [] && delivered == [] && this.maxSize == maxSize
    {
      this.maxSize := maxSize;
      stage, pending, delivered, error, received := AwaitType, [], [], None, [];
    }

    /** after_read_message_type. */
    method AfterReadMessageType(kind: nat)
      modifies this`stage, this`error
      ensures ValidKind(kind) ==> stage == AwaitSize(kind) && error == old(error)
      ensures !ValidKind(kind) ==> stage == old(stage) && error == Some(InvalidType(kind))
    {
      if kind <= MT_INVALID || kind >= MT_INVALID_OUT_OF_RANGE {
        error := Some(InvalidType(kind));
        return;
      }
      stage := AwaitSize(kind);
    }

    /** after_read_message_size. */
    method AfterReadMessageSize(kind: nat, size: nat)
      modifies this`stage, this`error
      ensures size <= maxSize ==> stage == AwaitBody(kind, size) && error == old(error)
      ensures size > maxSize ==> stage == old(stage) && error == Some(TooLarge(size))
    {
      if size > maxSize {
        error := Some(TooLarge(size));
        return;
      }
      stage := AwaitBody(kind, size);
    }

    /** after_read_message_content: hand the message on and wait for the next. */
    method AfterReadMessageContent(kind: nat, body: Bytes)
      modifies this`stage, this`delivered
      ensures stage == AwaitType && delivered == old(delivered) + [Message(kind, body)]
    {
      delivered := delivered + [Message(kind, body)];
      stage := AwaitType;
    }

    /** One asynchronous read of the type has its two bytes. */
    method CompleteType()
      requires Consistent() && error.None? && stage.AwaitType? && |pending| >= 2
      modifies this`stage, this`pending, this`error
      ensures Consistent() && (error.None? ==> stage.AwaitSize? && |pending| == |old(pending)| - 2)
    {
      hide PutU16, PutU32, GetU16, GetU32, EncodeAll;
      var got := pending[..2];
      U16RoundTrip(0, got);
      assert pending == got + pending[2..];
      DecodeAfter(delivered, pending, maxSize);
      assert received == EncodeAll(delivered) + pending;
      pending := pending[2..];
      AfterReadMessageType(GetU16(got));
      assert error.None? ==> received == EncodeAll(delivered) + HeaderOf(stage) + pending;
      assert delivered + [] == delivered;
    }

    /** One asynchronous read of the size has its four bytes. */
    method CompleteSize(kind: nat)
      requires Consistent() && error.None? && stage == AwaitSize(kind) && |pending| >= 4
      modifies this`stage, this`pending, this`error
      ensures Consistent() && (error.None? ==> stage.AwaitBody? && |pending| == |old(pending)| - 4)
    {
      hide Decode, EncodeAll, GetU32, HeaderOf, Sendable;
      var got := pending[..4];
      ghost var rest := HeaderOf(stage) + pending;
      SizeRead(kind, pending, maxSize);
      assert received == EncodeAll(delivered) + rest;
      if GetU32(got) > maxSize {
        ErrorAfter(delivered, rest, maxSize, Some(TooLarge(GetU32(got))));
      }
      pending := pending[4..];
      AfterReadMessageSize(kind, GetU32(got));
      assert error.None? ==> HeaderOf(stage) + pending == rest;
      assert error.None? ==> EncodeAll(delivered) + HeaderOf(stage) + pending == EncodeAll(delivered) + rest;
    }

    /** One asynchronous read of the body has all of it. */
    method CompleteBody(kind: nat, size: nat)
      requires Consistent() && error.None? && stage == AwaitBody(kind, size) && |pending| >= size
      modifies this`stage, this`pending, this`delivered
      ensures Consistent() && error.None? && stage.AwaitType? && |pending| == |old(pending)| - size
    {
      hide PutU16, PutU32, EncodeAll, Decode;
      var got := pending[..size];
      assert pending == got + pending[size..];
      ghost var m := Message(kind, got);
      EncodeAllLast(delivered, m);
      assert Encode(m) == HeaderOf(stage) + got;
      pending := pending[size..];
      AfterReadMessageContent(kind, got);
      assert received == EncodeAll(delivered) + HeaderOf(stage) + pending;
    }

    /** Bytes arrive.  Afterwards exactly the messages of all bytes so far have been handed on:
        how the bytes were cut into pieces does not matter. */
    method Arrive(chunk: Bytes)
      requires Valid()
      modifies this
      ensures Valid() && received == old(received) + chunk
      ensures Decode(received, maxSize) == (delivered, error)
    {
      hide Decode, EncodeAll, HeaderOf, StageOk;
      assert (received + chunk)[..|received|] == received;
      DecodeOfPrefix(received + chunk, |received|, maxSize);
      received := received + chunk;
      if error.Some? {
        return;
      }
      assert received == EncodeAll(delivered) + HeaderOf(stage) + (pending + chunk);
      pending := pending + chunk;
      while error.None? && |pending| >= Needed(stage)
        invariant Consistent() && received == old(received) + chunk
        decreases error.None?, |pending|, stage.AwaitBody?
      {
        match stage
        case AwaitType => CompleteType();
        case AwaitSize(kind) => CompleteSize(kind);
        case AwaitBody(kind, size) => CompleteBody(kind, size);
      }
      if error.None? {
        DecodeWaits(stage, pending, maxSize);
        DecodeAfter(delivered, HeaderOf(stage) + pending, maxSize);
        assert received == EncodeAll(delivered) + (HeaderOf(stage) + pending);
        assert delivered + [] == delivered;
      }
    }
  }
}
