/** `PacketWriter`: the growable byte buffer the PostgreSQL client encodes
    frontend messages into. A message is a type byte followed by an Int32
    length that counts itself and the payload but not the type byte
    (section 55.7 "Message Formats" of the PostgreSQL 15 manual). The first
    5 bytes of the buffer are reserved for the first message's header.

    Strings reach the writer already UTF-8 encoded (the `TextEncoder` is a
    foreign call); `copy` truncates to the room left in the destination. */
module PacketWriter {
  import opened Results

  const Two32: int := 0x1_0000_0000

  /** The writer's state. `size` is the requested initial capacity; the
      buffer holds `size + 5` bytes until it grows. */
  datatype Writer = Writer(size: nat, buffer: seq<bv8>, offset: nat, headerPosition: nat)

  /** What every reachable writer satisfies: the 5 reserved header bytes lie
      before `offset`, `offset` stays inside the buffer, and the pending
      header never lies after `offset`. */
  predicate Valid(w: Writer) {
    5 <= w.offset <= |w.buffer| && w.headerPosition <= w.offset
  }

  function Zeros(n: nat): (r: seq<bv8>)
    ensures |r| == n && forall i :: 0 <= i < n ==> r[i] == 0
  {
    seq(n, _ => 0)
  }

  /** The payload written so far when no header is requested: what `join`
      without a code returns. */
  function Content(w: Writer): seq<bv8>
    requires Valid(w)
  {
    w.buffer[5..w.offset]
  }

  // ---------------------------------------------------------------------
  // Integers

  /** `(num >>> 24) & 0xff`, ... : the four big-endian bytes of `num`
      reduced modulo 2^32 (JavaScript's `>>>` converts to an unsigned
      32-bit integer first). */
  function Int32Bytes(num: int): (r: seq<bv8>)
    ensures |r| == 4
  {
    var x := (num % Two32) as bv32;
    [((x >> 24) & 0xFF) as bv8, ((x >> 16) & 0xFF) as bv8, ((x >> 8) & 0xFF) as bv8, (x & 0xFF) as bv8]
  }

  /** The two low-order big-endian bytes of `num` reduced modulo 2^32. */
  function Int16Bytes(num: int): (r: seq<bv8>)
    ensures |r| == 2
  {
    var x := (num % Two32) as bv32;
    [((x >> 8) & 0xFF) as bv8, (x & 0xFF) as bv8]
  }

  /** Reads four bytes back as a big-endian unsigned 32-bit integer. */
  function DecodeInt32(b: seq<bv8>): bv32
    requires |b| == 4
  {
    (b[0] as bv32 << 24) | (b[1] as bv32 << 16) | (b[2] as bv32 << 8) | b[3] as bv32
  }

  /** Reads two bytes back as a big-endian unsigned 16-bit integer. */
  function DecodeInt16(b: seq<bv8>): bv16
    requires |b| == 2
  {
    (b[0] as bv16 << 8) | b[1] as bv16
  }

  lemma ByteSplit32(x: bv32)
    ensures ((((x >> 24) & 0xFF) as bv8) as bv32 << 24) | ((((x >> 16) & 0xFF) as bv8) as bv32 << 16)
          | ((((x >> 8) & 0xFF) as bv8) as bv32 << 8) | ((x & 0xFF) as bv8) as bv32 == x
  {
  }

  lemma ByteSplit16(x: bv32)
    ensures ((((x >> 8) & 0xFF) as bv8) as bv16 << 8) | ((x & 0xFF) as bv8) as bv16 == (x & 0xFFFF) as bv16
  {
  }

  /** The Int32 encoding is the big-endian form of `num` modulo 2^32. */
  lemma Int32RoundTrip(num: int)
    ensures DecodeInt32(Int32Bytes(num)) == (num % Two32) as bv32
  {
    ByteSplit32((num % Two32) as bv32);
  }

  /** The Int16 encoding keeps exactly the low 16 bits of `num`. */
  lemma Int16RoundTrip(num: int)
    ensures DecodeInt16(Int16Bytes(num)) == ((num % Two32) as bv32 & 0xFFFF) as bv16
  {
    ByteSplit16((num % Two32) as bv32);
  }

  // ---------------------------------------------------------------------
  // Buffer primitives

  /** Overwrites `buf[off .. off + |bytes|]` with `bytes`. */
  function Write(buf: seq<bv8>, off: nat, bytes: seq<bv8>): (r: seq<bv8>)
    requires off + |bytes| <= |buf|
    ensures |r| == |buf|
    ensures r[..off] == buf[..off]
    ensures r[off..off + |bytes|] == bytes
    ensures r[off + |bytes|..] == buf[off + |bytes|..]
  {
    buf[..off] + bytes + buf[off + |bytes|..]
  }

  /** An element store into a `Uint8Array`: out-of-range stores are
      silently dropped. */
  function Store(buf: seq<bv8>, i: nat, b: bv8): (r: seq<bv8>)
    ensures |r| == |buf|
    ensures i < |buf| ==> r == buf[i := b]
    ensures i >= |buf| ==> r == buf
  {
    if i < |buf| then buf[i := b] else buf
  }

  /** `copy(src, dst, off)`: copies as much of `src` as fits after `off`. */
  function Copy(src: seq<bv8>, dst: seq<bv8>, off: nat): (r: seq<bv8>)
    requires off <= |dst|
    ensures |r| == |dst| && r[..off] == dst[..off]
    ensures off + |src| <= |dst| ==> r[off..off + |src|] == src
  {
    var n := if |src| <= |dst| - off then |src| else |dst| - off;
    Write(dst, off, src[..n])
  }

  /** The growth step of `_ensure`: when fewer than `n` bytes remain after
      `off`, a buffer of `old + old/2 + n` bytes replaces it, starting with
      the old contents and zero-filled after them. */
  function Grow(buf: seq<bv8>, off: nat, n: nat): (r: seq<bv8>)
    ensures |r| >= |buf| && r[..|buf|] == buf
    ensures off <= |buf| + |buf| / 2 ==> |r| >= off + n
    ensures |buf| - off >= n ==> r == buf
    ensures |buf| - off < n ==> |r| == |buf| + |buf| / 2 + n
    ensures forall i :: |buf| <= i < |r| ==> r[i] == 0
  {
    if |buf| - off < n then buf + Zeros(|buf| / 2 + n) else buf
  }

  /** `b` extends `a`: taking a shorter prefix of both agrees too. */
  lemma PrefixOfPrefix<T>(a: seq<T>, b: seq<T>, n: nat)
    requires |a| <= |b| && b[..|a|] == a && n <= |a|
    ensures b[..n] == a[..n]
  {
    assert b[..|a|][..n] == b[..n];
  }

  /** `addInt32` on a raw buffer and offset; `addHeader` uses it with the
      offset just past the header's type byte, which can lie one byte past
      the end of the buffer. */
  function PutInt32(buf: seq<bv8>, off: nat, num: int): (r: (seq<bv8>, nat))
    requires off <= |buf| + |buf| / 2
    ensures r.1 == off + 4 && r.1 <= |r.0|
    ensures |r.0| >= |buf|
    ensures off <= |buf| ==> r.0[..off] == buf[..off]
    ensures r.0[off..off + 4] == Int32Bytes(num)
    ensures off + 4 <= |buf| ==> r.0 == Write(buf, off, Int32Bytes(num))
  {
    var grown := Grow(buf, off, 4);
    assert off <= |buf| ==> grown[..off] == buf[..off] by {
      if off <= |buf| { PrefixOfPrefix(buf, grown, off); }
    }
    (Write(grown, off, Int32Bytes(num)), off + 4)
  }

  // ---------------------------------------------------------------------
  // The writer's operations

  /** The constructor: a falsy size (absent or 0) means 1024. */
  function NewWriter(size: nat): (w: Writer)
    ensures Valid(w)
    ensures w.size == (if size == 0 then 1024 else size)
    ensures |w.buffer| == w.size + 5
    ensures w.offset == 5 && w.headerPosition == 0
    ensures Content(w) == []
  {
    var s := if size == 0 then 1024 else size;
    Writer(s, Zeros(s + 5), 5, 0)
  }

  /** `w'` is `w` with `bytes` appended at the offset: bytes before the old
      offset, the header position and the size are unchanged. */
  ghost predicate Appended(w: Writer, w': Writer, bytes: seq<bv8>)
    requires Valid(w)
  {
    && Valid(w')
    && w'.size == w.size
    && w'.headerPosition == w.headerPosition
    && w'.offset == w.offset + |bytes|
    && w'.buffer[..w.offset] == w.buffer[..w.offset]
    && w'.buffer[w.offset..w'.offset] == bytes
  }

  /** `_ensure(n)`: at least `n` bytes of room after the offset, every byte
      kept; the buffer grows only when short, to `old + old/2 + n`. */
  function Ensure(w: Writer, n: nat): (w': Writer)
    requires Valid(w)
    ensures Valid(w') && w'.offset == w.offset && w'.headerPosition == w.headerPosition && w'.size == w.size
    ensures |w'.buffer| - w'.offset >= n
    ensures |w'.buffer| >= |w.buffer| && w'.buffer[..|w.buffer|] == w.buffer
    ensures |w.buffer| - w.offset >= n ==> w' == w
    ensures |w.buffer| - w.offset < n ==> |w'.buffer| == |w.buffer| + |w.buffer| / 2 + n
  {
    w.(buffer := Grow(w.buffer, w.offset, n))
  }

  /** `add` and `addString` (after encoding): append raw bytes. */
  function AddBytes(w: Writer, bytes: seq<bv8>): (w': Writer)
    requires Valid(w)
    ensures Appended(w, w', bytes)
  {
    var e := Ensure(w, |bytes|);
    PrefixOfPrefix(w.buffer, e.buffer, w.offset);
    var buf := Copy(bytes, e.buffer, e.offset);
    e.(buffer := buf, offset := e.offset + |bytes|)
  }

  /** `add(otherBuffer)`. */
  function Add(w: Writer, other: seq<bv8>): (w': Writer)
    requires Valid(w)
    ensures Appended(w, w', other)
  {
    AddBytes(w, other)
  }

  /** `addString(string)`: `encoded` is the UTF-8 encoding of the string,
      `None` when the string is falsy (absent or empty), which `string || ""`
      turns into the empty string. Nothing to write leaves the writer as it
      was. */
  function AddString(w: Writer, encoded: Option<seq<bv8>>): (w': Writer)
    requires Valid(w)
    ensures encoded.Some? ==> Appended(w, w', encoded.value)
    ensures encoded.None? || encoded.value == [] ==> w' == w
  {
    var bytes := if encoded.Some? then encoded.value else [];
    var w' := AddBytes(w, bytes);
    assert |bytes| == 0 ==> w'.buffer == w.buffer by {
      if |bytes| == 0 {
        assert w'.buffer == w'.buffer[..w.offset] + w'.buffer[w.offset..];
        assert w.buffer == w.buffer[..w.offset] + w.buffer[w.offset..];
      }
    }
    w'
  }

  /** `addInt32(num)`. */
  function AddInt32(w: Writer, num: int): (w': Writer)
    requires Valid(w)
    ensures Appended(w, w', Int32Bytes(num))
  {
    var (buf, off) := PutInt32(w.buffer, w.offset, num);
    w.(buffer := buf, offset := off)
  }

  /** `addInt16(num)`. */
  function AddInt16(w: Writer, num: int): (w': Writer)
    requires Valid(w)
    ensures Appended(w, w', Int16Bytes(num))
  {
    var e := Ensure(w, 2);
    PrefixOfPrefix(w.buffer, e.buffer, w.offset);
    e.(buffer := Write(e.buffer, e.offset, Int16Bytes(num)), offset := e.offset + 2)
  }

  /** `addCString(string)`: the encoded bytes, then a terminating 0. An
      empty or absent string writes only the 0. */
  function AddCString(w: Writer, encoded: seq<bv8>): (w': Writer)
    requires Valid(w)
    ensures Appended(w, w', encoded + [0])
  {
    if |encoded| == 0 then
      var e := Ensure(w, 1);
      PrefixOfPrefix(w.buffer, e.buffer, w.offset);
      var w' := e.(buffer := Write(e.buffer, e.offset, [0]), offset := e.offset + 1);
      assert encoded + [0] == [0];
      w'
    else
      var e := Ensure(w, |encoded| + 1);
      PrefixOfPrefix(w.buffer, e.buffer, w.offset);
      var copied := Copy(encoded, e.buffer, e.offset);
      var w' := e.(buffer := Write(copied, e.offset + |encoded|, [0]), offset := e.offset + |encoded| + 1);
      assert w'.buffer[w.offset..w'.offset] == encoded + [0] by {
        assert w'.buffer[w.offset..w.offset + |encoded|] == copied[w.offset..w.offset + |encoded|];
      }
      w'
  }

  /** `addChar(c)`: `c` is the argument as UTF-16 code units (JavaScript's
      `length` counts these) and `encoded` its UTF-8 encoding. Only a
      one-unit string is accepted; the offset then moves by exactly one byte,
      whose value is the first encoded byte. */
  function AddChar(w: Writer, c: seq<bv16>, encoded: seq<bv8>): (r: Result<Writer>)
    requires Valid(w)
    ensures |c| != 1 <==> r == Err("addChar requires single character strings")
    ensures r.Ok? ==> Valid(r.value) && r.value.offset == w.offset + 1
    ensures r.Ok? ==> r.value.buffer[..w.offset] == w.buffer[..w.offset]
    ensures r.Ok? && |encoded| > 0 ==> r.value.buffer[w.offset] == encoded[0]
    ensures r.Ok? && |encoded| == 1 ==> Appended(w, r.value, encoded)
  {
    if |c| != 1 then Err("addChar requires single character strings")
    else
      var e := Ensure(w, 1);
      PrefixOfPrefix(w.buffer, e.buffer, w.offset);
      var buf := Copy(encoded, e.buffer, e.offset);
      assert |encoded| > 0 ==> buf[w.offset] == encoded[0];
      Ok(e.(buffer := buf, offset := e.offset + 1))
  }

  /** `clear()`: forget everything written; the buffer is kept. */
  function Clear(w: Writer): (w': Writer)
    ensures Valid(w') && Content(w') == []
    ensures w'.offset == 5 && w'.headerPosition == 0
    ensures w'.buffer == w.buffer && w'.size == w.size
    requires |w.buffer| >= 5
  {
    w.(offset := 5, headerPosition := 0)
  }

  /** The low byte a `Uint8Array` store keeps of a numeric code. */
  function CodeByte(code: int): bv8 {
    (code % 256) as bv8
  }

  /** The header bytes `addHeader` writes: the type byte at `hp`, then
      the Int32 `orig - (hp + 1)` through `addInt32`. */
  function WriteHeader(buf: seq<bv8>, hp: nat, orig: nat, code: int): (r: seq<bv8>)
    requires hp <= orig <= |buf| && 5 <= |buf|
    ensures |r| >= |buf| && r[..hp] == buf[..hp]
  {
    var stored := Store(buf, hp, CodeByte(code));
    var r := PutInt32(stored, hp + 1, orig - (hp + 1)).0;
    assert r[..hp] == buf[..hp] by {
      if hp < |buf| {
        PrefixOfPrefix(stored[..hp + 1], r, hp);
      }
    }
    r
  }

  /** With 5 bytes reserved at `hp`, the header lands in place: no growth,
      the type byte at `hp`, the Int32 in the 4 bytes after it, and every
      other byte unchanged. */
  lemma WriteHeaderInPlace(buf: seq<bv8>, hp: nat, orig: nat, code: int)
    requires hp + 5 <= orig <= |buf|
    ensures var r := WriteHeader(buf, hp, orig, code);
      && |r| == |buf|
      && r[..hp] == buf[..hp]
      && r[hp] == CodeByte(code)
      && r[hp + 1..hp + 5] == Int32Bytes(orig - (hp + 1))
      && r[hp + 5..] == buf[hp + 5..]
  {
    var stored := Store(buf, hp, CodeByte(code));
    var bytes := Int32Bytes(orig - (hp + 1));
    var r := Write(stored, hp + 1, bytes);
    assert PutInt32(stored, hp + 1, orig - (hp + 1)).0 == r;
    assert r[..hp + 1] == stored[..hp + 1];
    assert r[hp] == r[..hp + 1][hp];
    assert r[..hp] == r[..hp + 1][..hp];
  }

  /** `addHeader(code, last)`: write the message header at the header
      position, then move the header position to the offset; unless `last`,
      reserve 5 more bytes there for the next message's header. */
  function AddHeader(w: Writer, code: int, last: bool): (w': Writer)
    requires Valid(w)
    ensures Valid(w') && w'.size == w.size
    ensures w'.headerPosition == w.offset
    ensures w'.offset == w.offset + (if last then 0 else 5)
    ensures |w'.buffer| >= w.offset
    ensures w'.buffer[..w.offset] == WriteHeader(w.buffer, w.headerPosition, w.offset, code)[..w.offset]
  {
    var orig := w.offset;
    var buf := WriteHeader(w.buffer, w.headerPosition, orig, code);
    var framed := w.(buffer := buf, offset := orig, headerPosition := orig);
    if last then framed
    else
      var e := Ensure(framed, 5);
      PrefixOfPrefix(buf, e.buffer, orig);
      e.(offset := orig + 5)
  }

  /** When 5 bytes were reserved at the header position, `addHeader` turns
      them into the type byte and the Int32 count of every byte from itself
      up to the offset; nothing else before the offset changes. */
  lemma AddHeaderFrames(w: Writer, code: int, last: bool)
    requires Valid(w)
    requires w.headerPosition + 5 <= w.offset
    ensures var hp, b := w.headerPosition, AddHeader(w, code, last).buffer;
      && b[..hp] == w.buffer[..hp]
      && b[hp] == CodeByte(code)
      && b[hp + 1..hp + 5] == Int32Bytes(w.offset - (hp + 1))
      && b[hp + 5..w.offset] == w.buffer[hp + 5..w.offset]
  {
    var hp := w.headerPosition;
    var whole := WriteHeader(w.buffer, hp, w.offset, code);
    var b := AddHeader(w, code, last).buffer;
    WriteHeaderInPlace(w.buffer, hp, w.offset, code);
    PiecesOfWhole(b, whole, w.buffer, w.offset, hp, CodeByte(code), Int32Bytes(w.offset - (hp + 1)));
  }

  /** A sequence that agrees with `whole` up to `n`, where `whole` is `buf`
      with the 5 bytes at `hp` replaced, agrees with those pieces. */
  lemma PiecesOfWhole<T>(b: seq<T>, whole: seq<T>, buf: seq<T>, n: nat, hp: nat, c: T, i: seq<T>)
    requires hp + 5 <= n <= |b| && n <= |buf| == |whole| && b[..n] == whole[..n]
    requires whole[..hp] == buf[..hp] && whole[hp] == c && whole[hp + 1..hp + 5] == i
    requires whole[hp + 5..] == buf[hp + 5..]
    ensures b[..hp] == buf[..hp] && b[hp] == c && b[hp + 1..hp + 5] == i
    ensures b[hp + 5..n] == buf[hp + 5..n]
  {
    SlicesOfPrefix(b, whole, n, hp);
    assert whole[hp + 5..][..n - (hp + 5)] == whole[hp + 5..n];
    assert buf[hp + 5..][..n - (hp + 5)] == buf[hp + 5..n];
  }

  /** Two sequences that agree up to `n` agree on every slice and element
      below `n`. */
  lemma SlicesOfPrefix<T>(a: seq<T>, b: seq<T>, n: nat, hp: nat)
    requires hp + 5 <= n <= |a| && n <= |b| && a[..n] == b[..n]
    ensures a[..hp] == b[..hp] && a[hp] == b[hp]
    ensures a[hp + 1..hp + 5] == b[hp + 1..hp + 5] && a[hp + 5..n] == b[hp + 5..n]
  {
    assert a[..n][..hp] == a[..hp] && b[..n][..hp] == b[..hp];
    assert a[..n][hp] == a[hp] && b[..n][hp] == b[hp];
    assert a[..n][hp + 1..hp + 5] == a[hp + 1..hp + 5] && b[..n][hp + 1..hp + 5] == b[hp + 1..hp + 5];
    assert a[..n][hp + 5..] == a[hp + 5..n] && b[..n][hp + 5..] == b[hp + 5..n];
  }

  /** A prefix put back together from its header pieces. */
  lemma Assemble<T>(s: seq<T>, hp: nat, e: nat, p: seq<T>, c: T, i: seq<T>, q: seq<T>)
    requires hp + 5 <= e <= |s|
    requires s[..hp] == p && s[hp] == c && s[hp + 1..hp + 5] == i && s[hp + 5..e] == q
    ensures s[..e] == p + ([c] + i + q)
  {
    assert s[..e] == s[..hp] + ([s[hp]] + s[hp + 1..hp + 5] + s[hp + 5..e]);
  }

  /** `join(code)`: with a (truthy) code, frame the last message and return
      the buffer up to the offset; without one return the bytes after the 5
      reserved ones. Code 0 stands for an absent code, as both are falsy. */
  function Join(w: Writer, code: int): (r: (seq<bv8>, Writer))
    requires Valid(w)
    ensures Valid(r.1)
    ensures code == 0 ==> r == (Content(w), w)
    ensures code != 0 ==> r.1 == AddHeader(w, code, true) && r.0 == r.1.buffer[..r.1.offset]
  {
    if code != 0 then
      var w' := AddHeader(w, code, true);
      (w'.buffer[..w'.offset], w')
    else (w.buffer[5..w.offset], w)
  }

  /** `flush(code)`: `join` followed by `clear`. */
  function Flush(w: Writer, code: int): (r: (seq<bv8>, Writer))
    requires Valid(w)
    ensures r.0 == Join(w, code).0
    ensures Valid(r.1) && r.1.offset == 5 && r.1.headerPosition == 0 && Content(r.1) == []
  {
    var (bytes, w') := Join(w, code);
    (bytes, Clear(w'))
  }

  // ---------------------------------------------------------------------
  // Message framing

  /** A frontend message as the client builds it: the numeric type code and
      the payload bytes. */
  datatype Message = Message(code: int, payload: seq<bv8>)

  /** The wire form of one message: the type byte, the Int32 length that
      counts itself and the payload, then the payload. */
  function Frame(m: Message): (r: seq<bv8>)
    ensures |r| == 5 + |m.payload|
  {
    [CodeByte(m.code)] + Int32Bytes(4 + |m.payload|) + m.payload
  }

  /** Several messages back to back. */
  function Frames(msgs: seq<Message>): (r: seq<bv8>)
  {
    if |msgs| == 0 then [] else Frame(msgs[0]) + Frames(msgs[1..])
  }

  /** What a server reads back from a message: its type byte and payload. */
  function Wire(msgs: seq<Message>): (r: seq<(bv8, seq<bv8>)>)
    ensures |r| == |msgs|
  {
    if |msgs| == 0 then [] else [(CodeByte(msgs[0].code), msgs[0].payload)] + Wire(msgs[1..])
  }

  /** Every payload is short enough for its length to fit the Int32 field. */
  predicate Fits(msgs: seq<Message>) {
    forall i :: 0 <= i < |msgs| ==> 4 + |msgs[i].payload| < Two32
  }

  /** The receiving side: split a byte stream into messages by their length
      fields; `None` when a length is below 4 or runs past the end. */
  function ParseFrames(bytes: seq<bv8>): (r: Option<seq<(bv8, seq<bv8>)>>)
    decreases |bytes|
  {
    if |bytes| == 0 then Some([])
    else if |bytes| < 5 then None
    else
      var n := DecodeInt32(bytes[1..5]) as int;
      if n < 4 || 1 + n > |bytes| then None
      else match ParseFrames(bytes[1 + n..])
        case None => None
        case Some(rest) => Some([(bytes[0], bytes[5..1 + n])] + rest)
  }

  /** The pieces of a frame followed by more bytes, by position. */
  lemma FrameSlices(m: Message, rest: seq<bv8>)
    ensures var bytes := Frame(m) + rest;
      && bytes[0] == CodeByte(m.code)
      && bytes[1..5] == Int32Bytes(4 + |m.payload|)
      && bytes[5..5 + |m.payload|] == m.payload
      && bytes[5 + |m.payload|..] == rest
  {
    var bytes := Frame(m) + rest;
    assert bytes[..5 + |m.payload|] == Frame(m);
  }

  /** The length field reads back as the length written, below 2^32. */
  lemma LengthRoundTrip(n: int)
    requires 0 <= n < Two32
    ensures DecodeInt32(Int32Bytes(n)) as int == n
  {
    Int32RoundTrip(n);
    assert n % Two32 == n;
    var x := n as bv32;
    assert x as int == n;
  }

  /** Parsing a stream that starts with a frame yields that frame's
      message, followed by whatever the rest of the stream parses to. */
  lemma ParseFrameStep(m: Message, rest: seq<bv8>)
    requires 4 + |m.payload| < Two32
    ensures ParseFrames(Frame(m) + rest) ==
      if ParseFrames(rest).Some?
      then Some([(CodeByte(m.code), m.payload)] + ParseFrames(rest).value)
      else None
  {
    FrameSlices(m, rest);
    LengthRoundTrip(4 + |m.payload|);
  }

  /** Parsing recovers every framed message, type byte and payload. */
  lemma {:induction false} ParseFramesRoundTrip(msgs: seq<Message>)
    requires Fits(msgs)
    ensures ParseFrames(Frames(msgs)) == Some(Wire(msgs))
    decreases |msgs|
  {
    if |msgs| > 0 {
      assert Fits(msgs[1..]) by {
        forall i | 0 <= i < |msgs[1..]| ensures 4 + |msgs[1..][i].payload| < Two32 {
          assert msgs[1..][i] == msgs[i + 1];
        }
      }
      ParseFramesRoundTrip(msgs[1..]);
      ParseFrameStep(msgs[0], Frames(msgs[1..]));
    }
  }

  /** The bytes `add(payload)` then `addHeader(code, last)` leave behind
      when 5 bytes were reserved at the header position: one more framed
      message before the new header position. */
  lemma AddThenHeader(w: Writer, m: Message, last: bool)
    requires Valid(w) && w.offset == w.headerPosition + 5
    ensures var w' := AddHeader(Add(w, m.payload), m.code, last);
      && w'.headerPosition == w.offset + |m.payload|
      && w'.buffer[..w'.headerPosition] == w.buffer[..w.headerPosition] + Frame(m)
  {
    var hp := w.headerPosition;
    var w1 := Add(w, m.payload);
    var w2 := AddHeader(w1, m.code, last);
    AddHeaderFrames(w1, m.code, last);
    PrefixOfPrefix(w.buffer[..w.offset], w1.buffer, hp);
    assert w.buffer[..w.offset][..hp] == w.buffer[..hp];
    assert w1.offset - (hp + 1) == 4 + |m.payload|;
    assert w2.buffer[hp + 5..w1.offset] == m.payload;
    Assemble(w2.buffer, hp, w1.offset, w.buffer[..hp], CodeByte(m.code),
      Int32Bytes(4 + |m.payload|), m.payload);
  }

  /** The client's message loop: for each message, `add` its payload and
      frame it with `addHeader(code, false)`, which reserves the next
      header. */
  function Emit(w: Writer, msgs: seq<Message>): (w': Writer)
    requires Valid(w) && w.offset == w.headerPosition + 5
    ensures Valid(w') && w'.offset == w'.headerPosition + 5
    decreases |msgs|
  {
    if |msgs| == 0 then w
    else Emit(AddHeader(Add(w, msgs[0].payload), msgs[0].code, false), msgs[1..])
  }

  /** `Emit` lays the messages' frames after the bytes already framed. */
  lemma {:induction false} EmitFrames(w: Writer, msgs: seq<Message>)
    requires Valid(w) && w.offset == w.headerPosition + 5
    ensures var w' := Emit(w, msgs);
      w'.buffer[..w'.headerPosition] == w.buffer[..w.headerPosition] + Frames(msgs)
    decreases |msgs|
  {
    if |msgs| > 0 {
      var w1 := AddHeader(Add(w, msgs[0].payload), msgs[0].code, false);
      var a, f, rest := w.buffer[..w.headerPosition], Frame(msgs[0]), Frames(msgs[1..]);
      AddThenHeader(w, msgs[0], false);
      assert w1.buffer[..w1.headerPosition] == a + f;
      EmitFrames(w1, msgs[1..]);
      assert Emit(w, msgs) == Emit(w1, msgs[1..]);
      Associate(a, f, rest);
      assert Frames(msgs) == f + rest;
    }
  }

  lemma Associate<T>(a: seq<T>, b: seq<T>, c: seq<T>)
    ensures (a + b) + c == a + (b + c)
  {
  }

  /** A fresh or cleared writer that emits some messages, adds a final
      payload and joins with a (truthy) code returns exactly the frames of
      all of them, the final one carrying the join code. */
  lemma JoinFrames(w: Writer, msgs: seq<Message>, last: Message)
    requires Valid(w) && w.offset == 5 && w.headerPosition == 0
    requires last.code != 0
    ensures Join(Add(Emit(w, msgs), last.payload), last.code).0 == Frames(msgs + [last])
  {
    var e := Emit(w, msgs);
    var framed := AddHeader(Add(e, last.payload), last.code, true);
    EmitFrames(w, msgs);
    AddThenHeader(e, last, true);
    FramesAppend(msgs, last);
    var before := Frames(msgs);
    assert e.buffer[..e.headerPosition] == before by {
      assert w.buffer[..w.headerPosition] == [];
      assert [] + before == before;
    }
    assert framed.buffer[..framed.headerPosition] == before + Frame(last);
    assert Join(Add(e, last.payload), last.code).0 == framed.buffer[..framed.headerPosition];
  }

  lemma {:induction false} FramesAppend(msgs: seq<Message>, last: Message)
    ensures Frames(msgs + [last]) == Frames(msgs) + Frame(last)
    decreases |msgs|
  {
    if |msgs| == 0 {
      assert msgs + [last] == [last];
    } else {
      assert (msgs + [last])[1..] == msgs[1..] + [last];
      FramesAppend(msgs[1..], last);
    }
  }

  lemma {:induction false} WireAppend(msgs: seq<Message>, last: Message)
    ensures Wire(msgs + [last]) == Wire(msgs) + [(CodeByte(last.code), last.payload)]
    decreases |msgs|
  {
    if |msgs| == 0 {
      assert msgs + [last] == [last];
    } else {
      assert (msgs + [last])[1..] == msgs[1..] + [last];
      WireAppend(msgs[1..], last);
    }
  }

  /** End to end: what `join` returns parses back into the messages'
      type bytes and payloads. */
  lemma JoinParses(w: Writer, msgs: seq<Message>, last: Message)
    requires Valid(w) && w.offset == 5 && w.headerPosition == 0
    requires last.code != 0 && Fits(msgs + [last])
    ensures ParseFrames(Join(Add(Emit(w, msgs), last.payload), last.code).0) == Some(Wire(msgs + [last]))
  {
    JoinFrames(w, msgs, last);
    ParseFramesRoundTrip(msgs + [last]);
  }

  /** `add` extends the unframed content by exactly its bytes. */
  lemma AddExtendsContent(w: Writer, bytes: seq<bv8>)
    requires Valid(w)
    ensures Content(Add(w, bytes)) == Content(w) + bytes
  {
    var w' := Add(w, bytes);
    PrefixOfPrefix(w.buffer[..w.offset], w'.buffer, w.offset);
    assert w'.buffer[5..w'.offset] == w'.buffer[5..w.offset] + w'.buffer[w.offset..w'.offset];
    assert w'.buffer[5..w.offset] == w'.buffer[..w.offset][5..];
  }
}
