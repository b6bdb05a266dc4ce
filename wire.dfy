/** The inotify event record as the kernel writes it into the descriptor:
    Linux's `struct inotify_event`, i.e. a 16-byte header of four 32-bit
    fields (wd signed, mask, cookie and len unsigned), followed by `len` bytes
    of NUL-terminated, NUL-padded name. The model fixes little-endian byte
    order. */
module Wire {
  import opened Base

  type byte = b: int | 0 <= b < 256

  const Two31: int := 0x8000_0000
  const Two32: int := 0x1_0000_0000

  /** struct.calcsize('iIII') and sizeof(struct inotify_event): four 4-byte
      fields without padding. */
  const EventSize: nat := 4 * 4

  /** BUF_LEN in binding.c and _BUF_LEN in the Python 2 module. */
  const BufLen: nat := 1024 * (EventSize + 16)

  predicate IsU32(x: int) { 0 <= x < Two32 }
  predicate IsI32(x: int) { -Two31 <= x < Two31 }

  /** The tuple (wd, mask, cookie, name) that one record decodes to; `N` is
      the type of a name (bytes, or text after a codec). */
  datatype EventTuple<N> = EventTuple(wd: int, mask: int, cookie: int, name: Option<N>)

  /** An unsigned 32-bit field stored little-endian at offset i. */
  function U32At(buf: seq<byte>, i: nat): (r: int)
    requires i + 4 <= |buf|
    ensures IsU32(r)
  {
    var b0, b1, b2, b3: int := buf[i], buf[i + 1], buf[i + 2], buf[i + 3];
    b0 + 256 * b1 + 65536 * b2 + 16777216 * b3
  }

  /** The n bytes of x, least significant first. */
  function LeBytes(x: nat, n: nat): (r: seq<byte>)
    ensures |r| == n
  {
    if n == 0 then [] else [x % 256] + LeBytes(x / 256, n - 1)
  }

  /** The four little-endian bytes of an unsigned 32-bit value. */
  function U32Bytes(x: int): (r: seq<byte>)
    requires IsU32(x)
    ensures |r| == 4
  {
    LeBytes(x, 4)
  }

  lemma U32RoundTrip(x: int)
    requires IsU32(x)
    ensures U32At(U32Bytes(x), 0) == x
  {
    var b := U32Bytes(x);
    var x1, x2, x3 := x / 256, x / 65536, x / 16777216;
    assert x1 / 256 == x2 && x2 / 256 == x3 && x3 / 256 == 0;
    assert LeBytes(x3, 1) == [x3 % 256] + LeBytes(x3 / 256, 0);
    assert LeBytes(x2, 2) == [x2 % 256] + LeBytes(x3, 1);
    assert LeBytes(x1, 3) == [x1 % 256] + LeBytes(x2, 2);
    assert b == [x % 256] + LeBytes(x1, 3);
    assert b == [x % 256, x1 % 256, x2 % 256, x3 % 256];
    assert x == x % 256 + 256 * x1;
    assert x1 == x1 % 256 + 256 * x2;
    assert x2 == x2 % 256 + 256 * x3;
  }

  /** C's conversion of a 32-bit pattern to `int` (two's complement), and the
      'i' code of struct. */
  function AsSigned(u: int): (r: int)
    requires IsU32(u)
    ensures IsI32(r) && (r == u || r == u - Two32)
    ensures 0 <= r <==> u < Two31
  {
    if u < Two31 then u else u - Two32
  }

  /** The 32-bit pattern of a signed value. */
  function AsUnsigned(x: int): (r: int)
    requires IsI32(x)
    ensures IsU32(r) && AsSigned(r) == x
  {
    if x < 0 then x + Two32 else x
  }

  /** The four header fields, as struct.unpack_from('iIII') yields them. */
  datatype Header = Header(wd: int, mask: int, cookie: int, len: int) {
    predicate Valid() { IsI32(wd) && IsU32(mask) && IsU32(cookie) && IsU32(len) }
  }

  /** The header at offset i, read field by field in place. */
  function HeaderAt(buf: seq<byte>, i: nat): (r: Header)
    requires i + EventSize <= |buf|
    ensures r.Valid()
  {
    Header(AsSigned(U32At(buf, i)), U32At(buf, i + 4), U32At(buf, i + 8), U32At(buf, i + 12))
  }

  /** Any 16 bytes unpack to a header, and packing that header again gives
      back exactly those bytes: the unpacking loses nothing. */
  lemma HeaderBytesAt(buf: seq<byte>, i: nat)
    requires i + EventSize <= |buf|
    ensures HeaderBytes(HeaderAt(buf, i)) == buf[i..i + EventSize]
  {
    U32BytesAt(buf, i);
    U32BytesAt(buf, i + 4);
    U32BytesAt(buf, i + 8);
    U32BytesAt(buf, i + 12);
    assert buf[i..i + EventSize] == buf[i..i + 4] + buf[i + 4..i + 8] + buf[i + 8..i + 12] + buf[i + 12..i + 16];
  }

  /** The four bytes of the field read at offset i are the bytes there. */
  lemma U32BytesAt(buf: seq<byte>, i: nat)
    requires i + 4 <= |buf|
    ensures U32Bytes(U32At(buf, i)) == buf[i..i + 4]
  {
    var b0, b1, b2, b3: int := buf[i], buf[i + 1], buf[i + 2], buf[i + 3];
    var x := U32At(buf, i);
    var x1, x2, x3 := b1 + 256 * b2 + 65536 * b3, b2 + 256 * b3, b3;
    assert x == b0 + 256 * x1 && x1 == b1 + 256 * x2 && x2 == b2 + 256 * x3;
    assert x % 256 == b0 && x / 256 == x1;
    assert x1 % 256 == b1 && x1 / 256 == x2;
    assert x2 % 256 == b2 && x2 / 256 == x3;
    assert x3 % 256 == b3 && x3 / 256 == 0;
    assert LeBytes(x3, 1) == [b3] + LeBytes(0, 0);
    assert LeBytes(x2, 2) == [b2] + LeBytes(x3, 1);
    assert LeBytes(x1, 3) == [b1] + LeBytes(x2, 2);
    assert U32Bytes(x) == [b0] + LeBytes(x1, 3);
  }

  function HeaderBytes(h: Header): (r: seq<byte>)
    requires h.Valid()
    ensures |r| == EventSize
  {
    U32Bytes(AsUnsigned(h.wd)) + U32Bytes(h.mask) + U32Bytes(h.cookie) + U32Bytes(h.len)
  }

  /** Packing and unpacking the header are inverse: the 16 bytes hold exactly
      the four fields in order 'iIII'. */
  lemma {:induction false} HeaderRoundTrip(h: Header)
    requires h.Valid()
    ensures HeaderAt(HeaderBytes(h), 0) == h
  {
    var b := HeaderBytes(h);
    U32RoundTrip(AsUnsigned(h.wd));
    U32RoundTrip(h.mask);
    U32RoundTrip(h.cookie);
    U32RoundTrip(h.len);
    assert b[0..4] == U32Bytes(AsUnsigned(h.wd));
    assert b[4..8] == U32Bytes(h.mask);
    assert b[8..12] == U32Bytes(h.cookie);
    assert b[12..16] == U32Bytes(h.len);
    assert U32At(b, 0) == U32At(b[0..4], 0);
    assert U32At(b, 4) == U32At(b[4..8], 0);
    assert U32At(b, 8) == U32At(b[8..12], 0);
    assert U32At(b, 12) == U32At(b[12..16], 0);
  }

  /** The header at offset i depends only on the 16 bytes there. */
  lemma HeaderAtSlice(buf: seq<byte>, i: nat)
    requires i + EventSize <= |buf|
    ensures HeaderAt(buf, i) == HeaderAt(buf[i..i + EventSize], 0)
  {
    var h := buf[i..i + EventSize];
    assert forall k :: 0 <= k < EventSize ==> h[k] == buf[i + k];
  }

  /** One record on the wire: a header whose len field is the length of the
      payload that follows it. */
  datatype Record = Record(wd: int, mask: int, cookie: int, payload: seq<byte>) {
    predicate Valid() { IsI32(wd) && IsU32(mask) && IsU32(cookie) && IsU32(|payload|) }

    function Head(): (h: Header)
      requires Valid()
      ensures h.Valid()
    {
      Header(wd, mask, cookie, |payload|)
    }

    function Bytes(): (r: seq<byte>)
      requires Valid()
      ensures |r| == EventSize + |payload|
    {
      HeaderBytes(Head()) + payload
    }
  }

  predicate AllValid(rs: seq<Record>) { forall k :: 0 <= k < |rs| ==> rs[k].Valid() }

  /** The bytes of records written back to back, as one read returns them. */
  function Encode(rs: seq<Record>): (r: seq<byte>)
    requires AllValid(rs)
  {
    if rs == [] then [] else rs[0].Bytes() + Encode(rs[1..])
  }

  /** The bytes of `p` appear in `buf` from offset i on. */
  predicate BytesAt(buf: seq<byte>, i: nat, p: seq<byte>)
  {
    i + |p| <= |buf| && forall k :: 0 <= k < |p| ==> buf[i + k] == p[k]
  }

  /** In a buffer that holds `pre`, then record `r`, then anything, the header
      at offset |pre| is r's header and r's payload follows it. */
  lemma {:induction false} RecordAt(pre: seq<byte>, r: Record, rest: seq<byte>)
    requires r.Valid()
    ensures var buf := pre + r.Bytes() + rest;
      && |pre| + EventSize <= |buf|
      && HeaderAt(buf, |pre|) == r.Head()
      && BytesAt(buf, |pre| + EventSize, r.payload)
  {
    var buf := pre + r.Bytes() + rest;
    assert buf[|pre|..|pre| + EventSize] == HeaderBytes(r.Head());
    HeaderAtSlice(buf, |pre|);
    HeaderRoundTrip(r.Head());
    forall k | 0 <= k < |r.payload|
      ensures buf[|pre| + EventSize + k] == r.payload[k]
    {
      assert buf[|pre| + EventSize + k] == r.Bytes()[EventSize + k];
    }
  }

  /** Zero bytes, the padding after a name. */
  function Zeros(n: nat): (r: seq<byte>)
    ensures |r| == n && forall k :: 0 <= k < n ==> r[k] == 0
  {
    if n == 0 then [] else Zeros(n - 1) + [0]
  }

  predicate NoNul(s: seq<byte>) { forall k :: 0 <= k < |s| ==> s[k] != 0 }
}
