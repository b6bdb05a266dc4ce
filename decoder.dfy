/** The cursor decoder of the two Python readers (gevent_inotifyx/__init__.py
    and gevent_inotifyx.py): starting at offset 0, unpack 'iIII' at the
    cursor, take `len` name bytes after the header with trailing NULs
    stripped (no name at all when len is 0), and advance the cursor by
    16 + len until it reaches the end of the buffer. The Python 3 reader also
    passes each name through the filesystem codec; `codec` stands for it
    (`Raw`, which accepts every name unchanged, is the Python 2 reader). */
module EventDecoder {
  import opened Base
  import opened Wire

  /** The Python 2 reader keeps names as raw byte strings. */
  function Raw(b: seq<byte>): Option<seq<byte>> { Some(b) }

  /** Python's buf[start:end] for 0 <= start <= len(buf): the bytes from
      `start` up to `end` or the end of the buffer, whichever comes first. */
  function PySlice(buf: seq<byte>, start: nat, end: nat): seq<byte>
    requires start <= |buf|
    decreases |buf| - start
  {
    if start >= end || start == |buf| then [] else [buf[start]] + PySlice(buf, start + 1, end)
  }

  /** The slice is Dafny's buf[start..end] with `end` cut to the length. */
  lemma {:induction false} PySliceIs(buf: seq<byte>, start: nat, end: nat)
    requires start <= |buf|
    ensures var stop := if end <= |buf| then end else |buf|;
      PySlice(buf, start, end) == if start <= stop then buf[start..stop] else []
    decreases |buf| - start
  {
    if start < end && start < |buf| {
      PySliceIs(buf, start + 1, end);
    }
  }

  /** Where the bytes of p appear, the slice over them is p. */
  lemma {:induction false} SliceOfBytesAt(buf: seq<byte>, i: nat, p: seq<byte>)
    requires BytesAt(buf, i, p)
    ensures PySlice(buf, i, i + |p|) == p
    decreases |p|
  {
    if p != [] {
      assert BytesAt(buf, i + 1, p[1..]) by {
        forall k | 0 <= k < |p[1..]| ensures buf[i + 1 + k] == p[1..][k] {
          assert buf[i + (k + 1)] == p[k + 1];
        }
      }
      SliceOfBytesAt(buf, i + 1, p[1..]);
    }
  }

  /** bytes.rstrip(b'\0'). */
  function RStripNul(s: seq<byte>): (r: seq<byte>)
    ensures |r| <= |s|
  {
    if s == [] || s[|s| - 1] != 0 then s else RStripNul(s[..|s| - 1])
  }

  /** rstrip(b'\0') keeps the longest prefix that does not end in NUL: what
      it removes are NULs only, and what it keeps is empty or ends in a byte
      other than NUL. */
  lemma {:induction false} RStripNulSpec(s: seq<byte>)
    ensures var r := RStripNul(s);
      && r == s[..|r|]
      && (r == [] || r[|r| - 1] != 0)
      && forall k :: |r| <= k < |s| ==> s[k] == 0
  {
    if s != [] && s[|s| - 1] == 0 {
      RStripNulSpec(s[..|s| - 1]);
    }
  }

  /** The name of the record at cursor `i` whose len field is `len`: no name
      when len is 0, otherwise the codec's reading of the payload slice with
      its trailing NULs removed. The outer None is a codec failure. */
  function NameAt<N>(buf: seq<byte>, i: nat, len: nat, codec: seq<byte> -> Option<N>): (r: Option<Option<N>>)
    requires i + EventSize <= |buf|
    ensures r == Some(None) <==> len == 0
    ensures r.Some? && r.value.Some? ==>
      len > 0 && Some(r.value.value) == codec(RStripNul(PySlice(buf, i + EventSize, i + EventSize + len)))
  {
    if len == 0 then Some(None)
    else
      match codec(RStripNul(PySlice(buf, i + EventSize, i + EventSize + len)))
      case None => None
      case Some(n) => Some(Some(n))
  }

  /** Events prefixed to a decoding result; an error stays the error. */
  function Prepend<N>(ts: seq<EventTuple<N>>, r: Result<seq<EventTuple<N>>>): Result<seq<EventTuple<N>>>
  {
    match r
    case Ok(rest) => Ok(ts + rest)
    case Err(e) => Err(e)
  }

  lemma PrependNil<N>(r: Result<seq<EventTuple<N>>>)
    ensures Prepend([], r) == r
  {
    if r.Ok? {
      assert [] + r.value == r.value;
    }
  }

  lemma PrependTwice<N>(a: seq<EventTuple<N>>, b: seq<EventTuple<N>>, r: Result<seq<EventTuple<N>>>)
    ensures Prepend(a, Prepend(b, r)) == Prepend(a + b, r)
  {
    if r.Ok? {
      assert a + (b + r.value) == a + b + r.value;
    }
  }

  /** The `while i < len(buf)` loop from cursor `i` to the end of the buffer:
      the events it appends, or the exception that ends it (struct.error on a
      header that runs past the end, a codec failure). */
  function DecodeFrom<N>(buf: seq<byte>, i: nat, codec: seq<byte> -> Option<N>): (r: Result<seq<EventTuple<N>>>)
    ensures i >= |buf| ==> r == Ok([])
    ensures i < |buf| && r.Ok? ==> r.value != [] && i + |r.value| * EventSize <= |buf|
    ensures r.Err? ==> r.error == Truncated || r.error == NameUndecodable
    decreases |buf| - i
  {
    if i >= |buf| then Ok([])
    else if i + EventSize > |buf| then Err(Truncated)
    else
      var h := HeaderAt(buf, i);
      match NameAt(buf, i, h.len, codec)
      case None => Err(NameUndecodable)
      case Some(name) =>
        Prepend([EventTuple(h.wd, h.mask, h.cookie, name)], DecodeFrom(buf, i + EventSize + h.len, codec))
  }

  /** One turn of the loop at a cursor where a whole header fits. */
  lemma Step<N>(buf: seq<byte>, i: nat, codec: seq<byte> -> Option<N>, name: Option<N>)
    requires i + EventSize <= |buf|
    requires NameAt(buf, i, HeaderAt(buf, i).len, codec) == Some(name)
    ensures var h := HeaderAt(buf, i);
      DecodeFrom(buf, i, codec) == Prepend([EventTuple(h.wd, h.mask, h.cookie, name)], DecodeFrom(buf, i + EventSize + h.len, codec))
  {
  }

  /** All events of one buffer returned by os.read. */
  function Decode<N>(buf: seq<byte>, codec: seq<byte> -> Option<N>): (r: Result<seq<EventTuple<N>>>)
    ensures buf == [] ==> r == Ok([])
    ensures r.Ok? ==> |r.value| * EventSize <= |buf| && (buf != [] ==> r.value != [])
    ensures r.Err? ==> r.error == Truncated || r.error == NameUndecodable
  {
    DecodeFrom(buf, 0, codec)
  }

  /** What one turn of the loop does: when the decoding from cursor i
      succeeds and i is inside the buffer, its first event is made of the
      header at i (no name exactly when len is 0, otherwise the payload slice
      without trailing NULs) and the others are those from cursor
      i + 16 + len. */
  lemma {:induction false} FirstEvent(buf: seq<byte>, i: nat)
    requires i < |buf| && DecodeFrom(buf, i, Raw).Ok?
    ensures i + EventSize <= |buf|
    ensures var h := HeaderAt(buf, i);
      var ts := DecodeFrom(buf, i, Raw).value;
      && ts != []
      && ts[0].wd == h.wd && ts[0].mask == h.mask && ts[0].cookie == h.cookie
      && (ts[0].name.None? <==> h.len == 0)
      && (h.len != 0 ==> ts[0].name.value == RStripNul(PySlice(buf, i + EventSize, i + EventSize + h.len)))
      && DecodeFrom(buf, i + EventSize + h.len, Raw) == Ok(ts[1..])
  {
    var h := HeaderAt(buf, i);
    var name := NameAt(buf, i, h.len, Raw).value;
    Step(buf, i, Raw, name);
    var ts := DecodeFrom(buf, i, Raw).value;
    assert ts == [EventTuple(h.wd, h.mask, h.cookie, name)] + DecodeFrom(buf, i + EventSize + h.len, Raw).value;
  }

  /** The tuple the Python readers build from one well-formed record: no name
      when len is 0, otherwise the payload with its trailing NULs removed. */
  function RawTuple(r: Record): EventTuple<seq<byte>>
  {
    EventTuple(r.wd, r.mask, r.cookie, if |r.payload| == 0 then None else Some(RStripNul(r.payload)))
  }

  function RawTuples(rs: seq<Record>): (ts: seq<EventTuple<seq<byte>>>)
    ensures |ts| == |rs|
    ensures forall k :: 0 <= k < |rs| ==> ts[k] == RawTuple(rs[k])
  {
    if rs == [] then [] else [RawTuple(rs[0])] + RawTuples(rs[1..])
  }

  /** The buffer holds, from cursor i up to offset `end`, exactly the
      records rs back to back. */
  predicate RecordsAt(buf: seq<byte>, i: nat, end: nat, rs: seq<Record>)
    decreases rs
  {
    if rs == [] then i == end && end <= |buf|
    else
      var r := rs[0];
      && end <= |buf|
      && r.Valid()
      && i + EventSize + |r.payload| <= end
      && HeaderAt(buf, i) == r.Head()
      && BytesAt(buf, i + EventSize, r.payload)
      && RecordsAt(buf, i + EventSize + |r.payload|, end, rs[1..])
  }

  /** Encoded records placed after `pre` and followed by anything are found
      where they were put. */
  lemma {:induction false} EncodedRecordsAt(pre: seq<byte>, rs: seq<Record>, post: seq<byte>)
    requires AllValid(rs)
    ensures RecordsAt(pre + Encode(rs) + post, |pre|, |pre| + |Encode(rs)|, rs)
    decreases |rs|
  {
    if rs == [] {
      assert pre + Encode(rs) + post == pre + post;
    } else {
      var r := rs[0];
      var tail := Encode(rs[1..]);
      var pre' := pre + r.Bytes();
      var buf := pre' + tail + post;
      assert pre + Encode(rs) + post == buf;
      assert pre + r.Bytes() + (tail + post) == buf;
      RecordAt(pre, r, tail + post);
      EncodedRecordsAt(pre', rs[1..], post);
      assert |pre'| == |pre| + EventSize + |r.payload|;
      assert |pre'| + |tail| == |pre| + |Encode(rs)|;
    }
  }

  /** One step of the cursor over a well-formed record. */
  lemma RecordStep(buf: seq<byte>, i: nat, r: Record)
    requires r.Valid() && i + EventSize + |r.payload| <= |buf|
    requires HeaderAt(buf, i) == r.Head()
    requires BytesAt(buf, i + EventSize, r.payload)
    ensures DecodeFrom(buf, i, Raw) == Prepend([RawTuple(r)], DecodeFrom(buf, i + EventSize + |r.payload|, Raw))
  {
    var name := RawTuple(r).name;
    SliceOfBytesAt(buf, i + EventSize, r.payload);
    assert NameAt(buf, i, |r.payload|, Raw) == Some(name);
    Step(buf, i, Raw, name);
  }

  lemma {:induction false} DecodeRecords(buf: seq<byte>, i: nat, rs: seq<Record>)
    requires RecordsAt(buf, i, |buf|, rs)
    ensures DecodeFrom(buf, i, Raw) == Ok(RawTuples(rs))
    decreases rs
  {
    if rs != [] {
      var r := rs[0];
      RecordStep(buf, i, r);
      DecodeRecords(buf, i + EventSize + |r.payload|, rs[1..]);
    }
  }

  /** Round trip at the record level: a buffer holding N well-formed records
      back to back decodes to exactly N events, in buffer order, each with the
      record's wd, mask and cookie, no name when len is 0 and otherwise the
      payload without its trailing NULs. */
  lemma DecodeEncoded(rs: seq<Record>)
    requires AllValid(rs)
    ensures Decode(Encode(rs), Raw) == Ok(RawTuples(rs))
  {
    var buf := Encode(rs);
    EncodedRecordsAt([], rs, []);
    assert [] + buf + [] == buf;
    DecodeRecords(Encode(rs), 0, rs);
  }

  /** Stripping the NUL padding off a name that does not itself end in NUL
      gives back the name. */
  lemma {:induction false} StripPadding(n: seq<byte>, pad: nat)
    requires n == [] || n[|n| - 1] != 0
    ensures RStripNul(n + Zeros(pad)) == n
    decreases pad
  {
    if pad > 0 {
      var s := n + Zeros(pad);
      assert s[..|s| - 1] == n + Zeros(pad - 1);
      StripPadding(n, pad - 1);
    } else {
      assert n + Zeros(pad) == n;
    }
  }

  /** A name can be carried by a record: followed by `pad` NULs (at least the
      terminator), the result must not end in NUL only because of the name. */
  predicate Carriable(t: EventTuple<seq<byte>>, pad: nat)
  {
    && IsI32(t.wd) && IsU32(t.mask) && IsU32(t.cookie)
    && (t.name.Some? ==> pad >= 1 && (t.name.value == [] || t.name.value[|t.name.value| - 1] != 0)
                         && IsU32(|t.name.value| + pad))
  }

  /** The record the kernel writes for an event: the name, NUL-terminated and
      padded, or no payload at all. */
  function KernelRecord(t: EventTuple<seq<byte>>, pad: nat): (r: Record)
    requires Carriable(t, pad)
    ensures r.Valid()
  {
    Record(t.wd, t.mask, t.cookie, if t.name.None? then [] else t.name.value + Zeros(pad))
  }

  function KernelRecords(ts: seq<EventTuple<seq<byte>>>, pads: seq<nat>): (rs: seq<Record>)
    requires |ts| == |pads| && forall k :: 0 <= k < |ts| ==> Carriable(ts[k], pads[k])
    ensures |rs| == |ts| && AllValid(rs)
    ensures forall k :: 0 <= k < |ts| ==> rs[k] == KernelRecord(ts[k], pads[k])
  {
    if ts == [] then [] else [KernelRecord(ts[0], pads[0])] + KernelRecords(ts[1..], pads[1..])
  }

  /** Round trip at the event level: events written in the kernel's format
      (any NUL padding) decode back to the same wd, mask, cookie and name,
      in the same order. */
  lemma {:induction false} EventRoundTrip(ts: seq<EventTuple<seq<byte>>>, pads: seq<nat>)
    requires |ts| == |pads| && forall k :: 0 <= k < |ts| ==> Carriable(ts[k], pads[k])
    ensures Decode(Encode(KernelRecords(ts, pads)), Raw) == Ok(ts)
  {
    var rs := KernelRecords(ts, pads);
    DecodeEncoded(rs);
    forall k | 0 <= k < |ts|
      ensures RawTuples(rs)[k] == ts[k]
    {
      var t := ts[k];
      if t.name.Some? {
        StripPadding(t.name.value, pads[k]);
      }
    }
    assert RawTuples(rs) == ts;
  }

  /** The name a codec makes of a raw name; the outer None is a failure. */
  function CodecName<N>(name: Option<seq<byte>>, codec: seq<byte> -> Option<N>): Option<Option<N>>
  {
    match name
    case None => Some(None)
    case Some(raw) =>
      match codec(raw)
      case None => None
      case Some(n) => Some(Some(n))
  }

  /** The Python 3 names: each raw name passed through the codec, and the
      whole list lost as soon as one name fails to decode. */
  function ApplyCodec<N>(ts: seq<EventTuple<seq<byte>>>, codec: seq<byte> -> Option<N>): Result<seq<EventTuple<N>>>
  {
    if ts == [] then Ok([])
    else
      match CodecName(ts[0].name, codec)
      case None => Err(NameUndecodable)
      case Some(name) => Prepend([EventTuple(ts[0].wd, ts[0].mask, ts[0].cookie, name)], ApplyCodec(ts[1..], codec))
  }

  lemma {:induction false} CodecFrom<N>(buf: seq<byte>, i: nat, codec: seq<byte> -> Option<N>)
    ensures DecodeFrom(buf, i, Raw).Ok? ==>
              DecodeFrom(buf, i, codec) == ApplyCodec(DecodeFrom(buf, i, Raw).value, codec)
    ensures DecodeFrom(buf, i, Raw).Err? ==> DecodeFrom(buf, i, codec).Err?
    decreases |buf| - i
  {
    if i < |buf| && i + EventSize <= |buf| {
      var h := HeaderAt(buf, i);
      var next := i + EventSize + h.len;
      var rawName := NameAt(buf, i, h.len, Raw).value;
      assert NameAt(buf, i, h.len, codec) == CodecName(rawName, codec);
      var rt := EventTuple(h.wd, h.mask, h.cookie, rawName);
      Step(buf, i, Raw, rawName);
      CodecFrom(buf, next, codec);
      match DecodeFrom(buf, next, Raw)
      case Err(_) =>
        match CodecName(rawName, codec) {
          case None =>
          case Some(name) => Step(buf, i, codec, name);
        }
      case Ok(rts) =>
        assert ([rt] + rts)[0] == rt && ([rt] + rts)[1..] == rts;
        match CodecName(rawName, codec) {
          case None =>
          case Some(name) => Step(buf, i, codec, name);
        }
    }
  }

  /** Decoding names with a codec is decoding them raw and then passing each
      name through the codec: the same events when every name decodes, and a
      failure whenever the raw decoding fails. */
  lemma DecodeThroughCodec<N>(buf: seq<byte>, codec: seq<byte> -> Option<N>)
    ensures Decode(buf, Raw).Ok? ==> Decode(buf, codec) == ApplyCodec(Decode(buf, Raw).value, codec)
    ensures Decode(buf, Raw).Err? ==> Decode(buf, codec).Err?
  {
    CodecFrom(buf, 0, codec);
  }

  predicate NameClean(t: EventTuple<seq<byte>>)
  {
    t.name.Some? ==> t.name.value == [] || t.name.value[|t.name.value| - 1] != 0
  }

  /** Whatever the buffer, every name the Python decoder yields is free of
      trailing NULs. */
  lemma {:induction false} NamesHaveNoTrailingNul(buf: seq<byte>, i: nat)
    ensures DecodeFrom(buf, i, Raw).Ok? ==>
              forall k :: 0 <= k < |DecodeFrom(buf, i, Raw).value| ==> NameClean(DecodeFrom(buf, i, Raw).value[k])
    decreases |buf| - i
  {
    if i < |buf| && i + EventSize <= |buf| {
      var h := HeaderAt(buf, i);
      var name := NameAt(buf, i, h.len, Raw).value;
      var t := EventTuple(h.wd, h.mask, h.cookie, name);
      if h.len != 0 {
        RStripNulSpec(PySlice(buf, i + EventSize, i + EventSize + h.len));
      }
      assert NameClean(t);
      Step(buf, i, Raw, name);
      NamesHaveNoTrailingNul(buf, i + EventSize + h.len);
    }
  }
}
