/** Where the three readers part ways. On what the kernel writes (records
    whose names hold no NUL, padded with NULs) the Python decoder and the C
    loop see the same events, except that C turns mask and cookie into
    signed ints and an empty name into no name. Off that path they differ:
    an empty read, a failed poll after a read, and a name with a NUL inside
    its payload. */
module Versions {
  import opened Base
  import opened Wire
  import opened Kernel
  import opened EventDecoder
  import opened Binding
  import opened GeventInotifyx

  /** The tuple the C binding builds for an event the Python readers build
      as t: mask and cookie read back through a C int, and an empty name
      read as no name. */
  function CView(t: EventTuple<seq<byte>>): CTuple
    requires IsU32(t.mask) && IsU32(t.cookie)
  {
    EventTuple(t.wd, AsSigned(t.mask), AsSigned(t.cookie), if t.name == Some([]) then None else t.name)
  }

  lemma RecordAgrees(t: EventTuple<seq<byte>>, pad: nat)
    requires Carriable(t, pad) && (t.name.Some? ==> NoNul(t.name.value))
    ensures KernelPayload(KernelRecord(t, pad).payload)
    ensures CRecordTuple(KernelRecord(t, pad)) == CView(t)
  {
    var p := KernelRecord(t, pad).payload;
    if t.name.Some? {
      var n := t.name.value;
      assert p == n + [0] + Zeros(pad - 1);
      assert p[|n|] == 0 && p[..|n|] == n;
      if n != [] {
        assert p[0] == n[0];
        assert BytesAt(p, 0, n + [0] + Zeros(pad - 1));
        CStringInPayload(p, 0, n, Zeros(pad - 1));
      }
    }
  }

  /** Kernel-written events, read by the Python decoder and by the C loop
      (with whatever stale bytes follow in the static buffer): Python gets
      the events back, C gets their C views, one per event and in the same
      order. */
  lemma ReadersAgree(ts: seq<EventTuple<seq<byte>>>, pads: seq<nat>, stale: seq<byte>)
    requires |ts| == |pads| && forall k :: 0 <= k < |ts| ==> Carriable(ts[k], pads[k])
    requires forall k :: 0 <= k < |ts| && ts[k].name.Some? ==> NoNul(ts[k].name.value)
    requires |Encode(KernelRecords(ts, pads))| < Two31
    ensures var buf := Encode(KernelRecords(ts, pads));
      && Decode(buf, Raw) == Ok(ts)
      && CDecodeFrom(buf + stale, |buf|, 0).Ok?
      && var cs := CDecodeFrom(buf + stale, |buf|, 0).value;
      && |cs| == |ts|
      && forall k :: 0 <= k < |ts| ==> cs[k] == CView(ts[k])
  {
    var rs := KernelRecords(ts, pads);
    EventRoundTrip(ts, pads);
    forall k | 0 <= k < |rs|
      ensures KernelPayload(rs[k].payload) && CRecordTuple(rs[k]) == CView(ts[k])
    {
      RecordAgrees(ts[k], pads[k]);
    }
    CDecodeEncoded(rs, stale);
  }

  /** A read that returned no bytes: the C binding raises "event buffer too
      small" and drops the list, the Python readers carry on to their
      poll. */
  lemma EmptyReadDiffers<N>(e1: Env, mem: seq<byte>, codec: seq<byte> -> Option<N>)
    requires |mem| == BufLen
    ensures CRound(Data([]), e1, mem).result == Err(BufferTooSmall)
    ensures CRound(Data([]), e1, mem).env == e1
    ensures PyRound(Data([]), e1, codec).env != e1
  {
    EmptyReadPolls(e1, codec);
    var (a, e2) := e1.Select(NoWait);
    if a == Ready {
      assert e2.log < PyDrain(e2, codec).env.log;
    }
  }

  /** A poll that fails after a round that decoded: the C binding returns
      the events gathered so far, the Python readers raise. */
  lemma FailedPollDiffers<N>(bytes: seq<byte>, e1: Env, mem: seq<byte>, codec: seq<byte> -> Option<N>)
    requires |mem| == BufLen && 0 < |bytes| <= BufLen
    requires e1.answers != [] && e1.answers[0] == Failed
    requires CDecodeFrom(bytes + mem[|bytes|..], |bytes|, 0).Ok?
    requires Decode(bytes, codec).Ok?
    ensures CRound(Data(bytes), e1, mem).result == CDecodeFrom(bytes + mem[|bytes|..], |bytes|, 0)
    ensures PyRound(Data(bytes), e1, codec).result == Err(SelectFailed)
  {
  }

  /** A name with a NUL inside its payload ("a", NUL, "b", NUL): Python
      strips only the trailing NUL and keeps "a\0b", C stops at the first
      NUL and keeps "a". */
  lemma EmbeddedNul(wd: int, mask: int, cookie: int)
    requires IsI32(wd) && IsU32(mask) && IsU32(cookie)
    ensures var buf := Encode([Record(wd, mask, cookie, [97, 0, 98, 0])]);
      && Decode(buf, Raw) == Ok([EventTuple(wd, mask, cookie, Some([97, 0, 98]))])
      && CDecodeFrom(buf, |buf|, 0) == Ok([EventTuple(wd, AsSigned(mask), AsSigned(cookie), Some([97]))])
  {
    var p: seq<byte> := [97, 0, 98, 0];
    var r := Record(wd, mask, cookie, p);
    EmbeddedNulPython(r);
    EmbeddedNulC(r);
  }

  lemma EmbeddedNulPython(r: Record)
    requires r.Valid() && r.payload == [97, 0, 98, 0]
    ensures Decode(Encode([r]), Raw) == Ok([EventTuple(r.wd, r.mask, r.cookie, Some([97, 0, 98]))])
  {
    var p := r.payload;
    assert p[..|p| - 1] == [97, 0, 98];
    assert RStripNul(p) == RStripNul([97, 0, 98]) == [97, 0, 98];
    DecodeEncoded([r]);
    assert RawTuples([r]) == [RawTuple(r)];
  }

  lemma EmbeddedNulC(r: Record)
    requires r.Valid() && r.payload == [97, 0, 98, 0]
    ensures CDecodeFrom(Encode([r]), |Encode([r])|, 0) == Ok([EventTuple(r.wd, AsSigned(r.mask), AsSigned(r.cookie), Some([97]))])
  {
    var p := r.payload;
    assert KernelPayload(p) by {
      assert p[1] == 0 && p[..1] == [97];
    }
    assert p == [97] + [0] + [98, 0];
    CStringInPayload(p, 0, [97], [98, 0]);
    assert |Encode([r])| == EventSize + 4;
    CDecodeEncoded([r], []);
    assert Encode([r]) + [] == Encode([r]);
    assert CRecordTuple(r).name == Some([97]);
    assert CRecordTuples([r]) == [CRecordTuple(r)];
  }
}
