/** binding.c: the C extension under inotifyx. Its get_events reads into one
    static buffer of BUF_LEN bytes that lives as long as the process (zero at
    start, and holding the bytes of earlier reads past the end of each new
    read), walks it with an `int` cursor, and builds (wd, mask, cookie, name)
    tuples with Py_BuildValue("iiis"/"iiiO"): mask and cookie pass through
    `int`, and a name is the C string at the payload. The module also
    registers the IN_* constants and gives add_watch its default mask. */
module Binding {
  import opened Base
  import opened Wire
  import opened Kernel
  import opened EventDecoder

  /** A tuple as the C code builds it: names are byte strings. */
  type CTuple = EventTuple<seq<byte>>

  /** IN_ALL_EVENTS of Linux's <sys/inotify.h>: the twelve event bits. */
  const InAllEvents: nat := 0xFFF

  /** The integer constants the module registers at initialisation, in
      registration order, with the values of Linux's <sys/inotify.h>. */
  const ModuleConstants: seq<(string, nat)> := [
    ("IN_ACCESS", 0x1), ("IN_MODIFY", 0x2), ("IN_ATTRIB", 0x4),
    ("IN_CLOSE_WRITE", 0x8), ("IN_CLOSE_NOWRITE", 0x10),
    ("IN_CLOSE", 0x18), ("IN_OPEN", 0x20), ("IN_MOVED_FROM", 0x40),
    ("IN_MOVED_TO", 0x80), ("IN_MOVE", 0xC0), ("IN_CREATE", 0x100),
    ("IN_DELETE", 0x200), ("IN_DELETE_SELF", 0x400),
    ("IN_MOVE_SELF", 0x800), ("IN_UNMOUNT", 0x2000),
    ("IN_Q_OVERFLOW", 0x4000), ("IN_IGNORED", 0x8000),
    ("IN_ONLYDIR", 0x100_0000), ("IN_DONT_FOLLOW", 0x200_0000),
    ("IN_MASK_ADD", 0x2000_0000), ("IN_ISDIR", 0x4000_0000), ("IN_ONESHOT", 0x8000_0000),
    ("IN_ALL_EVENTS", 0xFFF)]

  /** The mask add_watch hands to inotify_add_watch: IN_ALL_EVENTS when the
      caller gives none, otherwise the caller's C int stored into a uint32_t;
      a value outside the range of a C int is refused by the argument
      parser. */
  function AddWatchMask(arg: Option<int>): (r: Result<int>)
    ensures arg.None? ==> r == Ok(InAllEvents)
    ensures arg.Some? ==> (r.Ok? <==> IsI32(arg.value))
    ensures arg.Some? && r.Ok? ==> IsU32(r.value) && AsSigned(r.value) == arg.value
  {
    match arg
    case None => Ok(InAllEvents)
    case Some(x) => if IsI32(x) then Ok(AsUnsigned(x)) else Err(BadArgument)
  }

  /** The C string starting at offset j of the static buffer: the bytes up to
      the first NUL. With no NUL before the end of the buffer the C code would
      read past it. */
  function CStringAt(mem: seq<byte>, j: nat): (r: Option<seq<byte>>)
    ensures r.Some? ==> NoNul(r.value) && j + |r.value| < |mem| && mem[j + |r.value|] == 0
    decreases |mem| - j
  {
    if j >= |mem| then None
    else if mem[j] == 0 then Some([])
    else
      match CStringAt(mem, j + 1)
      case None => None
      case Some(s) => Some([mem[j]] + s)
  }

  /** The C string at j is there exactly when a NUL follows j inside the
      buffer, and then it is the bytes from j up to the first such NUL. */
  lemma {:induction false} CStringAtSpec(mem: seq<byte>, j: nat)
    ensures CStringAt(mem, j).Some? <==> exists k :: j <= k < |mem| && mem[k] == 0
    ensures CStringAt(mem, j).Some? ==>
              var s := CStringAt(mem, j).value;
              && j + |s| < |mem| && mem[j + |s|] == 0
              && NoNul(s) && BytesAt(mem, j, s)
    decreases |mem| - j
  {
    if j < |mem| && mem[j] != 0 {
      CStringAtSpec(mem, j + 1);
      if CStringAt(mem, j + 1).Some? {
        var t := CStringAt(mem, j + 1).value;
        var s := [mem[j]] + t;
        assert CStringAt(mem, j) == Some(s);
        forall k | 0 <= k < |s| ensures mem[j + k] == s[k] && s[k] != 0 {
          if k > 0 {
            assert s[k] == t[k - 1];
            assert mem[j + 1 + (k - 1)] == t[k - 1];
          }
        }
      } else {
        forall k | j <= k < |mem| ensures mem[k] != 0 {
          if k == j {
          } else {
            assert j + 1 <= k;
          }
        }
      }
    }
  }

  /** Where a NUL-terminated string lies in the buffer, the C string there is
      that string. */
  lemma {:induction false} CStringOfBytesAt(mem: seq<byte>, j: nat, s: seq<byte>)
    requires NoNul(s) && BytesAt(mem, j, s + [0])
    ensures CStringAt(mem, j) == Some(s)
    decreases |s|
  {
    if s == [] {
      assert mem[j + 0] == (s + [0])[0];
    } else {
      assert mem[j + 0] == (s + [0])[0];
      assert BytesAt(mem, j + 1, s[1..] + [0]) by {
        forall k | 0 <= k < |s[1..] + [0]| ensures mem[j + 1 + k] == (s[1..] + [0])[k] {
          assert mem[j + (k + 1)] == (s + [0])[k + 1];
        }
      }
      CStringOfBytesAt(mem, j + 1, s[1..]);
      assert [s[0]] + s[1..] == s;
    }
  }

  /** The name of the record at cursor i whose len field is `len`: no name
      unless len is positive and the first name byte is not NUL; otherwise
      the C string there. */
  function CNameAt(mem: seq<byte>, i: nat, len: int): (r: Result<Option<seq<byte>>>)
    requires i + EventSize <= |mem|
    ensures r.Ok? && r.value.Some? ==> len > 0 && r.value.value != [] && NoNul(r.value.value)
    ensures r.Err? ==> len > 0 && r.error == OutOfBounds
  {
    if len <= 0 then Ok(None)
    else if i + EventSize == |mem| then Err(OutOfBounds)
    else if mem[i + EventSize] == 0 then Ok(None)
    else
      match CStringAt(mem, i + EventSize)
      case None => Err(OutOfBounds)
      case Some(s) => Ok(Some(s))
  }

  /** The C naming rule: no name exactly when len is 0 or the first name
      byte is NUL; a name is never empty, holds no NUL and is followed by a
      NUL; it is not bounded by len. */
  lemma NameRule(mem: seq<byte>, i: nat, len: int)
    requires i + EventSize <= |mem|
    ensures CNameAt(mem, i, len) == Ok(None) <==>
              len <= 0 || (i + EventSize < |mem| && mem[i + EventSize] == 0)
    ensures CNameAt(mem, i, len).Ok? && CNameAt(mem, i, len).value.Some? ==>
              var s := CNameAt(mem, i, len).value.value;
              && s != [] && NoNul(s) && BytesAt(mem, i + EventSize, s)
              && i + EventSize + |s| < |mem| && mem[i + EventSize + |s|] == 0
    ensures CNameAt(mem, i, len).Err? <==>
              len > 0 && (i + EventSize == |mem| ||
                          (mem[i + EventSize] != 0 && forall k :: i + EventSize <= k < |mem| ==> mem[k] != 0))
  {
    if i + EventSize < |mem| {
      CStringAtSpec(mem, i + EventSize);
    }
  }

  /** The inner `while (i < len)` loop from cursor i over the `len` bytes
      just read, in the whole static buffer `mem`: the tuples appended, or
      the point where the C code would leave the buffer (a header or a name
      that starts or runs past its end) or push the int cursor past
      INT_MAX. */
  function CDecodeFrom(mem: seq<byte>, len: int, i: nat): (r: Result<seq<CTuple>>)
    ensures r.Ok? && i >= len ==> r.value == []
    ensures r.Ok? && i < len ==> r.value != [] && (|r.value| - 1) * EventSize < len - i
    ensures r.Err? ==> r.error == OutOfBounds || r.error == CursorOverflow
    decreases len - i
  {
    if i >= len then Ok([])
    else if i + EventSize > |mem| then Err(OutOfBounds)
    else
      var h := HeaderAt(mem, i);
      match CNameAt(mem, i, h.len)
      case Err(e) => Err(e)
      case Ok(name) =>
        var next := i + EventSize + h.len;
        if next >= Two31 then Err(CursorOverflow)
        else Prepend([EventTuple(h.wd, AsSigned(h.mask), AsSigned(h.cookie), name)], CDecodeFrom(mem, len, next))
  }

  /** The C tuple of one well-formed record whose payload holds a NUL. */
  function CRecordTuple(r: Record): CTuple
    requires r.Valid()
  {
    var p := r.payload;
    var name := if p == [] || p[0] == 0 then None else CStringAt(p, 0);
    EventTuple(r.wd, AsSigned(r.mask), AsSigned(r.cookie), name)
  }

  /** Where a record whose payload is a NUL-terminated name (plus any bytes)
      lies in the buffer, the C string there is read inside the payload. */
  lemma CStringInPayload(mem: seq<byte>, j: nat, name: seq<byte>, rest: seq<byte>)
    requires NoNul(name) && BytesAt(mem, j, name + [0] + rest)
    ensures CStringAt(mem, j) == Some(name) && CStringAt(name + [0] + rest, 0) == Some(name)
  {
    var p := name + [0] + rest;
    assert BytesAt(mem, j, name + [0]) by {
      forall k | 0 <= k < |name + [0]| ensures mem[j + k] == (name + [0])[k] {
        assert p[k] == (name + [0])[k];
      }
    }
    CStringOfBytesAt(mem, j, name);
    assert BytesAt(p, 0, name + [0]) by {
      forall k | 0 <= k < |name + [0]| ensures p[0 + k] == (name + [0])[k] {
        assert p[k] == (name + [0])[k];
      }
    }
    CStringOfBytesAt(p, 0, name);
  }

  /** A kernel-written record: its payload is empty, or a name free of NUL
      followed by at least one NUL of padding. */
  predicate KernelPayload(p: seq<byte>)
  {
    p == [] || exists n :: 0 <= n < |p| && p[n] == 0 && NoNul(p[..n])
  }

  /** One turn of the C loop over a well-formed record inside the bytes
      read: the tuple of that record, then the tuples from the next
      record. */
  lemma CRecordStep(mem: seq<byte>, len: int, i: nat, r: Record)
    requires r.Valid() && KernelPayload(r.payload)
    requires i + EventSize + |r.payload| <= len <= |mem| && len < Two31
    requires HeaderAt(mem, i) == r.Head()
    requires BytesAt(mem, i + EventSize, r.payload)
    ensures CDecodeFrom(mem, len, i) ==
              Prepend([CRecordTuple(r)], CDecodeFrom(mem, len, i + EventSize + |r.payload|))
  {
    var p := r.payload;
    var j := i + EventSize;
    if p != [] {
      var n :| 0 <= n < |p| && p[n] == 0 && NoNul(p[..n]);
      assert p == p[..n] + [0] + p[n + 1..];
      assert mem[j + 0] == p[0];
      if p[0] != 0 {
        CStringInPayload(mem, j, p[..n], p[n + 1..]);
      }
    }
  }

  /** Well-formed kernel records filling the bytes read decode, in the C
      loop, to one tuple per record in buffer order, whatever stale bytes
      follow them in the static buffer. */
  lemma {:induction false} CDecodeRecords(mem: seq<byte>, len: nat, i: nat, rs: seq<Record>)
    requires AllValid(rs) && RecordsAt(mem, i, len, rs) && len < Two31
    requires forall k :: 0 <= k < |rs| ==> KernelPayload(rs[k].payload)
    ensures CDecodeFrom(mem, len, i) == Ok(CRecordTuples(rs))
    decreases rs
  {
    if rs != [] {
      var r := rs[0];
      assert KernelPayload(r.payload);
      CRecordStep(mem, len, i, r);
      CDecodeRecords(mem, len, i + EventSize + |r.payload|, rs[1..]);
    }
  }

  /** Round trip in the C loop: kernel records written at the start of the
      static buffer decode to one tuple per record, in order, whatever stale
      bytes of earlier reads follow them. */
  lemma CDecodeEncoded(rs: seq<Record>, stale: seq<byte>)
    requires AllValid(rs) && |Encode(rs)| < Two31
    requires forall k :: 0 <= k < |rs| ==> KernelPayload(rs[k].payload)
    ensures CDecodeFrom(Encode(rs) + stale, |Encode(rs)|, 0) == Ok(CRecordTuples(rs))
  {
    EncodedRecordsAt([], rs, stale);
    assert [] + Encode(rs) + stale == Encode(rs) + stale;
    CDecodeRecords(Encode(rs) + stale, |Encode(rs)|, 0, rs);
  }

  function CRecordTuples(rs: seq<Record>): (ts: seq<CTuple>)
    requires AllValid(rs)
    ensures |ts| == |rs|
    ensures forall k :: 0 <= k < |rs| ==> ts[k] == CRecordTuple(rs[k])
  {
    if rs == [] then [] else [CRecordTuple(rs[0])] + CRecordTuples(rs[1..])
  }

  /** The end of one call: the result, the descriptor's state, and the
      contents of the static buffer, which outlive the call. */
  datatype CRun = CRun(result: Result<seq<CTuple>>, env: Env, mem: seq<byte>)

  /** Tuples gathered in earlier rounds, put in front of what the remaining
      rounds give; an error discards them. */
  function PrependRun(ts: seq<CTuple>, run: CRun): CRun
  {
    run.(result := Prepend(ts, run.result))
  }

  /** The errors the drain loop raises: a failed or empty read, or a
      record the decoder cannot walk; a failed poll raises nothing. */
  predicate CDrainError(e: Error)
  {
    e == ReadFailed || e == BufferTooSmall || e == OutOfBounds || e == CursorOverflow
  }

  /** The `while (1)` drain loop from a read on: read at most BUF_LEN bytes
      into the static buffer, then finish the round. */
  function CDrain(env: Env, mem: seq<byte>): (run: CRun)
    requires |mem| == BufLen
    ensures |run.mem| == BufLen && env.log < run.env.log
    ensures run.env.log[|env.log|] == ReadCall(BufLen, env.Read(BufLen).0)
    ensures run.result.Ok? ==> run.result.value != []
    ensures run.result.Err? ==> CDrainError(run.result.error)
    decreases |env.answers|, 1
  {
    var (rr, e1) := env.Read(BufLen);
    CRound(rr, e1, mem)
  }

  /** The rest of a round once the read returned rr: a failed read, or one
      that returned no bytes at all, raises and drops the list; otherwise the
      bytes land at the start of the static buffer, are decoded, and a
      zero-timeout poll decides whether another round follows. */
  function CRound(rr: ReadResult, e1: Env, mem: seq<byte>): (run: CRun)
    requires |mem| == BufLen
    requires rr.Data? ==> |rr.bytes| <= BufLen
    ensures |run.mem| == BufLen && e1.log <= run.env.log
    ensures run.result.Ok? ==> rr.Data? && |rr.bytes| > 0 && run.result.value != []
    ensures run.result.Err? ==> CDrainError(run.result.error)
    decreases |e1.answers|, 0
  {
    match rr
    case ReadError => CRun(Err(ReadFailed), e1, mem)
    case Data(bytes) =>
      var mem1 := bytes + mem[|bytes|..];
      if |bytes| == 0 then CRun(Err(BufferTooSmall), e1, mem1)
      else
        match CDecodeFrom(mem1, |bytes|, 0)
        case Err(e) => CRun(Err(e), e1, mem1)
        case Ok(ts) =>
          var (a, e2) := e1.Select(NoWait);
          if a == Ready then PrependRun(ts, CDrain(e2, mem1)) else CRun(Ok(ts), e2, mem1)
  }

  /** The optional timeout argument of get_events as the caller passes it:
      left out, None, or a number of seconds. */
  datatype TimeoutArg = Omitted | NoneArg | Seconds(value: real)

  /** PyArg_ParseTuple(args, "i|f", &fd, &timeout_arg) with timeout_arg
      preset to -1.0: a left-out timeout keeps -1.0, a number is taken as
      it is, and None is no number, so the parser raises TypeError. */
  function ParseTimeout(arg: TimeoutArg): (r: Result<real>)
    ensures r.Err? <==> arg == NoneArg
    ensures r.Err? ==> r.error == BadArgument
    ensures r.Ok? ==> (r.value < 0.0 <==> arg.Omitted? || arg.value < 0.0)
  {
    match arg
    case Omitted => Ok(-1.0)
    case NoneArg => Err(BadArgument)
    case Seconds(x) => Ok(x)
  }

  /** The first wait: a negative timeout argument (the default -1.0) waits
      without limit. */
  function CWait(timeoutArg: real): (t: Timeout)
    ensures t == Forever <==> timeoutArg < 0.0
  {
    if timeoutArg < 0.0 then Forever else Within(timeoutArg)
  }

  /** The call returns: the argument is refused, or its first wait ends. */
  predicate CallReturns(env: Env, arg: TimeoutArg)
  {
    ParseTimeout(arg).Ok? ==> env.Wakes(CWait(ParseTimeout(arg).value))
  }

  /** inotifyx_get_events(fd[, timeout]): parse the timeout, wait once with
      it; 0 ready descriptors give the empty list and a failed wait raises;
      otherwise drain. Without a timeout (or with a negative one) the call
      never returns the empty list: the wait cannot time out, and every
      round that does not raise has read and decoded at least one record. */
  function CGetEvents(env: Env, mem: seq<byte>, arg: TimeoutArg): (run: CRun)
    requires |mem| == BufLen && CallReturns(env, arg)
    ensures |run.mem| == BufLen
    ensures run.result == Err(BadArgument) <==> arg == NoneArg
    ensures arg == NoneArg ==> run.env == env
    ensures (arg.Omitted? || (arg.Seconds? && arg.value < 0.0)) ==> run.result != Ok([])
  {
    match ParseTimeout(arg)
    case Err(e) => CRun(Err(e), env, mem)
    case Ok(timeoutArg) =>
      var (a, e1) := env.Select(CWait(timeoutArg));
      match a
      case NotReady => CRun(Ok([]), e1, mem)
      case Failed => CRun(Err(SelectFailed), e1, mem)
      case Ready => CDrain(e1, mem)
  }

  /** A first wait that times out returns the empty list after that one
      wait, with no read; one that fails raises after that one wait; a
      ready one is followed by a read of at most BUF_LEN bytes. */
  lemma FirstWait(env: Env, mem: seq<byte>, timeoutArg: real)
    requires |mem| == BufLen && env.Wakes(CWait(timeoutArg))
    ensures var (a, _) := env.Select(CWait(timeoutArg));
      var run := CGetEvents(env, mem, Seconds(timeoutArg));
      && (a == NotReady ==> run.result == Ok([]) && run.env.log == env.log + [Selected(CWait(timeoutArg), NotReady)])
      && (a == Failed ==> run.result == Err(SelectFailed) && run.env.log == env.log + [Selected(CWait(timeoutArg), Failed)])
      && (a == Ready ==> |run.env.log| > |env.log| + 1 && run.env.log[|env.log|] == Selected(CWait(timeoutArg), Ready)
                         && run.env.log[|env.log| + 1].ReadCall? && run.env.log[|env.log| + 1].max == BufLen)
  {
    var (a, e1) := env.Select(CWait(timeoutArg));
    var run := CGetEvents(env, mem, Seconds(timeoutArg));
    if a == Ready {
      assert run.env.log[|env.log|] == e1.log[|env.log|];
    }
  }

  /** The calls the drain loop makes: rounds of one read of at most BUF_LEN
      bytes and one zero-wait poll, repeated while the polls report Ready. */
  lemma {:induction false} DrainCalls(env: Env, mem: seq<byte>)
    requires |mem| == BufLen
    ensures Rounds(CDrain(env, mem).env.log, |env.log|, BufLen)
    decreases |env.answers|
  {
    var (rr, e1) := env.Read(BufLen);
    var run := CDrain(env, mem);
    if run.env != e1 {
      RoundPolls(rr, e1, mem);
      var mem1 := rr.bytes + mem[|rr.bytes|..];
      var (a, e2) := e1.Select(NoWait);
      if a == Ready {
        DrainCalls(e2, mem1);
        assert run.env.log[|env.log| + 1] == e2.log[|env.log| + 1];
      }
      RoundStep(run.env.log, |env.log|, a);
    }
  }

  /** A read of BUF_LEN followed by a zero-wait poll starts the rounds of a
      log when the poll's answer decides what follows. */
  lemma RoundStep(log: seq<Call>, i: nat, a: Readiness)
    requires i + 2 <= |log| && log[i].ReadCall? && log[i].max == BufLen
    requires log[i + 1] == Selected(NoWait, a)
    requires a == Ready ==> Rounds(log, i + 2, BufLen)
    requires a != Ready ==> i + 2 == |log|
    ensures Rounds(log, i, BufLen)
  {
  }

  /** How the drain loop ends: it returns its list exactly when it ends on a
      poll (one that reports nothing ready or fails); when it ends on a read,
      it raises and drops every tuple gathered so far, with the I/O error for
      a failed read and "event buffer too small" for an empty one. */
  lemma {:induction false} DrainOutcome(env: Env, mem: seq<byte>)
    requires |mem| == BufLen
    ensures var run := CDrain(env, mem);
      && (run.result.Ok? <==> Last(run.env.log).Selected?)
      && (Last(run.env.log) == ReadCall(BufLen, ReadError) ==> run.result == Err(ReadFailed))
      && (Last(run.env.log) == ReadCall(BufLen, Data([])) ==> run.result == Err(BufferTooSmall))
    decreases |env.answers|
  {
    var (rr, e1) := env.Read(BufLen);
    var run := CRound(rr, e1, mem);
    if run.env == e1 {
      RoundEndsOnRead(rr, e1, mem);
    } else {
      RoundPolls(rr, e1, mem);
      var mem1 := rr.bytes + mem[|rr.bytes|..];
      var (a, e2) := e1.Select(NoWait);
      if a == Ready {
        DrainOutcome(e2, mem1);
      }
    }
  }

  /** One read's worth of kernel records: well formed, written as the
      kernel writes them, at least one, and fitting in BUF_LEN. */
  predicate KernelBatch(rs: seq<Record>)
  {
    && AllValid(rs) && 0 < |Encode(rs)| <= BufLen
    && forall k :: 0 <= k < |rs| ==> KernelPayload(rs[k].payload)
  }

  predicate KernelBatches(rss: seq<seq<Record>>)
  {
    forall j :: 0 <= j < |rss| ==> KernelBatch(rss[j])
  }

  /** The reads of a descriptor that hands out the batches in order. */
  function BatchReads(rss: seq<seq<Record>>): (p: seq<ReadResult>)
    requires KernelBatches(rss)
    ensures |p| == |rss| && forall j :: 0 <= j < |rss| ==> p[j] == Data(Encode(rss[j]))
  {
    if rss == [] then []
    else
      assert KernelBatches(rss[1..]) by { BatchesTail(rss); }
      [Data(Encode(rss[0]))] + BatchReads(rss[1..])
  }

  lemma BatchesTail(rss: seq<seq<Record>>)
    requires KernelBatches(rss) && rss != []
    ensures KernelBatches(rss[1..])
  {
    forall j | 0 <= j < |rss[1..]| ensures KernelBatch(rss[1..][j]) {
      assert rss[1..][j] == rss[j + 1];
    }
  }

  /** The C tuples of the batches, batch after batch. */
  function BatchTuples(rss: seq<seq<Record>>): seq<CTuple>
    requires KernelBatches(rss)
  {
    if rss == [] then []
    else
      assert KernelBatches(rss[1..]) by { BatchesTail(rss); }
      CRecordTuples(rss[0]) + BatchTuples(rss[1..])
  }

  /** The first read of a scripted descriptor hands out the first batch
      whole, and the rest of the script stays pending. */
  lemma FirstBatch(env: Env, rss: seq<seq<Record>>)
    requires KernelBatches(rss) && rss != [] && env.pending == BatchReads(rss)
    ensures KernelBatches(rss[1..])
    ensures env.Read(BufLen).0 == Data(Encode(rss[0]))
    ensures env.Read(BufLen).1.pending == BatchReads(rss[1..])
  {
    BatchesTail(rss);
    assert KernelBatch(rss[0]);
  }

  /** A round over a batch of kernel records: its tuples, then the poll. */
  lemma BatchRound(rs: seq<Record>, e1: Env, mem: seq<byte>)
    requires KernelBatch(rs) && |mem| == BufLen
    ensures var bytes := Encode(rs);
      var mem1 := bytes + mem[|bytes|..];
      var (a, e2) := e1.Select(NoWait);
      CRound(Data(bytes), e1, mem) ==
        if a == Ready then PrependRun(CRecordTuples(rs), CDrain(e2, mem1)) else CRun(Ok(CRecordTuples(rs)), e2, mem1)
  {
    var bytes := Encode(rs);
    CDecodeEncoded(rs, mem[|bytes|..]);
  }

  /** A run that succeeds returned the tuples of the first n batches of
      the script, n being how many batches it read (at least one). */
  predicate Collects(run: CRun, rss: seq<seq<Record>>)
    requires KernelBatches(rss)
  {
    run.result.Ok? ==>
      && |run.env.pending| < |rss|
      && run.result.value == BatchTuples(rss[..|rss| - |run.env.pending|])
  }

  /** The tuples of the first batch in front of those of the batches the
      later rounds read are the tuples of all batches read. */
  lemma LaterBatches(rss: seq<seq<Record>>, rest: CRun, run: CRun)
    requires KernelBatches(rss) && rss != [] && KernelBatches(rss[1..])
    requires run == PrependRun(CRecordTuples(rss[0]), rest) && Collects(rest, rss[1..])
    ensures Collects(run, rss)
  {
    if run.result.Ok? {
      var m := |rss| - 1 - |rest.env.pending|;
      assert rss[..m + 1][1..] == rss[1..][..m] && rss[..m + 1][0] == rss[0];
    }
  }

  /** A drain that stops after its first round returned the first batch. */
  lemma OnlyBatch(rss: seq<seq<Record>>, run: CRun)
    requires KernelBatches(rss) && rss != [] && |run.env.pending| == |rss| - 1
    requires run.result == Ok(CRecordTuples(rss[0]))
    ensures Collects(run, rss)
  {
    assert rss[..1][1..] == [] && rss[..1][0] == rss[0];
    assert BatchTuples(rss[..1]) == CRecordTuples(rss[0]) + [];
  }

  /** The first round of a drain over a script of kernel batches: the
      read hands out the first batch, its tuples come first, and the poll
      decides whether the loop goes on over the rest of the script. */
  lemma DrainBatch(env: Env, mem: seq<byte>, rss: seq<seq<Record>>)
    requires |mem| == BufLen && KernelBatches(rss) && rss != [] && env.pending == BatchReads(rss)
    ensures KernelBatches(rss[1..])
    ensures var e1 := env.Read(BufLen).1;
      var bytes := Encode(rss[0]);
      var mem1 := bytes + mem[|bytes|..];
      var (a, e2) := e1.Select(NoWait);
      && |mem1| == BufLen && e2.pending == BatchReads(rss[1..])
      && (a == Ready ==> |e2.answers| < |env.answers|)
      && CDrain(env, mem) ==
        if a == Ready then PrependRun(CRecordTuples(rss[0]), CDrain(e2, mem1))
        else CRun(Ok(CRecordTuples(rss[0])), e2, mem1)
  {
    FirstBatch(env, rss);
    BatchRound(rss[0], env.Read(BufLen).1, mem);
  }

  /** A drain over a descriptor with nothing left to read raises "event
      buffer too small": the read returns no bytes. */
  lemma DrainEmptyScript(env: Env, mem: seq<byte>)
    requires |mem| == BufLen && env.pending == []
    ensures CDrain(env, mem).result == Err(BufferTooSmall)
  {
    assert env.Read(BufLen).0 == Data([]);
  }

  /** What the drain loop returns when every read hands out whole kernel
      records: the tuples of every batch it read, in read order, none
      dropped and none repeated across rounds, whatever the static buffer
      held before. The batches read are the first n of the script, where n
      is how many reads the loop used up (at least one). */
  lemma {:induction false} CDrainEvents(env: Env, mem: seq<byte>, rss: seq<seq<Record>>)
    requires |mem| == BufLen && KernelBatches(rss) && env.pending == BatchReads(rss)
    ensures Collects(CDrain(env, mem), rss)
    decreases |env.answers|
  {
    if rss == [] {
      DrainEmptyScript(env, mem);
    } else {
      DrainBatch(env, mem, rss);
      var e1 := env.Read(BufLen).1;
      var bytes := Encode(rss[0]);
      var mem1 := bytes + mem[|bytes|..];
      var (a, e2) := e1.Select(NoWait);
      if a == Ready {
        CDrainEvents(e2, mem1, rss[1..]);
        LaterBatches(rss, CDrain(e2, mem1), CDrain(env, mem));
      } else {
        OnlyBatch(rss, CDrain(env, mem));
      }
    }
  }

  /** A round that does not reach its poll leaves the descriptor as the
      read left it and raises: the read's own error, "event buffer too
      small" for an empty read, or the decoder's error. */
  lemma RoundEndsOnRead(rr: ReadResult, e1: Env, mem: seq<byte>)
    requires |mem| == BufLen && (rr.Data? ==> |rr.bytes| <= BufLen)
    requires CRound(rr, e1, mem).env == e1
    ensures var run := CRound(rr, e1, mem);
      && run.result.Err?
      && (rr == ReadError ==> run.result == Err(ReadFailed))
      && (rr == Data([]) ==> run.result == Err(BufferTooSmall))
  {
    if rr.Data? && |rr.bytes| > 0 {
      var mem1 := rr.bytes + mem[|rr.bytes|..];
      if CDecodeFrom(mem1, |rr.bytes|, 0).Ok? {
        assert false;
      }
    }
  }

  /** A round that reaches its poll: the read returned bytes that decoded,
      and the poll decides the rest. */
  lemma RoundPolls(rr: ReadResult, e1: Env, mem: seq<byte>)
    requires |mem| == BufLen && (rr.Data? ==> |rr.bytes| <= BufLen)
    requires CRound(rr, e1, mem).env != e1
    ensures rr.Data? && |rr.bytes| > 0
    ensures var mem1 := rr.bytes + mem[|rr.bytes|..];
      var (a, e2) := e1.Select(NoWait);
      && CDecodeFrom(mem1, |rr.bytes|, 0).Ok?
      && var ts := CDecodeFrom(mem1, |rr.bytes|, 0).value;
      CRound(rr, e1, mem) == if a == Ready then PrependRun(ts, CDrain(e2, mem1)) else CRun(Ok(ts), e2, mem1)
  {
  }

  lemma PrependRunNil(run: CRun)
    ensures PrependRun([], run) == run
  {
    PrependNil(run.result);
  }

  lemma PrependRunTwice(a: seq<CTuple>, b: seq<CTuple>, run: CRun)
    ensures PrependRun(a, PrependRun(b, run)) == PrependRun(a + b, run)
  {
    PrependTwice(a, b, run.result);
  }

  /** A round whose bytes fail to decode raises the decoder's error. */
  lemma RoundFails(rr: ReadResult, e1: Env, mem: seq<byte>, e: Error)
    requires |mem| == BufLen && rr.Data? && 0 < |rr.bytes| <= BufLen
    requires CDecodeFrom(rr.bytes + mem[|rr.bytes|..], |rr.bytes|, 0) == Err(e)
    ensures CRound(rr, e1, mem) == CRun(Err(e), e1, rr.bytes + mem[|rr.bytes|..])
  {
  }

  /** The extension module's state: the static buffer of get_events, which
      the first call finds zeroed and every call leaves as its reads left
      it. */
  class Module {
    const buf: array<byte>

    predicate Valid()
    {
      buf.Length == BufLen
    }

    constructor ()
      ensures Valid() && fresh(buf) && buf[..] == Zeros(BufLen)
    {
      buf := new byte[BufLen](_ => 0);
    }

    /** The `while (i < len)` loop of inotifyx_get_events over the `len`
        bytes just read: the tuples of the records from offset 0, or the
        point where the C code would leave the buffer or overflow its
        cursor. */
    method DecodeBuffer(len: int) returns (r: Result<seq<CTuple>>)
      requires Valid() && 0 < len <= BufLen
      ensures r == CDecodeFrom(buf[..], len, 0)
    {
      ghost var mem := buf[..];
      var got: seq<CTuple> := [];
      PrependNil(CDecodeFrom(mem, len, 0));
      var i := 0;
      while i < len
        invariant CDecodeFrom(mem, len, 0) == Prepend(got, CDecodeFrom(mem, len, i))
        decreases len - i
      {
        if i + EventSize > BufLen {
          return Err(OutOfBounds);
        }
        var h := HeaderAt(buf[..], i);
        var name: Option<seq<byte>> := None;
        if h.len > 0 {
          if i + EventSize == BufLen {
            return Err(OutOfBounds);
          }
          if buf[i + EventSize] != 0 {
            name := CStringAt(buf[..], i + EventSize);
            if name.None? {
              return Err(OutOfBounds);
            }
          }
        }
        var t := EventTuple(h.wd, AsSigned(h.mask), AsSigned(h.cookie), name);
        if i + EventSize + h.len >= Two31 {
          return Err(CursorOverflow);
        }
        PrependTwice(got, [t], CDecodeFrom(mem, len, i + EventSize + h.len));
        got := got + [t];
        i := i + EventSize + h.len;
      }
      assert got + [] == got;
      return Ok(got);
    }

    /** inotifyx_get_events(fd[, timeout]). */
    method GetEvents(fd: Fd, arg: TimeoutArg) returns (r: Result<seq<CTuple>>)
      requires Valid() && CallReturns(fd.State(), arg)
      modifies fd, buf
      ensures CRun(r, fd.State(), buf[..]) == CGetEvents(old(fd.State()), old(buf[..]), arg)
    {
      ghost var env0, mem0 := fd.State(), buf[..];
      var timeoutArg := ParseTimeout(arg);
      if timeoutArg.Err? {
        return Err(BadArgument);
      }
      var ready := fd.Select(CWait(timeoutArg.value));
      if ready == NotReady {
        return Ok([]);
      } else if ready == Failed {
        return Err(SelectFailed);
      }
      var events: seq<CTuple> := [];
      PrependRunNil(CDrain(fd.State(), buf[..]));
      while true
        invariant CGetEvents(env0, mem0, arg) == PrependRun(events, CDrain(fd.State(), buf[..]))
        decreases |fd.answers|
      {
        ghost var envR, memR := fd.State(), buf[..];
        ghost var rr := envR.Read(BufLen).0;
        ghost var goal := CGetEvents(env0, mem0, arg);
        var len := fd.ReadInto(buf, BufLen);
        ghost var e1 := fd.State();
        assert goal == PrependRun(events, CRound(rr, e1, memR));
        if len < 0 {
          return Err(ReadFailed);
        } else if len == 0 {
          return Err(BufferTooSmall);
        }
        var decoded := DecodeBuffer(len);
        if decoded.Err? {
          RoundFails(rr, e1, memR, decoded.error);
          return Err(decoded.error);
        }
        var more := fd.Select(NoWait);
        PrependRunTwice(events, decoded.value, CDrain(fd.State(), buf[..]));
        events := events + decoded.value;
        if more != Ready {
          break;
        }
      }
      return Ok(events);
    }
  }
}
