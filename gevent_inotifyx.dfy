/** The Python 3 reader, get_events(fd, timeout=None) of
    gevent_inotifyx/__init__.py: one readiness wait with the caller's timeout
    (an empty list when nothing is ready), then rounds of one os.read of at
    most _BUF_LEN bytes, the cursor decoder over the bytes read, appending an
    InotifyEvent per record to one list, and a zero-timeout poll that decides
    whether another round follows. Names go through the filesystem codec;
    `codec` stands for it. Any exception (from select, os.read, struct or the
    codec) ends the call and the list is lost. */
module GeventInotifyx {
  import opened Base
  import opened Wire
  import opened Kernel
  import opened EventDecoder
  import Inotifyx
  import MaskDescription

  /** `_BUF_LEN = inotifyx.BUF_LEN`, evaluated when the module is imported:
      an attribute lookup on the vendored inotifyx module, whose IN_* and
      BUF_LEN globals are exactly those its import loop copied from the
      binding listed by `attrs` (its other globals are functions, a class,
      a dict and imported modules). */
  function ImportedBufLen(attrs: MaskDescription.Table): (r: Result<nat>)
    requires Inotifyx.Available(Inotifyx.BindingNames, attrs)
    ensures r.Ok? ==> ("BUF_LEN", r.value) in Inotifyx.Collected(Inotifyx.BindingNames, attrs)
    ensures r.Err? ==> r.error == AttributeMissing
    ensures (forall e :: e in Inotifyx.Collected(Inotifyx.BindingNames, attrs) ==> e.0 != "BUF_LEN") ==>
      r == Err(AttributeMissing)
  {
    MaskDescription.LookupSpec(Inotifyx.Collected(Inotifyx.BindingNames, attrs), "BUF_LEN");
    match MaskDescription.Lookup(Inotifyx.Collected(Inotifyx.BindingNames, attrs), "BUF_LEN")
    case None => Err(AttributeMissing)
    case Some(n) => Ok(n)
  }

  /** The binding registers no BUF_LEN, so the lookup raises AttributeError
      and importing gevent_inotifyx fails before get_events can run. */
  lemma ImportFails(attrs: MaskDescription.Table)
    requires Inotifyx.Available(Inotifyx.BindingNames, attrs)
    ensures ImportedBufLen(attrs) == Err(AttributeMissing)
  {
    Inotifyx.NoBufLen(attrs);
  }

  /** The end of one call: its result and the descriptor's state. */
  datatype PyRun<N> = PyRun(result: Result<seq<EventTuple<N>>>, env: Env)

  function PrependPy<N>(ts: seq<EventTuple<N>>, run: PyRun<N>): PyRun<N>
  {
    run.(result := Prepend(ts, run.result))
  }

  lemma PrependPyNil<N>(run: PyRun<N>)
    ensures PrependPy([], run) == run
  {
    PrependNil(run.result);
  }

  lemma PrependPyTwice<N>(a: seq<EventTuple<N>>, b: seq<EventTuple<N>>, run: PyRun<N>)
    ensures PrependPy(a, PrependPy(b, run)) == PrependPy(a + b, run)
  {
    PrependTwice(a, b, run.result);
  }

  /** The first wait: timeout None blocks until the descriptor is readable. */
  function PyWait(timeout: Option<real>): (t: Timeout)
    ensures t == Forever <==> timeout == None
  {
    match timeout
    case None => Forever
    case Some(s) => Within(s)
  }

  /** The exceptions a call can end with: select's, os.read's, and the
      decoder's. */
  predicate PyError(e: Error)
  {
    e == SelectFailed || e == ReadFailed || e == Truncated || e == NameUndecodable
  }

  /** The `while True` loop from an os.read on: it starts with a read of at
      most _BUF_LEN bytes. */
  function PyDrain<N>(env: Env, codec: seq<byte> -> Option<N>): (run: PyRun<N>)
    ensures env.log < run.env.log
    ensures run.env.log[|env.log|] == ReadCall(BufLen, env.Read(BufLen).0)
    ensures run.result.Err? ==> PyError(run.result.error)
    decreases |env.answers|, 1
  {
    var (rr, e1) := env.Read(BufLen);
    PyRound(rr, e1, codec)
  }

  /** The rest of a round once os.read returned rr: a failed read raises;
      the bytes read (possibly none) are decoded, a decoding exception
      raises, and the zero-timeout poll either starts another round (ready),
      ends the loop (nothing ready) or raises (failed). */
  function PyRound<N>(rr: ReadResult, e1: Env, codec: seq<byte> -> Option<N>): (run: PyRun<N>)
    ensures e1.log <= run.env.log
    ensures run.result.Ok? ==> rr.Data? && Decode(rr.bytes, codec).Ok?
    ensures run.result.Err? ==> PyError(run.result.error)
    ensures rr == ReadError ==> run == PyRun(Err(ReadFailed), e1)
    decreases |e1.answers|, 0
  {
    match rr
    case ReadError => PyRun(Err(ReadFailed), e1)
    case Data(bytes) =>
      match Decode(bytes, codec)
      case Err(e) => PyRun(Err(e), e1)
      case Ok(ts) =>
        var (a, e2) := e1.Select(NoWait);
        match a
        case Ready => PrependPy(ts, PyDrain(e2, codec))
        case NotReady => PyRun(Ok(ts), e2)
        case Failed => PyRun(Err(SelectFailed), e2)
  }

  /** get_events(fd, timeout): the first wait, then the drain loop. The
      first call is the wait; with no timeout the call either raises right
      after that wait or goes on to read. A call whose unbounded wait would
      never wake does not return and is not in the domain. */
  function PyGetEvents<N>(env: Env, timeout: Option<real>, codec: seq<byte> -> Option<N>): (run: PyRun<N>)
    requires env.Wakes(PyWait(timeout))
    ensures env.log < run.env.log && run.env.log[|env.log|].Selected?
    ensures run.env.log[|env.log|].timeout == PyWait(timeout)
    ensures run.result.Err? ==> PyError(run.result.error)
    ensures timeout == None ==>
      || (run.result == Err(SelectFailed) && |run.env.log| == |env.log| + 1)
      || (|run.env.log| > |env.log| + 1 && run.env.log[|env.log| + 1].ReadCall?)
  {
    var (a, e1) := env.Select(PyWait(timeout));
    match a
    case NotReady => PyRun(Ok([]), e1)
    case Failed => PyRun(Err(SelectFailed), e1)
    case Ready => PyDrain(e1, codec)
  }

  /** A first wait that times out gives the empty list after that one wait
      and no read; a failed one raises after that one wait; a ready one is
      followed by a read of at most _BUF_LEN bytes. */
  lemma PyFirstWait<N>(env: Env, timeout: Option<real>, codec: seq<byte> -> Option<N>)
    requires env.Wakes(PyWait(timeout))
    ensures var (a, _) := env.Select(PyWait(timeout));
      var run := PyGetEvents(env, timeout, codec);
      && (a == NotReady ==> run.result == Ok([]) && run.env.log == env.log + [Selected(PyWait(timeout), NotReady)])
      && (a == Failed ==> run.result == Err(SelectFailed) && run.env.log == env.log + [Selected(PyWait(timeout), Failed)])
      && (a == Ready ==> |run.env.log| > |env.log| + 1
                         && run.env.log[|env.log|] == Selected(PyWait(timeout), Ready)
                         && run.env.log[|env.log| + 1].ReadCall?
                         && run.env.log[|env.log| + 1].max == BufLen)
  {
    var (a, e1) := env.Select(PyWait(timeout));
    if a == Ready {
      var run := PyDrain(e1, codec);
      PyDrainCalls(e1, codec);
      assert run.env.log[|env.log|] == e1.log[|env.log|];
    }
  }

  /** The calls of the drain loop: rounds of one read of at most _BUF_LEN
      bytes and one zero-timeout poll, repeated while the polls report
      ready. */
  lemma {:induction false} PyDrainCalls<N>(env: Env, codec: seq<byte> -> Option<N>)
    ensures Rounds(PyDrain(env, codec).env.log, |env.log|, BufLen)
    decreases |env.answers|
  {
    var (rr, e1) := env.Read(BufLen);
    assert e1.log[|env.log|] == ReadCall(BufLen, rr);
    if rr.Data? && Decode(rr.bytes, codec).Ok? {
      var (a, e2) := e1.Select(NoWait);
      assert e2.log[|env.log| + 1] == Selected(NoWait, a);
      if a == Ready {
        PyDrainCalls(e2, codec);
      }
    }
  }

  /** How the drain loop ends: with its list exactly when its last call is a
      poll that found nothing ready; with the I/O error when that call is a
      failed read or a failed poll; and with the decoder's error on the last
      bytes read when that call is a successful read. */
  lemma {:induction false} PyDrainOutcome<N>(env: Env, codec: seq<byte> -> Option<N>)
    ensures var run := PyDrain(env, codec);
      && (run.result.Ok? <==> Last(run.env.log) == Selected(NoWait, NotReady))
      && (Last(run.env.log) == ReadCall(BufLen, ReadError) ==> run.result == Err(ReadFailed))
      && (Last(run.env.log) == Selected(NoWait, Failed) ==> run.result == Err(SelectFailed))
      && (Last(run.env.log).ReadCall? && Last(run.env.log).result.Data? ==>
            Decode(Last(run.env.log).result.bytes, codec).Err? &&
            run.result == Decode(Last(run.env.log).result.bytes, codec))
    decreases |env.answers|
  {
    var (rr, e1) := env.Read(BufLen);
    if rr.Data? && Decode(rr.bytes, codec).Ok? {
      var (a, e2) := e1.Select(NoWait);
      if a == Ready {
        PyDrainOutcome(e2, codec);
        PrependNil(PyDrain(e2, codec).result);
      }
    }
  }

  /** The bytes of every successful read in the log from position i on. */
  function ReadsFrom(log: seq<Call>, i: nat): seq<seq<byte>>
    decreases |log| - i
  {
    if i >= |log| then []
    else
      (if log[i].ReadCall? && log[i].result.Data? then [log[i].result.bytes] else []) + ReadsFrom(log, i + 1)
  }

  /** The events of several buffers, each decoded on its own, in order. */
  function DecodeEach<N>(bufs: seq<seq<byte>>, codec: seq<byte> -> Option<N>): Result<seq<EventTuple<N>>>
  {
    if bufs == [] then Ok([])
    else
      match Decode(bufs[0], codec)
      case Err(e) => Err(e)
      case Ok(ts) => Prepend(ts, DecodeEach(bufs[1..], codec))
  }

  lemma {:induction false} ReadsFromPrefix(log: seq<Call>, i: nat, j: nat)
    requires i <= j <= |log|
    requires forall k :: i <= k < j ==> !log[k].ReadCall?
    ensures ReadsFrom(log, i) == ReadsFrom(log, j)
    decreases j - i
  {
    if i < j {
      ReadsFromPrefix(log, i + 1, j);
    }
  }

  /** The reads of one round that reached its poll. */
  lemma ReadsOfRound(log: seq<Call>, n: nat, bytes: seq<byte>)
    requires n + 2 <= |log| && log[n] == ReadCall(BufLen, Data(bytes)) && log[n + 1].Selected?
    ensures ReadsFrom(log, n) == [bytes] + ReadsFrom(log, n + 2)
  {
    var rest := ReadsFrom(log, n + 2);
    assert !log[n + 1].ReadCall?;
    assert ReadsFrom(log, n + 1) == rest by {
      assert [] + rest == rest;
    }
    assert log[n].result.bytes == bytes;
  }

  lemma DecodeEachCons<N>(bytes: seq<byte>, rest: seq<seq<byte>>, codec: seq<byte> -> Option<N>)
    requires Decode(bytes, codec).Ok?
    ensures DecodeEach([bytes] + rest, codec) == Prepend(Decode(bytes, codec).value, DecodeEach(rest, codec))
  {
    assert ([bytes] + rest)[0] == bytes && ([bytes] + rest)[1..] == rest;
  }

  /** A round that returns a list: its read returned bytes that decoded
      and the poll after it did not fail; the list is those events followed
      by the next rounds' when the poll reported ready. */
  lemma RoundReturns<N>(rr: ReadResult, e1: Env, codec: seq<byte> -> Option<N>)
    requires PyRound(rr, e1, codec).result.Ok?
    ensures rr.Data? && Decode(rr.bytes, codec).Ok?
    ensures var (a, e2) := e1.Select(NoWait);
      var run := PyRound(rr, e1, codec);
      var ts := Decode(rr.bytes, codec).value;
      && e2.log <= run.env.log
      && (a == Ready ==> run == PrependPy(ts, PyDrain(e2, codec)))
      && (a != Ready ==> run == PyRun(Ok(ts), e2))
  {
  }

  /** A returned list holds the events of every buffer read during the call,
      decoded buffer by buffer, in the order of the reads: no event is
      dropped, repeated or reordered across rounds. */
  lemma {:induction false} PyDrainEvents<N>(env: Env, codec: seq<byte> -> Option<N>)
    ensures var run := PyDrain(env, codec);
      run.result.Ok? ==> run.result == DecodeEach(ReadsFrom(run.env.log, |env.log|), codec)
    decreases |env.answers|
  {
    var (rr, e1) := env.Read(BufLen);
    var run := PyRound(rr, e1, codec);
    if run.result.Ok? {
      RoundReturns(rr, e1, codec);
      var (a, e2) := e1.Select(NoWait);
      var bytes := rr.bytes;
      var ts := Decode(bytes, codec).value;
      var log := run.env.log;
      var n := |env.log|;
      assert e2.log == env.log + [ReadCall(BufLen, rr), Selected(NoWait, a)];
      assert log[n] == e2.log[n] && log[n + 1] == e2.log[n + 1];
      ReadsOfRound(log, n, bytes);
      DecodeEachCons(bytes, ReadsFrom(log, n + 2), codec);
      if a == Ready {
        PyDrainEvents(e2, codec);
      } else {
        assert ReadsFrom(log, n + 2) == [];
        assert ts + [] == ts;
      }
    }
  }

  /** A read that returned no bytes does not end the call: no events come
      from it and the poll that follows decides, as after any other read. */
  lemma EmptyReadPolls<N>(e1: Env, codec: seq<byte> -> Option<N>)
    ensures var (a, e2) := e1.Select(NoWait);
      PyRound(Data([]), e1, codec) ==
        match a
        case Ready => PyDrain(e2, codec)
        case NotReady => PyRun(Ok([]), e2)
        case Failed => PyRun(Err(SelectFailed), e2)
  {
    var (a, e2) := e1.Select(NoWait);
    assert Decode([], codec) == Ok([]);
    if a == Ready {
      PrependPyNil(PyDrain(e2, codec));
    }
  }

  /** The fields of the events appended so far, one more appended. */
  lemma SnapshotAppend<N>(es: seq<Inotifyx.InotifyEvent<N>>, e: Inotifyx.InotifyEvent<N>)
    ensures Inotifyx.Snapshot(es + [e]) == Inotifyx.Snapshot(es) + [e.Fields()]
  {
  }

  /** One turn of the decoding loop, with its event appended to the list. */
  lemma AppendStep<N>(got: seq<Inotifyx.InotifyEvent<N>>, e: Inotifyx.InotifyEvent<N>, buf: seq<byte>, i: nat,
                      codec: seq<byte> -> Option<N>)
    requires i + EventSize <= |buf|
    requires var h := HeaderAt(buf, i);
      && NameAt(buf, i, h.len, codec) == Some(e.name)
      && e.Fields() == EventTuple(h.wd, h.mask, h.cookie, e.name)
    ensures Prepend(Inotifyx.Snapshot(got), DecodeFrom(buf, i, codec))
         == Prepend(Inotifyx.Snapshot(got + [e]), DecodeFrom(buf, i + EventSize + HeaderAt(buf, i).len, codec))
  {
    var h := HeaderAt(buf, i);
    Step(buf, i, codec, e.name);
    SnapshotAppend(got, e);
    PrependTwice(Inotifyx.Snapshot(got), [e.Fields()], DecodeFrom(buf, i + EventSize + h.len, codec));
  }

  /** Appending to an error leaves the error; the error comes from the tail. */
  lemma PrependErr<N>(ts: seq<EventTuple<N>>, r: Result<seq<EventTuple<N>>>, e: Error)
    ensures Prepend(ts, r) == Err(e) <==> r == Err(e)
  {
  }

  /** The `while i < len(buf)` loop over the bytes of one read: one
      InotifyEvent per record appended to the list, or the exception that
      ends the call (struct.error on a header cut short, the codec's error on
      a name it rejects). */
  method AppendEvents<N>(events: seq<Inotifyx.InotifyEvent<N>>, buf: seq<byte>, codec: seq<byte> -> Option<N>)
    returns (r: Result<seq<Inotifyx.InotifyEvent<N>>>)
    ensures r.Ok? <==> Decode(buf, codec).Ok?
    ensures r.Err? ==> r.error == Decode(buf, codec).error
    ensures r.Ok? ==> Inotifyx.Snapshot(r.value) == Inotifyx.Snapshot(events) + Decode(buf, codec).value
  {
    ghost var before := Inotifyx.Snapshot(events);
    var got := events;
    PrependNil(Decode(buf, codec));
    var i := 0;
    while i < |buf|
      invariant Prepend(before, Decode(buf, codec)) == Prepend(Inotifyx.Snapshot(got), DecodeFrom(buf, i, codec))
      decreases |buf| - i
    {
      if i + EventSize > |buf| {
        assert DecodeFrom(buf, i, codec) == Err(Truncated);
        PrependErr(before, Decode(buf, codec), Truncated);
        return Err(Truncated);
      }
      var h := HeaderAt(buf, i);
      var name: Option<N> := None;
      if h.len > 0 {
        var start := i + EventSize;
        var end := start + h.len;
        var decoded := codec(RStripNul(PySlice(buf, start, end)));
        if decoded.None? {
          PrependErr(before, Decode(buf, codec), NameUndecodable);
          return Err(NameUndecodable);
        }
        name := Some(decoded.value);
      }
      var e := new Inotifyx.InotifyEvent(h.wd, h.mask, h.cookie, name);
      AppendStep(got, e, buf, i, codec);
      got := got + [e];
      i := i + EventSize + h.len;
    }
    assert Inotifyx.Snapshot(got) + [] == Inotifyx.Snapshot(got);
    return Ok(got);
  }

  /** get_events(fd, timeout): the list of InotifyEvent objects holds the
      events the specification gives, and the descriptor sees the same
      calls. */
  method GetEvents<N>(fd: Fd, timeout: Option<real>, codec: seq<byte> -> Option<N>)
    returns (r: Result<seq<Inotifyx.InotifyEvent<N>>>)
    requires fd.State().Wakes(PyWait(timeout))
    modifies fd
    ensures var run := PyGetEvents(old(fd.State()), timeout, codec);
      && fd.State() == run.env
      && (r.Ok? <==> run.result.Ok?)
      && (r.Err? ==> r.error == run.result.error)
      && (r.Ok? ==> Inotifyx.Snapshot(r.value) == run.result.value)
  {
    ghost var goal := PyGetEvents(fd.State(), timeout, codec);
    var ready := fd.Select(PyWait(timeout));
    if ready == NotReady {
      return Ok([]);
    } else if ready == Failed {
      return Err(SelectFailed);
    }
    var events: seq<Inotifyx.InotifyEvent<N>> := [];
    PrependPyNil(PyDrain(fd.State(), codec));
    while true
      invariant goal == PrependPy(Inotifyx.Snapshot(events), PyDrain(fd.State(), codec))
      decreases |fd.answers|
    {
      var rr := fd.Read(BufLen);
      ghost var e1 := fd.State();
      assert goal == PrependPy(Inotifyx.Snapshot(events), PyRound(rr, e1, codec));
      if rr.ReadError? {
        return Err(ReadFailed);
      }
      ghost var before := Inotifyx.Snapshot(events);
      var appended := AppendEvents(events, rr.bytes, codec);
      if appended.Err? {
        return Err(appended.error);
      }
      events := appended.value;
      ghost var ts := Decode(rr.bytes, codec).value;
      var more := fd.Select(NoWait);
      if more == Failed {
        return Err(SelectFailed);
      }
      PrependPyTwice(before, ts, PyDrain(fd.State(), codec));
      if more == NotReady {
        break;
      }
    }
    return Ok(events);
  }
}
