/** The Python 2 reader, get_events(fd, timeout=None) of gevent_inotifyx.py:
    the same wait, read, decode and poll loop as the Python 3 reader, with
    names left as the byte strings the slice and rstrip produce (no codec)
    and a read size computed in place as 1024 * (_EVENT_SIZE + 16). */
module GeventInotifyxPy2 {
  import opened Base
  import opened Wire
  import opened Kernel
  import opened EventDecoder
  import Inotifyx
  import opened GeventInotifyx

  /** _BUF_LEN: room for 1024 events whose names take 16 bytes; the same
      32768 bytes as the C binding's BUF_LEN. */
  function ReadSize(): (n: nat)
    ensures n == BufLen && n % (EventSize + 16) == 0 && n / (EventSize + 16) == 1024
  {
    1024 * (EventSize + 16)
  }

  /** With raw names, the only error the decoding loop can raise is
      struct.error on a header cut short. */
  lemma {:induction false} RawErrors(buf: seq<byte>, i: nat)
    ensures DecodeFrom(buf, i, Raw).Err? ==> DecodeFrom(buf, i, Raw) == Err(Truncated)
    decreases |buf| - i
  {
    if i < |buf| && i + EventSize <= |buf| {
      var h := HeaderAt(buf, i);
      var name := NameAt(buf, i, h.len, Raw).value;
      Step(buf, i, Raw, name);
      RawErrors(buf, i + EventSize + h.len);
    }
  }

  lemma {:induction false} DrainErrors(env: Env)
    ensures var r := PyDrain(env, Raw).result;
      r.Err? ==> r.error == ReadFailed || r.error == SelectFailed || r.error == Truncated
    decreases |env.answers|
  {
    var (rr, e1) := env.Read(BufLen);
    if rr.Data? {
      RawErrors(rr.bytes, 0);
      if Decode(rr.bytes, Raw).Ok? {
        var (a, e2) := e1.Select(NoWait);
        if a == Ready {
          DrainErrors(e2);
        }
      }
    }
  }

  /** get_events raises only what select, os.read and struct raise: no name
      can make it fail. */
  lemma Py2Errors(env: Env, timeout: Option<real>)
    requires env.Wakes(PyWait(timeout))
    ensures var r := PyGetEvents(env, timeout, Raw).result;
      r.Err? ==> r.error == ReadFailed || r.error == SelectFailed || r.error == Truncated
  {
    var (a, e1) := env.Select(PyWait(timeout));
    if a == Ready {
      DrainErrors(e1);
    }
  }

  lemma {:induction false} EachNameClean(bufs: seq<seq<byte>>)
    ensures DecodeEach(bufs, Raw).Ok? ==>
              forall k :: 0 <= k < |DecodeEach(bufs, Raw).value| ==> NameClean(DecodeEach(bufs, Raw).value[k])
  {
    if bufs != [] && DecodeEach(bufs, Raw).Ok? {
      var ts := Decode(bufs[0], Raw).value;
      NamesHaveNoTrailingNul(bufs[0], 0);
      EachNameClean(bufs[1..]);
      var rest := DecodeEach(bufs[1..], Raw).value;
      assert DecodeEach(bufs, Raw).value == ts + rest;
      forall k | 0 <= k < |ts + rest| ensures NameClean((ts + rest)[k]) {
        if k >= |ts| {
          assert (ts + rest)[k] == rest[k - |ts|];
        }
      }
    }
  }

  /** Every name in a returned list has lost its NUL terminator and
      padding: it is empty or ends in a byte other than NUL. */
  lemma Py2NamesClean(env: Env, timeout: Option<real>)
    requires env.Wakes(PyWait(timeout))
    ensures var r := PyGetEvents(env, timeout, Raw).result;
      r.Ok? ==> forall k :: 0 <= k < |r.value| ==> NameClean(r.value[k])
  {
    var (a, e1) := env.Select(PyWait(timeout));
    if a == Ready {
      PyDrainEvents(e1, Raw);
      var run := PyDrain(e1, Raw);
      EachNameClean(ReadsFrom(run.env.log, |e1.log|));
    }
  }

  /** gevent_inotifyx.get_events(fd, timeout) under Python 2. */
  method GetEvents(fd: Fd, timeout: Option<real>) returns (r: Result<seq<Inotifyx.InotifyEvent<seq<byte>>>>)
    requires fd.State().Wakes(PyWait(timeout))
    modifies fd
    ensures var run := PyGetEvents(old(fd.State()), timeout, Raw);
      && fd.State() == run.env
      && (r.Ok? <==> run.result.Ok?)
      && (r.Err? ==> r.error == run.result.error)
      && (r.Ok? ==> Inotifyx.Snapshot(r.value) == run.result.value)
  {
    r := GeventInotifyx.GetEvents(fd, timeout, Raw);
  }
}
