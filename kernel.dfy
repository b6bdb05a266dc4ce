/** The environment of get_events: the inotify descriptor seen through the
    two calls the readers make on it, a readiness wait (gevent.select or
    select(2)) and a read (os.read or read(2)). Neither is part of the model:
    each is an oracle that hands out the next scripted answer and records the
    call in a log, so that contracts can speak about which calls were made, in
    which order and with which arguments. */
module Kernel {
  import opened Wire

  /** How long the first readiness wait may block: forever (timeout None in
      Python, a negative timeout argument in C) or for a number of seconds. */
  datatype Timeout = Forever | Within(seconds: real)

  /** The wait of every poll after the first read: select(..., 0). */
  const NoWait: Timeout := Within(0.0)

  /** What a readiness wait reports: readable, timed out, or failed. */
  datatype Readiness = Ready | NotReady | Failed

  /** What a read returns: the bytes read, or a failure (errno). */
  datatype ReadResult = Data(bytes: seq<byte>) | ReadError

  datatype Call =
    | Selected(timeout: Timeout, answer: Readiness)
    | ReadCall(max: nat, result: ReadResult)

  /** The descriptor's state: the answers the next waits will give, the
      results the next reads will give, and the log of calls made so far. */
  datatype Env = Env(answers: seq<Readiness>, pending: seq<ReadResult>, log: seq<Call>) {

    /** Whether a wait with timeout t returns at all: a bounded wait always
        does; an unbounded one only when some answer still to come is not a
        timeout (a descriptor that never wakes keeps it blocked). */
    predicate Wakes(t: Timeout)
    {
      t.Within? || exists k :: 0 <= k < |answers| && answers[k] != NotReady
    }

    /** One readiness wait. A bounded wait takes the next answer, and once
        the script is used up the descriptor stays idle. An unbounded wait
        cannot time out: it passes over the timeouts in the script up to
        the first answer that wakes it. Only the answer list shrinks; a
        Ready answer always uses one up. */
    function Select(t: Timeout): (r: (Readiness, Env))
      requires Wakes(t)
      ensures r.1.pending == pending && r.1.log == log + [Selected(t, r.0)]
      ensures r.0 == Ready ==> |r.1.answers| < |answers|
      ensures |r.1.answers| <= |answers|
      ensures t == Forever ==> r.0 != NotReady
    {
      if t == Forever then
        var k := FirstWake(answers);
        (answers[k], Env(answers[k + 1..], pending, log + [Selected(t, answers[k])]))
      else if answers == [] then (NotReady, Env([], pending, log + [Selected(t, NotReady)]))
      else (answers[0], Env(answers[1..], pending, log + [Selected(t, answers[0])]))
    }

    /** One read of at most `max` bytes: the next scripted result, cut to
        `max` bytes; a read past the end of the script returns no bytes. */
    function Read(max: nat): (r: (ReadResult, Env))
      ensures r.1.answers == answers && r.1.log == log + [ReadCall(max, r.0)]
      ensures r.0.Data? ==> |r.0.bytes| <= max
      ensures pending == [] ==> r.0 == Data([]) && r.1.pending == []
      ensures pending != [] ==> r.1.pending == pending[1..]
      ensures pending != [] && pending[0].Data? && |pending[0].bytes| <= max ==> r.0 == pending[0]
    {
      if pending == [] then (Data([]), Env(answers, [], log + [ReadCall(max, Data([]))]))
      else
        var rr := match pending[0]
          case ReadError => ReadError
          case Data(b) => Data(if |b| <= max then b else b[..max]);
        (rr, Env(answers, pending[1..], log + [ReadCall(max, rr)]))
    }
  }

  /** The position of the first answer that is not a timeout. */
  function FirstWake(answers: seq<Readiness>): (k: nat)
    requires exists k :: 0 <= k < |answers| && answers[k] != NotReady
    ensures k < |answers| && answers[k] != NotReady
    ensures forall j :: 0 <= j < k ==> answers[j] == NotReady
  {
    if answers[0] != NotReady then 0
    else
      assert exists k :: 0 <= k < |answers[1..]| && answers[1..][k] != NotReady by {
        var k :| 0 <= k < |answers| && answers[k] != NotReady;
        assert answers[1..][k - 1] == answers[k];
      }
      1 + FirstWake(answers[1..])
  }

  /** The inotify file descriptor as one object whose state the calls change. */
  class Fd {
    var answers: seq<Readiness>
    var pending: seq<ReadResult>
    var log: seq<Call>

    function State(): Env
      reads this
    {
      Env(answers, pending, log)
    }

    constructor (answers: seq<Readiness>, pending: seq<ReadResult>)
      ensures State() == Env(answers, pending, [])
    {
      this.answers, this.pending, this.log := answers, pending, [];
    }

    /** gevent.select([fd], [], [], timeout) / select(2) on fd alone. */
    method Select(t: Timeout) returns (a: Readiness)
      requires State().Wakes(t)
      modifies this
      ensures (a, State()) == old(State()).Select(t)
    {
      var r := State().Select(t);
      a := r.0;
      answers, pending, log := r.1.answers, r.1.pending, r.1.log;
    }

    /** os.read(fd, max): a fresh bytes object. */
    method Read(max: nat) returns (rr: ReadResult)
      modifies this
      ensures (rr, State()) == old(State()).Read(max)
    {
      var r := State().Read(max);
      rr := r.0;
      answers, pending, log := r.1.answers, r.1.pending, r.1.log;
    }

    /** read(fd, buf, max) in C: the bytes land at the start of `buf`, the rest
        of `buf` keeps its old contents, and the count (-1 on failure) is
        returned. */
    method ReadInto(buf: array<byte>, max: nat) returns (n: int)
      requires max <= buf.Length
      modifies this, buf
      ensures var (rr, env) := old(State()).Read(max);
        && State() == env
        && (rr.ReadError? ==> n == -1 && buf[..] == old(buf[..]))
        && (rr.Data? ==> n == |rr.bytes| && buf[..] == rr.bytes + old(buf[..])[n..])
    {
      var r := State().Read(max);
      answers, pending, log := r.1.answers, r.1.pending, r.1.log;
      match r.0
      case ReadError =>
        n := -1;
      case Data(b) =>
        n := |b|;
        forall k | 0 <= k < n {
          buf[k] := b[k];
        }
    }
  }

  /** The last call of a log. */
  function Last<T>(s: seq<T>): T
    requires s != []
  {
    s[|s| - 1]
  }

  /** The calls one drain loop makes after the first wait, from position i
      of the log to its end: a read of at most `max` bytes, then, unless
      that read ended the call, a zero-wait poll; a new round follows exactly
      when the poll answered Ready. */
  predicate Rounds(log: seq<Call>, i: nat, max: nat)
    decreases |log| - i
  {
    && i < |log|
    && log[i].ReadCall? && log[i].max == max
    && (i + 1 < |log| ==>
          && log[i + 1].Selected? && log[i + 1].timeout == NoWait
          && (log[i + 1].answer == Ready ==> Rounds(log, i + 2, max))
          && (log[i + 1].answer != Ready ==> i + 2 == |log|))
  }
}
