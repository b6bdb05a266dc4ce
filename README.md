# gevent_inotifyx: the inotify event reader, modelled in Dafny

gevent_inotifyx replaces the C function `inotifyx_get_events` with a
pure-Python reader that waits on the inotify descriptor through gevent's
`select`. It blocks only the calling greenlet. It then reads the kernel's
event buffer and decodes it with `struct.unpack_from('iIII', ...)`. The
package ships two copies of that reader, one for Python 3 and one for
Python 2. It also vendors the inotifyx package, whose C binding has its
own `get_events` and whose Python layer wraps the tuples in `InotifyEvent`
objects.

This project models the three readers side by side:

- the Python 3 reader, `gevent_inotifyx/__init__.py`;
- the Python 2 reader, `gevent_inotifyx.py`;
- the C reader, `gevent_inotifyx/vendor/inotifyx/binding.c`.

It also models the vendored Python layer:

- the import loop that collects the `IN_*` constants;
- the `InotifyEvent` record;
- `get_mask_description`;
- the `get_events` wrapper.

## Modules

- `Base` (`base.dfy`): `Option`, `Result`, and the errors the readers raise.
- `Wire` (`wire.dfy`): the `struct inotify_event` wire format.
  - A 16-byte little-endian header holds wd, mask, cookie and len.
  - The header is followed by `len` bytes of NUL-padded name.
  - It defines `EventSize` = 16 and `BufLen` = 1024 * (16 + 16) = 32768.
  - It defines the C `int` view of a 32-bit word.
- `Kernel` (`kernel.dfy`): the inotify descriptor, modelled as a scripted environment.
  - It holds the answers `select` will give and the reads that are pending.
  - It keeps a log of every call.
  - `Fd` is the mutable descriptor the methods use.
- `EventDecoder` (`decoder.dfy`): the inner loop of the Python readers, as a function.
  - It covers the `struct.unpack_from` header read and the `buf[start:end]` slice with Python's clipping.
  - It covers `rstrip(b'\0')` and the name codec: identity on Python 2, `.decode(ENCODING)` on Python 3.
- `Binding` (`binding.dfy`): the C binding.
  - It covers the `IN_*` table, the default mask of `add_watch` and the C decode loop.
  - It covers the C `get_events` wait/read/poll loop, as a function (`CGetEvents`) and as a method over the static buffer (`Module.GetEvents`).
- `Bitwise` (`bitwise.dfy`): bitwise `&` and `|` on naturals, with their bit-set meaning.
- `MaskDescription` (`maskdesc.dfy`): `get_mask_description` and the `eval` of its result.
- `Inotifyx` (`inotifyx.dfy`): the vendored Python layer.
  - It covers the constants loop over `dir(binding)`, `InotifyEvent` and `get_events`.
- `GeventInotifyx` (`gevent_inotifyx.dfy`): the Python 3 reader.
  - It covers the `_BUF_LEN` import, the drain as a function (`PyGetEvents`), and the reader as a method (`GetEvents`) with its inner loop (`AppendEvents`).
- `GeventInotifyxPy2` (`gevent_inotifyx_py2.dfy`): the Python 2 reader.
- `Versions` (`versions.dfy`): where the three readers agree and where they differ.

The source and its description of the Python 3 module differ in one place. The code reads `_BUF_LEN = inotifyx.BUF_LEN`, but the vendored binding never registers `BUF_LEN`. The model follows the code: importing the module fails. The Python 3 reader is then modelled with the buffer size that was evidently intended, 32768, the value of the `BUF_LEN` macro. See Findings.

## Model

| member | source | states |
|---|---|---|
| Wire.AsSigned | gevent_inotifyx/vendor/inotifyx/binding.c:186-200 | The C `int` view of a 32-bit word, as `Py_BuildValue("i", ...)` receives mask and cookie. It is a 32-bit signed value equal to the word or the word minus 2^32, and it is non-negative exactly when the word is below 2^31. |
| Wire.AsUnsigned | gevent_inotifyx/vendor/inotifyx/binding.c:73-75 | Every C `int` is the signed view of exactly one 32-bit word: the result is a 32-bit word whose signed view is the input. |
| Wire.U32RoundTrip | gevent_inotifyx/__init__.py:63 | Reading a little-endian `I` field back from its four bytes gives back the value. |
| Wire.HeaderRoundTrip | gevent_inotifyx/__init__.py:63 | `unpack_from('iIII')` at offset 0 of a packed header gives back its wd, mask, cookie and len. |
| Wire.HeaderBytesAt | gevent_inotifyx/__init__.py:63 | The other direction: any 16 bytes unpack to a header, and packing that header gives back exactly those bytes. |
| Kernel.Fd.Select | gevent_inotifyx/__init__.py:54 | One `select` on the descriptor. It logs the call with its timeout and leaves the pending reads alone. A bounded wait takes the next scripted answer. A wait without a timeout never times out: it answers ready or failed. |
| Kernel.Fd.Read | gevent_inotifyx/__init__.py:60 | `os.read(fd, n)`: the next pending read, at most `n` bytes. An empty queue gives an empty read. The call is logged. |
| Kernel.Fd.ReadInto | gevent_inotifyx/vendor/inotifyx/binding.c:166-178 | `read(fd, buf, BUF_LEN)` into the static buffer. A failure returns -1 and leaves the buffer as it was. Otherwise it returns the byte count, the bytes land at the start of the buffer, and the rest keeps its old contents. |
| EventDecoder.PySliceIs | gevent_inotifyx/__init__.py:66-69 | `buf[start:end]` is the bytes from `start` to `end` clipped to the buffer length, never an error. |
| EventDecoder.RStripNulSpec | gevent_inotifyx/__init__.py:69 | `rstrip(b'\0')` yields a prefix of its input that is empty or does not end in NUL. Everything it removed is NUL. |
| EventDecoder.FirstEvent | gevent_inotifyx.py:44-54 | One turn of the inner loop at offset i. The header fits, and the first event carries the header's wd, mask and cookie. Its name is None exactly when len is 0, and is otherwise the stripped clipped slice. |
| EventDecoder.DecodeEncoded | gevent_inotifyx.py:41-54 | Decoding the concatenated records the kernel writes gives back each record's fields in order. |
| EventDecoder.StripPadding | gevent_inotifyx.py:50-51 | Stripping trailing NULs from a name that does not end in NUL, followed by any NUL padding, gives back the name. |
| EventDecoder.EventRoundTrip | gevent_inotifyx.py:41-54 | Any list of events whose names carry no trailing NUL, encoded with any padding, decodes back to exactly that list. |
| EventDecoder.DecodeThroughCodec | gevent_inotifyx/__init__.py:69 | Decoding with a name codec is decoding the raw bytes, then applying the codec to each name. A raw failure is still a failure. |
| EventDecoder.NameAt | gevent_inotifyx/__init__.py:64-69 | The name is None exactly when len is 0. A name that is present is the codec's reading of the payload slice with its trailing NULs stripped. |
| EventDecoder.DecodeFrom | gevent_inotifyx/__init__.py:61-72 | From the end of the buffer the loop gives no events. From inside it, a success holds at least one event, and the events fit the bytes left at 16 bytes each at least. The only errors are a truncated header and a name the codec rejects. |
| EventDecoder.Decode | gevent_inotifyx/__init__.py:60-72 | An empty read gives no events. A nonempty buffer that decodes gives at least one event and at most one per 16 bytes. The only errors are `struct.error` and the codec's. |
| EventDecoder.NamesHaveNoTrailingNul | gevent_inotifyx.py:50-51 | Every name the decoder returns has no trailing NUL. |
| Binding.AddWatchMask | gevent_inotifyx/vendor/inotifyx/binding.c:73-77 | With no mask argument the mask is `IN_ALL_EVENTS`. A given mask is accepted exactly when it fits a C `int` and is stored as the 32-bit word with that signed value. |
| Binding.CStringAt | gevent_inotifyx/vendor/inotifyx/binding.c:185-192 | A string that is found is NUL-free and is followed by a NUL inside the buffer. |
| Binding.CStringAtSpec | gevent_inotifyx/vendor/inotifyx/binding.c:185-192 | The `s` conversion of `event->name` exists exactly when a NUL follows inside the buffer. Then it is the NUL-free bytes up to that first NUL. |
| Binding.NameRule | gevent_inotifyx/vendor/inotifyx/binding.c:185-201 | The name is None exactly when len <= 0 or the first name byte is NUL. Otherwise it is the nonempty NUL-free string up to the first NUL. It fails only when no NUL follows inside the buffer. |
| Binding.CNameAt | gevent_inotifyx/vendor/inotifyx/binding.c:185-201 | A name that is present comes from a record with len > 0 and is nonempty and NUL-free. The only failure is a read past the static buffer, and it needs len > 0. |
| Binding.CDecodeFrom | gevent_inotifyx/vendor/inotifyx/binding.c:180-210 | At or past `len` the loop gives no tuples. Before it, a success holds n >= 1 tuples with (n - 1) * 16 < len - i: each tuple starts before `len`, 16 bytes or more after the one before. The only errors are a read past the buffer and cursor overflow. |
| Binding.CDecodeEncoded | gevent_inotifyx/vendor/inotifyx/binding.c:180-210 | Over the kernel's concatenated records, followed by any stale bytes, the C loop yields each record's wd, signed mask, signed cookie and C-string name. |
| Binding.ParseTimeout | gevent_inotifyx/vendor/inotifyx/binding.c:129-132 | `PyArg_ParseTuple(args, "i\|f", ...)` raises `TypeError` exactly when the timeout is None. A left-out timeout is negative (-1.0), and a number is kept, so the timeout is negative exactly when it is left out or a negative number. |
| Binding.CWait | gevent_inotifyx/vendor/inotifyx/binding.c:129-140 | The first `select` waits forever exactly when the timeout argument is negative. The default is -1.0. |
| Binding.FirstWait | gevent_inotifyx/vendor/inotifyx/binding.c:142-167 | For a numeric timeout: a first `select` that times out gives `[]`. One that fails raises. One that is ready is followed by the drain, whose first call is a `read` of `BUF_LEN` bytes. |
| Binding.CGetEvents | gevent_inotifyx/vendor/inotifyx/binding.c:112-224 | The static buffer keeps its size. A None timeout raises `TypeError` before any call on the descriptor, and it is the only cause of that error. A left-out or negative timeout never gives `[]`: the wait cannot time out, and a drain that succeeds returns at least one tuple. |
| Binding.CDrain | gevent_inotifyx/vendor/inotifyx/binding.c:165-221 | The drain starts with a `read` of `BUF_LEN` bytes. A success is a nonempty list. Its errors are a failed read, an empty read, and a record the decoder cannot walk; a failed poll is never an error. |
| Binding.CRound | gevent_inotifyx/vendor/inotifyx/binding.c:170-220 | A round succeeds only after a nonempty read, and then with a nonempty list. Its errors are the drain's. |
| Binding.DrainCalls | gevent_inotifyx/vendor/inotifyx/binding.c:165-221 | The drain alternates one `read` of `BUF_LEN` bytes with one zero-timeout `select` and ends on a read or on a poll. |
| Binding.DrainOutcome | gevent_inotifyx/vendor/inotifyx/binding.c:165-221 | The drain succeeds exactly when its last call was a poll. A last read that failed raises `IOError`. A last empty read raises "event buffer too small". |
| Binding.CDrainEvents | gevent_inotifyx/vendor/inotifyx/binding.c:165-221 | When each read hands out a batch of whole kernel records, a successful drain returns the tuples of every batch it read (at least one), batch after batch, in read order. Nothing is dropped or repeated across rounds, whatever the static buffer held before. |
| Binding.RoundEndsOnRead | gevent_inotifyx/vendor/inotifyx/binding.c:170-178 | A round that stops at its read is an error: `ReadFailed` for a failed read, `BufferTooSmall` for an empty one. |
| Binding.RoundPolls | gevent_inotifyx/vendor/inotifyx/binding.c:180-220 | A round that reaches its poll read a nonempty buffer and decoded all of it. Its events come first in the result. |
| Binding.Module.DecodeBuffer | gevent_inotifyx/vendor/inotifyx/binding.c:180-210 | The imperative decode loop over the static buffer returns what the decode function gives for the bytes read. |
| Binding.Module.GetEvents | gevent_inotifyx/vendor/inotifyx/binding.c:112-224 | The C `get_events` over the mutable descriptor and static buffer. It leaves them, and returns, what `CGetEvents` gives for the old state. |
| Bitwise.AndBits | gevent_inotifyx/vendor/inotifyx/__init__.py:100 | The set bits of `a & b` are exactly the bits set in both. |
| Bitwise.OrBits | gevent_inotifyx/vendor/inotifyx/__init__.py:90-95 | The set bits of `a \| b` are exactly the bits set in either. |
| MaskDescription.Describe | gevent_inotifyx/vendor/inotifyx/__init__.py:87-104 | The description is "0" when no constant shares a bit with the mask. When the constants have identifier names, it is "0" exactly then. |
| MaskDescription.LookupSpec | gevent_inotifyx/vendor/inotifyx/__init__.py:94-95 | In the `from inotifyx import *` namespace, a name that is bound is bound by an entry of the table, and a name is unbound (a `NameError`) exactly when no entry has it. |
| MaskDescription.EvalParts | gevent_inotifyx/vendor/inotifyx/__init__.py:94-95 | Evaluating `a\|b\|...` raises `NameError` exactly when one of the names is unbound. |
| MaskDescription.Eval | gevent_inotifyx/vendor/inotifyx/__init__.py:90-95 | `eval` of a description raises `NameError` exactly when it is not "0" and one of its bar-separated names is unbound. Otherwise it gives a non-negative value. |
| MaskDescription.MatchingSpec | gevent_inotifyx/vendor/inotifyx/__init__.py:98-101 | The collected parts are exactly the constants that share a bit with the mask. The list is empty exactly when none does. |
| MaskDescription.SplitJoin | gevent_inotifyx/vendor/inotifyx/__init__.py:102-103 | Splitting `'\|'.join(parts)` at the bars gives back the parts when no part contains a bar. |
| MaskDescription.EvalDescribe | gevent_inotifyx/vendor/inotifyx/__init__.py:87-104 | Evaluating the description yields the bitwise-or of exactly the constants that overlap the mask, or 0. |
| MaskDescription.RoundTripIff | gevent_inotifyx/vendor/inotifyx/__init__.py:87-95 | The documented promise `mask == eval(description)` holds exactly when the mask is a 32-bit word, every overlapping constant lies inside the mask, and those constants cover all its bits. |
| MaskDescription.ExactRoundTrip | gevent_inotifyx/vendor/inotifyx/__init__.py:87-95 | Corrected description (constants inside the mask only): `eval` gives the mask back exactly when those constants cover it. |
| MaskDescription.ExactOnConstant | gevent_inotifyx/vendor/inotifyx/__init__.py:87-95 | The corrected description of any nonzero constant evaluates back to it. |
| Inotifyx.BindingNamesSorted | gevent_inotifyx/vendor/inotifyx/__init__.py:46 | The names `dir(binding)` lists are in ascending order, each once. |
| Inotifyx.CollectConstants | gevent_inotifyx/vendor/inotifyx/__init__.py:44-48 | The import loop builds exactly the collected table of `IN_*` and `BUF_LEN` attributes. |
| Inotifyx.Collected | gevent_inotifyx/vendor/inotifyx/__init__.py:44-48 | The dict has at most one entry per listed name, and every entry's name is `IN_*` or `BUF_LEN`. |
| Inotifyx.CollectedSpec | gevent_inotifyx/vendor/inotifyx/__init__.py:46-48 | An entry is collected exactly when its name is listed, is `IN_*` or `BUF_LEN`, and the module maps it to that value. |
| Inotifyx.CollectedOrdered | gevent_inotifyx/vendor/inotifyx/__init__.py:46-48 | Collected names keep the ascending order of `dir`. |
| Inotifyx.RegisteredOnce | gevent_inotifyx/vendor/inotifyx/binding.c:309-331 | The binding registers each constant name once. |
| Inotifyx.ImportedConstants | gevent_inotifyx/vendor/inotifyx/__init__.py:44-48 | Over the binding's registered constants, the loop yields the 23 `IN_*` entries sorted by name, with the values `binding.c` registers. `binding.c` registers the `<sys/inotify.h>` macros by name only; the numeric values are Linux's, which the model assumes. |
| Inotifyx.NoBufLen | gevent_inotifyx/vendor/inotifyx/__init__.py:47-48 | Whatever the binding's attributes, the names `dir` lists do not include `BUF_LEN`, so the loop never collects it. |
| Inotifyx.ConstantsWellFormed | gevent_inotifyx/vendor/inotifyx/binding.c:309-331 | The collected constants have distinct nonempty names, none of them "0" or holding a bar, and 32-bit values, so a description of them can be split and looked up unambiguously. |
| Inotifyx.EventMasksDoNotRoundTrip | gevent_inotifyx/vendor/inotifyx/__init__.py:87-95 | For any mask with some but not all of the `IN_ALL_EVENTS` bits, `eval(get_mask_description())` is not the mask. |
| Inotifyx.CreateDoesNotRoundTrip | gevent_inotifyx/vendor/inotifyx/__init__.py:87-95 | The plain `IN_CREATE` event does not round-trip. |
| Inotifyx.CreateExactRoundTrip | gevent_inotifyx/vendor/inotifyx/__init__.py:87-95 | Under the corrected description the `IN_CREATE` event round-trips. |
| Inotifyx.ExactOnConstants | gevent_inotifyx/vendor/inotifyx/__init__.py:87-95 | Under the corrected description every registered constant round-trips. |
| Inotifyx.InotifyEvent.constructor | gevent_inotifyx/vendor/inotifyx/__init__.py:69-73 | An event holds the four fields it was built from. |
| Inotifyx.InotifyEvent.GetMaskDescription | gevent_inotifyx/vendor/inotifyx/__init__.py:87-104 | The method's loop builds the description the specification function gives. The properties above are proved of that function. |
| Inotifyx.Wrap | gevent_inotifyx/vendor/inotifyx/__init__.py:118-121 | Each tuple becomes a fresh `InotifyEvent` with the same fields, in order. |
| Inotifyx.GetEvents | gevent_inotifyx/vendor/inotifyx/__init__.py:107-121 | `inotifyx.get_events` is the C reader's outcome with each tuple wrapped, and the C reader's errors unchanged, `TypeError` for a None timeout among them. |
| GeventInotifyx.ImportedBufLen | gevent_inotifyx/__init__.py:35 | `_BUF_LEN` is the value of the dict's `BUF_LEN` entry. The lookup raises `AttributeError` when the dict has no such entry, and that is its only error. |
| GeventInotifyx.ImportFails | gevent_inotifyx/__init__.py:35 | Reading `inotifyx.BUF_LEN` raises `AttributeError` for any binding whose `dir` is the registered names. |
| GeventInotifyx.PyWait | gevent_inotifyx/__init__.py:43-54 | The first `select` waits forever exactly when the timeout is None. |
| GeventInotifyx.PyGetEvents | gevent_inotifyx/__init__.py:43-78 | The first call is the wait, with the caller's timeout. With timeout None, the call either raises right after that wait or goes on to an `os.read`: it never returns `[]` from a timed-out wait. The only errors are those of `select`, `os.read`, `struct` and the codec. |
| GeventInotifyx.PyDrain | gevent_inotifyx/__init__.py:59-78 | The loop starts with an `os.read` of `_BUF_LEN` bytes. Its errors are those of `select`, `os.read`, `struct` and the codec. |
| GeventInotifyx.PyRound | gevent_inotifyx/__init__.py:60-76 | A round returns a list only after a read whose bytes decoded. A failed read ends the call at once. Its errors are those of `select`, `os.read`, `struct` and the codec. |
| GeventInotifyx.PyFirstWait | gevent_inotifyx/__init__.py:54-59 | A first `select` that times out gives `[]`. One that fails raises. One that is ready is followed by a read of `_BUF_LEN` bytes. |
| GeventInotifyx.PyDrainCalls | gevent_inotifyx/__init__.py:59-76 | The drain alternates one `os.read` of 32768 bytes with one zero-timeout `select`. |
| GeventInotifyx.PyDrainOutcome | gevent_inotifyx/__init__.py:59-78 | The drain succeeds exactly when its last call was a poll that found nothing ready. A failed read, a failed poll and an undecodable buffer each end it with their own error. |
| GeventInotifyx.PyDrainEvents | gevent_inotifyx/__init__.py:59-78 | A successful drain returns the decoded events of every buffer it read, in read order. |
| GeventInotifyx.EmptyReadPolls | gevent_inotifyx/__init__.py:60-74 | An empty read decodes nothing and goes on to the poll; it does not stop the drain. |
| GeventInotifyx.AppendEvents | gevent_inotifyx/__init__.py:61-72 | The inner loop appends the buffer's decoded events to the list, or fails with the decoder's error. |
| GeventInotifyx.GetEvents | gevent_inotifyx/__init__.py:43-78 | The Python 3 `get_events` over the mutable descriptor. It leaves the descriptor, and returns, what `PyGetEvents` gives for the old state. |
| GeventInotifyxPy2.ReadSize | gevent_inotifyx.py:20-22 | `_BUF_LEN` is 32768: room for 1024 headers, each with a 16-byte name. |
| GeventInotifyxPy2.RawErrors | gevent_inotifyx.py:44-54 | Without a name codec, the inner loop's only failure is a truncated header. |
| GeventInotifyxPy2.Py2Errors | gevent_inotifyx.py:25-60 | The Python 2 reader fails only with a failed read, a failed `select` or a truncated header. |
| GeventInotifyxPy2.Py2NamesClean | gevent_inotifyx.py:25-60 | Every name the Python 2 reader returns has no trailing NUL. |
| GeventInotifyxPy2.GetEvents | gevent_inotifyx.py:25-60 | The Python 2 reader is the Python 3 reader's loop with the identity codec, over the same descriptor. |
| Versions.ReadersAgree | gevent_inotifyx/vendor/inotifyx/binding.c:180-210 | For kernel records with NUL-free names, both decoders read the buffer in full. Python returns the events. C returns the same events with mask and cookie as C `int`s, and with an empty name (an all-NUL payload, where Python's strip gives `''`) as None (binding.c:185 against gevent_inotifyx/__init__.py:65-69). |
| Versions.EmptyReadDiffers | gevent_inotifyx/vendor/inotifyx/binding.c:174-178 | After an empty read the C reader raises "event buffer too small" without polling, while the Python reader goes on to poll. |
| Versions.FailedPollDiffers | gevent_inotifyx/vendor/inotifyx/binding.c:216-220 | In a round whose zero-timeout poll fails, the C reader returns the round's decoded events, while the Python reader raises. |
| Versions.EmbeddedNul | gevent_inotifyx/vendor/inotifyx/binding.c:185-192 | For a name with an embedded NUL, Python keeps everything before the trailing NULs and C stops at the first NUL. |

## Left out

- Python 2 dictionary order: on Python 2 `constants.items()` iterates in hash order, not insertion order. The model uses the Python 3 order, which is the order of `dir` (sorted).
- The Python 3 `"iiis"` conversion in the C reader decodes the name as UTF-8 and fails on invalid bytes. It then passes NULL to `PyList_Append`. The model treats names as bytes and does not model that failure.
- Binding.CDecodeFrom: the C loop's cursor update (binding.c:209) is not modelled bit for bit. `i += EVENT_SIZE + event->len` adds in `size_t` and stores the sum back into the `int` cursor. The model stops with `CursorOverflow` as soon as the new cursor would reach 2^31. It cannot happen for records the kernel writes, whose `len` fields keep every record inside the bytes read. A forged header can trigger it. With `len` 0x7FFFFFF0 at offset 0 the cursor goes negative, and the next turn reads before the start of the buffer. With `len` 0xFFFFFFF0 at offset 0 the sum is 2^32, which converts back to 0, so the C loop appends the same tuple forever and the call never returns. The model's `CursorOverflow` and its `decreases` clause stand for that non-termination; they do not claim the C code stops.
- Binding.CWait: the float timeout and the `tv_usec` computation are not modelled. Only whether the wait is bounded is modelled.
- The length of the wait is not modelled. A timeout is only "forever" or "bounded". A bounded wait may time out. A forever wait never does: it returns when the descriptor becomes ready or `select` fails. A call whose forever wait would never wake does not return, so it lies outside the model's domain. The readers require a descriptor whose script still holds a waking answer (`Kernel.Env.Wakes`, `Binding.CallReturns`).
- The scripted descriptor follows two conventions. A read with nothing left in its script returns no bytes. A scripted read longer than the requested size is cut to that size, and the rest of it is dropped.
- Inotifyx.GetEvents: the docstring says a None timeout blocks forever. The code passes the timeout to the binding, whose `"i|f"` format rejects None with `TypeError`. The model follows the code. A forever wait is reached by leaving the timeout out or passing a negative number.
- The `__str__` and `__repr__` methods of `InotifyEvent` are left out. They format strings for display and state nothing about events.
- `init`, `add_watch` and `rm_watch` are left out because they are plain system calls. Only `add_watch`'s mask defaulting and conversion are modelled.
- The `__main__` command-line programs are left out.
- Greenlet scheduling inside gevent's `select` is left out; `select` is an answer from a scripted environment.
- The errors are not distinguished by errno, so EINTR and similar conditions are not told apart.
- GeventInotifyx.GetEvents: the file-system encoding is a parameter, an arbitrary partial function from bytes to names. Python's codecs are not modelled.
- The header fields are decoded little-endian: `struct`'s native byte order is fixed to that of the platforms inotify runs on.
- GeventInotifyxPy2.GetEvents: the Python 2 reader is the same loop as the Python 3 one with the identity codec. Its contract is the Python 3 reader's contract for that codec.
- Memory-allocation failures (`PyList_New`, `Py_BuildValue` returning NULL) are not modelled.

## Findings

| source | as written | input that shows it | evidently intended | confidence | as-written member | corrected member |
|---|---|---|---|---|---|---|
| gevent_inotifyx/vendor/inotifyx/__init__.py:87-104 | the description names every constant that shares a bit with the mask, and the docstring promises `mask == eval(description)` | an `IN_CREATE` event (mask 0x100) is described as including `IN_ALL_EVENTS`, which evaluates to 0xFFF | name only the constants that lie inside the mask, so the description evaluates back to it | high, not executed | Inotifyx.CreateDoesNotRoundTrip | Inotifyx.CreateExactRoundTrip |
| gevent_inotifyx/__init__.py:35 | `_BUF_LEN = inotifyx.BUF_LEN` | importing the module: the binding never registers `BUF_LEN`, so the vendored import loop never copies it and the lookup raises `AttributeError` | `_BUF_LEN = 1024 * (_EVENT_SIZE + 16)`, as in the Python 2 module | medium, not executed | GeventInotifyx.ImportFails | GeventInotifyx.PyDrainCalls |
