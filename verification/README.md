# A verified model of WebRTC's base library

A Dafny model of the parts of `webrtc/rtc_base` and `webrtc/common_audio` where the reasoning is
hardest: locks and shutdown, shared storage, bytes on the wire and on disk, bit strings, filters and
address tables. Nothing here calls the original code; each module restates what one source file does
and proves what it is for.

| file | what it models | main result |
|---|---|---|
| `CriticalSection.dfy` | the hand-built recursive lock, as atomic steps of any number of threads | mutual exclusion, no lost wake-up, no overtaking of the queue, a waiter can always get in; exactly when a call succeeds |
| `AsyncInvoker.dfy` | shutting down an invoker while closures run | no use after destruction; can always finish, unless started inside a closure, when it can get stuck |
| `CopyOnWriteBuffer.dfy` | handles that share counted storage | each behaves like a byte string of its own over any run |
| `AsyncTcpSocket.dfy` | packets over a byte stream | for every fragmentation, a prefix of what was sent, in order; nothing is held back that the socket would take |
| `FileRotatingStream.dfy` | the call session log | the beginning and the end of the log, how much of it, within the budget |
| `NatServer.dfy` | the NAT simulator | mapping and filtering laws over every run |
| `Network.dfy` | merging network lists | a key keeps its object; reports exactly the changes |
| `BitBuffer.dfy` | bit reader and writer, Exp-Golomb and non-symmetric codes | any sequence of typed values reads back |
| `FirFilter.dfy` | scalar, SSE and NEON filters | all are the convolution of the whole stream |
| `Crc32.dfy` | the table-driven checksum | polynomial division by the generator of CRC-32; every burst of 32 bits is detected |
| `WavHeader.dfy` | WAV headers | written headers read back among any other chunks |
| `IpAddress.dfy` | address order, truncation, masks | truncation is masking exactly for contiguous masks |
| `HttpAttributes.dfy` | the attribute parser and `quote` | printing and parsing is the identity exactly for names the parser can find |
| `RingBuffer.dfy` | the ring buffer | refines an unbounded tape |
| `Bytes.dfy`, `Sums.dfy` | shared helpers | |

Protocols between threads are state machines over values, one transition for each atomic operation;
everything that the source updates in place is a class or an array here. What the original gets from
outside is a parameter or is left to chance: how many bytes a socket takes, which error it reports,
which address a new socket has, whether seeking beyond the end of a file fails, the order in which
threads run.

## Where the code does not do what one expects

Each of these is stated exactly, with a concrete case and the condition under which the promise holds.

- `AsyncTCPSocket::Send` lets packets of 65536 to 65538 bytes pass, but their length does not fit the
  16-bit field (`AsyncTcpSocket.LostSizes`, `Framing.OversizeIsMisread`).
- A hard error after part of a frame has been written clears the buffer and puts the stream out of step
  (`AsyncTcpSocket.TcpSocket.Send`, `AsyncTcpSocket.SendAcrossError`).
- An `AsyncInvoker` that is destroyed by one of its own closures, on the thread of that closure, waits for
  ever (`AsyncInvoker.NeverParkedForEver`, `AsyncInvoker.DestroyedInsideItsClosure`).
- The scalar filter overwrites its input when it is given one array for both, and then never hears it; the
  vector filters copy first (`FirFilter.InPlaceIffSilent`).
- `Network::SetIPs` promises to tell whether the address set changed; with a list that repeats an address
  it may not (`NetworkManager.TrustedIffNoDuplicates`, `NetworkManager.RepetitionHidesLoss`).
- `WhitelistContains` returns true when the address is not in the list (`NatServer.TransEntry.WhitelistContains`).
- `CheckWavParameters` leaves room for the PCM header only, so that the RIFF size of a float file can wrap
  round (`WavHeader.RiffSizeIsExactIff`, `WavHeader.RiffSizeWraps`); the reader wraps in the same way, and the round trip holds.
- The capacity clause of `CopyOnWriteBuffer::IsConsistent` can be lost on a shared storage by a handle
  without capacity, in `SetData`, `AppendData`, `Clear` and `data()`, and by appending nothing to an empty
  buffer. The contracts of the four say exactly when; `SetSize` and `EnsureCapacity` keep the clause
  (`CopyOnWriteBuffer.AppendNothing`, `CopyOnWriteBuffer.TouchEmptySlice`).
- `CopyOnWriteBuffer::Clear` promises not to alter the capacity; the sole owner of a storage gains what its
  offset had taken (`CopyOnWriteBuffer.Handle.Clear`, `CopyOnWriteBuffer.ClearSlice`).
- Attribute names may contain commas, and trailing equal signs belong to the name
  (`HttpAttributes.RoundTripIff`, `HttpAttributes.InnerEqualSignIsLost`).
- A mask that is not contiguous is counted as if it were (`IpMasks.MaskingIffContiguous`,
  `IpMasks.OtherMasksAreNotPrefixes`).

## Model

| member | source | states |
|---|---|---|
| `CriticalSection.NextInv` | webrtc/rtc_base/critical_section.cc:77-112 | Every atomic step of `Enter`, `TryEnter` and `Leave`, by any thread in any state that satisfies the invariant, leads to such a state again. |
| `CriticalSection.ExecuteInv` | webrtc/rtc_base/critical_section.cc:77-184 | The invariant holds after every finite interleaving. |
| `CriticalSection.MutualExclusion` | webrtc/rtc_base/critical_section.cc:77-112 | In every interleaving of any number of threads at most one of them is between acquiring and releasing, and none of the debug assertions on wake-up and in `TryEnter` ever fails. |
| `CriticalSection.QueueCounts` | webrtc/rtc_base/critical_section.cc:86-112 | `lock_queue_` always is the number of holds of the owner plus the number of threads that have incremented it and not yet acquired. |
| `CriticalSection.QuiescentIsInitial` | webrtc/rtc_base/critical_section.cc:176-184 | When every thread is outside, the lock is as it was constructed: no stray semaphore unit, owner or count stays behind. |
| `CriticalSection.ExactlyOneToken` | webrtc/rtc_base/critical_section.cc:101-112 | Whenever a thread is queued there is exactly one right to acquire: an owner, a leaver about to signal, one semaphore unit or one woken thread. No signal is lost and none is doubled. |
| `CriticalSection.OnlyQueuedAcquire` | webrtc/rtc_base/critical_section.cc:85-112 | Nobody overtakes the queue: while a thread is queued, in every run, a thread comes to have the lock only by waking up from the queue, and nobody has it at that time. |
| `CriticalSection.WaiterCanAlwaysAcquire` | webrtc/rtc_base/critical_section.cc:101-184 | From every reachable state with a waiting thread there is a continuation in which that thread gets the lock, whatever recursive holds are outstanding. |
| `CriticalSection.TryEnterAlone` | webrtc/rtc_base/critical_section.cc:132-145 | `TryEnter` without interference, from every reachable state: one more hold exactly when nobody is in the section and nobody queued, or the lock is its own; otherwise nothing has changed. |
| `CriticalSection.EnterAlone` | webrtc/rtc_base/critical_section.cc:77-112 | `Enter` without interference, from every reachable state: it comes back with one more hold exactly when nobody else is in the section; otherwise, having polled the lock 3000 times, it comes to wait. |
| `CriticalSection.LeaveAlone` | webrtc/rtc_base/critical_section.cc:176-184 | `Leave` without interference gives up one hold, and with the last one signals exactly when somebody is queued. |
| `CriticalSection.SomebodyWaits` | webrtc/rtc_base/critical_section.cc:73-109 | Contention happens: for any two threads there is a run in which one enters a new lock and the other comes to wait. |
| `Framing.DeframeSplit` | webrtc/rtc_base/async_tcp_socket.cc:325-344 | Cutting a byte stream into frames does not depend on how the stream is fragmented. |
| `Framing.RestIsShort` | webrtc/rtc_base/async_tcp_socket.cc:325-344 | What is left unframed never holds a whole frame and is at most 65536 bytes. |
| `Framing.PrefixGivesPrefix` | webrtc/rtc_base/async_tcp_socket.cc:325-344 | A prefix of the frames of some packets deframes to a prefix of those packets, one that holds every packet whose frame is inside. |
| `Framing.FrameRoundTripIff` | webrtc/rtc_base/async_tcp_socket.cc:293-323 | Among the sizes that pass the check, a packet survives framing exactly when it has at most 65535 bytes; 65536 to 65538 pass the check but do not fit the length field. |
| `Framing.OversizeIsMisread` | webrtc/rtc_base/async_tcp_socket.cc:293-323 | A packet of 65536 bytes is read as an empty one followed by its own bytes taken for frames. |
| `Framing.EndToEnd` | webrtc/rtc_base/async_tcp_socket.cc:151-188 | For every split of the frames into sent and unsent bytes, and every part of the sent bytes that has arrived, the receiver has a prefix of the packets, and all of them once everything is through. |
| `AsyncTcpSocket.TcpSocket.constructor` | webrtc/rtc_base/async_tcp_socket.cc:64-76 | A new socket is in step with its peer. |
| `AsyncTcpSocket.TcpSocket.FlushOutBuffer` | webrtc/rtc_base/async_tcp_socket.cc:151-188 | However the socket breaks up the writes, the bytes move from the buffer to the wire without loss, repetition or reordering; the socket is always offered all that is left, until it has taken everything or refuses; the result tells would-block from a hard error. |
| `AsyncTcpSocket.TcpSocket.Send` | webrtc/rtc_base/async_tcp_socket.cc:293-323 | Wire plus buffer are the frames of the packets accepted so far; a packet is dropped whole while bytes are pending; the whole frame is offered, and a socket that takes it has the packet sent; the exact condition under which a hard error puts the stream out of step. |
| `AsyncTcpSocket.TcpSocket.OnWriteEvent` | webrtc/rtc_base/async_tcp_socket.cc:262-272 | Flushing changes nothing about wire plus buffer; what is left is offered until it is taken or refused, and readiness is reported exactly when it is taken. |
| `AsyncTcpSocket.TcpSocket.ProcessInput` | webrtc/rtc_base/async_tcp_socket.cc:325-344 | Signals exactly the packets that are whole in the buffer, in order, and keeps exactly the rest at the front. |
| `AsyncTcpSocket.TcpSocket.MoveToFront` | webrtc/rtc_base/async_tcp_socket.cc:337-343 | The overlapping move keeps the unconsumed bytes. |
| `AsyncTcpSocket.TcpSocket.ReceiveAll` | webrtc/rtc_base/async_tcp_socket.cc:219-243 | The bytes received are appended to the buffer, which grows as needed and never beyond its limit; reading stops only at an error or at a read that is empty or short. |
| `AsyncTcpSocket.TcpSocket.OnReadEvent` | webrtc/rtc_base/async_tcp_socket.cc:219-258 | After any sequence of receives, what has been signalled and what is buffered together are the deframing of everything delivered, and at most 65536 bytes stay; the socket has been read until it had no more. |
| `AsyncTcpSocket.RoomToReadMore` | webrtc/rtc_base/async_tcp_socket.cc:220-225 | With what can be left over, growing always makes room for at least 128 bytes or up to the limit of 65538, and doubles at most. |
| `AsyncTcpSocket.LostSizes` | webrtc/rtc_base/async_tcp_socket.cc:293-323 | The sizes that pass the check although the packet does not survive are exactly 65536 to 65538. |
| `AsyncTcpSocket.ReceivedIsPrefixOfSent` | webrtc/rtc_base/async_tcp_socket.cc:151-344 | Two sockets: the packets signalled at one end are a prefix of those accepted at the other, and all of them once the bytes are through. |
| `AsyncTcpSocket.PartialFrameIsMisread` | webrtc/rtc_base/async_tcp_socket.cc:301-316 | The stream of such an error: three bytes of one frame followed by another frame are read as a packet that was never sent. |
| `AsyncTcpSocket.SendAcrossError` | webrtc/rtc_base/async_tcp_socket.cc:293-323 | Two calls of `Send`, the first failing behind its third byte: the sender has one packet to its name, the receiver gets another, and the two are out of step. |
| `FileRotatingStream.SizesFitBudget` | webrtc/rtc_base/file_rotating_stream.cc:370-385 | First file and rotating files are not empty and together stay within the total budget. |
| `FileRotatingStream.SizesUseBudget` | webrtc/rtc_base/file_rotating_stream.cc:370-385 | They use the budget up, but for three bytes or, from 6 MiB on, one file; the first file has half of it. |
| `FileRotatingStream.RotationKeepsLayout` | webrtc/rtc_base/file_rotating_stream.cc:301-326 | Each rotation keeps the picture: the oldest file holds the beginning of the log, the others consecutive stretches of its end. |
| `FileRotatingStream.CallSessionLog.Open` | webrtc/rtc_base/file_rotating_stream.cc:252-262 | Opening leaves one empty file and no history. |
| `FileRotatingStream.CallSessionLog.RotateFiles` | webrtc/rtc_base/file_rotating_stream.cc:301-326 | Every file up to the rotation index moves up by one, the one at the index is dropped, all others stay, a new current file is opened, and the limits are those for one rotation more. |
| `FileRotatingStream.CallSessionLog.OnRotation` | webrtc/rtc_base/file_rotating_stream.cc:357-368 | Size limit and rotation index always are those that the number of rotations calls for: the first file counts as the first half of the budget, and from the time it has reached its place the index spares it. |
| `FileRotatingStream.CallSessionLog.Write` | webrtc/rtc_base/file_rotating_stream.cc:209-239 | The written part is the part of the data that fits the current file, the log grows by it, and the layout of files is kept through any sequence of writes. |
| `FileRotatingStream.CallSessionLog.KeepsStartAndEnd` | webrtc/rtc_base/file_rotating_stream.cc:342-385 | Read oldest first, the files are the first half of the budget and a contiguous end of the log; nothing is lost before the first deletion; in the steady state the end has between (K-1)S and KS-1 bytes; the bytes on disk never exceed the budget. |
| `FileRotatingStream.CallSessionLog.KeepsShareOfBudget` | webrtc/rtc_base/file_rotating_stream.cc:342-385 | In terms of the budget alone: on disk are the first half of the budget and the last quarter of it, from 6 MiB on the last half but for 2 MiB; a log shorter than both is there completely. |
| `FileRotatingStream.NameOrder` | webrtc/rtc_base/file_rotating_stream.cc:328-340 | The zero-padded names sort like the file indices. |
| `FileRotatingStream.PaddedDigit` | webrtc/rtc_base/file_rotating_stream.cc:328-340 | Each character of the index is the decimal digit of its place. |
| `FileRotatingStream.NameExample` | webrtc/rtc_base/file_rotating_stream.cc:328-340 | The names of some files. |
| `FileRotatingStream.NamesReadOldestFirst` | webrtc/rtc_base/file_rotating_stream.cc:387-396 | Sorting the names downwards lists the files oldest first. |
| `FileRotatingStream.ReadAll` | webrtc/rtc_base/file_rotating_stream.cc:408-422 | The reader fills the buffer with the beginning of the concatenated files, as much as fits. |
| `FileRotatingStream.SessionReadsBack` | webrtc/rtc_base/file_rotating_stream.cc:387-422 | The whole path: listing and reading the directory of a session gives back what the session keeps. |
| `CopyOnWriteBuffer.Storage.EnsureCapacityWithHeadroom` | webrtc/rtc_base/buffer.h:358-378 | Growing keeps the bytes in use, gives half as much again at least, never shrinks, and does nothing when there is room. |
| `CopyOnWriteBuffer.Storage.SetSize` | webrtc/rtc_base/buffer.h:323-330 | The common part is kept; the storage moves only when it has to. |
| `CopyOnWriteBuffer.Storage.AppendData` | webrtc/rtc_base/buffer.h:261-269 | The bytes in use are the old ones followed by the new ones. |
| `CopyOnWriteBuffer.Storage.SetData` | webrtc/rtc_base/buffer.h:207-215 | The bytes in use are the given ones. |
| `CopyOnWriteBuffer.CountsHandles` | webrtc/api/scoped_refptr.h:78-103 | The reference count is the number of handles that point to the storage. |
| `CopyOnWriteBuffer.FreedIffUnused` | webrtc/api/scoped_refptr.h:100-103 | The count is zero exactly when no handle points to the storage. |
| `CopyOnWriteBuffer.SoleOwner` | webrtc/rtc_base/copy_on_write_buffer.cc:115-124 | Where the count is one, no other handle sees the storage. |
| `CopyOnWriteBuffer.Handle.Repoint` | webrtc/api/scoped_refptr.h:120-128 | Assigning a reference keeps all counts right and no other handle changes its contents. |
| `CopyOnWriteBuffer.Handle.UnshareAndEnsureCapacity` | webrtc/rtc_base/copy_on_write_buffer.cc:115-124 | Afterwards the handle owns its storage alone, with enough room and the same contents; it copies only if it has to. |
| `CopyOnWriteBuffer.Handle.Data` | webrtc/rtc_base/copy_on_write_buffer.h:89-96 | `data()` gives the handle a storage of its own and changes no contents; the capacity clause is lost exactly when the storage was shared and the handle had no capacity. |
| `CopyOnWriteBuffer.Handle.Write` | webrtc/rtc_base/copy_on_write_buffer.h:89-96 | Writing through the pointer of `data()` changes the contents of the handle at one place and no other handle. |
| `CopyOnWriteBuffer.Handle.SetData` | webrtc/rtc_base/copy_on_write_buffer.h:164-177 | The contents are the given bytes, no other handle changes; the exact condition under which the capacity clause of the consistency check is kept. |
| `CopyOnWriteBuffer.Handle.AppendData` | webrtc/rtc_base/copy_on_write_buffer.h:201-219 | The contents are extended, no other handle changes; the exact condition for the capacity clause. |
| `CopyOnWriteBuffer.Handle.SetSize` | webrtc/rtc_base/copy_on_write_buffer.cc:60-81 | The common part of the contents is kept, no other handle changes, and the capacity clause is kept. |
| `CopyOnWriteBuffer.Handle.EnsureCapacity` | webrtc/rtc_base/copy_on_write_buffer.cc:83-99 | More room, the same contents, and the capacity clause is kept. |
| `CopyOnWriteBuffer.Handle.Clear` | webrtc/rtc_base/copy_on_write_buffer.cc:101-113 | The contents are empty, no other handle changes; the capacity is what it was plus, for the sole owner, the offset; the exact condition for the capacity clause. |
| `CopyOnWriteBuffer.Handle.CopyFrom` | webrtc/rtc_base/copy_on_write_buffer.h:121-130 | Copying shares the storage and gives the same contents. |
| `CopyOnWriteBuffer.Handle.MoveFrom` | webrtc/rtc_base/copy_on_write_buffer.h:132-141 | Moving hands over the contents and leaves the other handle empty; moving a handle to itself empties it. |
| `CopyOnWriteBuffer.Handle.Duplicate` | webrtc/rtc_base/copy_on_write_buffer.cc:21-22 | The copy constructor: one more handle with the same contents, and all others as they were. |
| `CopyOnWriteBuffer.Handle.Slice` | webrtc/rtc_base/copy_on_write_buffer.h:255-262 | A slice shares the storage and shows the part that was asked for. |
| `CopyOnWriteBuffer.Handle.Equals` | webrtc/rtc_base/copy_on_write_buffer.cc:52-58 | Equality is equality of contents. |
| `CopyOnWriteBuffer.AppendNothing` | webrtc/rtc_base/copy_on_write_buffer.h:201-219 | The capacity clause is lost when nothing is appended to an empty buffer. |
| `CopyOnWriteBuffer.ClearSlice` | webrtc/rtc_base/copy_on_write_buffer.cc:101-113 | `Clear` on a slice that is the last owner of its storage raises the capacity from 1 to 2. |
| `CopyOnWriteBuffer.TouchEmptySlice` | webrtc/rtc_base/copy_on_write_buffer.h:89-96 | The capacity clause is lost when `data()` is called on an empty slice at the end of a full storage. |
| `CopyOnWriteBuffer.Run` | webrtc/rtc_base/copy_on_write_buffer.h:89-262 | Over any sequence of operations on any set of handles, each handle behaves like an independent byte string with the same history, and the counts stay right. |
| `BitOps.WritePartialByte` | webrtc/rtc_base/bit_buffer.cc:43-60 | Exactly the addressed bits of the target are replaced, when the source is clear behind them. |
| `BitCodes.GolombReadsBack` | webrtc/rtc_base/bit_buffer.cc:185-215 | An Exp-Golomb code reads back to its value and ends where it ends, whatever follows. |
| `BitCodes.GolombShape` | webrtc/rtc_base/bit_buffer.cc:329-341 | The code is as many zeros as the number plus one has digits behind its leading one, and then those digits. |
| `BitCodes.GolombTable` | webrtc/rtc_base/bit_buffer.cc:329-341 | The codes of the first numbers, as the standard lists them. |
| `BitCodes.NonSymmetricReadsBack` | webrtc/rtc_base/bit_buffer.cc:162-183 | The same for non-symmetric codes. |
| `BitCodes.NonSymmetricTable` | webrtc/rtc_base/bit_buffer.cc:308-317 | The codes for five values. |
| `BitCodes.NonSymmetricInRange` | webrtc/rtc_base/bit_buffer.cc:162-183 | Every non-symmetric read that succeeds, on any bits, is below the number of values. |
| `BitCodes.SignedBack` | webrtc/rtc_base/bit_buffer.cc:217-228 | The mapping between signed and unsigned numbers is undone by the reader. |
| `BitCodes.SignedSequence` | webrtc/rtc_base/bit_buffer.cc:217-228 | The signed numbers come in the order 0, 1, -1, 2, -2, and so on. |
| `BitCodes.CodeReadsBack` | webrtc/rtc_base/bit_buffer.cc:144-228 | Every code is self-delimiting. |
| `BitCodes.JoinedReadsBack` | webrtc/rtc_base/bit_buffer.cc:144-228 | Self-delimiting codes written one after the other read back one after the other. |
| `BitCodes.CodesReadBack` | webrtc/rtc_base/bit_buffer.cc:144-355 | Any sequence of typed values reads back, and reading ends where writing ended. |
| `BitBuffer.BitBuffer.PeekBits` | webrtc/rtc_base/bit_buffer.cc:110-142 | The big-endian number of the next bits, from any offset; fails exactly when there are too few. |
| `BitBuffer.BitBuffer.ConsumeBits` | webrtc/rtc_base/bit_buffer.cc:152-160 | Moves on by the count or not at all, and keeps the offset normal. |
| `BitBuffer.BitBuffer.ReadBits` | webrtc/rtc_base/bit_buffer.cc:144-146 | The bits at the cursor, which moves behind them. |
| `BitBuffer.BitBuffer.WriteBits` | webrtc/rtc_base/bit_buffer.cc:263-306 | Sets exactly the addressed bits to the low bits of the value, most significant first, and leaves every other bit of the buffer as it was. |
| `BitBuffer.BitBuffer.Seek` | webrtc/rtc_base/bit_buffer.cc:238-246 | Accepts exactly the offsets inside the buffer or at its end. |
| `BitBuffer.BitBuffer.CountBits` | webrtc/rtc_base/bit_buffer.cc:63-70 | The length of the binary representation. |
| `BitBuffer.BitBuffer.WriteNonSymmetric` | webrtc/rtc_base/bit_buffer.cc:308-317 | Writes the non-symmetric code, or nothing. |
| `BitBuffer.BitBuffer.WriteExponentialGolomb` | webrtc/rtc_base/bit_buffer.cc:329-341 | Writes the Exp-Golomb code, or nothing. |
| `BitBuffer.BitBuffer.WriteSignedExponentialGolomb` | webrtc/rtc_base/bit_buffer.cc:343-355 | Writes the code of the signed number, or nothing. |
| `BitBuffer.BitBuffer.ReadNonSymmetric` | webrtc/rtc_base/bit_buffer.cc:162-183 | Reads what the code stands for; a failing second part leaves the cursor behind the first. |
| `BitBuffer.BitBuffer.ReadExponentialGolomb` | webrtc/rtc_base/bit_buffer.cc:185-215 | Reads what the code stands for; a failed read puts the cursor back. |
| `BitBuffer.BitBuffer.ReadSignedExponentialGolomb` | webrtc/rtc_base/bit_buffer.cc:217-228 | The same for signed numbers. |
| `BitBuffer.BitBuffer.WriteItems` | webrtc/rtc_base/bit_buffer.cc:263-355 | Writes succeed exactly when all codes fit, and leave every other bit alone. |
| `BitBuffer.BitBuffer.ReadItems` | webrtc/rtc_base/bit_buffer.cc:110-228 | Typed reads in a row give what the bits decode to. |
| `BitBuffer.BitBuffer.WriteThenRead` | webrtc/rtc_base/bit_buffer.cc:110-355 | Whatever was written is read back by the matching reads, from the same place and to the same end. |
| `Convolution.DotConvolves` | webrtc/common_audio/fir_filter_c.cc:39-48 | The product of the reversed coefficients with a window is one output of the convolution. |
| `Convolution.PaddedConvolves` | webrtc/common_audio/fir_filter_sse.cc:24-45 | Padding the coefficients in front changes no output. |
| `Convolution.FilteredAppend` | webrtc/common_audio/fir_filter_c.cc:34-59 | Filtering a stream in pieces is filtering the whole. |
| `FirFilter.FirFilterC.constructor` | webrtc/common_audio/fir_filter_c.cc:23-32 | The coefficients are kept in reverse, the history is silence. |
| `FirFilter.FirFilterC.Filter` | webrtc/common_audio/fir_filter_c.cc:34-59 | After any number of blocks the outputs are the convolution of all inputs. |
| `FirFilter.FirFilterC.FilterInPlace` | webrtc/common_audio/fir_filter_c.cc:34-59 | With one array for input and output the result depends on the earlier samples alone, not on the block. |
| `FirFilter.InPlaceIffSilent` | webrtc/common_audio/fir_filter_c.cc:34-59 | A new scalar filter works in place, for every block, exactly when its coefficients are all zero. |
| `FirFilter.FirFilterC.Output` | webrtc/common_audio/fir_filter_c.cc:39-48 | One output is one term of the convolution, across the border between state and block. |
| `FirFilter.FirFilterC.UpdateState` | webrtc/common_audio/fir_filter_c.cc:50-58 | The state is the last samples, for blocks longer and shorter than it. |
| `FirFilter.PadAndReverse` | webrtc/common_audio/fir_filter_sse.cc:24-45 | The padded, reversed coefficients. |
| `FirFilter.FirFilterSimd.Filter` | webrtc/common_audio/fir_filter_sse.cc:47-80 | The vector filters, SSE and NEON, compute the convolution of all inputs, in place or not. |
| `FirFilter.FirFilterSimd.Output` | webrtc/common_audio/fir_filter_neon.cc:46-66 | Four lanes of products, summed in the order of either instruction set, are one term of the convolution. |
| `FirFilter.FiltersAgree` | webrtc/common_audio/fir_filter_neon.cc:23-71 | Scalar and vector filters on one stream, however cut for each, agree on all outputs up to where the shorter of the two has come. |
| `RingBuffer.Create` | webrtc/common_audio/ring_buffer.c:54-77 | A buffer, or nothing for no elements. |
| `RingBuffer.RingBuffer.Read` | webrtc/common_audio/ring_buffer.c:98-141 | The next elements of an unbounded tape, in one region or copied together from two. |
| `RingBuffer.RingBuffer.Write` | webrtc/common_audio/ring_buffer.c:143-175 | Appends to the tape as much as is free. |
| `RingBuffer.RingBuffer.MoveReadPtr` | webrtc/common_audio/ring_buffer.c:177-212 | Moves along the tape, clamped so that nothing unwritten and nothing overwritten is ever read; before the first write there are zeros. |
| `RingBuffer.RingBuffer.AvailableRead` | webrtc/common_audio/ring_buffer.c:214-224 | The distance between the two positions on the tape. |
| `RingBuffer.RingBuffer.AvailableWrite` | webrtc/common_audio/ring_buffer.c:226-232 | What may be written without overwriting anything unread. |
| `AsyncInvoker.NextInv` | webrtc/rtc_base/async_invoker.cc:23-144 | Every step of the destructor, of a closure or of a call keeps the invariant. |
| `AsyncInvoker.ExecuteInv` | webrtc/rtc_base/async_invoker.cc:23-144 | So does every run. |
| `AsyncInvoker.NoUseAfterDestruction` | webrtc/rtc_base/async_invoker.cc:126-144 | Once the loop of the destructor has ended, no closure does anything that touches the invoker, now or later. |
| `AsyncInvoker.ClosureRuns` | webrtc/rtc_base/async_invoker.cc:40-88 | In every run, a closure that is called for before destruction is posted, runs when it is left to itself, and sets the event. |
| `AsyncInvoker.ClosureDropped` | webrtc/rtc_base/async_invoker.cc:74-85 | A closure that is called for after destruction has begun is gone after three steps and has not run. |
| `AsyncInvoker.ClosureCancelled` | webrtc/rtc_base/async_invoker.cc:26 | A closure that is in its queue can be cancelled by the destructor and is gone without having run. |
| `AsyncInvoker.NeverParkedForEver` | webrtc/rtc_base/async_invoker.cc:30-37 | The destructor can come to a state in which it waits and nobody can do anything any more exactly if it was started inside a closure of the invoker; otherwise, while it waits on an event that is not set, another thread has still to finish a closure or to set the event. |
| `AsyncInvoker.DestructorCanAlwaysFinish` | webrtc/rtc_base/async_invoker.cc:23-38 | At any time after destruction has begun there is a continuation in which the destructor ends, exactly if it was not started inside a closure of the invoker. |
| `AsyncInvoker.DestroyedInsideItsClosure` | webrtc/rtc_base/async_invoker.cc:23-38 | The smallest such run: a single closure destroys the invoker on its own thread, and after four steps of the destructor nothing can move. |
| `IpAddresses.IpOrder` | webrtc/rtc_base/ip_address.cc:102-125 | The order of addresses is strict and total. |
| `IpAddresses.FirstOctetDecides` | webrtc/rtc_base/ip_address.cc:102-125 | In one family the first octet that differs decides; families come in the order none, IPv4, IPv6. |
| `IpAddresses.AnyOctets` | webrtc/rtc_base/ip_address.cc:311-321 | The wildcard addresses, octet by octet. |
| `SocketAddresses.AddressOrder` | webrtc/rtc_base/socket_address.cc:220-239 | The order of socket addresses is a strict weak order whose equivalence is `operator==`. |
| `NatWire.PackUnpack` | webrtc/rtc_base/nat_socket_factory.cc:24-69 | An address in front of a packet is zero, family, port with the high octet first, and the octets of the address; it and the payload are read back as they were packed. |
| `NatServer.RouteOrder` | webrtc/rtc_base/nat_server.cc:31-42 | A strict weak order that takes two routes for one exactly when the NAT is to map them alike. |
| `NatServer.PeerOrder` | webrtc/rtc_base/nat_server.cc:56-67 | A strict weak order that takes two peers for one exactly when the filter is to treat them alike. |
| `NatServer.TransEntry.WhitelistInsert` | webrtc/rtc_base/nat_server.cc:245-248 | Afterwards the peer is listed, and nobody else is. |
| `NatServer.TransEntry.WhitelistContains` | webrtc/rtc_base/nat_server.cc:250-253 | The search by the order of peers returns true exactly when no listed address is one that the filter treats like this one: true when it is missing, despite the name. |
| `NatServer.NatServer.Translate` | webrtc/rtc_base/nat_server.cc:214-226 | A new mapping leaves the old ones and what is known of them alone. |
| `NatServer.NatServer.OnInternalUDPPacket` | webrtc/rtc_base/nat_server.cc:158-182 | A packet leaves, stripped of its prefix, through the endpoint of its route, old or new, and is remembered; nothing leaves exactly when there is neither a mapping nor a socket. |
| `NatServer.NatServer.SharedEndpoints` | webrtc/rtc_base/nat_server.cc:158-226 | Over every run, two packets leave through one endpoint exactly when they have the same source and, for a symmetric NAT, the same destination. |
| `NatServer.NatServer.EndpointsByKind` | webrtc/rtc_base/nat_server.cc:158-226 | Only a symmetric NAT gives two destinations of one source two endpoints. |
| `NatServer.NatServer.RoutesKnown` | webrtc/rtc_base/nat_server.cc:164-169 | A route has a mapping exactly when a packet has gone that way. |
| `NatServer.NatServer.FilterMeansContacted` | webrtc/rtc_base/nat_server.cc:228-231 | The filter lets a peer in exactly when an earlier packet through that endpoint went to an address it does not tell apart. |
| `NatServer.NatServer.OnExternalUDPPacket` | webrtc/rtc_base/nat_server.cc:184-212 | A packet is delivered exactly when the peer was contacted through that endpoint, kind by kind: from anyone, from an address, or from an address and port that was sent something through it; to the source that uses it, with the address of the peer in front. |
| `NetworkManager.UnreportedMeansSame` | webrtc/rtc_base/network.cc:941-956 | When no difference is reported and the new list repeats nothing, the set of addresses is the same. |
| `NetworkManager.RepetitionHidesLoss` | webrtc/rtc_base/network.cc:941-956 | For every list that repeats an address there are old addresses of which one is lost without a report. |
| `NetworkManager.TrustedIffNoDuplicates` | webrtc/rtc_base/network.cc:941-956 | The lists for which the report can be trusted, whatever the old addresses were, are exactly those without repetition. |
| `NetworkManager.Network.SetIPs` | webrtc/rtc_base/network.cc:941-956 | The loop finds a difference exactly when the sizes differ or an address is new. |
| `NetworkManager.RankOrder` | webrtc/rtc_base/network.cc:64-86 | The order by type, precedence and key is strict and total. |
| `NetworkManager.Consolidate` | webrtc/rtc_base/network.cc:302-328 | One entry for each key, led by the first network with it and with the addresses of all; the other networks, and no more, are deleted. |
| `NetworkManager.NoteAllAt` | webrtc/rtc_base/network.cc:330-366 | Each network is changed by its own entry and by no other. |
| `NetworkManager.ChangeIsDetected` | webrtc/rtc_base/network.cc:330-371 | Looking for news entry by entry and comparing the sizes finds every change and only changes. |
| `NetworkManager.LawOfNotes` | webrtc/rtc_base/network.cc:330-403 | What the entries do one by one adds up to the law of a merge. |
| `NetworkManager.Manager.MergeAll` | webrtc/rtc_base/network.cc:330-366 | The loop over the entries keeps the map and its networks right, and either keeps or deletes each network it was given. |
| `NetworkManager.Manager.SortNetworkList` | webrtc/rtc_base/network.cc:384 | The same networks, in strictly increasing order. |
| `NetworkManager.Manager.AssignPreferences` | webrtc/rtc_base/network.cc:392-401 | 127, 126, ... in order, for the first 128. |
| `NetworkManager.Manager.PreferredByType` | webrtc/rtc_base/network.cc:64-86 | The network of the smaller type has the higher preference, and among equal types that of the higher precedence. |
| `NetworkManager.Manager.Publish` | webrtc/rtc_base/network.cc:375-402 | Listed are the merged networks, sorted and with preferences, and active are exactly those. |
| `NetworkManager.Manager.MergeNetworkList` | webrtc/rtc_base/network.cc:292-403 | A key keeps its object and identifier for ever; listed and active are exactly the networks found, each with all its addresses and its type; a change is reported exactly when there is one; every object handed over is managed or deleted, never both. |
| `NetworkManager.UnreportedMerge` | webrtc/rtc_base/network.cc:367-403 | After a merge that reports no change the same networks are active, with the same types and, without repetition, the same addresses. |
| `Crc32.SerialIsRemainder` | webrtc/rtc_base/crc32.cc:27-33 | Feeding bits to the register is long division of polynomials by the generator. |
| `Crc32.GeneratorTerms` | webrtc/rtc_base/crc32.cc:21 | The generator has the terms 32, 26, 23, 22, 16, 12, 11, 10, 8, 7, 5, 4, 2, 1 and 0. |
| `Crc32.StepInjective` | webrtc/rtc_base/crc32.cc:28-32 | A step of the register can be undone. |
| `Crc32.ChecksumAppend` | webrtc/rtc_base/crc32.cc:39-48 | Updating by two pieces is updating by their concatenation. |
| `Crc32.BurstDetected` | webrtc/rtc_base/crc32.cc:39-48 | Two messages of one length that differ only within 32 consecutive bits, and so within four consecutive bytes, have the same checksum only if they are equal. |
| `Crc32.EightSteps` | webrtc/rtc_base/crc32.cc:44-46 | A table lookup and a shift are eight steps of the register. |
| `Crc32.LoadCrc32Table` | webrtc/rtc_base/crc32.cc:23-37 | The table holds eight steps for every byte. |
| `Crc32.UpdateCrc32` | webrtc/rtc_base/crc32.cc:39-48 | The table-driven loop computes the complemented remainder, for every input and start value. |
| `Crc32Check.CheckValue` | webrtc/rtc_base/crc32.cc:21-48 | The checksum of the digits from 1 to 9 is 0xCBF43926. |
| `WavHeader.HeaderIsRead` | webrtc/common_audio/wav_header.cc:203-268 | Reading a header that was written gives the parameters back, with the samples at 44 or 58. |
| `WavHeader.HeaderOctets` | webrtc/common_audio/wav_header.cc:149-268 | Every identifier and field of a written header, by position and octet. |
| `WavHeader.LayoutIsRead` | webrtc/common_audio/wav_header.cc:375-439 | Any other chunks in front of "fmt " and in front of "data" change only where the samples start. |
| `WavHeader.RiffSizeIsExactIff` | webrtc/common_audio/wav_header.cc:149-152 | The size field is exact except for floats whose payload comes within 50 bytes of 2^32, which the check lets pass. |
| `WavHeader.RiffSizeWraps` | webrtc/common_audio/wav_header.cc:149-152 | A float file of 1073741814 samples passes the check and has 10 in its size field. |
| `WavHeader.AcceptedIsSound` | webrtc/common_audio/wav_header.cc:410-438 | Whatever is accepted passes the parameter check, and has its samples inside the file, behind a "data" header. |
| `WavHeader.CheckMeans` | webrtc/common_audio/wav_header.cc:288-340 | What the check lets pass: whole frames, of samples whose size the format decides, except that PCM may also have one octet, and no more than the size fields can hold. |
| `WavHeader.FindBehind` | webrtc/common_audio/wav_header.cc:167-181 | The search passes over any chunks with other identifiers. |
| `WavHeader.FindWaveChunk` | webrtc/common_audio/wav_header.cc:167-181 | The search ends on every stream, whether or not seeking beyond the end fails, at the first chunk with the identifier. |
| `WavHeader.ReadFmtChunkData` | webrtc/common_audio/wav_header.cc:183-201 | Accepts 16 bytes, or 18 with an empty extension. |
| `WavHeader.ReadWavHeader` | webrtc/common_audio/wav_header.cc:375-439 | The stream reader finds what is in the bytes and stops at the samples. |
| `HttpAttributes.RoundTripIff` | webrtc/rtc_base/http_common.cc:121-185 | A printed list parses back to itself exactly when its names have no white space and equal signs only at the end; values are arbitrary. |
| `HttpAttributes.ParsedNamesOk` | webrtc/rtc_base/http_common.cc:121-134 | Every name that the parser finds, on any input, is of that form. |
| `HttpAttributes.QuotedBack` | webrtc/rtc_base/http_common.cc:163-172 | Reading a quoted value undoes the quoting. |
| `HttpAttributes.UnquotedBack` | webrtc/rtc_base/http_common.cc:173-178 | A value without quotes is read up to white space, a comma or the end. |
| `HttpAttributes.InnerEqualSignIsLost` | webrtc/rtc_base/http_common.cc:126-131 | A name with an equal sign inside does not survive. |
| `HttpAttributes.Quote` | webrtc/rtc_base/http_common.cc:216-226 | The loop escapes so that reading gives the string back. |
| `HttpAttributes.HttpParseAttributes` | webrtc/rtc_base/http_common.cc:136-185 | Ends on every input and appends exactly the attributes in it. |
| `IpMasks.TruncateTwice` | webrtc/rtc_base/ip_address.cc:368-408 | Truncating by one length and then another is truncating by the smaller one. |
| `IpMasks.TruncateAlike` | webrtc/rtc_base/ip_address.cc:368-408 | Two addresses truncate alike exactly when their leading bits agree. |
| `IpMasks.MaskingIsTruncation` | webrtc/rtc_base/network.cc:527-528 | For a contiguous mask, truncating to the counted length is the bitwise and with the mask. |
| `IpMasks.OtherMasksAreNotPrefixes` | webrtc/rtc_base/ip_address.cc:410-463 | For any other mask there is an address for which no length will do. |
| `IpMasks.MaskingIffContiguous` | webrtc/rtc_base/ip_address.cc:368-463 | The two agree for every address exactly when the mask is contiguous. |
| `IpMasks.TruncateIP` | webrtc/rtc_base/ip_address.cc:368-408 | Shifts, masks and the loop over words keep exactly the leading bits; a negative length gives no address. |
| `IpMasks.TrailingZeros` | webrtc/rtc_base/ip_address.cc:445-460 | Isolating the lowest one and five tests count the zeros below it. |
| `IpMasks.CountIPMaskBits` | webrtc/rtc_base/ip_address.cc:410-463 | The position behind the last one in the first word that is not all ones. |

## Left out

- Lock: the debug bookkeeping of `thread_` and `recursion_count_`, `GlobalLockPod` and the platform mutexes; the width of `lock_queue_`; weaker memory orders than sequential consistency.
- Invoker: `Flush`, delayed posts (they are posts), `GuardedAsyncInvoker`, that `ThreadManager::Clear` empties every queue (here it takes any of the closures that it finds), calls from outside that overlap destruction, which the class forbids, and destroying the invoker while its thread is in the middle of a call of `AsyncInvoke` or deletes a closure.
- TCP socket: listening sockets, connecting, the signals to users, time stamps and packet options.
- Rotating log: failures of file operations, reopening after `Close` (the counters are not reset), buffering and flushing.
- Copy-on-write: `swap`, appends from the buffer's own storage, clearing memory on release. A storage block is a value that its owner replaces, so pointers into it are not modelled.
- Bit buffer: zero-width accesses and more than 64 bits in one write.
- BitBuffer.BitBuffer.WriteNonSymmetric: asks for 2 to 2^31 - 1 values. The checks of the original admit one value, which it writes with a shift of 64 bits by 64, and 2^31 values, for which it shifts 32 bits by 32; neither shift is defined.
- BitBuffer.BitBuffer.ReadNonSymmetric: the same; one value would be a read of no bits.
- FIR filter: rounding; samples are real numbers. The smoothing filter and the window generator rest on transcendental functions, and the FFT wrapper on `rdft`, which is not part of this model.
- FirFilter.FirFilterC.Filter: asks for different arrays for input and output; one array for both is `FirFilter.FirFilterC.FilterInPlace`.
- Ring buffer: element sizes (elements are values), and element counts beyond the range of `int`.
- NAT server: the TCP proxy, the hash functions of the comparators (the maps are ordered), and what happens after a failed debug check when no socket can be created. `std::map` and `std::set` are sequences without equivalent keys.
- NatServer.NatServer.OnExternalUDPPacket: is for the sockets that the server has opened, which are the only ones connected to it.
- Network manager: `GetBestIP` and `IPAddressPrecedence` (any precedence of a network is allowed), the statistics, mDNS, enumeration of interfaces, and the order in which new networks get their numbers. The sort before consolidation is not a proper order; the list is taken in whatever order it is in.
- NetworkManager.Manager.MergeNetworkList: asks that no object is handed over twice and that a managed one comes first among those with its key, since the others are deleted.
- WAV: pad bytes after odd chunks, which the reader does not skip, and reading or writing samples.
- HTTP: everything but the attribute list; characters are those of the C locale.
- IP addresses: parsing, printing and the classification of addresses.
- Checks, logging, tracing, SSL, message digests, memory streams and the rate limiter.
