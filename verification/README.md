# rckam: verification of the preview stream, the encoder and the capture-card grouping

rckam shows on a client the image previews of a camera that is attached to a server, and drives a
pan-and-tilt mount. This project models three parts of it in Dafny and proves what they guarantee.

**The preview stream.** The server cuts each image into UDP datagrams with a 16-bit image id and a 16-bit
packet id (`CameraController`, wire format in `Datagrams`). The client reassembles them over a network that
may lose, duplicate and reorder datagrams (`ImageLoader`), and hands the images to the GUI through two
slots shared by two threads (`PreviewBuffers`, `PreviewRuns`).

- Sender and receiver work on bytes (`WireBytes` says which): headers and counts are little-endian fields in byte sequences, counters
  wrap where the source's types wrap, a datagram longer than the receive buffers is truncated, and one shorter
  than the header leaves stale bytes in it.
- The reference meaning of the receiver is `FrameSpec.Frames`: the images whose complete fragmentation occurs
  contiguously in the stream. It mentions the sender's fragmentation and no receiver state. `ReadPreview` and
  `ReadPreviews` are proved against it, for streams of arbitrary datagrams.
- `Channel` proves the end-to-end property for the datagrams that a lossy network delivers in order, `Splicing`
  says exactly for which sequences of images it holds whatever is lost, and `Integrity` what remains under
  duplication and reordering. `Pipeline` joins the sender, the network, the receiver and the threads:
  `Pipeline.Preview` calls `TransferData`, drops datagrams and calls `ReadPreviews`.
- The two threads are a transition system whose steps lock, test, sleep, wake, receive one datagram, publish,
  notify and unlock. Spurious wake-ups are further actions, and so are the flag and the two notifications of
  `stop()`. The theorems hold in every reachable state of every interleaving, for streams of datagrams that
  fit the receive buffers and announce valid counts; `Pipeline.SentAcceptable` says that what is sent is such a
  stream. `PreviewCalls` shows that the
  reader's receive steps between two publications are a call of `ReadPreview`.

**The encoder and the goto.** `Encoder` is the edge decoder, `EncoderReports` says what it counts for any levels
reported on its pins, `EncoderMeaning` what its counter means over any sequence of single edges from rest, and `PanTiltMotors` with `GotoRuns` proves that a goto never skips its target and disarms
each axis there. Whether the motor then stops is not decided by the source: clearing the callback
(tracker/PanTiltMotors.cpp:81) destroys the monitor that is running, and line 82 calls the stop function of the
destroyed monitor. The model takes as a parameter of each interrupt whether that function survives, and the
motor stops exactly when it does.

**Capture cards.** `CaptureCards` groups the probed devices by bus, in the order of the types and numbers in their
names that `UserspaceDevice` gives.

Some properties one would expect of the code do not hold in general; for each there is an exact condition:

- The receive window fits the buffer exactly when the announced byte count is at least 1 and does not overflow
  when rounded up (`Reassembly.ResizedWindow`). `ReadPreview` therefore asks for valid counts.
- An image survives the round trip exactly when it has between 1 and 65535 chunks (`FrameRuns.RoundTrip`). An
  empty image leaves the receiver with an empty buffer, which the next receive would overrun
  (`Reassembly.AnnouncedWindow`).
- The 16-bit image id cannot always tell images apart. An in-order network that loses datagrams delivers exactly
  the images without a loss, whatever it loses, if and only if no two images with the same id modulo 65536 are
  such that they have the same size, or the earlier one fills its chunks exactly and the later one is larger
  (`Splicing.DeliveryExactly`). For such a pair `Splicing.SpliceIsRead` gives, for every place to cut, the
  stream that is read as a mixture. For any images, a loss does no harm if it brings no two datagrams together
  that only look consecutive (`Channel.LossyDelivery`), for instance if adjacent received datagrams come from
  images less than 65536 apart (`Channel.NearDelivery`).
- Four times the encoder's counter is the displacement exactly when the excursions that back out balance
  (`EncoderMeaning.Displacement`); `EncoderMeaning.BackOutMiscounts` is an edge sequence for which it is not.
- While the stop functions survive, an axis is never driven at its target exactly when the goto does not start
  there (`GotoRuns.NeverDrivenAtTarget`).
- `stop()` notifies without holding the slots' mutexes. A notification reaches every thread of its slot except
  one that has found its predicate false and has not yet fallen asleep, and that one sleeps on
  (`PreviewRuns.StopReaches`, `PreviewRuns.StopCanBeMissed`); a call that begins when no thread is at that point ends
  both threads, if datagrams keep coming (`PreviewRuns.StopEndsBoth`).

## Model

| member | source | states |
|---|---|---|
| Datagrams.Fragmentation | server/CameraController.cpp:289-333 | Every datagram of an image carries its id, is longer than the header and at most 1472 bytes, and the payloads after packet 0 joined in order are the image. |
| WireBytes.PacketBytes | server/CameraController.cpp:290-333 | Packet i of an image: bytes 0 and 1 are the image id, bytes 2 and 3 the packet id, least significant first; then packet 0 has the eight bytes of the size, and packet i the image from byte 1468 (i - 1) on, up to 1468 bytes. |
| WireBytes.SentBytes | server/CameraController.cpp:258-343 | Every datagram that is sent for a sequence of images is, byte by byte, such a packet, with the number of the image in its first two bytes. |
| Datagrams.PacketIdsCount | server/CameraController.cpp:293-316 | The packet ids count 0, 1, 2, ... without wrapping if and only if the image has at most 65535 chunks. |
| Datagrams.FragmentsInjective | server/CameraController.cpp:289-333 | A datagram sequence is the fragmentation of at most one image under one id. |
| CameraController.CameraController.TransferImage | server/CameraController.cpp:272-337 | The wire grows by exactly the fragmentation of the image in the full slot, under the 16-bit image id; that slot is empty afterwards and the other one is unchanged. |
| CameraController.CameraController.SendChunks | server/CameraController.cpp:314-333 | The inner loop emits packets 1, 2, ... of the image, with the packet id incremented in the header in place. |
| CameraController.CameraController.TransferData | server/CameraController.cpp:258-343 | For any sequence of captured images, including empty ones and ones too large for the packet ids, the wire grows by all their fragmentations in order, image k under id k modulo 65536; the images are taken from the two slots in turn, and both end empty. |
| FrameSpec.FrameUnique | client/ImageLoader.cpp:106-163 | At most one image is completed by a datagram. |
| FrameRuns.NoOverlap | client/ImageLoader.cpp:106-163 | A frame that ends later than another starts after it: frames never overlap. |
| FrameRuns.FramesMember | client/ImageLoader.cpp:96-165 | An image is among the frames of a stream if and only if some prefix of the stream ends with its whole fragmentation. |
| FrameRuns.FirstFrameUnique | client/ImageLoader.cpp:96-165 | Where a call ends and what it returns are determined by the stream alone, whatever image id an earlier call left. |
| FrameRuns.CallsFindAllFrames | client/ImageLoader.cpp:250-272 | Reading up to the first frame, again and again, returns exactly all the frames that occur contiguously anywhere in the stream. |
| FrameRuns.SelfSynchronisation | client/ImageLoader.cpp:107-163 | After anything received without completing an image, feeding the fragmentation of an image ends the call on its last datagram with exactly that image. |
| FrameRuns.RoundTrip | client/ImageLoader.cpp:96-165 | The stream of one image, of any size below 2^64, completes exactly that image if it has 1 to 65535 chunks, and no image otherwise; for the empty image see Reassembly.AnnouncedWindow. |
| Reassembly.AnnouncedWindow | client/ImageLoader.cpp:127-133 | The announcement of an image leaves room for the next payload if and only if the image is not empty and its size can be rounded up in size_t; an empty image leaves an empty buffer. |
| Reassembly.ResizedWindow | client/ImageLoader.cpp:128-133 | With size_t wrap-around, the resized buffer has room for a payload if and only if the count is at least 1 and rounding it up does not overflow; it then has room for every chunk. |
| Reassembly.AfterFirst | client/ImageLoader.cpp:107-137 | A first packet of the right size establishes the receive invariant for a new image, whatever came before. |
| Reassembly.AfterUnexpected | client/ImageLoader.cpp:120-159 | Any other datagram that does not continue the image being collected leaves no image under way and completes none, on every discard path. |
| Reassembly.AfterChunk | client/ImageLoader.cpp:149-162 | The expected packet extends the collected image or completes it; when it completes it, the stream ends with the fragmentation of the buffer's first bytes. |
| Reassembly.CollectedTail | client/ImageLoader.cpp:138-148 | While packets are collected, they are the only image that can be under way: same length, id and byte count. |
| ImageLoader.ImageLoader.ReceiveFrom | client/ImageLoader.cpp:98-99 | A receive needs room for a full payload at the offset, takes the next datagram truncated to 1472 bytes, overwrites header and window, and leaves stale header bytes for a short datagram. |
| ImageLoader.ImageLoader.Examine | client/ImageLoader.cpp:107-162 | From a state satisfying the receive invariant, on every path: either the invariant holds for the stream with the datagram added, or the stream ends with the fragmentation of the buffer's first bytes. |
| ImageLoader.ImageLoader.ReadPreview | client/ImageLoader.cpp:58-166 | On any datagrams whose counts are valid up to the first frame, and any previous image id: the call returns exactly the first frame of the stream, remembers its image id, and consumes exactly the datagrams up to it; it keeps waiting only if the stream contains no frame. |
| ImageLoader.ImageLoader.ReadPreviews | client/ImageLoader.cpp:250-272 | One thread alone, without locks: successive calls, into the two slots in turn, return exactly the frames of the stream, in order. |
| Channel.FrameIsIntact | client/ImageLoader.cpp:107-163 | If the datagrams of each frame come from one image, a frame found by the receiver is one of the images sent, and none of its datagrams was lost. |
| Channel.IntactIsFrame | client/ImageLoader.cpp:107-163 | An image none of whose datagrams was lost is found when its last datagram arrives. |
| Channel.LossyDelivery | client/ImageLoader.cpp:58-166 | If datagrams are lost but not reordered, and no two adjacent received ones have consecutive packet ids and the same id but come from different images, the frames of the stream are exactly the images none of whose datagrams was lost, in sending order. |
| Channel.NearDelivery | client/ImageLoader.cpp:58-166 | The same if adjacent received datagrams come from images less than 65536 apart. |
| Channel.SelectedInOrder | client/ImageLoader.cpp:58-166 | Any strictly increasing selection of positions of the datagrams sent is such an in-order stream. |
| Channel.IntactSubsequence | client/ImageLoader.cpp:250-272 | What is delivered is an order-preserving, duplicate-free selection of the images sent, and contains every image none of whose datagrams was lost. |
| Channel.LosslessDelivery | server/CameraController.cpp:258-343 | If nothing is lost, every image is delivered in order, however many there are. |
| Integrity.NeverAMixture | client/ImageLoader.cpp:96-165 | Under any loss, duplication and reordering, if the datagrams received during a call come from images distinct modulo 65536, what it returns is byte for byte an image that was sent. |
| Splicing.FrameIsSplice | client/ImageLoader.cpp:138-159 | Over an in-order network, a frame whose datagrams do not all come from one image is begun by one image and ended by a later one with the same id whose size lets it. |
| Splicing.DeliveryExactly | client/ImageLoader.cpp:58-166 | Whatever an in-order network loses, the frames received are exactly the images without a loss, if and only if no two images with the same id have the same size or let the later, larger one complete the earlier one's full chunks. |
| Splicing.SpliceIsRead | client/ImageLoader.cpp:138-162 | For any such pair and any cut there is an in-order stream, with losses in both images, that is read as the start of one followed by the rest of the other. |
| Splicing.SplicedIsOther | client/ImageLoader.cpp:138-162 | What is read then is neither of the two images, unless their contents agree on the part exchanged. |
| PreviewBuffers.NextInv | client/ImageLoader.cpp:250-314 | Every step of either thread, every spurious wake-up and stop() keep mutual exclusion, the slot discipline, the wait conditions and the agreement of what was read with the frames received. |
| PreviewBuffers.CallEnds | client/ImageLoader.cpp:265-267 | The end of a call adds exactly the one frame it has read to the frames of the datagrams received. |
| PreviewRuns.ReachableInv | client/ImageLoader.cpp:250-314 | The invariant holds in every reachable state of every interleaving. |
| PreviewRuns.TwoSlots | client/ImageLoader.cpp:254-313 | With p fills and c displays completed, 0 <= p - c <= 2, the threads use slots p mod 2 and c mod 2, a slot is full if and only if it holds an image numbered in [c, p), and it holds that image whole. |
| PreviewRuns.DisplaysFrames | client/ImageLoader.cpp:292-314 | For datagrams that fit the receive buffers and announce valid counts, what has been set in the GUI is always a prefix of the frames of the received stream: in order, each once, none half-written. |
| PreviewRuns.NotifyOneSuffices | client/ImageLoader.cpp:257-268 | The two threads are never both asleep, and no thread sleeps on a slot whose mutex is free while what it waits for holds. |
| PreviewRuns.DeadlockFree | client/ImageLoader.cpp:250-314 | While not stopping and with datagrams to receive, some thread can take a step. |
| PreviewRuns.QuiescentHasDisplayedAll | client/ImageLoader.cpp:250-314 | For such datagrams, if no thread can take a step while not stopping, the stream is exhausted and every frame in it has been displayed. |
| PreviewRuns.RunsEnd | client/ImageLoader.cpp:250-314 | A run is no longer than a bound given by the datagrams left, plus a constant for each spurious wake-up and stop(): the threads do not spin. |
| PreviewRuns.FinishedRunDisplaysAll | client/ImageLoader.cpp:250-314 | For such datagrams, every run of the two threads that goes on as long as it can displays exactly the frames of the stream, within 30 steps a datagram and 14 more. |
| PreviewCalls.ReadsFrame | client/ImageLoader.cpp:263-266 | From the entry into readPreview, if the rest of the stream has its first frame after n datagrams, n receive steps of the reader put exactly that image in its slot and change nothing else. |
| PreviewCalls.ReadsOn | client/ImageLoader.cpp:263-266 | As long as there is no frame, the receive steps only advance in the stream. |
| PreviewCalls.ReadIntoSlot | client/ImageLoader.cpp:263-266 | A call of ReadPreview on the rest of the stream, made where the reader has been admitted to its slot, takes the two-thread system, by steps of the reader alone, to the state with the image that the call returned in the slot, or to the end of the stream, with the same datagrams consumed. |
| PreviewRuns.StopReaches | client/ImageLoader.cpp:181-189 | When stop() notifies a slot: however long the threads and the rest of the call go on, a thread that slept on that slot, or was awake, is asleep or about to be if and only if it was between finding its predicate false and falling asleep at that moment. |
| PreviewRuns.FinishedAfterStop | client/ImageLoader.cpp:250-314 | When no thread can take a step after stop(), each thread has left or sleeps, or is the reader waiting for a datagram, or the setter waiting for the mutex that this reader holds. |
| PreviewRuns.StopCallReaches | client/ImageLoader.cpp:181-189 | Once a call of stop() has returned, it has notified both slots, and every thread is awake that was not between finding its predicate false and falling asleep when the call began, whatever the threads did meanwhile. |
| PreviewRuns.StopEndsBoth | client/ImageLoader.cpp:181-314 | If neither thread was at that point and datagrams keep coming, both threads have left when no thread can take a step. |
| PreviewRuns.NothingNewAfterStop | client/ImageLoader.cpp:254-313 | Once the flag is set each thread at most finishes the image it is working on, and one that starts a new iteration leaves without locking a slot. |
| PreviewRuns.StopCanBeMissed | client/ImageLoader.cpp:181-189 | There is a reachable state in which stop() was called, the reader has left and the setter sleeps with nobody to wake it. |
| Pipeline.SentAcceptable | server/CameraController.cpp:289-333 | Whatever a network makes of the datagrams sent for images of 1 to 65535 chunks, none is cut by the receive buffers and every announced count is valid. |
| Pipeline.Preview | server/CameraController.cpp:258-343 | TransferData, a network that delivers any subsequence, and ReadPreviews: the previews are the frames of what arrived, and, if no spliceable images were sent or no two datagrams brought together only look consecutive, exactly the images none of whose datagrams was lost. |
| Pipeline.PreviewOne | client/ImageLoader.cpp:58-166 | One call of ReadPreview over a network that loses, duplicates and reorders: if the datagrams it has received come from images distinct modulo 65536, the result is one of the images sent. |
| Pipeline.DisplaysWhatArrived | client/ImageLoader.cpp:250-314 | Over an in-order lossy network, under the same condition as Pipeline.Preview, what has been displayed is always a prefix of the images none of whose datagrams was lost. |
| Pipeline.DisplaysAllThatArrived | client/ImageLoader.cpp:250-314 | Under the same condition, when the threads can go no further, all of these images have been displayed. |
| Pipeline.DisplaysWhatWasCaptured | server/CameraController.cpp:258-343 | If nothing is lost, the GUI ends up having shown exactly the captured images. |
| Encoder.Encoder.Interrupt | tracker/Encoder.cpp:69-86 | A level change updates levels, last pin and counter, and yields the callback, exactly when both pins are high and the previous edge was on the other pin. |
| EncoderReports.CounterOfReports | tracker/Encoder.cpp:69-86 | For any levels reported on the pins, from any state: the counter grows by the number of reports on pin a, less those on pin b, that leave the level last reported for each pin 1 and do not follow a report on the same pin. |
| EncoderReports.CountsSteps | tracker/Encoder.cpp:75-84 | The decoder calls back at exactly these reports. |
| EncoderReports.Listen | tracker/Encoder.cpp:32-86 | A new encoder that is sent any reports through its interrupt method: its counter and the reports that call back are as described. |
| Encoder.Encoder.Reset | tracker/Encoder.hpp:52 | Only the counter is set to 0. |
| EncoderMeaning.ExcursionsSplit | tracker/Encoder.cpp:69-86 | The history cuts the edges into excursions that leave rest and end with the first return to it, and the one under way. |
| EncoderMeaning.HistoryIsComplete | tracker/Encoder.cpp:69-86 | The completed excursions followed by the current one are all the edges, in order. |
| EncoderMeaning.CounterMeaning | tracker/Encoder.cpp:69-86 | From rest, over any sequence of single edges, the counter changes by the sum over the completed excursions of +1 or -1, by the side of return, for those that had both pins low, and 0 for the others. |
| EncoderMeaning.Displacement | tracker/Encoder.cpp:69-86 | At rest, four times the counted steps differ from the signed number of edges travelled by four times the balance of the excursions that backed out; they are equal if and only if that balance is 0. |
| EncoderMeaning.NoBackOuts | tracker/Encoder.cpp:69-86 | If every excursion with both pins low leaves on the side opposite to the one it entered, the balance is 0. |
| EncoderMeaning.BackOutMiscounts | tracker/Encoder.cpp:69-86 | Turning half a cycle and back is counted as a step although nothing was travelled. |
| PanTiltMotors.PanTiltMotors.GotoPosition | tracker/PanTiltMotors.cpp:86-104 | Both axes are armed with their targets and driven at duty 20, counter-clockwise exactly when the target is below the position. |
| PanTiltMotors.PanTiltMotors.Callback | tracker/PanTiltMotors.cpp:77-84 | On arrival the axis is disarmed, which destroys the monitor; its duty becomes 0 if the stop function of the destroyed monitor survives, and stays otherwise; away from the target nothing changes; the other axis is left alone. |
| PanTiltMotors.PanTiltMotors.Interrupt | tracker/Encoder.cpp:69-86 | An interrupt with the callback it triggers changes its own axis as the value function says, and not the other. |
| PanTiltMotors.PanTiltMotors.Drive | tracker/PanTiltMotors.cpp:41-67 | A signed duty sets the direction and the magnitude of one motor and leaves the other alone. |
| PanTiltMotors.PanTiltMotors.SetZero | tracker/PanTiltMotors.cpp:69-75 | Only the two counters are set to 0. |
| GotoRuns.GotoStops | tracker/PanTiltMotors.cpp:77-104 | For any interleaving of interrupts after a goto to another position: until an axis has been at its target it is armed, strictly on its starting side, and driven with duty 20 towards the target, counter-clockwise exactly when the target is below its position; from the event that brings it there on it is disarmed, with duty 0 if the stop function survived that event and driven on otherwise. |
| GotoRuns.GotoDisarms | tracker/PanTiltMotors.cpp:77-104 | After any goto, also one to the current position: an axis stays armed and driven exactly until an event changes its position to the target. |
| GotoRuns.OnlyArrivalDisarms | tracker/Encoder.cpp:76-84 | One interrupt disarms an axis exactly when it changes the position to the target, and no other interrupt touches what drives the motor. |
| GotoRuns.NeverDrivenAtTarget | tracker/PanTiltMotors.cpp:86-104 | In every run in which the stop functions survive, an axis at its target has duty 0, if and only if the goto does not start at the target. |
| GotoRuns.Independent | tracker/PanTiltMotors.cpp:77-104 | What happens to an axis is what its own interrupts alone would do. |
| UserspaceDevice.StrictWeakOrder | server/CaptureCard.cpp:59 | The comparison by system type and number is a strict weak order, as std::sort requires. |
| UserspaceDevice.KeyOfName | server/UserspaceDevice.cpp:191-207 | A device named by a type and a number in decimal, as "video10" is, has that type and that number as an unsigned for its sort key; what follows the number is ignored. |
| UserspaceDevice.SortedMeans | server/CaptureCard.cpp:59 | A list is in the order of the comparison if and only if, for each two of its devices, the types ascend at the first differing character, or are the same and the numbers do not descend. |
| UserspaceDevice.TypesContiguous | server/CaptureCard.cpp:59 | In such a list the devices of one type are contiguous. |
| CaptureCards.Sort | server/CaptureCard.cpp:59 | The result is a permutation of the devices in which types and then numbers ascend. |
| CaptureCards.Find | server/CaptureCard.cpp:95 | The first card on the bus, or none. |
| CaptureCards.Detect | server/CaptureCard.cpp:56-107 | For the devices in some order that the sort allows, there is one card for each bus of the probed devices in the order of first appearance, named by its first device, with exactly the nodes of the devices on the bus in order. |
| CaptureCards.CardListed | server/CaptureCard.cpp:59-105 | A card lists exactly the nodes of the devices probed on its bus, in an order in which types and then numbers ascend, and is named by the first of them. |
| CaptureCards.CardsDistinct | server/CaptureCard.cpp:95-104 | The cards have pairwise distinct bus information. |
| CaptureCards.CardInOrder | server/CaptureCard.cpp:59-104 | The devices of a card follow the order of system type and number. |
| CaptureCards.CardsByFirstDevice | server/CaptureCard.cpp:95-104 | Every device of a later card is preceded by a device of each earlier card. |
| CaptureCards.EveryDeviceOnce | server/CaptureCard.cpp:62-105 | The devices over all cards are, with multiplicities, exactly the ones that could be probed. |

## Left out

- Sockets, endpoints, socket errors and the exceptions they raise: a receive takes the next datagram, a send appends one.
- Memory: `std::vector` and allocation are unbounded, so a huge announced byte count that would fail to allocate is not modelled.
- ImageLoader.ImageLoader.ReadPreview: asks for valid byte counts in packet 0, in the datagrams up to the first frame, because with any other count the next receive writes outside the buffer, which has no meaning in the model; `Reassembly.ResizedWindow` says exactly which counts those are.
- The byte order and width of `size_t`: both ends are taken to use 8 bytes, least significant first.
- CameraController.CameraController.TransferData: the mutex, the wait and the stop exit are replaced by the list of images that each wait finds, because the capture thread (`CameraController::run`) is compiled out; the concurrency of the two-slot protocol is proved for the client, where both sides are live code.
- ImageLoader.ImageLoader.ReadPreviews: a sequential loop; the locks, flags and the stop exit of the same lines are in `PreviewBuffers`.
- The client's thread loops are modelled as a transition system on values rather than as methods, because Dafny has no threads; aliasing of the slots is therefore expressed by indices. Unsynchronised reads of `stop_` are taken to be atomic.
- Exceptions thrown by `readPreview` or by the GUI end a thread in the source; they are not modelled.
- Encoder.Encoder.Interrupt: counters are unbounded integers; overflow of a C++ `int` is not modelled, and neither is the tick argument.
- PanTiltMotors.PanTiltMotors.Callback: a destroyed monitor's stop function either still stops the motor or does nothing; anything else that calling it could do, such as a crash, is not modelled.
- PanTiltMotors.PanTiltMotors.GotoPosition: atomic with respect to interrupts.
- Pin levels of the H-bridge, PWM frequency, standby and drive: duty and direction are fields of an axis.
- UserspaceDevice.StrictWeakOrder: system numbers start with a digit; the white space and sign that `std::stoul` would skip are not modelled, and conversions that throw are excluded.
- udev enumeration, `open` and `ioctl`: the outcome of probing a device is a parameter.
- `std::sort` is any permutation in order, since the algorithm is the library's and not stable.
- The camera-list text, gphoto2, the GUI, logging, options, the joystick and everything under `client-qt5`.
