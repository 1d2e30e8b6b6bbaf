# A verified model of the OSC library and of the cellular automaton it speaks for

The program is a three-dimensional cellular automaton on a torus that is watched, and steered, over Open Sound
Control. This project models its two stateful cores and proves what they keep over every input and every run.

**The OSC library (`objc/lo`).**

- `Options`, `Bytes`, `Osc`, `Codec`, `Validators`, `Messages`: the growable message object, its serialiser, the validators and
  the decoder. Printer and parser undo each other byte for byte, in both directions, and the exact condition
  (no blob over 32768 bytes) is stated.
- `BundleFormat`, `Bundles`: the bundle object, its wire form, and reading it back.
- `WireFormat`, `Refusals`: what a packet is byte by byte, and why one is refused, said without the functions that write,
  read and validate; the codec writes and accepts exactly that.
- `Timetags`, `EventQueue`, `Receiving`, `Schedule`: the time difference, the linked queue it orders, the receive
  loop, and a state machine of whole runs with its safety theorems.
- `Server`, `Refinement`: what the server does with a packet, and the proof that the receive call on packets and
  linked lists is a step of that state machine, so that every run of the code inherits its invariant.
- `Pattern`, `Coercion`, `Methods`, `Routing`: the pattern matcher against naive backtracking and against a search-free
  meaning, argument coercion, the method table with in-place deletion and dispatch, and which methods a pattern reaches.

**The automaton (`objc/*.m`).**

- `Sums`, `Automaton`: sums over the torus and the rule as a step on whole grids; conservation and bounds.
- `Floats`, `Habitats`, `Worlds`: finite and non-finite values, neighbourhood lists, the wiring of cells, and the in-place sweep over cell objects, which
  refines the step on grids whatever order the cells are visited in.
- `Polls`: the renewal counter, and the scan that polls listed cells during a sweep.

Code that updates objects, arrays or lists in place is modelled by classes and methods with loops; each is proved
against a specification function, and the theorems are about those functions. Places where the code does not do
what one would expect are stated as theorems with their exact conditions:

- `Timetags.OrderedExactlyWhenFarApart`, `Timetags.DueExactlyWhenNotNear`: the factor of `lo_timetag_diff` is about
  2^-30 where fractions are documented as units of 2^-32 s. Tags are in the order of instants for certain exactly when
  their seconds are equal or four or more apart, and "due" can be trusted exactly when a tag's seconds are not one to
  four ahead of the clock's. `Schedule.EarlyInstants` bounds how early a message can run, `Schedule.ThreeSecondsEarly`
  and `Schedule.LaterInstantFirst` are runs in which it goes wrong.
- `Codec.TimetagArgumentOrder`: a 't' argument goes out fraction first, unlike the timetag of a bundle.
- `Codec.RoundTrip`, `BundleFormat.BundleRoundTrip`, `Server.BundleDelivered`: a blob over 32768 bytes can be added
  and sent but not received; messages of a bundle before such a one are delivered although the bundle is reported bad.
- `Server.MessageDelivered`: a message whose path is `#bundle` is never taken for that message.
- `Methods.ExactHandlersMayLoseArguments`, `Methods.SecondHandlerGetsNull`: after a handler with converted arguments,
  handlers whose types fit exactly get NULL.
- `Habitats.NumNeighborsIsFlat`: `numNeighbors` counts a flat neighbourhood.
- `Messages.CopiesFitExactly`, `Messages.Compose`: a 'm' argument is copied with the size of a pointer. With eight bytes
  the copy leaves the data exactly when the argument brings it to 8, 16, 32 and so on bytes in a new message, or to the
  received size doubled any number of times in a received one; `Messages.MidiOverruns` has the smallest cases.
- `Messages.WrittenIsWire`, `Messages.DirtyBufferIsRefused`: a message serialised into a caller's buffer is the wire form
  exactly when the bytes of the padding were zero before; otherwise a receiver refuses it.
- `Worlds.RunStaysFinite`: weights that cancel turn every cell into something that is not a number, for good.
- `Polls.SweepPollsAll`, `Polls.LoopsEnd`: the scan meets all listed cells exactly when the list lies on the grid, is
  strictly increasing and has a value for each; the loops of the default list never end for size 3.

The blob padding is that of the code: one to four zero bytes, where the section "Atomic Data Types" of the Open Sound
Control Specification 1.0 asks for zero to three. The host is little-endian. Arithmetic on seconds and on cell states
is exact; the constants are those of the code.

## Model

| member | source | states |
|---|---|---|
| Bytes.SwapsAreInvolutions | objc/lo/lo_endian.h:51-98 | both byte swaps undo themselves, although `lo_swap64` also exchanges the halves |
| Bytes.Network32RoundTrip | objc/lo/lo_endian.h:51-61 | a 32-bit number written in network order is read back |
| Bytes.Network32Canonical | objc/lo/lo_endian.h:51-61 | writing the number just read gives the same four bytes |
| Bytes.NetworkIsBigEndian | objc/lo/lo_endian.h:36-61 | host order is little-endian and network order big-endian: what `lo_htoo32` leaves in memory is the number by the places of its bytes, and `lo_otoh32` reads it so |
| Bytes.SwapsReverse | objc/lo/lo_endian.h:51-98 | both swaps turn a number in host order into the same number in network order, although `lo_swap64` works on halves |
| Osc.WireLength | objc/lo/message.c:644-647 | the wire form has the length `lo_message_length` computes, a multiple of 4 |
| Osc.TypeStringNulFree | objc/lo/message.c:354-370 | no type character ends the type string early |
| WireFormat.TypeCharacters | objc/lo/lo_osc_types.h:47-76 | the fourteen type characters by their letters, the size of the arguments of each, and that only blobs over 32768 bytes are too long |
| WireFormat.KnownTypes | objc/lo/message.c:535-569 | each of the fourteen has arguments, and every other character is an invalid type, whatever follows |
| WireFormat.FormIsOnWire | objc/lo/message.c:606-637 | the bytes of an argument are exactly those the format asks for, without reference to the swaps: big-endian numbers, a 'm' argument as it is, strings and blobs with one to four NULs up to a whole word |
| WireFormat.WireIsPacket | objc/lo/message.c:677-703 | what is serialised is exactly a padded path, a padded type string with its comma, and such arguments one behind the other |
| WireFormat.WireIsBundle | objc/lo/bundle.c:72-123 | a serialised bundle is exactly "#bundle" with its NUL, seconds and fraction big-endian, and elements with big-endian sizes |
| Codec.Strlen | objc/lo/message.c:394-397 | the first NUL is at the result and nowhere before |
| Codec.StringSpanPadded | objc/lo/message.c:440-466 | an accepted string is exactly its characters with their forced NUL padding, and the rest follows |
| Codec.FormParses | objc/lo/message.c:535-569 | a printed argument is accepted exactly when it fits, with its size, and comes back |
| Codec.ParsedForm | objc/lo/message.c:535-569 | printing an accepted argument gives back the bytes that were read, never more than there are |
| Codec.HostSize | objc/lo/message.c:399-432 | `lo_arg_size` on host data is the size the validator answers on network data |
| Codec.DecodeArgsComplete | objc/lo/message.c:771-785 | reading what was printed for any argument list gives that list, or the invalid-argument error exactly when a blob is too long |
| Codec.DecodeArgsSound | objc/lo/message.c:771-785 | an accepted argument part has the given type characters, fits, and prints to the bytes read |
| Codec.RoundTrip | objc/lo/message.c:677-794 | deserialise after serialise gives back path and arguments exactly when every blob fits, and otherwise the invalid-argument error |
| Codec.Canonical | objc/lo/message.c:706-794 | an accepted packet is byte for byte the wire form of what was decoded |
| Codec.AcceptsExactlyWireForms | objc/lo/message.c:706-794 | the accepted packets are exactly the wire forms of messages that fit |
| Codec.DecodeInjective | objc/lo/message.c:706-794 | no two packets decode to the same message |
| Codec.TimetagArgumentOrder | objc/lo/message.c:606-637 | a 't' argument is sent fraction first; it equals the order of a bundle exactly when the two halves are equal |
| Refusals.AcceptsStrings | objc/lo/message.c:440-466 | the string validator accepts exactly what begins with a padded string |
| Refusals.StringErrors | objc/lo/message.c:440-466 | each of its three errors by the bytes: no NUL, padding past the end, padding that is not zero |
| Refusals.BlobErrors | objc/lo/message.c:469-492 | each of the two errors for a blob by the bytes: no room or more than 32768, padding that is not zero |
| Refusals.WhyArgumentsRefused | objc/lo/message.c:771-789 | the argument part is read, has the wrong size, or has an invalid argument exactly when arguments of the given types make it up, leave a rest, or do not begin it |
| Refusals.ShapeOf | objc/lo/message.c:706-794 | every packet has one of five shapes: empty, no path, no type string, one without a comma, or a path with a type string |
| Refusals.WhyRefused | objc/lo/message.c:706-794 | the shape settles the answer of the decoder: one error for each of the first four, and for the last the message, the size or the argument error, each exactly when |
| Refusals.BundleErrors | objc/lo/message.c:495-532 | a string other than "#bundle" is the wrong marker; every other bundle that is not covered exactly is the wrong size |
| Validators.ValidateString | objc/lo/message.c:440-466 | the cursor loops answer the string's span, or the error for no terminator, short data or dirty padding |
| Validators.ValidateBlob | objc/lo/message.c:469-492 | the answer is the blob's span or its error, for every buffer and size |
| Validators.ValidateArg | objc/lo/message.c:535-569 | the answer for every type character, unknown ones included |
| Validators.ValidateElements | objc/lo/message.c:516-531 | true exactly when size words and elements cover the rest without remainder |
| Validators.ValidateBundle | objc/lo/message.c:495-532 | the full size, or which error |
| Messages.SlotsSnoc | objc/lo/message.c:654-670 | the argument vector of a longer message extends that of the shorter one at the old data length |
| Messages.ArgumentAt | objc/lo/message.c:658-667 | at each argument the size read from the data is the argument's, and the next argument follows it |
| Messages.SlotHoldsArgument | objc/lo/message.c:658-667 | at the offset of an argument the data holds that argument in host order, and an argument without data has no offset |
| Messages.SwappedForm | objc/lo/message.c:572-637 | the in-place exchange turns the host form of any argument into its network form and back, leaving what follows |
| Messages.SwapInPlace | objc/lo/message.c:572-637 | nothing before the argument changes, and from it on the buffer is exchanged as specified |
| Messages.WriteBlob | objc/lo/message.c:262-273 | clearing the last word, then length, then contents leaves exactly the blob's host form and nothing else changed |
| Messages.WrittenIsWire | objc/lo/message.c:689-694 | the copies of path, types and data leave padded path, padded types and data exactly when the padding was zero before |
| Messages.DirtyBufferIsRefused | objc/lo/message.c:677-794 | what a receiver makes of a message serialised into any buffer: an invalid path or an invalid type string when there is dirt behind them, and otherwise the round trip |
| Messages.ToNetwork | objc/lo/message.c:696-701 | the last loop of serialising turns the data from host to network forms and nothing else |
| Messages.PlaceArguments | objc/lo/message.c:658-667 | the offsets found by walking the data are the argument starts; arguments without data have none |
| Messages.Message.New | objc/lo/message.c:54-73 | a new message is valid, carries nothing and has no capacity |
| Messages.Message.AddTypechar | objc/lo/message.c:354-370 | the type string is extended by one character, stays terminated within its capacity, and the cached vector is dropped |
| Messages.Message.AddData | objc/lo/message.c:372-392 | room for any size after doubling, from capacity 0 too, and the exact new capacity; the old data is kept |
| Messages.Message.Append | objc/lo/message.c:233-323 | every call for an argument with data but 'm' and blobs: the message is valid, carries one more argument, and has the capacity that doubling gives |
| Messages.Message.AddUnit | objc/lo/message.c:334-352 | an argument without data is appended and the data stays |
| Messages.Message.AddBlob | objc/lo/message.c:262-273 | a blob of any length is appended with its padding cleared, and the capacity is the one doubling gives |
| Messages.Message.AddMidi | objc/lo/message.c:325-332 | for every pointer size: the argument is appended exactly when the copy of pointer size stays inside the data after growing |
| Messages.CapacityInSteps | objc/lo/message.c:372-392 | growing argument by argument gives the capacity of growing at once, so it is known from where the message began and how long its data is |
| Messages.MidiRoom | objc/lo/message.c:325-392 | with pointers of four bytes the copy always fits; with eight it leaves the data exactly when the data with the argument has the size of the first capacity (8 for none) doubled any number of times |
| Messages.CopiesFitExactly | objc/lo/message.c:89-392 | the same for a whole list of arguments, in terms of the arguments before each 'm' and the size the message began with: 0 for a new message, that of its data for a received one |
| Messages.MidiOverruns | objc/lo/message.c:325-332 | with eight bytes the copy leaves the data for an integer and then a 'm' in a new message, and for a 'm' behind four received bytes |
| Messages.Message.Add | objc/lo/message.c:233-352 | every `lo_message_add_*` call keeps the representation invariant and appends exactly its argument, exactly when the copy of a 'm' argument stays inside the data; data length and capacity after it |
| Messages.Message.AddVarargs | objc/lo/message.c:89-216 | the arguments of known type characters are appended in order, and the result is -1 exactly when there is an unknown one, exactly when the copies for the 'm' arguments fit the data the message had at the start |
| Messages.Compose | objc/lo/send.c:74-80 | a new message with its arguments: always with pointers of four bytes; with eight exactly when no 'm' argument brings the data to 8, 16, 32 and so on bytes |
| Messages.Message.Length | objc/lo/message.c:644-647 | the length of what will be serialised, a multiple of 4 |
| Messages.Message.GetArgv | objc/lo/message.c:654-670 | a cached vector equals the one that would be computed now |
| Messages.Message.SerialiseInto | objc/lo/message.c:677-703 | into any buffer: path, types and data are written to their places and nothing else, and that is the wire form exactly when the padding was zero before |
| Messages.Serialise | objc/lo/message.c:677-703 | a fresh buffer that is exactly the wire form |
| Messages.ReadArguments | objc/lo/message.c:764-785 | the loop over the copied data decodes as specified, leaves host forms and collects the argument vector |
| Messages.ReadBody | objc/lo/message.c:749-785 | a message made from type string and data is valid, or the error is passed on |
| Messages.Deserialise | objc/lo/message.c:706-794 | a fresh valid message with the decoded arguments, all its capacity used and its argument vector in place unless there are none, or null with the decoder's error |
| Timetags.DiffsAreKeyDifferences | objc/lo/timetag.c:25-29 | `lo_timetag_diff` is a difference of keys, so it orders tags totally |
| Timetags.ChronologicalScales | objc/lo/timetag.c:25-29 | what the fraction factor would have to be: it orders all tags as instants exactly when the largest fraction stays below a second |
| Timetags.CodeScaleIsNotChronological | objc/lo/timetag.c:28 | the documented unit would do; the factor in the code does not, with two tags it puts in the wrong order (the exact condition on tags is the next row) |
| Timetags.OrderedExactlyWhenFarApart | objc/lo/timetag.c:25-29 | at the code's factor all pairs of tags d seconds apart are in the order of their instants exactly when d is 0 or at least 4 either way |
| Timetags.DueExactlyWhenNotNear | objc/lo/server.c:594-598 | what the code takes to be due within 0.01 s is due within it as an instant exactly when the tag's seconds are not one to four ahead of the clock's |
| Timetags.EarlyByInstants | objc/lo/server.c:923-951 | a tag due by the code's measure is less than 3.0025001 s early as an instant |
| Timetags.EarliestIsSharp | objc/lo/server.c:923-951 | and 3.0025 s would not do |
| BundleFormat.ElementsRoundTrip | objc/lo/server.c:645-664 | reading the elements gives the messages in order, up to the first with a blob over the limit |
| BundleFormat.LengthOfWire | objc/lo/bundle.c:55-70 | `lo_bundle_length` is the length of the wire form |
| BundleFormat.HeaderReads | objc/lo/bundle.c:93-102 | marker, timetag and elements are found again behind the header |
| BundleFormat.BundleRoundTrip | objc/lo/bundle.c:72-123 | `lo_validate_bundle` takes every serialised bundle whole, and its timetag and messages are read back |
| Bundles.WriteElement | objc/lo/bundle.c:104-108 | a size word and the message's wire form, nothing before changed and the rest still clear |
| Bundles.WriteElements | objc/lo/bundle.c:104-121 | the block becomes the wire form exactly; the check inside the loop never fails |
| Bundles.WriteHeader | objc/lo/bundle.c:93-102 | marker, seconds and fraction in network order, the rest still clear |
| Bundles.Bundle.New | objc/lo/bundle.c:24-35 | an empty bundle with its timetag |
| Bundles.Bundle.Add | objc/lo/bundle.c:37-53 | message and path are appended within capacity; a missing message changes nothing |
| Bundles.Bundle.Length | objc/lo/bundle.c:55-70 | the loop computes the length of the wire form |
| Bundles.Bundle.Serialise | objc/lo/bundle.c:72-123 | never null: neither integrity error can occur, and the block is filled with exactly the wire form |
| EventQueue.InsertIsStable | objc/lo/server.c:886-921 | a sorted queue stays sorted; exactly the messages not later stay before the new one |
| EventQueue.BatchIsMaximal | objc/lo/server.c:923-951 | a batch is exactly the messages within FLT_EPSILON of the head, and what is left is sorted |
| EventQueue.Queue.FindPlace | objc/lo/server.c:886-912 | the walk stops at the first message that is later, with the node before it |
| EventQueue.Queue.Link | objc/lo/server.c:899-920 | the pointer surgery puts one node between its neighbours, at the head and at the end too |
| EventQueue.Queue.QueueData | objc/lo/server.c:886-921 | the linked list shows the stable insertion |
| EventQueue.Queue.Unlink | objc/lo/server.c:936-946 | the head is handed out and the rest of the list kept |
| EventQueue.Queue.DispatchQueued | objc/lo/server.c:923-951 | exactly the batch is handed out in order, the rest stays, and the result tells an empty queue |
| Receiving.DueMeansDue | objc/lo/server.c:536-615 | `dispatch_queued` is only reached with a message due within 0.01 s by the code's own measure, so its error branch is unreachable |
| Receiving.DelayMeans | objc/lo/server.c:678-694 | the delay stays between 0 and 100 and is over any margin in between exactly when the head is more than that away, or there is none |
| Receiving.FirstEventDecides | objc/lo/server.c:536-615 | however many polls were idle before, the first reading that finds the head due, the first packet or the first error decides the call, with or without a queue; without any of them it waits |
| Receiving.ImmediateMeans | objc/lo/server.c:654-656 | a message is dispatched at once exactly when its tag is 0 seconds and fraction 1, or not later than the clock by the code's measure, which is not later as an instant for tags in the same second or four apart |
| Schedule.EnqueueEvolves | objc/lo/server.c:886-921 | an insertion keeps the invariant, the order of all accepted messages, and every bundle whole |
| Schedule.FiredOnTime | objc/lo/server.c:923-951 | by the code's own measure a batch taken when the head is due runs nothing more than 0.01 s plus FLT_EPSILON early |
| Schedule.FireEvolves | objc/lo/server.c:923-951 | a batch keeps the invariant and order, and takes each bundle whole or leaves it whole |
| Schedule.ArriveEvolves | objc/lo/server.c:617-675 | so does the arrival of any packet |
| Schedule.RecvEvolves | objc/lo/server.c:536-615 | so does every receive call |
| Schedule.ExecuteEvolves | objc/lo/server.c:536-615 | so does every run |
| Schedule.EveryRunIsSafe | objc/lo/server.c:536-951 | on every run each accepted message is once among run and waiting ones, the queue is in order of keys, by the code's own measure nothing ran more than 0.01 s plus FLT_EPSILON early, and no empty queue was dispatched |
| Schedule.EarlyInstants | objc/lo/server.c:536-951 | on every run nothing runs more than 3.0025001 s before its instant, and nothing more than 0.01 s plus FLT_EPSILON unless its seconds were one to four ahead of the clock's |
| Schedule.ThreeSecondsEarly | objc/lo/server.c:536-951 | a run in which a message for second 4 runs just before second 1 |
| Schedule.EarlierRunsFirst | objc/lo/server.c:886-951 | of two waiting messages the earlier key, then the earlier arrival, runs first however the run goes on |
| Schedule.DueCallFires | objc/lo/server.c:536-615 | a call runs the queue when some reading of the clock finds any waiting message due before a poll brings anything |
| Schedule.DueMessageRuns | objc/lo/server.c:536-951 | progress: the message at place k runs, at a reading of the next k + 1 calls, when each of them finds it due at some reading before a poll brings anything |
| Schedule.EarlierInstantRunsFirst | objc/lo/server.c:886-951 | of two waiting messages whose seconds are equal or at least four apart the earlier instant runs first, and of equal tags the earlier arrival |
| Schedule.LaterInstantFirst | objc/lo/server.c:886-951 | for every other distance, a run in which the later instant runs first and the earlier one, long due, waits |
| Schedule.FirstEventActs | objc/lo/server.c:536-615 | the same on the state: after idle polls a head that falls due is run at that reading, a packet that comes is taken, and an error changes nothing |
| Schedule.ArriveIsQueueAll | objc/lo/server.c:645-664 | the arrival of a future bundle is the repeated insertion that the packet handler does |
| Schedule.QueuedTogether | objc/lo/server.c:645-664 | a future bundle is queued side by side, in order |
| Schedule.BundlesStayTogether | objc/lo/server.c:645-951 | whatever follows, its messages have all run side by side in order, or all still wait side by side in order |
| Server.BundleDelivered | objc/lo/server.c:617-675 | the server gets timetag and messages of a serialised bundle in order, all for dispatch or all for the queue; with a blob over the limit only the messages before it, and an error |
| Server.MessageDelivered | objc/lo/server.c:617-675 | a serialised message that fits is delivered exactly when its path is not the bundle marker |
| Server.AcceptsExactly | objc/lo/server.c:617-675 | the server accepts exactly the serialised messages that fit, under another path than "#bundle", and the serialised bundles of messages that fit; the answer is then the size of the packet and otherwise negative |
| Server.RefusedPackets | objc/lo/server.c:617-675 | the answer for every other packet: the error of its path, of the decoder, of the size, or of the first bad element |
| Server.BadElementEnds | objc/lo/server.c:645-664 | an element that does not decode ends a bundle: the messages before it are delivered, nothing behind it is, and the answer is its error |
| Server.DeliverElement | objc/lo/server.c:645-664 | one element is dispatched at once or inserted by its tag; one that does not decode changes nothing |
| Server.DispatchElements | objc/lo/server.c:638-664 | all elements read are dispatched in order, or queued in order, as one, each in a fresh valid message object with the arguments read |
| Server.DispatchMessage | objc/lo/server.c:665-673 | a plain message is dispatched at once, in a fresh valid object |
| Server.DispatchData | objc/lo/server.c:617-675 | the packet handler reads, dispatches, queues and answers as specified, on every packet, and its message objects are fresh and valid |
| Server.QueueDelay | objc/lo/server.c:678-694 | the delay to the head's tag, clamped to 0 and 100, 100 for no head |
| Server.Recv | objc/lo/server.c:536-615 | one receive call polls, handles one packet, or runs the batch that is due; its effect on queue and messages is the specified one, and the messages read are fresh, valid and those of the packet |
| Refinement.InsertShown | objc/lo/server.c:886-921 | insertion does the same to messages as to their numbers |
| Refinement.ReceivedUntil | objc/lo/server.c:617-675 | the clock decides between dispatching and queueing, never what is read |
| Refinement.SameDecision | objc/lo/server.c:536-615 | the receive call decides alike on packets and on their abstraction |
| Refinement.PacketRefines | objc/lo/server.c:617-675 | handling a packet is the arrival of its messages in the state machine |
| Refinement.FireRefines | objc/lo/server.c:923-951 | dispatching the queue is the batch of the state machine |
| Refinement.RecvRefines | objc/lo/server.c:536-615 | one receive call on linked list and packets is one step of the state machine; list, accepted messages and handed-out messages stay in agreement |
| Refinement.Serve | objc/lo/server.c:536-951 | receive calls one after another from an empty list accept exactly the messages of the packets received, in order, with their paths and arguments in valid objects; list and handed-out messages agree with a run of the state machine on them and so satisfy its invariant |
| Pattern.TwoStars | objc/lo/pattern_match.c:99-105 | collapsing stars loses no match |
| Pattern.StarTakesAnyPrefix | objc/lo/pattern_match.c:99-116 | a star matches exactly when the rest of the pattern matches some suffix |
| Pattern.SetHasStep | objc/lo/pattern_match.c:140-163 | what a set holds, item by item and by comparisons of characters alone |
| Pattern.SetStep | objc/lo/pattern_match.c:140-163 | reading a character again as the start of the next item does not change the union |
| Pattern.RangeHolds | objc/lo/pattern_match.c:121-157 | a range holds all from its lower to its upper end, or its two ends alone when they are the wrong way round; an open one all from its character on |
| Pattern.CharactersHold | objc/lo/pattern_match.c:140-163 | a set without '-' holds its characters and nothing else |
| Pattern.SetInPattern | objc/lo/pattern_match.c:127-175 | a closed set in a pattern takes one character that it holds, a negated one a character that it does not |
| Pattern.MatchSet | objc/lo/pattern_match.c:140-163 | the loop finds the end of a closed set and tells membership |
| Pattern.PassSet | objc/lo/pattern_match.c:127-175 | a set matches exactly when membership differs from negation, and is passed over to behind its bracket |
| Pattern.MatchStar | objc/lo/pattern_match.c:99-116 | collapsing, skipping to the next literal and leaving out the empty suffix lose no match |
| Pattern.PatternMatch | objc/lo/pattern_match.c:87-248 | the matcher answers exactly what naive backtracking does, and every recursive call shortens the pattern |
| Pattern.MatchIsDecomposition | objc/lo/pattern_match.c:87-248 | a string matches exactly when it can be cut into one piece for each token of a closed pattern |
| Pattern.OneCharacter | objc/lo/pattern_match.c:118-121 | '?' takes any one character, and every character but '*' and '[' takes itself |
| Pattern.PlainMatchesItself | objc/lo/pattern_match.c:87-248 | without '*', '?' and '[' a pattern matches only itself |
| Coercion.EntriesStartValues | objc/lo/server.c:777-798 | each argument entry starts a value of the requested type inside the data, right behind the one before |
| Coercion.CoercionClasses | objc/lo/server.c:1115-1137 | which type strings stand in for which, by their letters: as long, with "ihfd" for each other, "sS" for each other, and every other type for itself |
| Coercion.TargetSizeRead | objc/lo/server.c:784-787 | the first pass reads from the message the room the converted value will take |
| Coercion.TargetSizeOfValue | objc/lo/server.c:791-798 | the second pass reads the same size from the converted value |
| Coercion.Coerce | objc/lo/message.c:933-974 | with compatible types it succeeds, writes inside its place and leaves a value of the requested type |
| Coercion.Measure | objc/lo/server.c:784-787 | the first pass computes the total room |
| Coercion.CoerceArguments | objc/lo/server.c:777-798 | whenever the type strings are compatible the second pass fills exactly the measured block, no coercion fails, and every entry starts a value |
| Methods.DeleteUndoesAdd | objc/lo/server.c:953-1031 | deleting a method just added restores the table when no other method answers to the call |
| Methods.KeptMembers | objc/lo/server.c:992-1031 | exactly the methods the call does not mean are kept |
| Methods.PatternMeans | objc/lo/server.c:705 | a pattern is a path that holds one of the characters " #*,?[]{}" |
| Methods.TraceIsDispatchOrder | objc/lo/server.c:763-816 | for a pattern all compatible methods are called, for a plain path those up to the first answer 0, once each and in order of registration; each is shown its own path and types or, for what it leaves open, the message's, and is handed converted arguments exactly when its types differ |
| Methods.ExactHandlersMayLoseArguments | objc/lo/server.c:766-811 | a handler whose types fit exactly gets the message's arguments exactly when no handler called before it had them converted, and otherwise NULL |
| Methods.SecondHandlerGetsNull | objc/lo/server.c:809 | a method that wants no conversion can be left with NULL |
| Methods.TraceStops | objc/lo/server.c:812-814 | behind an answer of 0 on a plain path nobody is called |
| Methods.AnswerOfLast | objc/lo/server.c:763-816 | dispatching answers what the last handler called answers, and 1 when nobody is called |
| Methods.PlainAnswer | objc/lo/server.c:812-814 | for a plain path that is 0 exactly when one of the methods it means answers 0 |
| Methods.HandConverted | objc/lo/server.c:777-798 | the block a handler with converted arguments is given has every argument laid out for the method's types |
| Methods.Contents | objc/lo/server.c:696-702 | type characters, data and argument vector are the message's own |
| Methods.Table.Dispatch | objc/lo/server.c:763-816 | on any valid message the loop calls exactly the specified handlers, each with the path and type string due to it and with the message's own vector, NULL, or a block laid out for its types, and returns the last answer |
| Methods.Table.constructor | objc/lo/server.c:146-379 | a new server has no methods |
| Methods.Table.Append | objc/lo/server.c:980-987 | walking to the end appends one node |
| Methods.Table.Add | objc/lo/server.c:953-990 | a path that holds one of " #*,?[]{}" is refused and changes nothing; every other one, and none, is taken: the method is last, and no registered path is a pattern |
| Methods.Table.Remove | objc/lo/server.c:1015-1025 | one node is unlinked and freed, at the head or behind its predecessor |
| Methods.Table.Delete | objc/lo/server.c:992-1031 | exactly the order-preserving filter is left, no freed node is used although `prev` may name one, and the loop ends |
| Routing.Match | objc/lo/pattern_match.c:87-248 | the code's matcher answers whether a path can be cut along a pattern, with signed and with unsigned characters |
| Routing.PatternLetters | objc/lo/pattern_match.c:87-175 | what '*', '?', "[lo-hi]" and "[!lo-hi]" match, by their letters |
| Routing.NoPatternMatchesItself | objc/lo/server.c:705-770 | a path without any of the nine pattern characters matches only itself, so nothing is lost where the server does not call the matcher for it |
| Routing.PatternReaches | objc/lo/server.c:763-816 | for the patterns of `Routing.Match`, a pattern path calls exactly the methods of compatible types that are wildcards or whose paths can be cut along the pattern |
| Routing.PatternDeletes | objc/lo/server.c:992-1031 | for the same patterns, deleting keeps exactly the methods of another type string and those whose path is missing or cannot be cut along it |
| Routing.PlainDeletes | objc/lo/server.c:992-1031 | deleting with a plain path, or with none, keeps exactly the methods of another path or another type string |
| Routing.PlainReaches | objc/lo/server.c:763-816 | a plain path calls exactly the wildcards and methods of that very path, of compatible types, up to and including the first that answers 0 |
| Sums.WrapWrap | objc/fxutil.h:33 | wrapping in two steps is wrapping once |
| Sums.SumShifted | objc/FxWorld.m:87-89 | a sum over a ring does not change when the ring is turned |
| Sums.TotalShifted | objc/FxWorld.m:87-90 | the total over the torus does not change under a fixed neighbour direction |
| Automaton.WeightGoesToItsNeighbour | objc/Cell.m:102-107 | weight q goes to the neighbour in direction q, with all others zero it alone counts |
| Automaton.GatherAdds | objc/Cell.m:102-107 | the weighted sum is additive in the weights, so the row above settles it |
| Automaton.WeightsInForce | objc/Cell.m:93-121 | a single weight hands on the state of its neighbour with the amount added and 1 taken off above 1; with another number of weights than neighbours all count the same |
| Automaton.GatherTotal | objc/Cell.m:102-107 | the total of all weighted neighbourhood sums is the sum of weights times the total |
| Automaton.Conservation | objc/Cell.m:73-121 | one generation changes the total by n^3 times the added amount minus the cells that passed 1 |
| Automaton.RunConservation | objc/Cell.m:73-121 | the same over every run with settings changing from generation to generation |
| Automaton.BoundsNeverWiden | objc/Cell.m:93-121 | with nothing added the maximum never rises and the minimum never falls |
| Automaton.StepStaysInUnit | objc/Cell.m:93-121 | with an added amount in [0, 1] states in [0, 1] stay there |
| Automaton.RunsStayInUnit | objc/Cell.m:93-121 | over every run every state stays in [0, 1] |
| Habitats.MooreStructure | objc/Habitat.m:51-71 | the list holds every non-zero offset within the radius exactly once, (2r+1)^3 - 1 in all, and reversed is its own negation |
| Habitats.MooreOrder | objc/Habitat.m:58-69 | the list is in strict order by y, then x, then z, so with its members it is settled which weight goes to which neighbour |
| Habitats.NeumannStructure | objc/Habitat.m:73-99 | the list holds exactly the offsets one step away along one axis, in strict lexicographic order, and reversed is its own negation |
| Habitats.Habitat.Moore | objc/Habitat.m:51-71 | the fields of the object for every radius, negative ones included |
| Habitats.Habitat.Neumann | objc/Habitat.m:73-99 | the fields of the object; the radius does not change the list |
| Habitats.MooreLoops | objc/Habitat.m:58-69 | the triple loop builds the specified list |
| Habitats.NumNeighborsIsFlat | objc/Habitat.m:55-77 | for every radius asked for, the count in the object is the length of the Moore list exactly for radius 0 and -1, and never that of the von Neumann list |
| Habitats.NeighbourIsOffset | objc/FxWorld.m:82-90 | a neighbour is its offset away in each coordinate up to whole turns around the torus, and none where that stays on the grid |
| Habitats.NeighboursAreMutual | objc/FxWorld.m:62-96 | B is neighbour q of A exactly when A is neighbour count-1-q of B |
| Habitats.NeighbourOfExactlyOne | objc/FxWorld.m:62-96 | every cell is neighbour q of exactly one cell |
| Worlds.Cell.NextPlain | objc/Cell.m:73-91 | the plain average with the amount added, folded at 1, or no finite number when the habitat is empty or holds none; the speed leads from the last state to the new one in the given frames; nothing else changes |
| Worlds.Cell.Next | objc/Cell.m:93-121 | the weighted rule, falling back to the plain one when the counts differ: finite exactly when the habitat is and the weights in force do not cancel; the speed leads from the last state to the new one; nothing else changes |
| Floats.SumSnoc | objc/Cell.m:102-107 | the sum the loops accumulate is the weighted sum of finite values, and not finite once one value is not |
| Floats.SpeedLeads | objc/Cell.m:86-116 | after so many frames at that speed the last state has become the new one; there is no finite speed for 0 frames or states that are not finite |
| Worlds.NewStateIsStep | objc/Cell.m:73-121 | the rule on the objects of a wired world is the rule of the grid |
| Worlds.RunStaysFinite | objc/Cell.m:93-121 | a run keeps finite values exactly when in none of its settings the weights in force cancel |
| Worlds.LastSeedCounts | objc/FxWorld.m:118-125 | the last seed at a place gives its state, and without one it is 0 |
| Worlds.World.InitCells | objc/FxWorld.m:98-126 | a cube of fresh cells at their coordinates, each with its last seed or 0; a seed outside the grid raises an exception, and the seeds before it have been placed |
| Worlds.World.SetHabitat | objc/FxWorld.m:62-96 | every cell has, in order, the cells at its wrapped offsets |
| Worlds.World.FindHabitat | objc/FxWorld.m:81-91 | the cells at the wrapped offsets, in order |
| Worlds.World.PrepareNext | objc/FxWorld.m:141-160 | every cell's last state is its state, and no state changes |
| Worlds.World.RenewCell | objc/FxView.m:260-264 | one cell takes its state of the simultaneous update and the speed that leads there, and everything else keeps its last state |
| Worlds.World.Renew | objc/FxView.m:252-264 | the in-place sweep gives the simultaneous update of all cells, and the speeds that lead there |
| Worlds.World.RenewInOrder | objc/FxView.m:252-264 | so does any other order, with any repetitions, on the cells visited |
| Worlds.World.Run | objc/FxView.m:246-264 | generations on objects are generations on grids, for all weights and frame rates, and the speeds are those of the last generation |
| Worlds.Live | objc/FxWorld.m:40-160 | from seeds to any generation, unless a seed is outside: the cell objects end with the run of the grid the seeds lay out; finite exactly when no weights cancel; then the total is conserved up to what was added and wrapped; and every state stays in [0, 1] |
| Polls.RenewalPeriod | objc/FxView.m:244-354 | after a renewal that reads rate r the next one is exactly r frames later, never for a rate below 1 |
| Polls.NumbersFollowOrder | objc/FxView.m:252-260 | the sweep visits cells in lexicographic order |
| Polls.SweepPollsAll | objc/FxView.m:313-322 | a sweep from index 0 polls all listed cells exactly when the list is on the grid, strictly increasing and no longer than the values; otherwise it polls those before the first that breaks the order, or raises an exception, exactly when the list is empty or a cell comes that has no value |
| Polls.PollSweep | objc/FxView.m:252-328 | the polling in the triple loop is the specified scan, for every list, index and number of values |
| Polls.StaleIndexRaises | objc/FxView.m:237-313 | a poll index beyond a list put in its place raises an exception at the first cell |
| Polls.DefaultPollIndices | objc/FxWorld.m:162-193 | the default list holds exactly the cells whose coordinates are all 2 plus a multiple of a quarter of the size, below the size, in increasing order; it is empty exactly below size 4 |
| Polls.LoopsEnd | objc/FxWorld.m:169-187 | the loops of the default list end exactly when the size is not 3 |

## Left out

- Messages of 2 GiB and more: sizes are unbounded here, so truncation of `int` and `ssize_t` is not modelled. Blobs are below 2^32 - 8 bytes, and elements of a bundle below 2^32.
- Messages.Message.Append: strings are given without their NUL and numbers as their bytes in host memory. The three bytes behind the character of a 'c' argument, which the code takes from a union, can be any.
- Messages.Message.AddMidi: what a copy does that leaves the data is not stated.
- Validators.ValidateBlob: the code reads the length word before it knows that four bytes are left; the model reads it afterwards. Any size below 8 is refused either way.
- Bundles.Bundle.Serialise: only with the cleared memory that `lo_bundle_serialise` allocates; for a buffer of the caller's see `Messages.WrittenIsWire`.
- Messages.Message.GetArgv: pointers are offsets into the data. A data area not yet allocated is an empty array.
- Bundles.Bundle.Add: the two arrays are sequences with a capacity; reallocation is not modelled.
- Server.Recv: clock and polls are a given script; sockets, timeouts, senders and the stream protocol are not part of this model, nor is `lo_server_recv_noblock`.
- Refinement.Serve: handlers do not touch the server, and one thread receives.
- Nested bundles: the code hands every element to the message decoder, so a bundle inside a bundle is an error here as there.
- Pattern.PatternMatch: patterns with '{' are left out, since that branch does not implement alternation, and so is a pattern that ends in "[!", where the code reads past its end. `Methods` takes the matcher as a parameter and holds for any answer.
- Pattern.MatchStar: the same patterns are left out.
- Routing.Match: the same patterns are left out, and for them `Routing.PatternReaches` and `Routing.PatternDeletes` say nothing about the code.
- Pattern.MatchSet: character codes are integers; whether `char` is signed does not matter.
- Coercion.Coerce: the numbers that conversions produce are a parameter; the number of bytes they fill is not.
- Methods.Table.Dispatch: what handlers answer is a parameter. The reply to an enumeration request, printing, and the handler's source and user data are left out.
- Automaton.Conservation: arithmetic is exact, not `float`. Weights whose sum is zero are excluded here; what they do is stated by `Worlds.RunStaysFinite`.
- Worlds.Cell.Next: infinities and NaN are one value, as none of them leads back to a finite one; overflow of finite values is not modelled.
- Worlds.World.InitCells: how seeds are laid out is left out.
- Sums.WrapWrap: `wrapi` is only declared in the header; its source is not part of this model, and it is taken to give the representative modulo the size.
- Polls.PollSweep: the phase of each listed cell is a given value, the one the cell has when it is visited; `updatePhase` and what interpolation promises are left out, as are averages, drawing, cell editing and sending.
- Polls.SweepPollsAll: a sweep that starts in the middle of a list, after an earlier one got stuck there, is only covered by `Polls.PollSweep`.
- Polls.DefaultPollIndices: for size 3 the loops never end (`Polls.LoopsEnd`), so there is no result to state.
- Addresses, sending, the server thread, URL parsing, error callbacks, memory release and allocation failure, variadic argument markers, pretty printers, the graphical interface and the sound-synthesis files.
