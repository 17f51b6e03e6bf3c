# Verified models of Smelter's stateful cores

Smelter is a media compositor. These Dafny modules model the parts of it that carry
state over many calls, threads or messages, and prove what those parts keep over
every run. `dafny verify dfyconfig.toml` checks the project.

- **H.264 output order** (`Frames`, `BinaryHeap`, `Reordering`, `Presentation`,
  `FrameSorter`). The frame sorter is an object over an array heap. A run of `put`
  calls is a value of type `Run`; the results about runs hold for any tie-breaking.
  Output is in order if and only if the stream's disorder is within
  `max_num_reorder_frames`, and a stream cut by IDR pictures comes out as each
  piece sorted, again if and only if every piece keeps its bound.
- **H.264 byte streams** (`NaluSplitting`, `NaluSplitter`). The NAL unit splitter
  resumes its search four bytes before the end of what it has seen; the units it
  gives are those of the whole stream, however the stream is cut into pieces.
- **RTMP chunk streams** (`ByteOrder`, `RtmpChunk`, `RtmpStream`, `RtmpRoundTrip`,
  `RtmpConversation`, `RtmpArrival`, `RtmpEndpoints`, `RtmpWire`). The writer compresses message
  headers against the message before and cuts payloads into chunks; the reader undoes
  both, byte by byte. A peer that follows the announced chunk sizes hears every
  message of every script; only timestamps can differ, by a time that is stated
  exactly, and they do not if and only if they keep an order that is stated exactly.
  It does not matter how the bytes arrive, and a message cut short is not heard.
  The bytes themselves are pinned down for messages of each kind.
- **RTMP client control state** (`RtmpClientHistory`, `RtmpClient`). Negotiation, the
  default handler with its acknowledgements, and sending. Its histories keep writer
  chunk size and announcements in lockstep, so that the round trip above applies to
  everything a client writes, up to its first write error.
- **Version bumps** (`BumpVersions`, `VersionWorkspace`). Saving, any number of
  complete or failing pre-release bumps, and restoring.
- **CEF reference counts** (`CefRef`). Threads whose atomic steps interleave in any
  order.
- **Event emitter** (`EventLists`, `EventHandler`, `EventConcurrency`). The emitter as
  an object, and its two-phase removal of dead subscribers among concurrent senders.
- **Shutdown conditions** (`ShutdownTree`, `ShutdownCondition`). Shared flags on the
  heap, against a tree of conditions.
- **RTP dumps** (`RtpDump`), **texture downloads** (`TextureDownload`), **audio
  batches** (`AudioSamples`).

## Where the code does less than it is meant to

Each of these is a lemma that shows the failing case and states exactly, or for a
whole family of inputs, when the code does what it should.

- A message stamped earlier than the one before it on its chunk stream is read with
  the timestamp heard before, and all later ones on its message stream are heard late
  by the sum of such steps back (`RtmpConversation.EarlierTimestampIsMisread`,
  `RtmpConversation.HeardLate`). Audio and video configurations are stamped 0
  (rtmp/src/message/audio.rs:183-189, rtmp/src/message/video.rs:211-217), so a
  configuration sent again in mid-stream is such a message.
- A message that changes the message stream of its chunk stream and needs more than
  one chunk is read with a wrong timestamp unless the timestamp heard before it on the
  chunk stream is 0, since the reader takes the repeated header for a delta
  (`RtmpRoundTrip.TimestampKeptIff`).
- The first message of a chunk stream is not clamped to 24 bits when its timestamp
  needs the extended field (`RtmpRoundTrip.FirstMessageReadIff`).
- Two senders that find the same dead subscriber at once: the first removal moves the
  entries behind it, so that the second takes out whatever has moved to its index, a
  live subscriber if one stands there (`EventConcurrency.OvertakenRemovalLosesLive`).
  A removal takes out exactly what its sender found if and only if no index at or
  before its own was taken out since (`EventConcurrency.RemovalIsExactIff`).
- A NAL unit that takes three pushes carries the time stamp of one that did not bring
  its first byte (`NaluSplitter.LongUnitIsStampedLate`); `NaluSplitter.UnitsCarryStamps`
  says whose stamp each unit carries, and when that is the push it began in.
- An NV12 texture of odd height either panics or brings half a row of padding with it,
  and one of odd width a byte of padding with every chroma row
  (`TextureDownload.ChromaDownloadIff`).
- `restoreVersionState` brings back dependency versions only; a package's own version
  stays bumped (`BumpVersions.RestoreUndoes`).
- A comment in the audio merge calls merging mixed layouts an error that is handled
  anyway; merging is then not associative
  (`AudioSamples.MergeAssociativeIff`).

## Model

| member | source | states |
|---|---|---|
| BinaryHeap.RootIsGreatest | gpu-video/src/frame_sorter.rs:41-48 | under the reversed order the root of a heap has a least picture order count |
| BinaryHeap.BinaryHeap.Push | gpu-video/src/frame_sorter.rs:87 | adds one frame and keeps the heap order |
| BinaryHeap.BinaryHeap.Pop | gpu-video/src/frame_sorter.rs:90 | takes out a frame whose count no remaining frame undercuts, none if the heap is empty |
| FrameSorter.FrameSorter.Put | gpu-video/src/frame_sorter.rs:74-96 | an IDR empties the queue in count order and follows it; any other picture waits, and the least ones leave until at most max_num_reorder_frames wait; each comes out with its data, time stamp, color space and color range |
| FrameSorter.FrameSorter.PopDownTo | gpu-video/src/frame_sorter.rs:89-92 | the popping loop emits the least waiting pictures in count order and leaves exactly the given number |
| FrameSorter.FrameSorter.PutFrames | gpu-video/src/frame_sorter.rs:99-107 | its result is that of a run of single puts over the batch |
| FrameSorter.FrameSorter.Flush | gpu-video/src/frame_sorter.rs:109-118 | everything waiting comes out in count order, with data, time stamps and colors |
| FrameSorter.FrameSorter.PutFramesAndFlush | gpu-video/src/backends/vulkan/vulkan_decoder/decoders_h264.rs:365-368 | a batch and a flush show the stream's presentation order if every piece keeps its bound; what comes out is always exactly what was put in, with its time stamps and colors |
| Frames.SamePictures | gpu-video/src/frame_sorter.rs:50-61 | reordering keeps the multiset of pictures together with their time stamps and colors |
| Reordering.Split | gpu-video/src/frame_sorter.rs:99-107 | any run can be cut into two batches with the same outputs and the same final queue |
| Reordering.Join | gpu-video/src/frame_sorter.rs:99-107 | two batches in a row are a run of all their inputs |
| Presentation.RunsAgree | gpu-video/src/frame_sorter.rs:74-107 | without ties in the queue two runs over the same inputs give the same outputs, however they were batched |
| Reordering.Conservation | gpu-video/src/frame_sorter.rs:74-118 | emitted and waiting pictures are at all times exactly those put in, with bounds varying freely |
| Reordering.WaitingIsBounded | gpu-video/src/frame_sorter.rs:79-93 | after a put at most its bound waits, after an IDR nothing |
| Reordering.IdrKeepsPosition | gpu-video/src/frame_sorter.rs:79-85 | an IDR is output at its decoding position, after exactly the pictures decoded before it, in every run |
| Reordering.OrderedIffWithinReorder | gpu-video/src/frame_sorter.rs:74-118 | with one bound m and no IDR the output is in count order if and only if every picture has at most m larger ones decoded before it |
| Reordering.BoundGivesOrder | gpu-video/src/frame_sorter.rs:87-92 | within the bound every emitted picture precedes all waiting and later ones |
| Reordering.DisorderShows | gpu-video/src/frame_sorter.rs:87-92 | a picture displaced too far is output after a larger one |
| Presentation.PresentsIffWithinReorder | gpu-video/src/frame_sorter.rs:79-93 | the flushed output is "cut at IDRs, IDR first, rest of the piece sorted" if and only if every piece keeps within its bound |
| NaluSplitting.FirstIsFound | gpu-video/src/parser/nalu_splitter.rs:13-36 | the search finds exactly the first start code that is not the buffer's own |
| NaluSplitting.UnitsMakeUpStream | gpu-video/src/parser/nalu_splitter.rs:53-58 | the units of a stream, put together, are the stream |
| NaluSplitting.UnitsAreProper | gpu-video/src/parser/nalu_splitter.rs:20-26 | no unit runs over a start code, and all but the first begin with one |
| NaluSplitting.UnitsBeginAtCodes | gpu-video/src/parser/nalu_splitter.rs:20-36 | units begin exactly at the start codes of the stream, 0 0 0 1 where there is one and else 0 0 1 |
| NaluSplitter.SearchOn | gpu-video/src/parser/nalu_splitter.rs:60-62 | a search resumed four bytes before the old end finds what a search of the whole buffer finds |
| NaluSplitter.PiecesDoNotMatter | gpu-video/src/parser/nalu_splitter.rs:39-67 | for any cutting of the stream into pushes the units are those of the whole stream |
| NaluSplitter.NALUSplitter.Push | gpu-video/src/parser/nalu_splitter.rs:39-67 | gives the units completed by the new data, with the time stamps of the calls |
| NaluSplitter.NALUSplitter.Flush | gpu-video/src/parser/nalu_splitter.rs:69-86 | gives what is left as the last unit |
| NaluSplitter.SplitStream | gpu-video/src/parser/nalu_splitter.rs:38-87 | pushes in any pieces and a flush give the units of the concatenated stream, each with the stamp of the push its trace names |
| NaluSplitter.UnitsCarryStamps | gpu-video/src/parser/nalu_splitter.rs:44-66 | a unit carries the stamp of the push that completed it, the first one of a push or of the flush that of the push before if it began earlier; that is the push of its first byte if and only if the unit needed no other push, or only the next one and came first there |
| NaluSplitter.LongUnitIsStampedLate | gpu-video/src/parser/nalu_splitter.rs:64 | a unit fed in three pushes comes out with the stamp of the third |
| RtmpChunk.BaseRoundTrip | rtmp/src/protocol/chunk.rs:51-102 | chunk stream ids from 2 to 65599 survive the one-, two- and three-byte forms |
| RtmpChunk.HeaderRoundTrip | rtmp/src/protocol/chunk.rs:136-224 | a header is read back with its 24-bit fields truncated and everything else intact |
| RtmpRoundTrip.HeaderUnderstood | rtmp/src/protocol/message_stream.rs:329-410 | whichever header type the writer picks, the reader completes it to the message's length, type and stream, and finds the extended timestamp exactly when there is one |
| RtmpRoundTrip.ChunkRoundTrip | rtmp/src/protocol/message_stream.rs:135-179 | one written chunk is read as its header, timestamp and payload whatever follows it |
| RtmpRoundTrip.WholeMessage | rtmp/src/protocol/message_stream.rs:188-241 | the chunks of a message add up to its payload; the timestamp is taken from the last chunk's header |
| RtmpRoundTrip.MessageRoundTrip | rtmp/src/protocol/message_stream.rs:265-297 | a message is read back whole and exactly consumed, with a timestamp computed from the one heard before; it is unchanged if and only if its timestamp is kept, and reader and writer contexts agree again in either case |
| RtmpRoundTrip.TimestampKeptIff | rtmp/src/protocol/message_stream.rs:208-227 | the timestamp arrives if and only if, on its message stream, the one before was heard rightly and it does not go back, or it goes back to what was heard; a change of message stream must fit one chunk or come while 0 was heard |
| RtmpRoundTrip.FirstMessageReadIff | rtmp/src/protocol/message_stream.rs:330-337 | on a connection in any state, the first message of a chunk stream, in one chunk, is read back if and only if its timestamp fits 24 bits or ends in the extended mark |
| RtmpConversation.EveryScriptIsHeard | rtmp/src/protocol/message_stream.rs:41-51 | over whole scripts of messages and chunk size announcements, with any timestamps, the receiver hears every message; framing, payloads and chunk sizes stay in step |
| RtmpConversation.HeardLate | rtmp/src/protocol/message_stream.rs:208-227 | each message is heard with its timestamp plus, modulo 2^32, the steps back of its message stream so far; a change of message stream in one chunk clears them |
| RtmpConversation.ConversationRoundTrip | rtmp/src/protocol/message_stream.rs:41-51 | the receiver reads back exactly the messages if and only if every timestamp is kept |
| RtmpConversation.InOrderIsKept | rtmp/src/message/serialize.rs:19-80 | scripts whose timestamps do not go back on any chunk stream, and change message streams only after time 0, meet that condition |
| RtmpConversation.EarlierTimestampIsMisread | rtmp/src/protocol/message_stream.rs:343-346 | a script in which any message is stamped earlier than its predecessor on the same streams is not heard as it was sent |
| RtmpArrival.ReadChunkStable | rtmp/src/protocol/message_stream.rs:105-133 | a chunk found complete is found the same when more data arrives |
| RtmpArrival.FragmentationInvariant | rtmp/src/protocol/byte_stream.rs:94-106 | the messages received, and the state left behind, do not depend on how the bytes arrive |
| RtmpArrival.CutShort | rtmp/src/protocol/byte_stream.rs:122-148 | of a last message of which only a part was sent nothing is heard and everything before it is; it is heard if all its bytes got through |
| RtmpEndpoints.MessageWriter.WriteMsg | rtmp/src/protocol/message_stream.rs:265-323 | the chunk loop writes exactly the chunks of the message; a reserved chunk stream id fails after the context has moved on |
| RtmpEndpoints.MessageReader.TryParseMsg | rtmp/src/protocol/message_stream.rs:135-161 | takes one chunk off the buffer, also one that is then refused because it makes its message too large; without a whole chunk, or without a header to complete, leaves everything as it was |
| RtmpEndpoints.MessageReader.NextMessage | rtmp/src/protocol/message_stream.rs:105-133 | takes chunks until a message is complete, the buffer is dry, or the stream is malformed |
| RtmpClientHistory.LockstepEncoding | rtmp/src/client.rs:252-257 | in lockstep, the bytes written are those of the script of messages and announcements |
| RtmpWire.FirstOnWire | rtmp/src/protocol/chunk.rs:136-224 | the bytes of the first message of a chunk stream, format 0 |
| RtmpWire.LaterOnWire | rtmp/src/protocol/message_stream.rs:329-391 | the bytes of a later message: format 0, 1, 2 or 3 according to what it has in common with the one before |
| RtmpWire.ExtendedOnWire | rtmp/src/protocol/message_stream.rs:393-410 | the bytes of a message with an extended timestamp |
| RtmpWire.TwoChunksOnWire | rtmp/src/protocol/message_stream.rs:283-293 | at the start chunks hold 128 bytes and go on in format 3 |
| RtmpWire.BasicHeader | rtmp/src/protocol/chunk.rs:51-102 | the one, two or three bytes of a basic header |
| RtmpWire.ControlOnWire | rtmp/src/message/serialize.rs:21-59 | the bytes of chunk size announcements, acknowledgements and window sizes |
| RtmpWire.PingResponseOnWire | rtmp/src/message/user_control.rs:114-117 | the bytes of a ping response |
| RtmpWire.CommandsOnWire | rtmp/src/message/serialize.rs:60-73 | the bytes around commands and metadata |
| RtmpWire.MediaOnWire | rtmp/src/message/serialize.rs:74-82 | the bytes around audio and video |
| RtmpClientHistory.PeerHearsClient | rtmp/src/client.rs:246-258 | a peer that follows the announcements hears every message the client wrote, late by the steps back in its timestamps; exactly what was written if and only if every timestamp is kept |
| RtmpClientHistory.PeerHearsClientInOrder | rtmp/src/client.rs:246-258 | with timestamps in order the peer reads back exactly what the client wrote |
| RtmpClientHistory.PeerHearsUpToFailure | rtmp/src/client.rs:246-258 | after a write error the peer has heard every message before it, and the failed one only if all its bytes had got through |
| RtmpClient.RtmpClientState.AnnounceChunkSize | rtmp/src/client.rs:252-257 | the writer switches to a size only directly after its announcement was written, not when that write failed |
| RtmpClient.RtmpClientState.Advance | rtmp/src/client.rs:234-265 | one message takes at most the next negotiation step, and is handled as usual if it is not the response awaited |
| RtmpClient.RtmpClientState.NegotiateConnection | rtmp/src/client.rs:217-267 | success means connect, createStream, publish and SetChunkSize were written once each in this order for the stream returned; failure that a first part of them was; unless a write fails the outcome is what the arrivals say |
| RtmpClient.NegotiationSucceeds | rtmp/src/client.rs:217-267 | a peer that answers connect and createStream and reports the stream published gets the negotiation done for that stream, whatever else it sends in between |
| RtmpClient.NegotiationRejected | rtmp/src/client.rs:228-247 | an error in answer to connect or createStream ends it with that error |
| RtmpClient.RtmpClientState.DefaultMsgHandler | rtmp/src/client.rs:269-302 | the exact reply and acknowledgement; chunk sizes as announced by the peer; at most half a window unacknowledged after success |
| RtmpClient.AnswerAndAck | rtmp/src/client.rs:269-317 | a ping is answered with its own timestamp, a bandwidth with a window of that size, nothing else; then the 32-bit count of bytes follows exactly when more than half a window is due |
| RtmpClient.RtmpClientState.MaybeSendAck | rtmp/src/client.rs:304-317 | acknowledges exactly when more than half a window is due; last_ack never goes back and moves only with a written acknowledgement |
| RtmpClientHistory.AcksAreRare | rtmp/src/client.rs:309-314 | with a constant window w, k acknowledgements take at least k * (w / 2 + 1) bytes |
| RtmpClientHistory.CountersRecovered | rtmp/src/client.rs:310-313 | the 32-bit values determine the true counters if and only if no two in a row are 2^32 or more bytes apart |
| RtmpClient.RtmpClient.Send | rtmp/src/client.rs:145-197 | one attempt at the message of the event, then what is pending is handled, without further media messages |
| RtmpClient.RtmpClient.MediaIsAskedFor | rtmp/src/client.rs:145-190 | over any history of sends attempt i is a message with stream, time, track, data and kind of event i; audio data carries the layout of the last configuration of its track before it, stereo if there was none |
| RtmpClient.RtmpClient.Connect | rtmp/src/client.rs:113-143 | a client exists only for the stream that was published, after the whole negotiation and before any media |
| RtmpClientHistory.LatestIsLastConfigured | rtmp/src/client.rs:161-184 | the layout of a track is that of its last configuration, whatever was configured for others, and stereo without one |
| BumpVersions.BumpFailsIff | ts/scripts/bumpVersions.ts:61-81 | a bump fails, whatever its kind and the answers typed, if and only if some package has a bumped dependency without a workspace range in one of its three sections |
| BumpVersions.BumpWrites | ts/scripts/bumpVersions.ts:61-152 | the packages up to the first with an unexpected version format are written and no others: each gets the version typed for it or keeps its own, and every dependency on a bumped package becomes that version behind its own range, behind none in a pre-release, or the version typed for a peer |
| VersionWorkspace.SelectedIsTyped | ts/scripts/bumpVersions.ts:70-76 | the version of a name is the one typed last for it, prompts left empty not counting |
| BumpVersions.NoUndoWithoutSave | ts/scripts/bumpVersions.ts:142-150 | no function of the result undoes a pre-release bump for every version |
| BumpVersions.RegularBumpKeepsRangeIff | ts/scripts/bumpVersions.ts:142-150 | a regular bump keeps the range unless an exact range meets a version that begins with an operator |
| BumpVersions.UpdatePackageDrifts | ts/scripts/bumpVersions.ts:83-130 | an update changes no keys, no unmanaged dependency and no name |
| BumpVersions.RestoreUndoes | ts/scripts/bumpVersions.ts:261-279 | restoring brings back all three dependency maps and leaves the version bumped |
| BumpVersions.SaveBumpRestore | ts/scripts/bumpVersions.ts:217-281 | save, any number of bumps complete or failing halfway, restore: every package has its dependency maps back |
| VersionWorkspace.Workspace.Run | ts/scripts/bumpVersions.ts:28-59 | in any history of runs a regular bump starts from the dependencies there were at the first pre-release bump since the last regular one; what it writes is what was typed, up to the first package that fails |
| VersionWorkspace.Workspace.SaveVersionState | ts/scripts/bumpVersions.ts:217-259 | the file holds the managed part of every workspace package |
| VersionWorkspace.Workspace.RestoreVersionState | ts/scripts/bumpVersions.ts:261-281 | every workspace package has the dependency maps of the time of saving, and the file is gone |
| VersionWorkspace.Workspace.BumpVersions | ts/scripts/bumpVersions.ts:61-81 | packages in order get the versions typed, and their dependencies follow, up to the first that fails; a cancelled selection changes nothing |
| VersionWorkspace.Workspace.UpdateEntries | ts/scripts/bumpVersions.ts:93-104 | the entry loop fails if and only if some entry does, and otherwise updates all of them |
| CefRef.EveryInterleavingIsSafe | libcef/src/cef_ref.rs:86-114 | in every interleaving the counter is the number of references; at most one release returns 1, once none is left; afterwards only its own free can touch the object |
| CefRef.FreedExactlyWhenDone | libcef/src/cef_ref.rs:104-111 | with all calls returned, the object has been freed exactly once if no reference is left and not at all otherwise |
| CefRef.AbortsIff | libcef/src/cef_ref.rs:86-94 | a run aborts if and only if a call of add_ref ends in it that began with more than MAX_REFCOUNT references outstanding |
| CefRef.FewAddRefsNeverAbort | libcef/src/cef_ref.rs:86-94 | up to MAX_REFCOUNT calls of add_ref never panic |
| CefRef.AddRefReturns | libcef/src/cef_ref.rs:86-94 | a call that does not panic returns, with one reference more and nothing else changed |
| CefRef.NothingIsStuck | libcef/src/cef_ref.rs:86-114 | after any such run every call can end and every reference be given back, and then the object is freed |
| CefRef.StepKeepsInv | libcef/src/cef_ref.rs:86-169 | every step keeps the balance of counter, holders, pending free and threads about to panic, below the width of the counter |
| CefRef.TouchIsSafe | libcef/src/cef_ref.rs:97-113 | a step that accesses the object is possible only while it exists |
| CefRef.HasOneRefMeansExclusive | libcef/src/cef_ref.rs:116-133 | has_one_ref answers yes exactly to the holder of the only reference |
| EventHandler.Emitter.SendEvent | smelter-render/src/event_handler.rs:40-52 | every live receiver has got exactly the events since its subscription, in order and once; exactly the dropped receivers leave the list |
| EventHandler.Emitter.Deliver | smelter-render/src/event_handler.rs:42-48 | sends to every live subscriber once and collects exactly the indices of the others |
| EventHandler.Emitter.Subscribe | smelter-render/src/event_handler.rs:54-58 | appends a fresh channel and changes no other |
| EventHandler.Emitter.RemoveDisconnectedSubscribers | smelter-render/src/event_handler.rs:60-73 | exactly the entries at other indices stay, in order |
| EventConcurrency.NoLiveSubscriberIsLost | smelter-render/src/event_handler.rs:40-73 | in every interleaving the removals take out exactly what their senders found dead if and only if no index at or before theirs was taken out meanwhile; then all live subscribers stay listed, across subscriptions and receiver drops |
| EventConcurrency.RemovalIsExactIff | smelter-render/src/event_handler.rs:49-73 | one removal takes out exactly what its sender found dead if and only if all its indices are below the lowest one taken out since |
| EventConcurrency.OvertakenRemovalLosesLive | smelter-render/src/event_handler.rs:49-73 | a run in which a second removal takes out a live subscriber |
| EventLists.IndexSurvivesIff | smelter-render/src/event_handler.rs:54-73 | after any appends of new entries and any removals an index names the same entry if and only if no removal took out an index at or before it |
| ShutdownTree.ClosedIffMarkedOnPath | rtmp/src/utils.rs:31-33 | a condition is closed if and only if it or one above it is marked |
| ShutdownTree.MarkClosesExactlyBelow | rtmp/src/utils.rs:19-29 | a mark closes the condition and those below it and no others |
| ShutdownTree.GrowthChangesNothing | rtmp/src/utils.rs:21-25 | new roots, children and clones change no answer |
| ShutdownTree.ClosedStaysClosed | rtmp/src/utils.rs:27-33 | a condition once closed stays closed |
| ShutdownCondition.ShutdownCondition.ShouldClose | rtmp/src/utils.rs:31-33 | the scan finds a set flag if there is one |
| ShutdownCondition.ShutdownCondition.ChildCondition | rtmp/src/utils.rs:21-25 | a child shares all flags of its parent and has one of its own |
| ShutdownCondition.AddRepresents | rtmp/src/utils.rs:12-25 | flags on the heap go on to represent the tree when it grows |
| ShutdownCondition.Program.Perform | rtmp/src/utils.rs:9-29 | every operation on shared flags is the operation on the tree |
| ShutdownCondition.Program.Ask | rtmp/src/utils.rs:31-33 | the answer is that of the tree |
| RtpDump.SplitRtpPacketDump | integration-tests/src/common.rs:57-84 | cuts the dump at the offset of CutAt, with its errors and panics |
| RtpDump.FindCut | integration-tests/src/common.rs:61-80 | the packet loop finds that offset |
| RtpDump.UnmarshalPackets | integration-tests/src/common.rs:159-179 | gives the packets of the dump, leaving out a truncated last one |
| RtpDump.SplitKeepsPackets | integration-tests/src/common.rs:57-84 | for any dump that can be split the packets of the parts are those of the whole |
| RtpDump.CutOutcome | integration-tests/src/common.rs:57-84 | the first packet that is not early decides: without a time it fails the split, before the start it panics, splitAt or more past the start it ends the first part; without one a rest that is no packet panics |
| RtpDump.UndecodablePacketFails | integration-tests/src/common.rs:170-173 | a packet that cannot be decoded fails the reading whatever follows |
| RtpDump.SplitsEncodedDump | integration-tests/src/common.rs:57-84 | a well-formed dump is cut just behind the first packet at least split_at_pts past the first one, or at its end |
| RtpDump.EncodedPackets | integration-tests/src/common.rs:159-179 | a well-formed dump gives all its packets, also with a truncated one behind them; a stray byte panics |
| TextureDownload.StrideIsLeastMultiple | integration-tests/src/texture.rs:91-97 | both stride formulas give the least multiple of 256 not below the row size |
| TextureDownload.StripRows | integration-tests/src/texture.rs:79-86 | the row loop takes the front of every chunk, and panics on a chunk that is too short |
| TextureDownload.StripInvertsPadding | integration-tests/src/texture.rs:79-86 | stripping gives back the rows whatever the padding holds |
| TextureDownload.RgbaDownload | integration-tests/src/texture.rs:59-89 | the download has 4wh bytes, each the source byte of its row and column |
| TextureDownload.SizesFit | integration-tests/src/texture.rs:25-30 | the 32-bit size computations do not overflow if the padded buffer fits 32 bits |
| TextureDownload.ChromaDownloadIff | gpu-video/examples/decode_wgpu.rs:129-179 | the chroma plane can be read if and only if the height is even or half a stride holds a row; it comes without padding if and only if height and width are even, or there are no rows |
| TextureDownload.ChromaBufferIsFilled | gpu-video/examples/decode_wgpu.rs:80-91 | the chroma buffer holds h / 2 padded rows and, for odd h, half a row more |
| TextureDownload.DownloadNv12 | gpu-video/examples/decode_wgpu.rs:141-187 | the two planes of the buffer are stripped and put one behind the other |
| TextureDownload.Nv12Download | gpu-video/examples/decode_wgpu.rs:141-187 | for even width and height the download is the luma rows, then the chroma rows, 3wh / 2 bytes together |
| TextureDownload.Nv12Byte | gpu-video/examples/decode_wgpu.rs:141-187 | each byte of it is the source byte of its plane, row and column |
| AudioSamples.AudioBatch.Merge | smelter-core/src/types.rs:40-59 | appends the other batch sample by sample in the layout of this one: half the sum of both channels, or the sample on both |
| AudioSamples.AppendsDetermines | smelter-core/src/types.rs:40-59 | what merging does to each sample (half the sum of both channels into mono, the sample on both channels into stereo) determines the outcome |
| AudioSamples.DownmixIsFair | smelter-core/src/types.rs:50-53 | mixing down treats the channels alike, and carries half of what both sum up to |
| AudioSamples.MergeAllIsConcat | smelter-core/src/types.rs:40-59 | merging any list keeps the first layout, adds up lengths, and concatenates the converted batches |
| AudioSamples.MergeAssociativeIff | smelter-core/src/types.rs:48-57 | merging is associative if and only if no mono batch stands before a stereo one with differing channels inside a stereo batch |
| AudioSamples.ConversionsInvert | smelter-core/src/types.rs:50-57 | mono to stereo and back is the identity; stereo to mono and back only for equal channels |

## Left out

- CefRef.StepKeepsInv: assumes fewer than 2^63 threads, and sequentially consistent atomics; the orderings given in the source are not modelled.
- RtmpClientHistory.PeerHearsUpToFailure: ends with the first write error; what a client sends after one is not modelled, since the rest of the failed message is dropped. A message that cannot be serialized counts as a write error too.
- Presentation.RunsAgree: is silent where waiting pictures tie; which of them goes first is up to the standard library's heap.
- RtmpRoundTrip.FirstMessageReadIff: is about messages that fit one chunk; for longer ones only the direction of MessageRoundTrip is stated, since a misread payload could form any later chunk.
- RtpDump.SplitRtpPacketDump: a packet earlier than the first panics as with overflow checks on; in a build without them the subtraction wraps and the dump is cut there.
- Thread interleavings in `CefRef` and `EventConcurrency` are machines over values, one atomic step at a time, instead of objects; event contents are not part of the concurrent emitter.
- Empty RTMP payloads are written as nothing while the writer's context moves on; the round trip is stated for payloads of 1 to 2^24 - 1 bytes.
- 64-bit counters (`bytes_read`, `max_num_reorder_frames` as `usize`) are unbounded numbers.
- Timestamps in the RTMP reader add up modulo 2^32, as in a release build.
- AMF, FLV tags and the RTMP handshake: payloads of outgoing messages are given by an arbitrary function, incoming messages are already parsed.
- The extended capabilities and codec warnings of the negotiation: they change no modelled state.
- Package files are maps with the keys kept by JSON; key order, prompts, semver increments, file errors and names inherited from Object.prototype are not modelled.
- NAL unit parsing, access units, reference pictures and the Vulkan decoder; the sorter's frames are arbitrary values.
- Decoding of RTP packets and the floating-point scaling of their timestamps are an arbitrary function per packet.
- GPU copies, buffer mapping and pixel formats other than four bytes per pixel.
- Floating-point rounding in audio: samples are real numbers.
- `Timestamp` arithmetic, `SharedPts` and `Queue::start`: short bodies whose properties are immediate.
- The order in which a reader releases a poisoned lock, and other failures of locks.
- Rendering, layout, queue threads, HTTP routes and device bindings.
