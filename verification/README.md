# vncdotool, modelled and proved in Dafny

vncdotool is a VNC (RFB, RFC 6143) client with a recording proxy and a replaying server. Its hard code handles byte
streams and must behave the same however TCP cuts them up. This project models that code and proves what it promises.
`dafny verify dfyconfig.toml` checks everything.

| part | files |
|---|---|
| recording proxy: the handshake rewriter over two directions | `Handshake`, `Scrubber` (class), `Recording`, `Sessions`, `Secrecy` |
| replaying server | `Replay`, `ReplayProtocol` (class), `ReplaySafety`, `RoundTrip` |
| rectangle buffer and pixel grids | `Grid`, `RectBuffer` (class), `Tiles` |
| decoders | `CPixels`, `ZrleTile`, `ZrleRoundTrip`, `ZrleRect`, `ZrleEncodings`, `ZrleDecoder` (methods), `HextileTile`, `HextileRect`, `HextileCarry`, `HextileRefusal`, `HextileDecoder` (methods), `HextileMachine`, `Tight` |
| the client's pump | `Generators`, `GeneratorFacts`, `Pump`, `Delivery`, `Accounting`, `PlainParser`, `Refinement`, `BodyReading`, `WholeStream`, `RfbClient` (class) |
| refresh and stability machines | `Refresh`, `RefreshRuns`, `RefreshClient` (classes), `StreamRefresh`, `StableWatch` (class), `StableWindow` |
| comparing screenshots | `ImageMatch`, `ColourDepth`, `Scores` |
| helpers | `Bytes`, `Arith` |

## How it is built

An object whose methods update its fields is a class here, and each of its methods is proved equal to a step of a small
functional specification; what the source promises is then proved about that specification over every run.

* **Recording.** `Handshake` is the grammar of `_run` as a datatype of suspension points with the bytes each wants.
  `HandshakeScrubber` and `CaptureWriter` carry it over both directions in place. A run is any sequence of packets in
  either direction. Proved: packet boundaries never matter, a tap holds bytes only while watched, a preserved capture is
  verbatim, a followed session is recorded as a None session of the same version, scrubbing that again changes nothing,
  and two sessions that differ only in what the authentication exchange carries are recorded identically, wherever they
  break off.
* **Replay.** `Pace` is `advance`. Its output is proved equal to what a grammar-level dialogue (`Follow`) allows, for
  any client bytes in any packets. `CapturesReplay` joins both halves: a recorded session replays to its end.
* **Decoders.** Each tile encoding has a reading specification over byte sequences, an encoder of tile descriptions for
  the round trip (ZRLE, with the converse: what is accepted is an encoding) or a tile-by-tile painter (Hextile), and imperative methods writing into the `RectBuffer`
  proved to compute it, down to the bytes of a rectangle decoded over whatever a reused backing held. `RectBuffer`
  itself is proved to be a zeroed grid updated pixel by pixel by any sequence of calls. Hextile's carried colours are
  also stated without a carry (`HextileCarry`): the stream is cut into tiles by length alone, and each tile's colours
  are the last ones specified with nothing since that takes them away. `HextileRefusal` says of the same tiles which
  rectangles are refused, for what, and which are read.
* **The pump.** Every Python generator is the datatype of its suspension points (`Generators.Gen`); `Drain` is
  `_handleExpected`. Three results cover every byte stream in every packetisation: packets do not matter
  (`PacketsDoNotMatter`); the callbacks are exactly those a plain recursive-descent reader of the whole stream gives
  (`PumpReadsTheStream`); and the callbacks follow an automaton from which the update accounting is read off
  (`CommitsWhatChanged`, `NothingAfterAbort`, `PastesAreExact`). `Drain` is a total function, so the loop ends: no
  decoder and no message asks for nothing twice in a row.
* **Refresh.** The client's state is proved to be a function of the history of requests, paints, resizes and updates.
  A full refresh is answered without the warning exactly when every pixel of the current size was painted since the
  request or the last resize - unless the framebuffer has been 0x0 since the request. What has been asked of the
  server meanwhile is counted on the outputs (`RequestsAreCounted`). The pump's callbacks are joined to this machine
  (`StreamRefresh`): the refresh machine's framebuffer is the parser's at every moment, every commit is reached after a
  certain byte of the stream, and there it is the rectangles of the server's own stream, pasted with all their pixels or
  copied, that have to cover the parser's framebuffer.
* **Stability.** The window `_StableWatch` keeps is compared with the one its docstring describes, on every run in time
  order.
* **Comparison.** Scores are kept as squares over the reals, so no square root is needed to compare one with a whole
  number, and `math.ceil` of a root is the least whole number whose square is not below.

zlib and JPEG are functions of everything a stream has been given; a client's pixel format after `vncConnectionMade` is
a function of the announced one (`World.settle`); the clock of `StableWatch` is an input.

## Where code and documentation differ

* `_FullScreenReceived` is meant to promise the whole area for any full refresh. A framebuffer that is 0x0 when the
  refresh is asked for, or becomes 0x0 before it is answered, loses the promise, because `pending` tells an empty mask
  from a satisfied one by its size alone (`vncdotool/client.py:174-176`, `717-718`). The code is modelled as it is:
  `AnEmptyMomentLosesTheRefresh` is the input, and `AnswersWhenPainted` with `CollapsedIsAnsweredAtOnce` say exactly
  when the promise holds.
* The docstrings of `_StableWatch` and `stableScreen` describe a window in which no frame is further than `fuzz` from the
  frame before it (`vncdotool/client.py:73-78`, `438-448`). The code compares each frame with the one that last restarted
  the window (`vncdotool/client.py:112-123`), as `specs/screen-stability.md:97-103` has it. The code is modelled, and
  `StableWindow` defines the docstrings' window beside it. `DescribedExactlyWhen`: the two settle alike on every run in
  time order if and only if `seconds <= 0`, `fuzz == 0`, or `fuzz` is at least 259, the least whole number no two pixels
  score above. For every other `fuzz`, at any blur, `CodeDiffers` gives a run on which the code settles too late and one
  on which it settles too early. With two seconds, `fuzz` 1 and no blur these are greys that go 0, 1, 2, a drift that
  restarts the window though no step moved, and 1, 0, 2, where the last step moved and the watch settles half a second
  after it (`GreysDiffer`).
* `channel_tolerance` is said to bound either of the two values next to one that an n-bit channel cannot show
  (`vncdotool/pixelformat.py:152-157`, `tests/unit/test_pixelformat.py:296-301`), as if a channel showed every
  2**(8-n)th value. It shows values from 0 to 255, each within one of `k * 255 / (2**n - 1)`
  (`tests/unit/test_pixelformat.py:118-125`), and those are further apart. `EitherNeighbourExactlyWhen`: both neighbours
  are within `255 >> n` if and only if `n` is 0 or at least 8; with five bits 33 lies between 32 and 41, and 41 is 8 away
  (`FiveBits`). What does hold is that a server that truncates, rounds, or takes the closest value shown stays within it
  (`PickedNear`), and that it is the least bound for truncation (`ToleranceIsExact`). The default fuzz rests on that.
* `MAX_DELTA` is called the largest delta two pixels can produce (`vncdotool/imagematch.py:17-19`), so that scores would
  end at 255, the scale `fuzz` is documented on (`vncdotool/client.py:428-430`). It is not the largest: blue and yellow
  score above 258. `AllWithinExactlyFrom`: every pixel is within `fuzz` of every other if and only if `fuzz >= 259`.

## Model

| member | source | states |
|---|---|---|
| Handshake.Advance | vncdotool/capture.py:155-256 | every step of the handshake grammar leads to a step of lower rank, so a handshake has a bounded number of them |
| Handshake.ConsumeAppend | vncdotool/capture.py:126-146 | draining a buffer and later the rest of the stream records the same bytes and reaches the same state as draining both at once |
| Handshake.FeedAppend | vncdotool/capture.py:109-146 | two feeds in a row on one tap are one feed of the concatenation, from any settled state |
| Handshake.FeedSettles | vncdotool/capture.py:126-146 | after any feed a tap holds bytes only while watched and fewer than wanted, and the grammar waits for at least one byte |
| Scrubber.HandshakeScrubber.Waiting | vncdotool/capture.py:98-107 | at rest the scrubber reports the watched direction with a positive count, and nothing exactly when the grammar is done |
| Scrubber.HandshakeScrubber.StartAuth | vncdotool/capture.py:198-229 | each security type leads to its exchange, to an offer that cannot be stripped, or to an abort |
| Scrubber.HandshakeScrubber.ResumeNegotiation | vncdotool/capture.py:155-197 | versions and security types in every protocol version: next step, notes and what is recorded instead |
| Scrubber.HandshakeScrubber.ResumeAuth | vncdotool/capture.py:198-229 | inside the exchange nothing is recorded and zero-length Diffie-Hellman steps follow the code |
| Scrubber.HandshakeScrubber.ResumeInit | vncdotool/capture.py:230-256 | the SecurityResult is rewritten or dropped by version, and the rest is recorded as it is |
| Scrubber.HandshakeScrubber.TakeChunk | vncdotool/capture.py:129-139 | one turn of the drain loop: the fail-closed default, the grammar's own record, and strictly lower rank |
| Scrubber.HandshakeScrubber.Drain | vncdotool/capture.py:126-146 | the loop ends and equals draining by the grammar; what is no longer watched is released |
| Scrubber.HandshakeScrubber.FeedTap | vncdotool/capture.py:109-146 | the tap's new state and output are those of the specification, and the scrubber is settled again |
| Scrubber.HandshakeScrubber.FlushTap | vncdotool/capture.py:148-153 | what is held is emitted only outside a rewrite, and the tap is emptied |
| Scrubber.CaptureWriter.FeedS2C | vncdotool/capture.py:283-284 | the server stream grows by what the scrubber releases |
| Scrubber.CaptureWriter.FeedC2S | vncdotool/capture.py:286-287 | the client stream grows by what the scrubber releases |
| Scrubber.CaptureWriter.Flush | vncdotool/capture.py:289-292 | both taps are flushed into their streams at disconnect |
| Recording.TapsHoldOnlyWatchedBytes | vncdotool/capture.py:104-146 | at every moment of every run of packets in both directions the tap invariant holds |
| Recording.PacketBoundariesDoNotMatter | vncdotool/capture.py:109-153 | any two ways of cutting the same two-way traffic into packets leave the same recording and state |
| Recording.PreservedCaptureIsVerbatim | vncdotool/capture.py:104-153 | with `preserve_auth`, in each direction, recorded plus held is what was fed, and a flush completes it |
| Sessions.RecordsANoneSession | vncdotool/capture.py:155-256 | every session that succeeds with None, VNC or Diffie-Hellman is recorded, in any packets, as the None session of the same version, geometry, name and following bytes, with nothing aborted |
| Sessions.ScrubbingIsIdempotent | vncdotool/capture.py:155-256 | scrubbing a recording again, in any packets, gives the same two streams |
| Secrecy.AuthContentsNeverReachTheRecording | vncdotool/capture.py:126-153 | sessions that differ only in challenge and response, or key exchange values and credentials, are recorded identically for every cut-off and every chunking of each |
| Replay.ClientMessageLength | vncdotool/replay.py:76-102 | a measured client message is at least four bytes long, so the scan always advances |
| Replay.MeasureIsStable | vncdotool/replay.py:76-102 | once a message can be measured or is known to be unmeasurable, more bytes never change the answer |
| Replay.SawIffAsks | vncdotool/replay.py:105-123 | the scan says yes exactly when whole messages lead up to a complete update request or to a message that cannot be measured |
| Replay.PaceIsSound | vncdotool/replay.py:156-180 | from any point, what has been written is the captured stream up to `pos` |
| Replay.PaceAppend | vncdotool/replay.py:142-180 | pacing now and again after more client bytes comes to the same as pacing once over all of them |
| Replay.ClientPacketsDoNotMatter | vncdotool/replay.py:142-224 | how the client's bytes were segmented changes nothing that is sent |
| ReplayProtocol.TakeUpdateRequest | vncdotool/replay.py:105-123 | deleting whole messages from the buffer in a loop computes the scan and leaves what it leaves |
| ReplayProtocol.Protocol.DataReceived | vncdotool/replay.py:142-150 | one packet takes the server to the state of the specification |
| ReplayProtocol.Protocol.Advance | vncdotool/replay.py:156-180 | the pacing loop ends, across the scrubber's zero-length steps, and equals the specification |
| ReplayProtocol.Protocol.WriteStep | vncdotool/replay.py:160-170 | a server turn writes exactly the wanted captured bytes and feeds them to the scrubber |
| ReplayProtocol.Protocol.ReadStep | vncdotool/replay.py:171-179 | a client turn takes exactly the wanted bytes and then asks for the version check |
| ReplayProtocol.Protocol.VersionMismatch | vncdotool/replay.py:182-200 | the check is decided once, and a mismatch closes the connection |
| ReplayProtocol.Protocol.Finish | vncdotool/replay.py:202-224 | the session is released at once or held until a request, as the parsed handshake says |
| ReplaySafety.PaceFollows | vncdotool/replay.py:156-224 | from any point of the handshake the pacing loop ends up where the grammar's dialogue says: refused, stalled, truncated, held or released |
| ReplaySafety.ReplayWritesWhatIsAllowed | vncdotool/replay.py:156-224 | after any client bytes in any packets exactly the allowed prefix of the capture has been written; nothing past the server name before a framebuffer is asked for |
| RoundTrip.CapturesReplay | vncdotool/replay.py:126-224 | recording any successful session and replaying it sends a None client exactly the recorded handshake, and the rest when it asks, whatever the packets of both connections |
| Grid.BlitPixel | vncdotool/decoders/buffer.py:37-67 | a blit replaces exactly the pixels inside its rectangle, each by its own source pixel |
| Grid.FillPixel | vncdotool/decoders/buffer.py:69-91 | a fill gives exactly the pixels inside its rectangle the colour |
| Grid.SamePixels | vncdotool/decoders/buffer.py:107-110 | a rectangle's bytes are determined by its pixels |
| RectBuffer.RectBuffer.constructor | vncdotool/decoders/buffer.py:7-26 | over any large enough reused backing the buffer stands for a zeroed grid |
| RectBuffer.RectBuffer.Clear | vncdotool/decoders/buffer.py:93-97 | zeroing happens late and at most once, and never past the rectangle |
| RectBuffer.RectBuffer.Materialize | vncdotool/decoders/buffer.py:99-105 | a kept whole-rectangle write is put into the backing without changing what the buffer stands for |
| RectBuffer.RectBuffer.BlitRect | vncdotool/decoders/buffer.py:37-67 | accepted exactly when the rectangle fits and the data has its size, then equal to the grid blit; a rejected call changes nothing, and bytes past the rectangle never change |
| RectBuffer.RectBuffer.FillRect | vncdotool/decoders/buffer.py:69-91 | the same for fills, whose rows are written as one band and copied |
| RectBuffer.RectBuffer.ToBytes | vncdotool/decoders/buffer.py:107-110 | the grid once anything has been written; the old backing before that |
| RectBuffer.BufferFor | vncdotool/rfb.py:376-385 | a buffer for a rectangle starts as a zeroed grid, over the reused backing when that is large enough and over a new one when it is not |
| RectBuffer.PaintAll | vncdotool/decoders/buffer.py:28-110 | any sequence of blits and fills over any reused backing, refused ones among them, gives the grid its accepted writes paint, and nothing past the rectangle changes |
| RectBuffer.PaintedPixel | vncdotool/decoders/buffer.py:28-110 | in the grid a sequence of accepted writes paints, which is the one `PaintAll` returns, every pixel is that of the last write covering it, or zero |
| Tiles.MosaicPixel | vncdotool/decoders/zrle.py:83-88 | the tile walk partitions the rectangle: each pixel is painted once, in its own tile's turn |
| CPixels.ColourBitsInWindow | vncdotool/pixelformat.py:163-204 | for every eligible 32-bit format in either byte order the byte outside the three-byte window holds no colour bit |
| CPixels.ExpandCPixels | vncdotool/decoders/zrle.py:18-25 | one strided copy per byte widens every CPIXEL at its offset |
| CPixels.NarrowThenWiden | vncdotool/decoders/zrle.py:18-25 | narrowing any number of pad-free pixels and widening them is the identity |
| ZrleTile.ReadTile | vncdotool/decoders/zrle.py:89-200 | a tile that is read has exactly its pixels, each of full width |
| ZrleRoundTrip.RunReadsBack | vncdotool/decoders/zrle.py:141-155 | the 255-continuation code is inverted for every run length from one up |
| ZrleRoundTrip.RowsReadBack | vncdotool/decoders/zrle.py:176-200 | packed rows of 1, 2 or 4 bit indices read back as their palette entries, whatever pads a row |
| ZrleRoundTrip.TileReadsBack | vncdotool/decoders/zrle.py:89-200 | any valid tile (raw, solid, packed palette, plain or palette runs) reads back exactly and stops at its last byte |
| ZrleRect.TilesReadBack | vncdotool/decoders/zrle.py:83-210 | from any tile on, the encoded tiles are painted in row-major order and use up exactly their bytes |
| ZrleRect.RectReadsBack | vncdotool/decoders/zrle.py:83-210 | for every rectangle and every valid list of tile descriptions the decoded pixels are the described ones and no data is left over |
| ZrleEncodings.TileIs | vncdotool/decoders/zrle.py:89-200 | whatever is read as a tile is the encoding of some valid tile, byte for byte |
| ZrleEncodings.AcceptsExactlyEncodings | vncdotool/decoders/zrle.py:64-210 | a rectangle's data is accepted iff it is the encoding of valid tiles, one for every place |
| ZrleDecoder.IndexTables | vncdotool/decoders/zrle.py:29-52 | the 256-entry tables hold each byte's expanded pixels and bad-index flags, and the second is absent exactly when no byte can be bad |
| ZrleDecoder.TableExpandsRow | vncdotool/decoders/zrle.py:176-200 | expanding whole bytes and cutting off the padding gives `palette[index]`, most significant bits first |
| ZrleDecoder.FlagsRejectRow | vncdotool/decoders/zrle.py:176-200 | a row is refused exactly when one of its first `tw` indices is undefined |
| ZrleDecoder.DecodeRows | vncdotool/decoders/zrle.py:176-200 | the table-driven loop computes per-pixel extraction of all rows, or refuses them |
| ZrleDecoder.DecodeRun | vncdotool/decoders/zrle.py:141-155 | the loop adds bytes up while they are 255, and notices the end of the data |
| ZrleDecoder.DecodePlainRuns | vncdotool/decoders/zrle.py:113-164 | plain runs until the tile is full; overrun and truncation as the specification |
| ZrleDecoder.DecodePaletteRuns | vncdotool/decoders/zrle.py:113-164 | palette runs with single-pixel indices, undefined indices and overrun |
| ZrleDecoder.DecodeTileData | vncdotool/decoders/zrle.py:89-200 | the subencoding's branch yields one colour to fill with or pixels to blit, exactly those of the specification |
| ZrleDecoder.DecodeTile | vncdotool/decoders/zrle.py:83-200 | one tile is painted into its place and `pos` ends after it |
| ZrleDecoder.DecodePixels | vncdotool/decoders/zrle.py:83-210 | the whole walk equals the specification with `pos == end`, and a non-empty rectangle has been written before it is read |
| ZrleDecoder.DecodeRect | vncdotool/decoders/base.py:87-92 | buffer, walk and `tobytes` together: over any reused backing the bytes of the rectangle are those the specification reads, or its refusal, and nothing past the rectangle changes |
| HextileRect.FillSubsPixel | vncdotool/decoders/hextile.py:70-87 | inside a tile the last covering subrectangle decides a pixel; none changes a pixel outside its tile |
| HextileRect.ApplyTilePixel | vncdotool/decoders/hextile.py:35-87 | painting a tile puts its picture in its place and touches nothing else |
| HextileRect.HextileIsTileByTile | vncdotool/decoders/hextile.py:27-90 | on every accepted stream each pixel is the one its own tile gives it; which colours the tile has is `ColoursAreSpecified` |
| HextileCarry.ColoursAreSpecified | vncdotool/decoders/hextile.py:34-90 | on every accepted stream a tile's background is the one the last tile up to it with a background bit specified, with no raw tile since, and its foreground is its own or the last specified with no raw tile and no coloured subrectangles since |
| HextileCarry.TileFollowsToken | vncdotool/decoders/hextile.py:34-90 | a tile that is read is the one cut from the stream by lengths alone, drawn in its own colours where it has them and the carried ones where not |
| HextileRefusal.FaultIsFound | vncdotool/decoders/hextile.py:34-90 | what is wrong with a tile among the tiles before it (no background in force, no foreground in force for subrectangles that need one, a subrectangle leaving the tile) is what the decoder refuses it for, also where only its header has arrived |
| HextileRefusal.RefusedForFirstFault | vncdotool/decoders/hextile.py:27-90 | a rectangle is refused for a reason iff that is what is wrong with the first tile at fault, and read iff all its tiles are there and none is at fault |
| HextileTile.TileIsValid | vncdotool/decoders/hextile.py:34-90 | a tile that is read has a full background, subrectangles inside the tile, and leaves usable carried colours |
| HextileDecoder.FillAll | vncdotool/decoders/hextile.py:70-87 | the loop over a tile's subrectangles fills them in order, or refuses one that overflows |
| HextileDecoder.DecodeHeader | vncdotool/decoders/hextile.py:40-68 | flag by flag, the header's colours, count and next carried colours are those of the specification, and a tile left without a background is refused |
| HextileDecoder.DecodeTile | vncdotool/decoders/hextile.py:34-90 | one tile in place: outcome, carried colours, position and buffer as the specification |
| HextileDecoder.DecodePixels | vncdotool/decoders/hextile.py:27-90 | the double loop equals the tile-by-tile specification and takes exactly its bytes |
| HextileDecoder.DecodeRect | vncdotool/decoders/base.py:87-92 | buffer, double loop and `tobytes` together: over any reused backing the bytes of the rectangle are those the specification reads, or it is refused or short, and nothing past the rectangle changes |
| HextileMachine.NothingThenSomething | vncdotool/decoders/hextile.py:34-71 | a request for zero bytes (no subrectangles, or an empty block) is followed by one for at least one byte, or by the end |
| HextileMachine.MachineReadsTiles | vncdotool/decoders/hextile.py:27-90 | the suspended generator, given its blocks one by one, reads exactly what reading in one go reads |
| Tight.CompactReadsBack | vncdotool/decoders/tight.py:159-168 | the 7-7-8 bit length code is inverted for every length it can hold |
| Tight.MonoTableIs | vncdotool/decoders/tight.py:39-45 | each of the 256 entries is its byte's eight pixels, most significant bit first |
| Tight.OutputWidth | vncdotool/decoders/tight.py:59-62 | the declared output format is as wide as the pixels read from the wire |
| Tight.UnpaletteIsPixelwise | vncdotool/decoders/tight.py:215-246 | mono rows and per-channel translation tables give `palette[index]` per pixel, row padding never matters, and exactly undefined indices are refused |
| GeneratorFacts.StartStaysInRect | vncdotool/decoders/base.py:87-133 | every encoding's decoder starts inside its own rectangle |
| GeneratorFacts.ResumeStaysInRect | vncdotool/rfb.py:345-363 | for every decoder, on return the paste is exactly width * height * bytes per pixel of its declared format, and two empty requests never follow each other |
| GeneratorFacts.MessageStays | vncdotool/messages/clipboard.py:13-17 | message handlers never paste and never ask for nothing twice in a row |
| Pump.FormatReadsBack | vncdotool/pixelformat.py:38-66 | a pixel format written to the wire is the one read from it |
| Pump.StepKeeps | vncdotool/rfb.py:395-468 | every handler call leaves a parser that can be called again or is aborted, and one that asked for nothing asks for something next |
| Pump.Drain | vncdotool/rfb.py:444-457 | the drain loop ends on every buffer and leaves fewer bytes than wanted, or an aborted parser with none |
| Delivery.DrainAppend | vncdotool/rfb.py:423-457 | handling what has arrived now and the rest later is handling all of it at once |
| Delivery.DeliverIsDrain | vncdotool/rfb.py:423-457 | a sequence of `dataReceived` calls is one drain of everything received |
| Delivery.PacketsDoNotMatter | vncdotool/rfb.py:395-479 | from ServerInit on, any two splits of a server stream give the same callbacks, parser state, leftover bytes and abort status |
| Delivery.AbortIsForGood | vncdotool/rfb.py:459-468 | after an abort no continuation of the stream is looked at |
| Accounting.StepAccounts | vncdotool/rfb.py:274-363 | every handler call makes callbacks the update automaton allows, and leaves a parser that says where it has got to |
| Accounting.RunsAreAccounted | vncdotool/rfb.py:274-468 | every run in any packets is accepted by the automaton |
| Accounting.CommitsWhatChanged | vncdotool/rfb.py:296-363 | an update that commits dispatched exactly the rectangles announced, or fewer exactly when LastRect ended it, and commits exactly the changed ones in wire order |
| Accounting.NothingAfterAbort | vncdotool/rfb.py:345-363 | an abort is the last callback of a connection, and the paste-length check is never its reason |
| Accounting.PastesAreExact | vncdotool/rfb.py:345-363 | whatever is pasted from any stream is exactly its rectangle |
| Refinement.DriveIsPumped | vncdotool/rfb.py:395-421 | a parked generator resumed packet by packet calls back what it would given its blocks from the stream |
| BodyReading.BodyIsRead | vncdotool/decoders/base.py:38-135 | for every encoding, the generator's suspension points read exactly what a straight-line reader of the body reads, short and refused bodies included |
| BodyReading.TightIsRead | vncdotool/decoders/tight.py:76-157 | control byte, stream resets, fill, JPEG, filters, palettes, raw and compressed data in one go |
| BodyReading.MessageIsRead | vncdotool/messages/colourmap.py:13-24 | the same for colour maps, cut text, fences and the bell |
| WholeStream.ServerIsRead | vncdotool/rfb.py:274-363 | a connected parser calls back exactly what recursive descent reads off the rest of the stream |
| WholeStream.PumpReadsTheStream | vncdotool/rfb.py:255-479 | for every byte stream in any packets the callbacks of a connection are those of a plain reader of the whole stream |
| WholeStream.EncodedZrleIsPasted | vncdotool/decoders/zrle.py:64-210 | a ZRLE rectangle as a server sends it is pasted as its tile descriptions say, and what follows is read next |
| RfbClient.RFBClient.constructor | vncdotool/rfb.py:107-128 | the fields as `__init__` leaves them except for what is parked: the source parks the version handshake for 12 bytes, the object here starts where that handshake ends, waiting for the 24 bytes of ServerInit with an empty packet |
| RfbClient.RFBClient.AbortConnection | vncdotool/rfb.py:459-468 | the parser is stopped, the packet emptied and the failure reported |
| RfbClient.RFBClient.DoConnection | vncdotool/rfb.py:302-307 | the next rectangle is awaited, or the update committed and a message awaited |
| RfbClient.RFBClient.FinishRectangle | vncdotool/rfb.py:345-365 | length check, paste, record and continue, in this order |
| RfbClient.RFBClient.PumpRectangle | vncdotool/rfb.py:334-421 | parks, aborts or finishes a rectangle as its decoder says |
| RfbClient.RFBClient.PumpMessage | vncdotool/rfb.py:287-294 | parks, aborts or finishes a message as its handler says |
| RfbClient.RFBClient.HandleRectangle | vncdotool/rfb.py:309-332 | LastRect, the countdown, and the start of a decoder |
| RfbClient.RFBClient.HandleFramebufferUpdate | vncdotool/rfb.py:296-300 | the count is taken and the list of changed rectangles emptied |
| RfbClient.RFBClient.HandleServerInit | vncdotool/rfb.py:259-263 | geometry, format and name length are taken from the block |
| RfbClient.RFBClient.HandleExpected | vncdotool/rfb.py:444-457 | the loop ends and equals `Drain`, field by field, callbacks in order |
| RfbClient.RFBClient.DataReceived | vncdotool/rfb.py:423-430 | one packet takes the object to the state of the specification; an aborted one ignores it |
| RefreshRuns.RunIs | vncdotool/client.py:136-176 | after any history the mask, retry count, size, screen and outstanding refresh are those the history gives |
| RefreshRuns.CommitDecides | vncdotool/client.py:669-684 | the end of an update waits, asks again, warns with the number of unpainted pixels, or answers, decided by the history alone |
| RefreshRuns.AskedAgainOnce | vncdotool/client.py:158-163 | while a refresh is outstanding at most one update that counted, with rectangles and a screen, has fallen short since it was asked for or the framebuffer was last resized |
| RefreshRuns.RequestsAreCounted | vncdotool/client.py:669-684 | while a refresh is outstanding, all that has been sent since it, or since the last resize, is one whole-screen request for each update with no rectangles or no screen, and one more exactly if an update that counted fell short |
| RefreshRuns.RequestsOfRun | vncdotool/client.py:669-684 | in the outputs of a whole run, after those up to the request or the last resize come exactly these requests |
| RefreshRuns.AnswersWhenPainted | vncdotool/client.py:669-684 | a full refresh of a framebuffer never 0x0 since is answered without the warning iff every pixel of the current size was painted since the request or last resize, and with it iff pixels are missing and exactly one request more has been sent since than the updates with no rectangles or no screen account for |
| RefreshRuns.CollapsedIsAnsweredAtOnce | vncdotool/client.py:707-718 | if the framebuffer has been 0x0 since the request, the first update that counts answers it, whatever it painted |
| RefreshRuns.AnEmptyMomentLosesTheRefresh | vncdotool/client.py:707-718 | a concrete history answered with nothing of the new size painted |
| RefreshRuns.EachIsAnsweredOnce | vncdotool/client.py:325-335 | every refresh is called back at most once, and never after a later one |
| StreamRefresh.SizesAgree | vncdotool/rfb.py:345-363 | after any bytes in any packets the size the parser checks rectangles against is the one the refresh machine was told of |
| StreamRefresh.PastesAreWhole | vncdotool/rfb.py:345-363 | from any moment of a connection, whatever is pasted has its rectangle's exact number of pixels |
| StreamRefresh.CommitIsReached | vncdotool/rfb.py:302-307 | every commit is the last callback after some byte of the stream |
| StreamRefresh.SameFramebuffer | vncdotool/rfb.py:345-363 | at a commit the parser's framebuffer is the one the refresh machine waits to see painted |
| StreamRefresh.RefreshWaitsForTheStream | vncdotool/client.py:624-684 | for a full refresh asked for with the parser anywhere and any bytes after it, an update that could complete it, once the bytes up to its commit are there, does so without the warning iff the rectangles pasted with all their pixels or copied from the stream since the request and the last resize cover every pixel of the parser's framebuffer |
| RefreshClient.FullScreenReceived.Awaiting | vncdotool/client.py:144-152 | nothing of the area is painted yet |
| RefreshClient.FullScreenReceived.Retry | vncdotool/client.py:158-163 | says yes at most once and counts it |
| RefreshClient.FullScreenReceived.PaintRect | vncdotool/client.py:165-167 | exactly the mask's pixels inside the box are painted |
| RefreshClient.VNCDoToolClient.RefreshScreen | vncdotool/client.py:325-335 | a new deferred, a new mask and one request; the state stays the history's |
| RefreshClient.VNCDoToolClient.UpdateRectangle | vncdotool/client.py:624-658 | an empty rectangle is nothing; any other makes a screen and paints the mask |
| RefreshClient.VNCDoToolClient.CopyRectangle | vncdotool/client.py:660-667 | paints the mask only where there is a screen |
| RefreshClient.VNCDoToolClient.CommitUpdate | vncdotool/client.py:669-684 | the object after the call is where its history leads |
| RefreshClient.VNCDoToolClient.UpdateDesktopSize | vncdotool/client.py:707-718 | an out-of-range size is refused before anything changes; otherwise the new size and, if pending, a new mask |
| StableWatch.SettlesWhenStill | vncdotool/client.py:112-133 | the timer settles the watch iff some frame at least `seconds` old restarted it and every frame since matched that one |
| StableWatch.RestartBreaks | vncdotool/client.py:112-129 | a later restart has broken every earlier window |
| StableWatch.SettledIsSettled | vncdotool/client.py:112-133 | once settled, nothing is answered or asked again |
| StableWatch.StableScreenWatch.Begin | vncdotool/client.py:98-107 | the window begins at once where there is a screen, else the whole screen is asked for |
| StableWatch.StableScreenWatch.HasChanged | vncdotool/client.py:121-123 | the comparison, fast path and all, sees a change exactly when some pixel of the blurred frames scores above `fuzz`, or the sizes differ |
| StableWatch.StableScreenWatch.Update | vncdotool/client.py:112-129 | baseline, timer and request after each answered refresh |
| StableWatch.StableScreenWatch.Elapse | vncdotool/client.py:125-133 | the watch settles exactly when its timer is due |
| StableWindow.MatchesCarryOver | vncdotool/client.py:121-123 | with a `fuzz` of 0 or of 259 and more, at any blur, if two frames each match a third they match each other |
| StableWindow.TickAgrees | vncdotool/client.py:73-78 | for a `fuzz` of 0 or of 259 and more, after any run, the timer settles the watch exactly when the described window has lasted `seconds` |
| StableWindow.RunsAgree | vncdotool/client.py:73-78 | on any run for a `fuzz` of 0 or of 259 and more, and on any run in time order when `seconds` is not positive, the code has settled exactly when some tick found the described window over |
| StableWindow.ThreeFrames | vncdotool/client.py:112-123 | on three frames of which the second matches the first, the code settles iff the last matches the first, the described window is over iff the last matches the second |
| StableWindow.CodeDiffers | vncdotool/client.py:73-133 | for every `fuzz` from 1 to 258, any blur and any positive `seconds` there is a run on which the code is too late and one on which it is too early |
| StableWindow.DescribedExactlyWhen | vncdotool/client.py:73-133 | code and described window agree on every run in time order iff `seconds <= 0`, `fuzz == 0` or `fuzz >= 259` |
| StableWindow.GreysDiffer | vncdotool/client.py:73-133 | the two concrete runs of greys, one settled too late and one too early |
| ImageMatch.CeilRootIsLeast | vncdotool/imagematch.py:59-72 | the least whole number whose square is not below the target |
| ImageMatch.WorstDelta | vncdotool/imagematch.py:46-56 | the largest pixel difference: no pixel is above it and one reaches it |
| ImageMatch.BoundHolds | vncdotool/imagematch.py:59-72 | no two pixels that close in every channel score above the bound |
| ImageMatch.MeansNear | vncdotool/imagematch.py:40-43 | rounded means of values within `m` of each other are within `m` |
| ImageMatch.BlurNoFurther | vncdotool/imagematch.py:86-91 | blurring brings no pair of pixels further apart than the furthest pair going in |
| ImageMatch.MatchesIsClose | vncdotool/imagematch.py:79-91 | `matches` is true iff the sizes agree and no pixel scores above `fuzz` after the blur: the fast path never disagrees with the full score |
| ColourDepth.PickedNear | vncdotool/pixelformat.py:149-160 | whether a server truncates an 8-bit value, rounds it, or takes the closest value shown, what a client shows for the n-bit value is within `255 >> n` of it |
| ColourDepth.ToleranceIsExact | vncdotool/pixelformat.py:149-160 | `255 >> n` is the least bound that allows for truncation of every value |
| ColourDepth.WideGap | vncdotool/pixelformat.py:149-160 | for 1 to 7 bits, however the values shown from black to white are chosen, two next to each other are more than 2**(8-n) apart |
| ColourDepth.EitherNeighbourExactlyWhen | vncdotool/pixelformat.py:152-157 | both values shown next to any other are within the tolerance iff the channel has no bits or at least eight |
| ColourDepth.FlooredShows | tests/unit/test_pixelformat.py:118-136 | scaling by 255 over the channel's greatest value and cutting off is such a way of showing it |
| ColourDepth.FiveBits | tests/unit/test_pixelformat.py:132-136 | full red at five bits is 255, and 33 lies between 32 and 41, one of them outside the tolerance of 7 |
| ColourDepth.QuantisedScreenMatches | vncdotool/imagematch.py:75-76 | a screen cut down to what its format can express, channel by channel and pixel by pixel by any of these servers, and shown by any client, matches its target at the format's own fuzz, whatever the blur |
| Scores.DeltaIsSymmetric | vncdotool/imagematch.py:32-33 | which of two pixels comes first does not matter |
| Scores.NoScoreIsTransitive | vncdotool/imagematch.py:32-37 | pixels that score nothing against the same pixel score nothing against each other |
| Scores.NoneAboveLargest | vncdotool/imagematch.py:17-37 | no two 8-bit pixels score above 259 |
| Scores.AllWithinExactlyFrom | vncdotool/imagematch.py:17-37 | every pixel is within `fuzz` of every other iff `fuzz` is at least 259: blue and yellow score above 258, so `MAX_DELTA` is not the largest delta |
| Scores.ClosenessAddsUpExactlyWhen | vncdotool/imagematch.py:32-37 | pixels within `fuzz` of the same pixel are always within `fuzz` of each other iff `fuzz` is 0 or at least 259 |

## Left out

- DES, Diffie-Hellman, AES, TLS and VeNCrypt: foreign cryptography; the exchange's bytes are arbitrary here.
- The client's own handshake before ServerInit, and the tail after a rejected authentication, where nothing re-arms `expect`.
- RfbClient.RFBClient.constructor: does not model the version, security and authentication handlers that `__init__` starts with; the object begins with the ServerInit they end in.
- `RFBServer` in `loggingproxy.py` and the `VMWareDialect`: their reading depends on packet boundaries by design.
- zlib and JPEG decoding: functions of what a stream has been given; a decoded JPEG is taken to have three bytes a pixel (`RgbImages`).
- Stall timers, logging, `served` and archive files of the replay and recording halves: no effect on the bytes sent.
- Abort texts: a reason is a constructor of a datatype, not its message; `MemoryError` and a generator that yields a negative size are not modelled.
- `Tap` as an object of its own: its pending bytes are two fields of the scrubber.
- The names and headers `CaptureWriter` also notes (encodings, metadata) are not modelled.
- `_already_expecting`: handlers are only called from the drain loop, so `expect` never re-enters it.
- `setImageMode` when no format can be read: the connection's format is any result of `World.settle`.
- Raw, RRE, CoRRE, CopyRect, cursor, control and message handlers have no modules of their own; they are suspension points of `Generators`, with the paste-length, accounting and whole-stream results.
- The Tight decoder's `_streams` list is a value in the pump's state, with each stream as the calls made on it since its last reset; update of the list in place is not modelled.
- The contents of `screen` (only whether there is one), the cursor overlay and Pillow raw modes.
- Rounding of floating point in `imagematch.py`: all arithmetic is over the reals; the blur is one rounded mean over the box, not two passes.
- ImageMatch.MatchesIsClose: an image with no pixels is covered for `fuzz >= 0` only, since the extrema of an empty image are Pillow's business.
- Replay.ClientPacketsDoNotMatter: compares what is written and the connection's flags, not the client bytes still buffered after the recording is exhausted, which nothing reads.
