# A verified model of the server's storage, protocol, command and NBT core

This project models the data-structure and codec heart of a Minecraft server written in
Go and proves what it is relied on for. Each module follows one source file or component.
Objects the server updates in place are classes here, its loops are loops, and each
method is proved against a specification function whose own properties are then proved
as lemmas.

- **Block storage.** `Sections`, `Chunks`, `Dimensions` and `BlockActions` model the
  adaptive sections (one value, palette and indices, sixteen-bit states), the lazily
  created sections and chunks, and placing and breaking with block entities and tickers.
  `DataArrays`, `Palettes`, `PalettedContainers` and `ChunkWire` model the bit-packed
  form a chunk is sent in, and `WireDecoding` is an independent reader of that format.
  `StorageRuns` states the results for whole runs of edits. All of it agrees with one
  plain map from position to state.
- **Byte protocol.** `VarInts`, `Packets` (framing and compression), `Cfb8` (the cipher
  stream) and `LpVec3s` (the quantised vector). `Bits` gives the word operations on
  natural numbers, each truncated to the source's width.
- **Commands.** `Readers` (the cursor), `CommandParsing` (the backtracking parser, with
  the snapshot's own map restored and written into as the source does),
  `CommandTheorems` (what a parse means), `CommandGraph` (flattening), `LeafShapes`
  (expanding a syntax), `SyntaxShapes` (the shapes read off the tokens alone),
  `CommandTrie` with `CommandBuilder` (merging shapes into the tree of nodes) and
  `BuilderTheorems` (which node each token becomes).
- **NBT.** `NbtTrees` (matching and merging on trees), `NbtFilters` (matching as cutting
  the filter out of the tree), `NbtObjects` (compounds and lists as objects in memory),
  `NbtPaths` and `NbtResolving` (paths), `NbtReading` (which values a path reaches),
  `NbtWrites`, `NbtEditing`, `NbtOperations`, `NbtMerging` and `NbtMergeAt` (changes in
  place), `NbtEditTheorems` (what they leave, item by item), `Snbt` and `SnbtScanning`
  (the printer and the scanner of command arguments), `SnbtReading` (an independent
  reader of the printed format) and `ScanTheorems` (where a scan stops, character by
  character).
- **Items.** `Containers` (inserting a stack) and `Furnaces` (the furnace).

Memory is tracked by ghost snapshots and footprints: `Repr` sets for storage, the tables
`At` and `Kids` for the command tree, and `Snapshot` values for NBT objects.

Where a property one would expect is false of the code, the model keeps the code, proves
exactly when the property holds, and names an input for which it does not:

- A compressed frame may exceed the receiver's limit, which the sender does not check
  (`Packets.FrameRoundTrip`, `Packets.PaddedFrameTooLong`).
- The scale of a vector survives exactly below 2^33 (`LpVec3s.AccurateIffScaleFits`,
  `LpVec3s.FirstScaleLost`).
- Block positions a multiple of 2^36 apart share a cell (`Dimensions.SameCellIffCongruent`,
  `Dimensions.FarBlocksShare`).
- A section in sixteen-bit form keeps the low 16 bits of every state
  (`Sections.Section.Set`, `Sections.WideStateBecomesAir`).
- A section is sent with its states intact unless more than 256 of them differ and one
  exceeds fifteen bits (`ChunkWire.SectionToWire`, `ChunkWire.WideSectionIsCut`).
- A path that uses all input and ends at a runnable node yields its command only when it is
  the first such path in the order of children (`CommandTheorems.FindsCommandIff`,
  `CommandTheorems.FirstOfATieHidesTheCommand`).
- The bindings of a parse are those of its own path where no earlier sibling also took the
  input; the name of one that did stays bound when it is rolled back
  (`CommandTheorems.OwnBindings`, `CommandTheorems.RivalStaysBound`,
  `CommandTheorems.LoserStaysBound`).
- A shape without steps gets no command, so a builder of one word installs none
  (`CommandTrie.RegisterIsExact`, `CommandTrie.BareWordGetsNoCommand`).
- The number an NBT operation returns is that of the tags written or removed only when it
  succeeds, unlike internal/mc/nbtpath/README.md:49-52 suggests: a failure at a later
  anchor returns 0 and leaves the earlier ones changed (`NbtEditing.Set`,
  `NbtOperations.EditLists`, `NbtOperations.Remove`, `NbtMergeAt.MergeAt`,
  `NbtEditing.FailsAtSecond`).
- An anchor reads its own location unless that is a member with the empty name, when it
  reads the compound above (`NbtWrites.AnchorReadsIff`, `NbtResolving.EmptyNameMisses`).

## Model

| member | source | states |
|---|---|---|
| VarInts.EncodeLength | internal/proto/field.go:180-192 | an encoding has one to five bytes, five exactly for negative numbers and those from 2^28 |
| VarInts.Len | internal/proto/field.go:180-192 | the announced length is the length of the encoding |
| VarInts.RoundTrip | internal/proto/field.go:504-557 | reading what was written gives the number back and leaves exactly what followed |
| VarInts.DigitsAre | internal/proto/field.go:537-557 | byte i holds the digit of 128^i, marked exactly when more follow |
| VarInts.DecodeIs | internal/proto/field.go:504-535 | any bytes, however written, are read as the sum of their digits up to the first unmarked one, or fail as the fifth is marked or the input ends |
| VarInts.WriteTo | internal/proto/field.go:537-557 | the loop emits the base-128 digits of the number's 32-bit pattern |
| VarInts.ReadFrom | internal/proto/field.go:504-535 | the loop reads at most five bytes, modulo 2^32, failing on a short input or when all five announce another |
| Packets.UncompressedFits | internal/packet/packet.go:287-343 | a sendable packet below the threshold always fits the receiver's frame limit |
| Packets.SendableIff | internal/packet/packet.go:287-343 | a packet is sent exactly when identifier and payload take at most 8388608 bytes |
| Packets.AcceptedIff | internal/packet/packet.go:83-153 | a frame is accepted exactly when its length is within the limit and there, and what it announces of its data holds |
| Packets.FrameRoundTrip | internal/packet/packet.go:83-153 | a framed packet is received exactly, and nothing after it touched, if and only if its frame fits the limit |
| Packets.PaddedFrameTooLong | internal/packet/packet.go:83-153 | with a compressor that pads, an empty packet is sent and not received |
| Packets.StreamRoundTrip | internal/packet/packet.go:83-153 | any run of sent packets is received as the same ids and payloads, at any threshold |
| Packets.WriteFramedPacket | internal/packet/packet.go:287-343 | what is sent is the frame of the packet, or an error without sending |
| Packets.Receive | internal/packet/packet.go:83-153 | what is received, and every way of failing, is that of the frame format |
| Cfb8.Chunking | internal/server/encryption.go:81-101 | processed bytes matter to later ones only through the shift register, the last 16 ciphertext bytes |
| Cfb8.ModeIs | internal/server/encryption.go:81-101 | bit for bit, each output byte is the input byte exclusive-or the first byte of the enciphered last sixteen ciphertext bytes |
| Cfb8.Inverse | internal/server/encryption.go:81-101 | decryption undoes encryption and the reverse, for any block function, from the same register |
| Cfb8.AnyChunking | internal/server/encryption.go:41-62 | any split into chunks gives the same output |
| Cfb8.SessionRoundTrip | internal/server/encryption.go:41-62 | whatever the chunks written and the chunks read, the plaintext arrives |
| Cfb8.Stream.Step | internal/server/encryption.go:81-101 | one byte through the ring is one shift of the register |
| Cfb8.Stream.XORKeyStream | internal/server/encryption.go:81-101 | the ring and position implement the 8-bit feedback register of section 6.3 of NIST SP 800-38A, also with source and destination the same slice |
| Cfb8.EncryptedConn.Write | internal/server/encryption.go:49-57 | the caller's bytes are unchanged and the wire is extended by their ciphertext |
| Cfb8.EncryptedConn.WriteInPlace | internal/server/encryption.go:59-62 | the wire is extended by the ciphertext, produced in the caller's slice |
| Cfb8.EncryptedConn.Read | internal/server/encryption.go:41-47 | the bytes that arrived are delivered decrypted, the rest of the slice untouched |
| Cfb8.PrefixDelivered | internal/server/encryption.go:41-47 | any prefix of a ciphertext decrypts to that prefix of the plaintext |
| Cfb8.EndToEnd | internal/server/encryption.go:20-62 | over any history of both ends, each delivers the part of what the other wrote that has reached it |
| LpVec3s.FieldsRoundTrip | internal/proto/field.go:672-715 | the four packed fields never overlap and fit 48 bits |
| LpVec3s.BytesRoundTrip | internal/proto/field.go:672-715 | the six bytes hold the whole word in the mixed order written |
| LpVec3s.ScaleSurvives | internal/proto/field.go:632-715 | a scale is read back exactly when below 2^33, otherwise it is far off |
| LpVec3s.DecodeEncode | internal/proto/field.go:632-715 | decoding consumes exactly the encoded bytes, and only vectors below the cutoff emit the zero marker |
| LpVec3s.EncodingIs | internal/proto/field.go:672-715 | the bytes sent, place by place: the nearest level of each coordinate, the low scale bits and the mark that more follow, then the rest of the scale |
| LpVec3s.DecodingIs | internal/proto/field.go:632-670 | any six bytes that do not start with zero are read as the levels in their places times the scale, the rest of which follows exactly when marked |
| LpVec3s.ReadIsNear | internal/proto/field.go:198-207 | each coordinate is read back within half a quantisation step of the scale |
| LpVec3s.AccurateIffScaleFits | internal/proto/field.go:632-715 | that accuracy holds if and only if the scale is below 2^33 |
| LpVec3s.FirstScaleLost | internal/proto/field.go:632-715 | the vector 2^33 long is not read back near itself |
| LpVec3s.WriteTo | internal/proto/field.go:672-715 | the writer emits the encoding |
| LpVec3s.ReadFrom | internal/proto/field.go:632-670 | the reader returns the decoded vector and consumes its bytes, failing on short input |
| DataArrays.OwnSlot | internal/proto/collection.go:240-262 | an entry written is read back from its own slot, cut to the entry width |
| DataArrays.OtherSlot | internal/proto/collection.go:240-250 | a write leaves every other slot of the word alone |
| DataArrays.SlotIs | internal/proto/collection.go:252-262 | entry k of a word is its bits from k times the width on |
| DataArrays.PackedWrite | internal/proto/collection.go:240-250 | a write to packed words changes exactly its own entry |
| DataArrays.DataArray.Set | internal/proto/collection.go:240-250 | one entry becomes the low bits of the value; out of range nothing changes |
| DataArrays.DataArray.Get | internal/proto/collection.go:252-262 | the entry, or zero out of range |
| DataArrays.DataArray.WriteTo | internal/proto/collection.go:474-483 | the words are sent in order, big-endian |
| Palettes.WrittenExactly | internal/proto/palette.go:109-226 | on fifteen-bit states every form stores exactly what was written |
| Palettes.KeptExactly | internal/proto/palette.go:186-226 | the direct form keeps every state exactly when none exceeds fifteen bits |
| Palettes.SingleValueContainer.Set | internal/proto/palette.go:109-123 | exactly another value turns the container into a two-entry palette, with that one cell changed |
| Palettes.IndirectContainer.Resize | internal/proto/palette.go:176-184 | widening moves all 4096 indices unchanged |
| Palettes.IndirectContainer.UpgradeToDirect | internal/proto/palette.go:186-197 | every cell's state moves to the direct form, with the new write |
| Palettes.IndirectContainer.Set | internal/proto/palette.go:147-174 | one cell changes, through a palette hit, an extension, a widening, or the jump to direct, which happens exactly when the palette has 256 entries and lacks the value |
| Palettes.IndirectContainer.Size | internal/proto/palette.go:199-207 | the announced size is the number of bytes the palette and words take |
| PalettedContainers.PalettedContainer.Set | internal/proto/palette.go:84-93 | one write of the plain cells, truncated exactly if the container is or becomes direct, which it does exactly when 256 values are known and this is another |
| PalettedContainers.PalettedContainer.Get | internal/proto/palette.go:80-82 | the cell's state |
| PalettedContainers.PalettedContainer.Size | internal/proto/palette.go:95-99 | the announced size is exactly the number of bytes sent |
| PalettedContainers.PalettedContainer.WriteTo | internal/proto/palette.go:64-78 | what is sent is the entry width and the form |
| PalettedContainers.PalettedContainer.FormHoldsCells | internal/proto/palette.go:64-78 | the form sent is well formed and stands for the container's cells |
| WireDecoding.ContainerRoundTrip | internal/proto/palette.go:64-78 | a reader that knows only the format recovers all 4096 cells and stops where the container stopped |
| Sections.NonAirSlab | internal/world/section.go:70-106 | refilling a stretch changes the non-air count by its own cells for the new ones |
| Sections.NonAirCounts | internal/world/section.go:42-106 | the count is the number of cells whose state is not 0 |
| Sections.LayersFilled | internal/world/section.go:70-106 | the stretch filled is exactly the layers from the one bound up to the other, whatever these are |
| Sections.EditIsExact | internal/world/section.go:42-106 | after any edit the adjusted count is that of the plain cells and never wraps, and the cells are the plain ones exactly when the form can hold them |
| Sections.Section.Get | internal/world/section.go:35-40 | the cell's state, 0 out of range |
| Sections.Section.Set | internal/world/section.go:42-59 | the plain write with an exact count, if and only if the form reached can hold every state |
| Sections.WideStateBecomesAir | internal/world/section.go:42-59 | state 65536 written to the sixteen-bit form reads as air |
| Sections.Section.Fill | internal/world/section.go:61-68 | one state everywhere, exactly counted |
| Sections.Section.FillRange | internal/world/section.go:70-106 | the plain fill of the clamped layers with an exact count, if and only if the form reached can hold every state |
| StorageRuns.ApplyEdits | internal/world/section.go:42-106 | any run of writes and fills equals the same edits of a plain array, the count exact throughout |
| StorageRuns.EditedCells | internal/world/section.go:42-106 | after a run of edits a cell holds the state of the last edit that covers it, or what it held before |
| StorageRuns.ApplyWrites | internal/proto/palette.go:84-93 | any run of writes equals the same writes of a plain array, cut to fifteen bits exactly when the container was direct or comes to know more than 256 values, and equal to the plain array exactly when its states then fit |
| StorageRuns.WrittenCells | internal/proto/palette.go:84-93 | after a run of writes a cell holds the last value written to it, or what it held before |
| Chunks.CellIndexIsPositional | internal/world/chunk.go:105-136 | the packed cell index is y, z, x in base 16 |
| Chunks.SameCellIndex | internal/world/chunk.go:105-136 | two local positions in one section share an index only when they are equal |
| Chunks.Chunk.GetBlock | internal/world/chunk.go:105-115 | the state of the column, 0 in a missing section, an error outside it |
| Chunks.Chunk.SetBlock | internal/world/chunk.go:117-136 | exactly one cell of the column changes, a missing section being created unseen, and no block entity does |
| Chunks.Chunk.Fill | internal/world/chunk.go:138-154 | one section becomes one state, air by dropping it; other sections and entities are unchanged |
| Chunks.Chunk.RemoveTicker | internal/world/chunk.go:61-71 | the ticker at the position goes and every other stays, one per position |
| Chunks.Chunk.SetBlockEntity | internal/world/chunk.go:34-43 | the entity replaces any at its position and the tickers are exactly the ticking entities |
| Chunks.Chunk.RemoveBlockEntity | internal/world/chunk.go:52-58 | the entity at the position goes with its ticker, all others stay |
| Dimensions.KeyIsPair | internal/world/dimension.go:21-30 | the chunk key is the pair of the coordinates' low 32 bits |
| Dimensions.SameCellIffCongruent | internal/world/dimension.go:21-54 | two positions share a cell exactly when x and z differ by multiples of 2^36 and y is equal |
| Dimensions.FarBlocksShare | internal/world/dimension.go:21-54 | the block 2^36 east of another is the same cell |
| Dimensions.NoAliasing | internal/world/dimension.go:21-54 | within 32-bit chunk coordinates, negative ones included, cells and positions correspond one to one |
| Dimensions.Dimension.GetChunk | internal/world/dimension.go:21-30 | finding or generating a chunk changes no state or entity that can be seen |
| Dimensions.Dimension.GetBlock | internal/world/dimension.go:32-42 | the state at the position, an error outside the heights held, and nothing visible changes |
| Dimensions.Dimension.SetBlock | internal/world/dimension.go:44-54 | every position of that cell shows the state, every other position and every entity is as before |
| Dimensions.GeneratePlaceholderChunk | internal/world/dimension.go:66-74 | the lowest sections hold the placeholder state, the rest air |
| Dimensions.PlaceholderAt | internal/world/dimension.go:66-74 | in a generated chunk the heights held are those of its sections, the lowest 144 layers showing state 9 and the others air |
| StorageRuns.Accesses | internal/world/dimension.go:21-54 | over any run of reads and writes, a read answers the last state written to its cell or the initial one |
| BlockActions.LastWritePerCell | internal/world/block_action.go:106-137 | the last write of a run is the same for all positions of a cell |
| BlockActions.SeenIs | internal/world/block_action.go:106-159 | after a run of writes a position shows what the last write to its cell wrote, and what it did where none reaches it or no blocks are held |
| BlockActions.LastEntityIs | internal/world/block_action.go:133-135 | of the entities added at one position the last is kept |
| BlockActions.UndoRestores | internal/world/block_action.go:106-137 | writing the recorded states back, last first, restores every block, repeated positions included |
| BlockActions.StatesArePerCell | internal/world/block_action.go:106-137 | a dimension shows the same state at all positions of a cell, as undoing needs |
| BlockActions.PlaceBlock | internal/world/block_action.go:106-137 | each written cell holds its last write, nothing else changes, the overwritten states are recorded in order, written positions keep only entities that were added; refused and panicking placements change nothing |
| BlockActions.BreakBlock | internal/world/block_action.go:139-159 | the changes are written in order, and exactly the positions turned to air or listed lose their entities |
| BlockActions.StatesFit | internal/world/block_action.go:106-137 | every state of a dimension fits sixteen bits, so it can be written back |
| BlockActions.PlaceAndUndo | internal/world/block_action.go:106-137 | after a placement on any dimension, writing the recorded states back, last first, leaves every block as it was |
| BlockActions.BreakAndUndo | internal/world/block_action.go:139-159 | the same for a breaking |
| ChunkWire.SentExactly | internal/server/encoders/chunk.go:183-202 | what is sent of 4096 states is those states unless more than 256 differ and one exceeds fifteen bits |
| ChunkWire.SectionToWire | internal/server/encoders/chunk.go:183-202 | the direct form is used exactly for more than 256 distinct states, and the container holds the section's 4096 states exactly unless one of those then exceeds fifteen bits |
| ChunkWire.WideSectionIsCut | internal/server/encoders/chunk.go:183-202 | the 4096 states from 32767 up arrive changed |
| ChunkWire.SectionWire.Size | internal/server/encoders/chunk.go:60-74 | the announced size of a section is the number of bytes it sends |
| ChunkWire.NewChunkData | internal/server/encoders/chunk.go:127-181 | every section is encoded with its own count and states, and the announced size is the byte count of the block data |
| ChunkWire.WriteData | internal/server/encoders/chunk.go:29-47 | the sections are sent in order |
| ChunkWire.PartsRoundTrip | internal/server/encoders/chunk.go:60-74 | the block data read by its format gives every section's count and states back |
| ChunkWire.ChunkSurvives | internal/server/encoders/chunk.go:127-202 | a client reads the count of every section, and its 4096 states exactly unless more than 256 differ and one exceeds fifteen bits |
| Readers.CommandReader.SkipWhitespace | internal/systems/commander/reader.go:45-49 | the cursor stops at the first byte that is not a space |
| Readers.CommandReader.ReadUnquotedString | internal/systems/commander/reader.go:51-57 | the longest run of unquoted characters |
| Readers.CommandReader.ReadWord | internal/systems/commander/reader.go:81-87 | the text up to the next space |
| Readers.CommandReader.ReadStringUntil | internal/systems/commander/reader.go:103-127 | the unescaped text up to the terminator, or where and why it fails |
| ScanTheorems.QuotedReading | internal/systems/commander/reader.go:103-127 | any text is cut into bare characters and escaped quotes and backslashes, and the reading is what they mean, or the fault of what follows them, at its place |
| Readers.CommandReader.ReadQuotedString | internal/systems/commander/reader.go:59-69 | the same, from the opening quote |
| CommandParsing.SnapshotResult | internal/systems/commander/commander.go:85-94 | everything a parse changes is copied, the bindings into a new map |
| CommandParsing.RestoreSnapshot | internal/systems/commander/commander.go:96-103 | the snapshot is put back, its own map included |
| CommandParsing.ParseNodes | internal/systems/commander/commander.go:105-209 | terminates on every graph and input, and nodes, command, errors, forks, cursor and bindings are those of the parse's meaning, the shared snapshot map written into as the source does |
| CommandParsing.Parse | internal/systems/commander/commander.go:63-73 | a parse of a whole input is that meaning from the root |
| CommandTheorems.ParseIsSound | internal/systems/commander/commander.go:105-209 | the nodes are a connected path of permitted children through redirects, arguments ending at a space or at the end; the command is the run of its end exactly when all input is used; forks and errors are set exactly by a forking node and by where the path is stuck |
| CommandTheorems.LiteralDecides | internal/systems/commander/commander.go:112-133 | at any input the first child literal with the next word is taken if its level permits, and if it is not permitted or missing no literal is |
| CommandTheorems.RangesAscend | internal/systems/commander/commander.go:105-209 | the ranges of a path ascend without overlap, with only spaces between |
| CommandTheorems.Furthest | internal/systems/commander/commander.go:150-209 | no path the grammar allows ends beyond where the parse ends |
| CommandTheorems.ParsesAllIff | internal/systems/commander/commander.go:105-209 | the whole input is parsed if and only if some allowed path uses all of it |
| CommandTheorems.BestIsFirst | internal/systems/commander/commander.go:150-209 | of the children that get furthest the first is kept |
| CommandTheorems.FirstOfFurthest | internal/systems/commander/commander.go:105-209 | of all allowed paths that get as far as the parse, its own is the first in the order of children |
| CommandTheorems.TakesTheFirst | internal/systems/commander/commander.go:105-209 | a whole input is parsed along a path if and only if that is the first of those using all of it |
| CommandTheorems.FindsCommandIff | internal/systems/commander/commander.go:105-209 | a parse yields a command if and only if the first path using all input ends at a node that runs it |
| CommandTheorems.FirstOfATieHidesTheCommand | internal/systems/commander/commander.go:150-209 | so of two arguments reaching equally far the first wins, even if only the second runs a command |
| CommandTheorems.NamesStay | internal/systems/commander/commander.go:85-209 | names once bound stay bound, in the result and in the map the snapshots share |
| CommandTheorems.LastBinds | internal/systems/commander/commander.go:120-209 | the last node of a parse that binds a name has bound its own value |
| CommandTheorems.OwnBindings | internal/systems/commander/commander.go:85-209 | where no earlier sibling also takes the input, exactly the nodes of the path have bound their names, each to its own text, literal or value |
| CommandTheorems.RivalStaysBound | internal/systems/commander/commander.go:143-197 | wherever such a sibling comes before the argument taken, its name ends up bound, on the path or not |
| CommandTheorems.LoserStaysBound | internal/systems/commander/commander.go:85-209 | a concrete graph and input where that binding stays beside those of the path |
| CommandGraph.GraphWalk.Walk | internal/systems/commander/commander.go:384-418 | what a visit newly lists leads only to listed nodes and lies in every set its start cannot leave |
| CommandGraph.ReachableIsClosed | internal/systems/commander/commander.go:384-418 | the reachable nodes lead nowhere else |
| CommandGraph.WithinClosed | internal/systems/commander/commander.go:384-418 | they lie in every set with the root that leads nowhere else |
| CommandGraph.ShownAre | internal/systems/commander/commander.go:397-405 | the children listed for a node are those whose permission level is at most 0 or the given one, in their order |
| CommandGraph.FlattenGraph | internal/systems/commander/commander.go:384-418 | on any graph, cyclic too, exactly the nodes reachable through redirects and children permitted at the level are listed, each once with those children, and the index is the inverse of the list |
| LeafShapes.ProductMembers | internal/systems/commander/build.go:166-201 | the fanned-out shapes are exactly those with one option chosen at each choice |
| LeafShapes.ReplacingKeepsProduct | internal/systems/commander/build.go:170-195 | fanning out the first choice leaves the eventual shapes and their order as they were |
| LeafShapes.FanOutRound | internal/systems/commander/build.go:167-200 | one round keeps the eventual shapes and moves every first choice further on |
| LeafShapes.ExpandLeafShapes | internal/systems/commander/build.go:133-202 | the rounds end, with the shapes of the syntax |
| LeafShapes.LeafShapesAre | internal/systems/commander/build.go:133-202 | a shape is one of the syntax's exactly when it is the head with a choice made everywhere, then a first part of the optionals |
| LeafShapes.ExpansionCount | internal/systems/commander/build.go:133-202 | there is one more than the optionals, times the product of the choice counts |
| SyntaxShapes.ParsersCounted | internal/systems/commander/build.go:133-155 | the parser of an argument is the number of required, optional and variadic tokens before it |
| SyntaxShapes.ShapeAt | internal/systems/commander/build.go:133-202 | for every number of optionals and every choice of literals, read off the tokens in order, the shape spelling them is at the place given by counting with the first choice slowest |
| SyntaxShapes.EveryShape | internal/systems/commander/build.go:133-202 | every shape of the list is at such a place |
| CommandTrie.RefusedIffClash | internal/systems/commander/build.go:284-332 | a shape cannot be inserted exactly when a node on its path has another parser, or is a literal that already binds another name |
| CommandTrie.InsertKeeps | internal/systems/commander/build.go:247-332 | inserting adds only the shape's own path, without command, and changes no entry but by a binding |
| CommandTrie.InsertBinds | internal/systems/commander/build.go:296-332 | every node on the path parses and binds what its step says |
| CommandTrie.RegisterIsExact | internal/systems/commander/build.go:247-275 | the shape's path gets the command and no other path changes its own; refused exactly on a clash or an occupied path; without steps nothing is installed |
| CommandTrie.RefusedAtSome | internal/systems/commander/build.go:112-119 | a builder's shapes are refused exactly when one of them is, by what those before it left |
| CommandTrie.RegisterAllCarries | internal/systems/commander/build.go:112-119 | every node on the paths of a builder's shapes parses and binds what its step says, and no node loses its own |
| CommandTrie.BareWordGetsNoCommand | internal/systems/commander/build.go:122-275 | a syntax of one word has one shape, without steps, and registering it changes nothing |
| CommandTrie.RegisterAllKeeps | internal/systems/commander/build.go:112-119 | a builder's shapes leave earlier commands alone and add none elsewhere |
| CommandTrie.OwnCommand | internal/systems/commander/build.go:112-119 | each non-empty shape of a builder is found under its path with its own command |
| CommandTrie.BuilderRegisters | internal/systems/commander/build.go:77-120 | both together for a whole builder |
| CommandTrie.ShapesInstallable | internal/systems/commander/build.go:10-31 | the shapes hold no choice and refer only to parsers the builder was given |
| CommandTrie.AliasesAre | internal/systems/commander/build.go:204-233 | aliases become literals that redirect where there was none, and nothing else changes |
| BuilderTheorems.TokensAreNodes | internal/systems/commander/build.go:77-275 | below the root word lie, in order, the nodes of the tokens, each argument with the parser of its place and each choice binding its name, and the last runs the command of that shape |
| CommandBuilder.TreeGrows | internal/systems/commander/build.go:284-332 | appending a child with a new key keeps one node for every path of keys |
| CommandBuilder.Dispatcher.LookupFinds | internal/systems/commander/node.go:105-112 | following first-matching children from the root finds the node of the path, or nothing |
| CommandBuilder.Dispatcher.MatchOrAddLiteral | internal/systems/commander/build.go:284-294 | an existing literal is shared, otherwise one is added |
| CommandBuilder.Dispatcher.MatchOrAddChoiceLiteral | internal/systems/commander/build.go:296-314 | a literal is shared and bound unless bound to another name |
| CommandBuilder.Dispatcher.MatchOrAddArgument | internal/systems/commander/build.go:316-332 | an argument is shared only by the same parser |
| CommandBuilder.Dispatcher.AttachShape | internal/systems/commander/build.go:247-275 | the tree becomes what registering the shape means, and the leaf is returned, or it is refused exactly when that is |
| CommandBuilder.Dispatcher.EnsureRootLiteral | internal/systems/commander/build.go:235-245 | the root literal is found or added |
| CommandBuilder.Dispatcher.EnsureAlias | internal/systems/commander/build.go:204-233 | the alias redirects to the command, or is refused exactly when it is empty, holds anything but letters, digits, _ and -, equals the command, or is taken; the reason is the first of these |
| CommandBuilder.Dispatcher.Attach | internal/systems/commander/build.go:57-120 | a builder is refused exactly when its commands do not fit, an alias is refused or one of its shapes clashes; otherwise every non-empty shape has its own command, no earlier one is disturbed, and its aliases lead to its root |
| CommandBuilder.Dispatcher.RegisterBuilders | internal/systems/commander/build.go:351-355 | after any series of registrations every non-empty shape of every builder finds its own command, unless one builder had to be refused, where all before it do |
| NbtTrees.MatchReflexive | internal/mc/nbtpath/resolve.go:23-60 | every tree matches itself |
| NbtTrees.MatchTransitive | internal/mc/nbtpath/resolve.go:23-60 | matching is transitive, lists and typed arrays included |
| NbtTrees.ArrayFilter | internal/mc/nbtpath/resolve.go:40-75 | a typed array as a filter asks for its elements as a list does |
| NbtFilters.MatchIsCut | internal/mc/nbtpath/resolve.go:23-75 | a tree matches a filter exactly when dropping members and picking elements of it, one for each the filter asks for, makes the filter |
| NbtTrees.MergeMatches | internal/mc/nbtpath/ops.go:179-189 | the merged compound matches what was merged in |
| NbtTrees.MergeIsWhatKeeps | internal/mc/nbtpath/ops.go:179-189 | the merge is the one compound that, at every shared level, keeps the members absent from the source and takes the rest from it |
| NbtTrees.MergeIdempotent | internal/mc/nbtpath/ops.go:179-189 | merging the same source again changes nothing |
| NbtObjects.MatchInMemory | internal/mc/nbtpath/resolve.go:23-60 | matching objects is matching the trees they hold |
| NbtPaths.LevelThenRest | internal/mc/nbtpath/resolve.go:79-148 | one level followed by the rest is the whole path below each location |
| NbtPaths.ResolvedIsMeaning | internal/mc/nbtpath/resolve.go:79-148 | level-by-level resolution gives the locations of the recursive meaning in the same order, fails exactly when some branch does, and no location is another or below it |
| NbtReading.MeaningIs | internal/mc/nbtpath/resolve.go:79-148 | a path means the locations its steps lead to, in ascending order, and fails exactly when a step cannot be taken from some value reached |
| NbtReading.ResolvedIs | internal/mc/nbtpath/resolve.go:79-148 | the same of resolving it level by level |
| NbtReading.IndexReads | internal/mc/nbtpath/resolve.go:105-113 | an index selects the one location of that element and fails exactly when out of range |
| NbtReading.ElementsRead | internal/mc/nbtpath/resolve.go:62-75 | the elements of a list are its items, those of a typed array its numbers, bytes unsigned |
| NbtReading.MemberReads | internal/mc/nbtpath/resolve.go:96-104 | a member step selects that member, or fails exactly when it is missing |
| NbtReading.AllReads | internal/mc/nbtpath/resolve.go:114-121 | all elements, in order |
| NbtReading.SelfReads | internal/mc/nbtpath/resolve.go:122-130 | a filter selects the compound itself exactly when its tree matches |
| NbtReading.MatchAllReads | internal/mc/nbtpath/resolve.go:131-144 | exactly the compounds among the elements whose trees match, in ascending order |
| NbtResolving.AnchorReads | internal/mc/nbtpath/resolve.go:7-21 | an anchor reads its own location, except that a member with the empty name reads the compound above it |
| NbtWrites.AnchorReadsIff | internal/mc/nbtpath/resolve.go:7-21 | in a tree without sharing an anchor reads its own location if and only if that is not a member with the empty name |
| NbtResolving.EmptyNameMisses | internal/mc/nbtpath/resolve.go:7-21 | a concrete compound where that exception shows |
| NbtResolving.Matches | internal/mc/nbtpath/resolve.go:23-60 | the loops decide the match of an object with a filter |
| NbtResolving.StepResolve | internal/mc/nbtpath/resolve.go:91-148 | one level of anchors, or the first failure |
| NbtResolving.Resolve | internal/mc/nbtpath/resolve.go:79-89 | the anchors are those of the resolved locations, in order, with the same failure |
| NbtWrites.WriteMoves | internal/mc/nbtpath/ops.go:5-26 | writing to the one place an object is at replaces what is below that location and nothing else |
| NbtWrites.OneMore | internal/mc/nbtpath/ops.go:34-38 | each further anchor written adds its location to those changed and disturbs no other |
| NbtEditing.SetAnchor | internal/mc/nbtpath/ops.go:5-26 | the assignment, or its error, for each kind of anchor |
| NbtEditing.Set | internal/mc/nbtpath/ops.go:29-40 | exactly the selected locations hold the value and their number is returned; succeeds exactly when none is the root or an element of a typed array, otherwise exactly the locations before the first such one are written |
| NbtEditing.FailsAtSecond | internal/mc/nbtpath/ops.go:29-40 | a concrete tree and path where the second of two locations cannot be written |
| NbtEditing.MatchKept | internal/mc/nbtpath/ops.go:138-151 | values not yet changed still match what they did |
| NbtOperations.EditLists | internal/mc/nbtpath/ops.go:43-79 | every selected list is replaced by one with the edited items, which keep their contents, and no other location changes; at the first list that cannot be edited it stops, those before it edited |
| NbtOperations.Append | internal/mc/nbtpath/ops.go:43-58 | the value is the last item of every selected list |
| NbtOperations.Prepend | internal/mc/nbtpath/ops.go:61-79 | the value is the first item of every selected list |
| NbtOperations.Insert | internal/mc/nbtpath/ops.go:192-214 | the value is at the position in every selected list, if it is within all of them |
| NbtOperations.Remove | internal/mc/nbtpath/ops.go:84-155 | exactly the selected members or elements are gone and their number is returned; missing members are skipped, the root and matched compounds refused; a failure leaves exactly what came before it removed |
| NbtEditTheorems.EditableIff | internal/mc/nbtpath/ops.go:5-79 | which lists can be edited: inserting also into typed arrays, never the root or inside an array, and an index only within |
| NbtEditTheorems.EditedItems | internal/mc/nbtpath/ops.go:43-155 | the items of a list after each kind of edit, in order |
| NbtEditTheorems.CountNext | internal/mc/nbtpath/ops.go:95-154 | the number returned is the sum of the tags each list gained or lost |
| NbtEditTheorems.DoomedExactly | internal/mc/nbtpath/ops.go:99-107 | the members deleted are exactly those of that name that are there |
| NbtEditTheorems.DeletedMembers | internal/mc/nbtpath/ops.go:99-107 | after deleting, nothing is at or below that member of any selected compound, and every other location is as it was |
| NbtEditTheorems.RemovableIff | internal/mc/nbtpath/ops.go:84-155 | removing succeeds exactly when the last step can be removed below every location |
| NbtEditTheorems.RemovedItems | internal/mc/nbtpath/ops.go:108-149 | the list put in place lacks exactly the index, all elements, or the compounds that match |
| NbtMerging.HoldsStill | internal/mc/nbtpath/ops.go:179-189 | a value none of whose compounds changed holds the tree it held |
| NbtMerging.MergeCompound | internal/mc/nbtpath/ops.go:179-189 | the in-place recursion leaves the destination holding the merge of the two trees and no compound outside it changed |
| NbtMergeAt.BranchesApart | internal/mc/nbtpath/ops.go:164-177 | what lies at different branches has no compound in common |
| NbtMergeAt.MergeAt | internal/mc/nbtpath/ops.go:164-177 | every selected compound holds the merge, nothing outside them changes, and it succeeds exactly when all selected are compounds, otherwise those before the first other value are merged |
| NbtMergeAt.MergeRoot | internal/mc/nbtpath/ops.go:158-161 | the root holds the merge |
| Snbt.SortedKeysAre | internal/mc/nbtpath/snbt_walk.go:16-20 | the keys in strictly ascending byte order, none missing |
| Snbt.PrintedSkips | internal/mc/nbtpath/snbt_walk.go:12-136 | a printed value inside brackets is passed over as a whole |
| Snbt.PrintedEnds | internal/systems/commander/parsers/nbt.go:103-171 | a printed value followed by nothing or a space is taken to end exactly where it ends |
| Snbt.QuotedReadsBack | internal/mc/nbtpath/snbt_walk.go:125-136 | the escaped string between quotes reads back as the string |
| Snbt.WriteString | internal/mc/nbtpath/snbt_walk.go:125-136 | the string is emitted quoted, quotes and backslashes escaped |
| Snbt.WriteKey | internal/mc/nbtpath/snbt_walk.go:110-123 | a key is emitted bare exactly when non-empty and all unquoted characters |
| Snbt.WriteSNBT | internal/mc/nbtpath/snbt_walk.go:12-102 | the recursion extends the text by the printed form of the tree, which ReadsBack pins |
| Snbt.FormatSNBT | internal/mc/nbtpath/plain_sink.go:22-27 | the text is the printed form, nothing before or after it |
| SnbtReading.DecimalReadsBack | internal/mc/nbtpath/snbt_walk.go:73-83 | every printed number, sign and digits, reads back as that number |
| SnbtReading.ReadsBack | internal/mc/nbtpath/snbt_walk.go:12-136 | a reader that knows only the format recovers the printed tree, with its keys, order, suffixes and types, from its text and whatever follows; a truth value reads as a byte, an unsigned byte as an int, array bytes modulo 256 |
| SnbtReading.FormatAndRead | internal/mc/nbtpath/plain_sink.go:22-27 | so reading what the formatter returns gives the tree back |
| SnbtScanning.ReadSNBTQuoted | internal/systems/commander/parsers/nbt.go:156-171 | the cursor ends past the closing quote, or at the end with a fault |
| SnbtScanning.ReadSNBTBalanced | internal/systems/commander/parsers/nbt.go:130-154 | the cursor ends where the brackets balance, brackets in quotes not counting |
| SnbtScanning.ReadSNBT | internal/systems/commander/parsers/nbt.go:103-128 | the text of the value at the cursor, which moves past it |
| ScanTheorems.ValueEnds | internal/systems/commander/parsers/nbt.go:103-171 | character by character: a bracketed value ends at the first closing bracket outside quotes that balances, a quoted one where its quote is closed, another as far as unquoted characters go; there is none where that place is missing |
| SnbtScanning.ReadPrinted | internal/systems/commander/parsers/nbt.go:103-171 | reading a formatted value back, with anything before it and nothing or a space after it, consumes exactly that value |
| SnbtScanning.ReadPrintedString | internal/systems/commander/reader.go:59-69 | a string printed by the writer is returned unchanged by the reader |
| Containers.ToppedKeeps | internal/mc/container/instance.go:67-83 | topping up conserves items, stays within the limit and the range, and leaves a rest only when no matching slot has room |
| Containers.FilledKeeps | internal/mc/container/instance.go:85-97 | filling empty slots does the same, leaving a rest only when no slot is empty |
| Containers.AddedKeeps | internal/mc/container/instance.go:51-100 | inserting conserves every kind of item, changes only slots k with start <= k <= end inside the inventory and only upwards to the limit, tops up and fills them in order, empty ones last, and leaves a rest only when no slot in range would take one more |
| Containers.Instance.AddItemRange | internal/mc/container/instance.go:51-100 | the two loops compute that insertion, with the bounds clamped and a limit of at least one |
| Containers.Instance.AddItem | internal/mc/container/instance.go:47-49 | the same over all slots |
| Furnaces.TickConserves | internal/mc/blockentity/furnace.go:77-164 | a tick keeps the sum of input and output, smelts by the recipe, keeps the output within its stack and the timer below 200, and takes one fuel exactly when it buys burn time |
| Furnaces.TickPays | internal/mc/blockentity/furnace.go:77-164 | progress made in a tick is paid for in burn ticks |
| Furnaces.RunPays | internal/mc/blockentity/furnace.go:77-164 | over any run, with players changing slots between ticks, smelting and progress never exceed the burn ticks paid |
| Furnaces.NewFurnacePays | internal/mc/blockentity/furnace.go:57-111 | 200 times the items smelted plus progress is at most the burn ticks bought less those left, plus one while lit |
| Furnaces.SmeltsOn | internal/mc/blockentity/furnace.go:77-164 | a tick of a furnace that burns, or has fuel to, and can smelt advances the timer by one, lights it if need be, and on the last one moves one item from the input to one result in the output |
| Furnaces.Cools | internal/mc/blockentity/furnace.go:77-111 | any other tick changes nothing but the burn time and the timer, which falls by two down to 0 |
| Furnaces.SmeltsInTime | internal/mc/blockentity/furnace.go:77-111 | with enough burn time, 200 ticks less the timer give exactly one result for one item |
| Furnaces.CoolsDown | internal/mc/blockentity/furnace.go:77-111 | over any number of ticks without smelting the timer falls by two each, down to 0 |
| Furnaces.BusyProgress | internal/mc/blockentity/furnace.go:77-132 | while it can smelt and burn, through refuelling, every tick is one of the 200 of an item |
| Furnaces.OutputStaysWithin | internal/mc/blockentity/furnace.go:77-164 | over any run in which players never put more than a stack into the output, it stays within its stack |
| Furnaces.TicksConserve | internal/mc/blockentity/furnace.go:77-164 | over any run of ticks input plus output is constant and the output never passes its stack size |
| Furnaces.Furnace.ConsumeFuel | internal/mc/blockentity/furnace.go:134-147 | one fuel item is burnt when there is one that burns |
| Furnaces.Furnace.SmeltOne | internal/mc/blockentity/furnace.go:149-164 | one item leaves the input and one of the result joins the output |
| Furnaces.Furnace.Tick | internal/mc/blockentity/furnace.go:77-111 | the fields and slots after a tick, and the block state pushed exactly when the furnace lights or goes out |
| Furnaces.Furnace.TickMany | internal/mc/blockentity/furnace.go:77-111 | over any number of ticks the block shows the lit state exactly while the furnace burns |

## Left out

- Sockets, goroutines, channels, buffer pools and their reference counts, configuration, logging, chat, login and player movement: not part of this model.
- Zlib is any pair of functions where decompressing undoes compressing; the block cipher is any function on sixteen bytes; the generated registries are block states of 16 bits, and the recipes, burn times and stack sizes given to the furnace and the inventory.
- LpVec3s.AccurateIffScaleFits: over real numbers, so without IEEE rounding, NaN and infinities, and for scales below 2^63, beyond which converting to 64 bits depends on the platform.
- LpVec3s.ScaleSurvives: scales from 2^63 are not covered, for the same reason.
- Cfb8.Stream.XORKeyStream: source and destination are the same slice or do not overlap; partial overlap is not modelled.
- Dimensions.Dimension.SetBlock: block states are 0..65535, the registry's range and what a section's sixteen-bit form can hold; Sections.Section.Set covers every 32-bit state. Notifying watchers is left out.
- Chunks.Chunk.SetBlock: block states are 0..65535, as for a dimension.
- Chunks.Chunk.Fill: block states are 0..65535, as for a dimension.
- BlockActions.PlaceBlock: block states are 0..65535, as for a dimension.
- BlockActions.BreakBlock: block states are 0..65535, as for a dimension.
- StorageRuns.Accesses: block states are 0..65535, as for a dimension.
- StorageRuns.ApplyEdits: block states are 0..65535; for other states Sections.Section.Set and Sections.Section.FillRange say edit by edit what is kept.
- ChunkWire.NewChunkData: heightmaps, light and block entities on the wire are left out, so the announced size covers the block data only.
- CommandParsing.Parse: argument parsers are functions from input and position to a value and an end that never moves backwards; execution, suggestions and signed arguments are left out.
- CommandBuilder.Dispatcher.Attach: after a refusal, where the source panics, nothing is said about the tree but its shape. Building under a name that is already an alias attaches to the alias node, as in the source, where parsing then follows the redirect. Nodes registered without a builder, and splitting a syntax string into tokens, are left out.
- NbtEditing.Set: the tree must not share objects with itself or with the value written, as for the freshly unmarshalled trees of internal/mc/nbtpath/README.md:146-147; writing one value to several locations makes it shared, after which the precondition of another change no longer holds. Capacity of slices, by which two appends to one list could meet, is not modelled.
- NbtOperations.EditLists: appending, prepending, inserting and removing from lists are separate loops in the source and share one loop here; trees are unshared and member names not empty, as for NbtEditing.Set and NbtResolving.Resolve.
- NbtOperations.Append: unshared trees and non-empty member names, as for NbtEditing.Set and NbtResolving.Resolve.
- NbtOperations.Prepend: unshared trees and non-empty member names, likewise.
- NbtOperations.Insert: unshared trees and non-empty member names, likewise.
- NbtOperations.Remove: unshared trees and non-empty member names, likewise.
- NbtMerging.MergeCompound: the destination shares no compound with itself or the source, as for freshly unmarshalled trees.
- NbtMergeAt.MergeAt: the same, and non-empty member names.
- NbtMergeAt.MergeRoot: the same as for MergeCompound.
- NbtResolving.Resolve: member names in paths are not empty; the empty name is covered by AnchorReads. A member holding nil, NaN, and the difference between nil and empty containers are left out.
- Snbt.WriteSNBT: floats are printed by any function giving non-empty unquoted text, and strings are bytes of valid UTF-8. The key order is that of the library's sort, taken as choosing the least key repeatedly.
- SnbtReading.ReadsBack: the text of a float is read back by any function that inverts how it is written; that the library's text determines the float is taken, not proved.
- SnbtReading.FormatAndRead: the same.
- SnbtScanning.ReadSNBT: checking that the text is well-formed SNBT is done by a library and left out.
- Containers.Instance.AddItemRange: item ids outside the registry, for which the source would panic, are left out.
- Furnaces.Furnace.Tick: setting the block state cannot fail here; the total burn time kept for display is not part of the proved state.
- Bit sets, player inventories, the entity index, region files and the other packet fields would only add easy members.
