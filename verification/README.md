# Verified model of five Dynamips components

Dynamips emulates Cisco routers. This project models five of its components in Dafny and proves what they are
for. `dafny verify dfyconfig.toml` checks all of it.

**The ATM path.** Ethernet frames are prefixed with the bridged header (section 4.2 of RFC 1483), cut into
48-byte cells with padding and a trailer (AAL5, section 3 of RFC 1483), relabelled by virtual switches and put
together again. `Crc`, `CrcPoly` and `Hec` relate the table-driven checksums to bit-serial registers and these to
polynomial division; `Atm` and `AtmVsar` segment and reassemble; `AtmBridge` is the per-circuit protocol over whole runs;
`AtmSwitch` is the pair of hash tables and their commands; `AtmNetwork` has the properties of whole
configurations under traffic, and `AtmChain` those of chains of switches with cells in flight.

**The Am79c971 Ethernet controller.** `PhysMem` is guest memory with a log of writes; `DescRing` the descriptor
rings; `RxRing`, `RxScatter` and `RxOverrun` reception; `TxRing` transmission; `ChipRegs` the control registers
as a state machine, and `ChipRuns` whole runs of the device on it; `Am79c971` the device, whose methods are
proved against all of these.

**The flash SIMM.** `FlashChip` is one chip as a command state machine; `BootFlash` the set of chips interleaved
over one array, proved to behave as independent chips.

**Slots and network bindings.** `CiscoCard` is the heap of cards, sub-cards and doubly linked binding lists,
with the references held on network interfaces.

**Two codecs.** `CiscoEeprom` (type-length-value fields of format version 4) and `Base64` (section 6.8 of
RFC 2045).

## Main results

- A bridge's peer emits exactly the frames sent, in order, whatever other cells share the link, if and only if
  the circuit label fits the header and every frame has 1 to 16350 bytes (`BridgeTransparent`, `RunAll`); from
  any state one end-of-packet cell resynchronises the link (`Resynchronises`).
- Any finite chain of switches with matching connections is transparent, however its switches interleave and
  whatever other traffic they carry (`NetConserves`, `ChainTransparent`); a switch that has served any run of
  commands and cells saves a configuration that, replayed on an empty switch, forwards every cell alike
  (`ServingSwitchReplays`).
- A connection carries the cells of its input and label to the output and label it was created with, through any
  run of commands and cells, until it is deleted, and counts them (`CreatedVpcCarries`, `CreatedVccCarries`,
  `VpSurvives`); no other cell gets through (`NeverCreatedDrops`).
- The HEC is the remainder of polynomial division and catches every two-bit and every odd change
  (`HecIsRemainder`, `HecDetects`); the CRC tables refine bit-serial registers and chain (`TableByte32`,
  `Crc32Chained`), and the CRC-32 register is the remainder by its generator (`CrcIsRemainder`).
- Reception scatters (`ScatterComplete`) and always ends (`ReceptionEnds`, with a sharper bound for buffers off
  the ring, `ReceptionTerminates`, and a memory where that bound fails, `BuffersOverRing`). It hands the first
  descriptor over last if and only if the packet does not overrun a ring that the chip owns entirely
  (`HandoverExactly`); when it does, the descriptor is given back too early (`HandoverLost`).
- Transmission gathers, hands over last and keeps its queue (`TransmissionHandover`, `HandleTxRing`); with
  reception it composes to the identity, on the wire too (`Loopback`, `WireLoopback`).
- Control registers and interrupt line agree in every reachable state (`AlwaysConsistent`); over any run of the
  device ring positions stay in range exactly when resizes leave room (`DeviceInRange`), and a concrete run
  shows that they need not (`ResizeWhileStarted`).
- A flash set over a shared array is a set of independent chips (`DevWrite`, `ChipsAreIndependent`); buffered
  programming works in any order (`BufferedProgram`); the reset command works exactly from the states that
  `ResetExactly` names.
- Over any run of card and binding operations the lists are well formed, ports are distinct and references
  equal bindings (`Router.Valid`, kept by every method, and by `Serve` over any sequence of commands).
- Both codecs round-trip, base64 in both directions (`RoundTripBytes`, `RoundTripText`, `PayloadWrite`,
  `EntriesFound`).

## Where the code and its comments differ

- `common/dev_am79c971.c:383` speaks of saving the interrupt enable bit; the code only ever sets it, so it stays
  set until the chip is stopped. The model follows the code.
- `common/atm_vsar.c:67` speaks of an empty FIFO; the code sends one with no room left. The model follows the
  code.
- `common/cisco_card.c:445` drops the bindings of a whole slot when one sub-card is removed. The model does too.

## Model

| member | source | states |
|---|---|---|
| Bytes.GetPutBe32 | common/atm_vsar.c:43-43 | a 32-bit word stored big-endian is read back unchanged, whatever follows it |
| Bytes.BigEndian32 | common/atm_vsar.c:43-43 | a stored word is its four bytes as digits of base 256, the first one highest |
| Bytes.ShortLength | common/atm_vsar.c:107-108 | the length word of a packet below 65536 bytes is two zero bytes and its 16-bit length, high byte first, that the receiver reads back |
| Crc.CrcTables.constructor | common/crc.c:83-88 | all three tables hold, for every byte, eight bit-serial steps of their polynomial |
| Crc.CrcTables.InitReflected16 | common/crc.c:19-62 | the CRC-12 and CRC-16 loops leave eight bit-serial steps of each index in the table |
| Crc.CrcTables.Init32 | common/crc.c:65-80 | the same for the CRC-32 table |
| Crc.TableByte32 | common/crc.h:51-53 | for every register and byte, one table step equals feeding the eight bits of the byte to the bit-serial register |
| Crc.TableByte16 | common/crc.h:22-25 | the same for any reflected 16-bit polynomial, so for CRC-12 and CRC-16 |
| Crc.StepsLinear32 | common/crc.c:72-77 | any number of register steps is linear over exclusive or, which is why a table can replace them |
| Crc.FoldedBits32 | common/crc.h:52-52 | adding a byte to the register first and stepping n times equals feeding its n low bits one by one |
| Crc.LowBitsAt | common/crc.h:51-53 | the bits of a byte are fed lowest first |
| Crc.CrcTables.Compute32 | common/crc.h:45-56 | the table loop returns the complement of the bit-serial register after all bytes |
| Crc.CrcTables.HashU32Crc12 | common/crc.h:17-28 | the hash of a word is the bit-serial CRC-12 of its four bytes, lowest first |
| Crc.CrcTables.HashU32Crc16 | common/crc.h:31-42 | the same with the CRC-16 polynomial |
| Crc.CrcTables.HashLoop | common/crc.h:22-27 | the shared loop, against the bit-serial register, for any reflected 16-bit polynomial |
| Crc.Serial32Concat | common/crc.h:51-53 | the register after two blocks is the register after the second, started from that after the first |
| Crc.Crc32Chained | common/atm_vsar.c:71-73 | restarting from the complement of a result and going on equals one call on the concatenation |
| CrcPoly.HashGenerators | common/crc.c:10-11 | the hash polynomials are x^12+x^11+x^3+x^2+x+1 and x^16+x^15+x^2+1, reflected |
| CrcPoly.PatternCoefficient | common/crc.c:12-12 | the CRC-32 polynomial has exactly the powers 32, 26, 23, 22, 16, 12, 11, 10, 8, 7, 5, 4, 2, 1 and 0 of x, reflected (section 3.2.9 of IEEE 802.3) |
| CrcPoly.CrcIsRemainder | common/crc.h:45-56 | for any start value and data, a register value is that of the bit-serial register exactly when the start value times x^n, plus the message times x^32, leaves it as remainder by that generator |
| Hec.HecTable.constructor | common/atm.c:80-83 | the syndrome table holds eight division steps of every byte |
| Hec.HecTable.TableEntry | common/atm.c:40-55 | the wide-integer loop, truncated to a byte, is eight steps of the 8-bit division register |
| Hec.HecTable.ComputeHec | common/atm.c:58-71 | the table loop computes the header byte that the division register defines |
| Hec.HecTable.InsertHec | common/atm.c:74-77 | the fifth byte of a cell becomes the HEC of the first four and nothing else changes |
| Hec.HecIsRemainder | common/atm.c:58-71 | a byte is the table result before the coset leader exactly when the header times x^8 is a multiple of x^8+x^2+x+1 plus that byte (section 4.3.2 of ITU-T I.432.1) |
| Hec.IdleCell | common/atm.c:58-71 | the header of an idle cell, 00 00 00 01, has the HEC 52 (section 4.4 of ITU-T I.432.1) |
| Hec.RemainderUnique | common/atm.c:34-34 | division by the generator has one remainder of degree below eight |
| Hec.FlipSyndrome | common/atm.c:67-70 | changing one header bit adds a fixed power of x to the syndrome |
| Hec.PowersDistinct | common/atm.c:67-70 | the powers that belong to the 40 header bits are all different |
| Hec.FlipAllParity | common/atm.c:67-70 | the parity of the syndrome counts the changed bits |
| Hec.HecDetects | common/atm.c:58-77 | from a valid header, changing two different bits or any odd number of bits of the five bytes always gives an invalid one |
| Atm.MakeCellFields | common/atm_vsar.c:41-46 | a built cell carries its header word, its payload and a valid HEC |
| Atm.HeaderLayout | common/atm.h:25-35 | a header word is its VPI, its VCI and four bits as digits of base 2^20, 2^4 and 1, with end-of-packet in bit 1 and the network bit in bit 3 |
| Atm.LabelFields | common/atm_vsar.c:134-135 | VPI and VCI read back from a label exactly when they fit 12 and 16 bits; the end-of-packet bit does not disturb them |
| Atm.LabelBits | common/atm_vsar.c:134-156 | a fresh label has neither end-of-packet nor network bit, and the last one has end-of-packet only |
| AtmVsar.SegContext.SendCell | common/atm_vsar.c:41-46 | appends the cell made of the current header, a valid HEC and the FIFO payload |
| AtmVsar.SegContext.ClearTxFifo | common/atm_vsar.c:49-54 | all 48 payload bytes are free and zero |
| AtmVsar.SegContext.AddTxPadding | common/atm_vsar.c:57-65 | loads as many zero bytes as asked for, cut to the room left |
| AtmVsar.SegContext.SendFifo | common/atm_vsar.c:68-77 | a full FIFO goes out as the next cell and enters the CRC; one with room is left alone |
| AtmVsar.SegContext.LoadFifo | common/atm_vsar.c:84-90 | bytes that fit are appended to what the current cell holds; nothing already sent changes |
| AtmVsar.SegContext.StoreFifo | common/atm_vsar.c:80-98 | moves the part of the buffer that fits, in order, and says whether that completed a cell |
| AtmVsar.SegContext.AddTrailer | common/atm_vsar.c:101-119 | the last payload ends with the length word and the CRC-32 of everything before it, over all cells of the packet |
| AtmVsar.SegContext.StoreBuffer | common/atm_vsar.c:142-143 | the whole buffer passes through the FIFO, whatever the FIFO held |
| AtmVsar.SegContext.Complete | common/atm_vsar.c:146-160 | what has been sent is the canonical segmentation, whether or not the trailer needs a cell of its own |
| AtmVsar.Aal5Send | common/atm_vsar.c:122-162 | sends the segmentation of the concatenated buffers: how the data was split does not matter |
| AtmVsar.Aal5SendRfc1483b | common/atm_vsar.c:205-216 | sends the segmentation of the bridged prefix followed by the packet |
| AtmVsar.CanonicalSegmentation | common/atm_vsar.c:122-162 | payloads concatenate to data, zero padding, length word and CRC; the number of cells is the least that holds data and trailer; only the last cell has end-of-packet; every HEC is valid |
| AtmVsar.SegmentPayloads | common/atm_vsar.c:80-98 | the first k payloads are the first 48k bytes of the PDU |
| AtmVsar.PadLenUnique | common/atm_vsar.c:150-158 | the padding is the only one below 48 bytes that makes data, padding and trailer whole cells |
| AtmVsar.ReasContext.Reset | common/atm_vsar.c:165-169 | the context is empty |
| AtmVsar.ReasContext.Receive | common/atm_vsar.c:172-202 | status, contents and length for each case: full buffer, network cell, middle cell, last cell with a length that fits or not |
| AtmBridge.Bridge.ReceiveCell | common/atm_bridge.c:41-83 | context, emitted frame and result are those of one step of the receive function; a cell of the wrong size or circuit changes nothing |
| AtmBridge.Bridge.ReceivePkt | common/atm_bridge.c:86-95 | appends the cells of the frame |
| AtmBridge.Encapsulated | common/atm_vsar.c:205-216 | every frame is sent behind AA AA 03, 00 80 C2, 00 07 and two zero bytes |
| AtmBridge.EopCell | common/atm_bridge.c:59-78 | after a last cell of the circuit the context is always empty, and what is emitted depends on the bytes collected and the trailer only |
| AtmBridge.RunAll | common/atm_bridge.c:41-95 | any number of frames, their cells interleaved in any way with cells of other circuits or with the network bit: the peer emits exactly the deliverable frames, in order, and ends empty |
| AtmBridge.RunFrom | common/atm_bridge.c:41-83 | the same from the middle of a frame |
| AtmBridge.PeerOutput | common/atm_bridge.c:41-95 | with a circuit label that does not fit the header, the peer emits nothing |
| AtmBridge.BridgeTransparent | common/atm_bridge.c:41-95 | the peer emits exactly the frames sent if and only if the label fits and every frame has 1 to 16350 bytes |
| AtmBridge.Resynchronises | common/atm_bridge.c:59-78 | from any context and after any cells, one last cell of the circuit empties it, and all later frames arrive as on a fresh link |
| AtmBridge.Provenance | common/atm_vsar.c:165-202 | the context is always the payloads of the circuit's cells since some point, a multiple of 48 and at most 16368 bytes |
| AtmBridge.FrameProvenance | common/atm_bridge.c:62-70 | an emitted frame is cut from payloads received since the last reset, behind the bridged prefix |
| AtmBridge.RunConcat | common/atm_bridge.c:41-83 | receiving two stretches of cells is receiving their concatenation |
| AtmSwitch.ConnTable.constructor | common/atm.c:228-257 | an empty table stands for the empty map |
| AtmSwitch.ConnTable.Lookup | common/atm.c:98-122 | a walk of one bucket finds the entry exactly when the map has the key, and it is the map's entry |
| AtmSwitch.ConnTable.Insert | common/atm.c:320-322 | linking at the head of the bucket adds the key to the map; keys stay unique and in their bucket |
| AtmSwitch.ConnTable.Remove | common/atm.c:351-370 | removes the key exactly when every field matches |
| AtmSwitch.ConnTable.Count | common/atm.c:138-139 | the counter of one entry goes up and the table still stands for the map |
| AtmSwitch.ConnTable.Save | common/atm.c:509-523 | one creation command for each entry, bucket by bucket |
| AtmSwitch.Switch.Rewrite | common/atm.c:130-136 | the cell gets a new header word and a valid HEC; the payload stays |
| AtmSwitch.Switch.VpSwitch | common/atm.c:125-140 | only the VPI and the HEC of the cell change, and the connection's counter |
| AtmSwitch.Switch.VcSwitch | common/atm.c:143-160 | only VPI, VCI and HEC of the cell change, and the connection's counter |
| AtmSwitch.Switch.Relabel | common/atm.c:172-188 | the route is that of the VP map if it has the VPI, else that of the VC map |
| AtmSwitch.Switch.HandleCell | common/atm.c:163-198 | VP map first, else VC map, else the cell is dropped and counted; a relabelled cell goes to the output of the route or is counted if the link refuses it; whose output that is: see AtmNetwork.CreatedVpcCarries |
| AtmSwitch.Switch.CreateVpc | common/atm.c:292-331 | accepted exactly when both NIOs exist, the VPI is free on the input and a listener can be added; then the VP map has that connection too, uncounted, and nothing else changes |
| AtmSwitch.Switch.DeleteVpc | common/atm.c:334-371 | accepted exactly when both NIOs exist and a connection equal in every field does; then it is gone |
| AtmSwitch.Switch.CreateVcc | common/atm.c:374-424 | the same for a VC, also refused when a VPC on the input has the VPI |
| AtmSwitch.Switch.DeleteVcc | common/atm.c:427-461 | accepted exactly when an identical connection exists |
| AtmSwitch.Switch.SaveConfig | common/atm.c:499-528 | VP commands, then VC commands, in bucket order |
| AtmNetwork.RunsStayGood | common/atm.c:292-461 | over any run of commands both maps keep keys that fit their kind and outputs that are registered |
| AtmNetwork.CreateThenDeleteVpc | common/atm.c:292-371 | creating and deleting a VPC restores the whole state, hidden VCs included, exactly when the same connection was not there before |
| AtmNetwork.ForwardStable | common/atm.c:138-139 | switching cells never changes how any cell is forwarded |
| AtmNetwork.VpSurvives | common/atm.c:125-371 | a VPC stays, and counts exactly the cells of its VPI on its input, through any run of commands and cells in which it is not deleted |
| AtmNetwork.VcSurvives | common/atm.c:143-461 | the same for a VCC as long as no VPC is created over it |
| AtmNetwork.CreatedVpcCarries | common/atm.c:163-331 | after an accepted creation, in every later state of a run without its deletion, each cell of that input and VPI goes to the output named in the command, with the VPI given there (12 bits), its own VCI, low bits and payload, and a valid HEC |
| AtmNetwork.CreatedVccCarries | common/atm.c:163-424 | the same for a VCC that no VPC hides; the cell leaves with the new VPI and VCI exactly when they fit |
| AtmNetwork.NeverCreatedDrops | common/atm.c:172-190 | a cell is dropped unchanged when neither a VPC nor a VCC for it was ever created |
| AtmNetwork.DeletedDrops | common/atm.c:292-461 | creating a connection and deleting it drops the cells that were dropped before |
| AtmNetwork.TableLists | common/atm.c:509-523 | the saved entries are those of the map, each once |
| AtmNetwork.ReplayVps | common/atm.c:509-515 | replaying the VP commands in any order without repetition rebuilds the VP map up to counters |
| AtmNetwork.ReplayVcs | common/atm.c:517-523 | replaying the VC commands rebuilds exactly the VCs that no VPC hides |
| AtmNetwork.ReplayForwardsAlike | common/atm.c:499-528 | a replayed configuration forwards every cell alike, and lacks exactly the VCs that a VPC hides |
| AtmNetwork.SavedSwitchReplays | common/atm.c:499-528 | the same for the commands that a switch with good maps writes |
| AtmNetwork.SwitchStaysGood | common/atm.c:163-461 | over any run of commands and cells, in any order, both maps stay good |
| AtmNetwork.CellsDoNotMatter | common/atm.c:163-461 | in such a run every command is answered, and every cell forwarded, as if the commands alone had been given |
| AtmNetwork.ServingSwitchReplays | common/atm.c:163-528 | what a switch writes after any such run, replayed on an empty one, forwards every cell as the run's commands alone do |
| AtmNetwork.VpHdrKeeps | common/atm.c:130-133 | VP relabelling keeps VCI, PTI and the low bit, and commutes with setting end-of-packet |
| AtmNetwork.VcHdrKeeps | common/atm.c:148-153 | VC relabelling keeps PTI and the low bit, and commutes with setting end-of-packet |
| AtmNetwork.VcHdrLabel | common/atm.c:150-152 | the new VPI and VCI read back exactly when they fit |
| AtmChain.HopKeeps | common/atm.c:163-198 | one hop keeps the low four header bits and routes the last cell of a packet as the others |
| AtmChain.ChainKeeps | common/atm.c:163-198 | so does any finite chain of switches |
| AtmChain.ChainCellFields | common/atm.c:125-198 | rewriting a cell at every hop gives the payload it had, the header of the whole chain and a valid HEC |
| AtmChain.ChainSegment | common/atm.c:163-198 | each cell of a packet leaves the chain, hop by hop, as the same cell of the packet segmented under the final label |
| AtmChain.HappensPending | common/atm.c:163-198 | one switch handling one cell, of the chain or of other traffic, changes nothing about what has come out and will come out of the chain |
| AtmChain.NetConserves | common/atm.c:163-198 | so over any run: cells that have left and cells on the way are what entered, each once and in order, while counters advance |
| AtmChain.NetDelivers | common/atm.c:163-198 | what has left an initially idle chain is always a prefix of what passes it, and all of it once drained |
| AtmChain.ChainTransparent | common/atm.c:163-198 | a bridge at the far end has at any time emitted the first of the deliverable frames that entered the chain, in order, and all of them once the chain is drained, whatever the order in which switches work and whatever other traffic they carry |
| DescRing.AheadIsMod | common/dev_am79c971.c:609-621 | stepping to the next descriptor j times is adding j modulo the ring length |
| DescRing.LengthIsNegated | common/dev_am79c971.c:630-632 | the buffer length is the negated 12-bit field |
| DescRing.BufLenReadsBack | common/dev_am79c971.c:630-632 | 4096 less a length, in the low twelve bits, is read as that length |
| DescRing.LaidOut | common/dev_am79c971.c:577-605 | a descriptor that a guest lays out as address, flags, count (in software style 3 as count, flags, address) is read field by field as it was meant |
| DescRing.FlagBits | common/dev_am79c971.c:91-112 | OWN, STP and ENP are bits 31, 25 and 24 of the second word |
| DescRing.FlagWrites | common/dev_am79c971.c:685-735 | giving a descriptor back and marking the start, the end or an error (bits 30, 27 and 24) changes those bits and no other |
| DescRing.OwnedByte | common/dev_am79c971.c:667-667 | who owns a descriptor is the top bit of one byte of memory, at the end of memory too |
| RxRing.CountReadsBack | common/dev_am79c971.c:696-697 | the byte count stored in the third word reads back, and the other bits of the word stay |
| RxRing.RxProgress | common/dev_am79c971.c:669-731 | each turn of the receive loop that goes on copies data or clears an OWN bit, whatever the descriptors hold |
| RxRing.RxLoopInRing | common/dev_am79c971.c:608-614 | the receive loop leaves the ring position inside the ring, whatever the descriptors hold |
| RxRing.RxVisits | common/dev_am79c971.c:669-731 | with buffers off the ring, turns are bounded by the OWN bits set in memory |
| RxRing.ReceptionTerminates | common/dev_am79c971.c:669-731 | with buffers off the ring, at most ring length plus two descriptors are visited, zero-length buffers and fully owned rings included |
| RxRing.RxVisitsAnywhere | common/dev_am79c971.c:669-731 | with buffers anywhere, every byte of the packet may set one OWN bit again, and that is all |
| RxRing.ReceptionEnds | common/dev_am79c971.c:669-731 | so a reception ends for every memory, with a bound in ring length and packet length |
| RxRing.BuffersOverRing | common/dev_am79c971.c:669-731 | a ring of two whose buffers lie over each other's second words, and packets that make the chip visit one descriptor for every word: no bound in the ring length alone holds |
| RxScatter.ScatterComplete | common/dev_am79c971.c:648-741 | a packet that fits k owned descriptors: their buffers concatenate to it, each word ends without OWN, with STP on the first and ENP on the last, the byte count is its length (cut at 2048) plus four, the position advances k modulo the ring, nothing else changes |
| RxScatter.ScatterShort | common/dev_am79c971.c:715-721 | without enough owned descriptors the buffers hold the packet's start and the last one has the error bits |
| RxScatter.Handover | common/dev_am79c971.c:685-735 | for a packet that fits or is short of descriptors: before the very last write the chip still owns the first descriptor in memory; after it, none of them |
| RxScatter.ReceptionHandover | common/dev_am79c971.c:648-741 | the same on the writes of a reception started at the ring position |
| RxOverrun.HandoverLost | common/dev_am79c971.c:669-735 | a packet larger than all buffers of a ring the chip owns entirely: the loop comes round and gives the first descriptor back before its last write |
| RxOverrun.HandoverExactly | common/dev_am79c971.c:648-741 | for a packet of any size, the first descriptor is handed over last if and only if the packet fits or the chip does not own the whole ring |
| TxRing.TransmissionMemory | common/dev_am79c971.c:855-914 | each descriptor of a chain ends as it was but for OWN, and nothing outside their second words changes |
| TxRing.TransmissionHandover | common/dev_am79c971.c:871-914 | with STP on the first only, the first keeps OWN until the last write and all are given back |
| TxRing.ChainGoesOn | common/dev_am79c971.c:882-893 | what the chip reads after a descriptor without ENP is still what the guest wrote, its own earlier writes notwithstanding |
| TxRing.Loopback | common/dev_am79c971.c:825-919 | a frame gathered from one ring and scattered into another is the same bytes |
| TxRing.QueueStep | common/dev_am79c971.c:922-935 | sending the first of several queued chains leaves a queue of the others, untouched, the unfinished one at the end included |
| ChipRegs.RingLenIsPow2 | common/dev_am79c971.c:278-286 | ring lengths are powers of two, cut at 512 |
| ChipRegs.AcknowledgeBits | common/dev_am79c971.c:371-384 | a write of one clears a cause, for the ring causes only every third time; the enable bit is set by a write and never cleared by one |
| ChipRegs.AcknowledgeErrors | common/dev_am79c971.c:371-381 | the error causes are cleared by ones on every write |
| ChipRegs.FlagPlaces | common/dev_am79c971.c:48-85 | the flags of CSR0 and CSR15 by bit number |
| ChipRegs.WriteFlags | common/dev_am79c971.c:361-412 | what a CSR0 write without STOP leaves in STOP, STRT, INIT, IENA and the causes: each of them by the bits written, the block address and what was there |
| ChipRegs.StopClears | common/dev_am79c971.c:371-376 | STOP leaves that bit alone in CSR0, both positions at zero and the line down |
| ChipRegs.PacketCause | common/dev_am79c971.c:738-739 | a reception sets RINT, a transmission TINT, and of the rest of CSR0 only the interrupt flag is recomputed |
| ChipRegs.PacketInterrupts | common/dev_am79c971.c:238-257 | with interrupts enabled the line goes up for it unless CSR3 masks that very cause |
| ChipRegs.SizeFields | common/dev_am79c971.c:414-419 | CSR6 has the receive size in bits 8 to 11 and the transmit size in bits 12 to 15 |
| ChipRegs.StepConsistent | common/dev_am79c971.c:238-465 | every register write, reception and transmission keeps: receiver on iff started and not disabled, transmitter likewise, never stopped and started, line up iff flag and enable; after those that recompute it the line is up iff an unmasked cause is enabled |
| ChipRegs.AlwaysConsistent | common/dev_am79c971.c:238-465 | so in every state of every run from power-on |
| ChipRegs.StepInRange | common/dev_am79c971.c:348-424 | a step keeps ring positions below ring lengths exactly when the sizes it sets leave room for them |
| ChipRegs.AlwaysInRange | common/dev_am79c971.c:348-424 | over a run of possible events, positions stay in range at every step if and only if every resize leaves room |
| ChipRegs.ResizedOffInRange | common/dev_am79c971.c:348-424 | changing sizes only while not started is enough |
| ChipRegs.ResizeWhileStarted | common/dev_am79c971.c:414-419 | a concrete run that shrinks a started ring puts the position outside it |
| ChipRuns.TurnKeeps | common/dev_am79c971.c:348-935 | every register write, reception and transmit pass, on any guest memory, does possible events only and keeps control bits and line in agreement; it keeps positions in range exactly if it is not a resize without room |
| ChipRuns.DeviceInRange | common/dev_am79c971.c:348-935 | over any run of these calls, with the positions that the receive and transmit loops compute and memory changing in between, positions are in range after every call if and only if every resize leaves room |
| ChipRuns.DeviceRunsPossible | common/dev_am79c971.c:348-935 | the events of such a run are possible, so every statement about possible runs holds of the device |
| ChipRuns.DeviceSizedOff | common/dev_am79c971.c:348-935 | a guest that resizes only while the chip is not started never sees a position leave its ring |
| Am79c971.SizesReadBack | common/dev_am79c971.c:415-421 | sizes written to CSR6 are what a read of it packs |
| Am79c971.MacReadsBack | common/dev_am79c971.c:324-337 | the station address in the initialization block is taken byte for byte, least significant first |
| Am79c971.BlockReadsBack | common/dev_am79c971.c:289-345 | an initialization block laid out in memory from mode, sizes, station address and ring starts is read field by field as it was meant |
| Am79c971.Chip.BlockAddress | common/dev_am79c971.c:297-298 | the block's address has its low half in CSR1 and its high half in CSR2 |
| Am79c971.Chip.DescriptorReads | common/dev_am79c971.c:577-605 | the chip reads a descriptor as the guest laid it out for the software style in BCR20 |
| Am79c971.WireCarries | common/dev_am79c971.c:900-908 | what a complete chain puts on the wire is one packet, the rewritten bytes of its buffers, all of them; an empty chain puts nothing there |
| Am79c971.WireAllCarries | common/dev_am79c971.c:922-935 | n chains, none of them empty, put n packets on the wire, the i-th with the bytes of the i-th chain's buffers |
| Am79c971.WireLoopback | common/dev_am79c971.c:648-919 | what one chip puts on the wire, received by another, collects there to the sender's buffers |
| Am79c971.Chip.constructor | common/dev_am79c971.c:1019-1070 | power-on state: all registers zero, consistent and in range |
| Am79c971.Chip.UpdateIrqStatus | common/dev_am79c971.c:238-257 | flag and line are recomputed from causes, masks and enable; no other register changes |
| Am79c971.Chip.UpdateRxTxOnBits | common/dev_am79c971.c:260-275 | receiver and transmitter flags are recomputed; no other register changes |
| Am79c971.Chip.UpdateRxTxLen | common/dev_am79c971.c:278-286 | lengths follow the size fields |
| Am79c971.Chip.FetchInitBlock | common/dev_am79c971.c:289-345 | mode, rings, sizes and station address come from the block in memory; address zero is refused and changes nothing |
| Am79c971.Chip.WriteCsr0 | common/dev_am79c971.c:361-412 | stop has precedence; else acknowledge, initialize, start and recompute the interrupt, in that order; the station address is taken with the block |
| Am79c971.Chip.RdpWrite | common/dev_am79c971.c:348-455 | a write to the selected register is its event on the control state; other than CSR0 it reads back (the sizes of CSR6 only, CSR88 not at all), and no other register reads differently unless the chip is initialized |
| Am79c971.Chip.RdpRead | common/dev_am79c971.c:361-455 | a read gives what writes left: see RdpWrite; the identifier has manufacturer 003 and part 2623 or 2621 by the interface type, and is zero for others |
| Am79c971.Chip.RapWrite | common/dev_am79c971.c:548-554 | selects one of 256 registers; no register reads differently |
| Am79c971.Chip.BdpWrite | common/dev_am79c971.c:468-516 | the selected bus configuration register takes the value, registers 9 and 34 ignore it, no other changes |
| Am79c971.Chip.RxVisit | common/dev_am79c971.c:669-731 | one turn of the loop does the writes that one unfolding of the reception does |
| Am79c971.Chip.FillRing | common/dev_am79c971.c:669-731 | the loop terminates and its memory, writes and position are those of the reception |
| Am79c971.Chip.ReceivePkt | common/dev_am79c971.c:648-741 | nothing happens unless the chip owns the current descriptor; else memory is that of the reception, RINT is set and the line is up if interrupts are enabled and RINT is not masked; the position stays in the ring |
| Am79c971.Chip.HandleRxRing | common/dev_am79c971.c:744-771 | a frame is received exactly when the receiver is on, a ring is set, the address filter accepts and a descriptor is owned; then RINT is set and the line follows, for every group address and the station's own among others; what it does to the registers is the call's turn in a run |
| Am79c971.Chip.AcceptsExactly | common/dev_am79c971.c:213-235 | the filter accepts exactly in promiscuous mode, for a group address (first byte odd, broadcast among them) and for the station address |
| Am79c971.Chip.GatherChain | common/dev_am79c971.c:855-897 | the loop ends at ENP or at a descriptor not owned; the packet is the concatenated buffers and never exceeds 2048 bytes |
| Am79c971.Chip.HandleTxRingSingle | common/dev_am79c971.c:825-919 | a complete chain leaves as one packet, the rewritten bytes found in its buffers; it is given back, TINT is set and the line is up if that is enabled and not masked; one cut short is not sent, raises nothing and leaves the position at the missing descriptor; otherwise nothing changes |
| Am79c971.Chip.HandleTxRing | common/dev_am79c971.c:922-935 | queued frames leave in order, the i-th new packet with the bytes of the i-th chain's buffers, at most sixteen a pass and only while the network takes them; an unfinished chain at the end is an underflow, else the rest of the queue stays as the guest made it; what it does to the registers is the call's turn in a run |
| FlashChip.GetPut | common/dev_bootflash.c:190-219 | a cell reads back the low 8 or 16 bits of what was written |
| FlashChip.AccessOk | common/dev_bootflash.c:313-341 | over any access the write buffer's counts stay within 32 and every index into it is below 32 |
| FlashChip.CellsChange | common/dev_bootflash.c:259-408 | cells change only by a program, a confirmed write buffer or a confirmed erase, in exactly that range and to exactly those values |
| FlashChip.FillRun | common/dev_bootflash.c:323-339 | filling the buffer in any order, with reads and stray writes in between, leaves each place with its value and asks for confirmation |
| FlashChip.ProgramCell | common/dev_bootflash.c:226-299 | 0x40 or 0x10 and a value store that value in that cell |
| FlashChip.EraseCells | common/dev_bootflash.c:242-398 | 0x20 and a confirmation make the block all ones; without the confirmation nothing is stored |
| FlashChip.ErasedOnes | common/dev_bootflash.c:391-393 | an erased cell has every bit set, in both widths |
| FlashChip.Identify | common/dev_bootflash.c:236-380 | 0x90 makes reads give the identifier codes, 0x70 one read of the status |
| FlashChip.ReadyWhileBusy | common/dev_bootflash.c:259-408 | outside array and identifier mode a read answers ready, 0x80, but 0 while a program command waits for its value |
| FlashChip.ResetExactly | common/dev_bootflash.c:222-399 | n writes of 0xFF, or of 0x50, to one cell lead to array mode if and only if no erase waits for its confirmation, no write buffer elsewhere waits for data, and n is enough; nothing is stored but what a program command waited for |
| FlashChip.BufferedProgram | common/dev_bootflash.c:313-356 | for n from 1 to 32 and a count word whose low five bits are n - 1: the buffer command, n places each written once in any order, then 0xD0 in the low byte, store exactly those n values and nothing else; without 0xD0 nothing is stored |
| BootFlash.PlacesApart | common/dev_bootflash.c:194-217 | cells of different chips, and different cells of one, never overlap in the array |
| BootFlash.WriteCell | common/dev_bootflash.c:206-219 | overwriting one cell's bytes changes that cell of that chip and no other chip's cells |
| BootFlash.ViewsDetermineHost | common/dev_bootflash.c:190-219 | the chips' cells together are the whole array, no byte twice |
| BootFlash.ChipsAreIndependent | common/dev_bootflash.c:411-453 | over any run each chip is where its own accesses alone take it |
| BootFlash.HostChanges | common/dev_bootflash.c:259-408 | a byte of the array changes only inside the range that the selected chip stores to |
| BootFlash.ArrayRead | common/dev_bootflash.c:430-441 | with all chips in array mode each lane of a read answers the bytes at its address, and nothing changes |
| BootFlash.LanesReadBack | common/dev_bootflash.c:430-451 | a value that fits the access, cut into lanes, stored cell by cell and put together again, is itself |
| BootFlash.ArrayValue | common/dev_bootflash.c:430-441 | lanes that answer the bytes at their addresses put together to the bytes as digits of base 256, the first one highest |
| BootFlash.ArrayBus | common/dev_bootflash.c:430-441 | in array mode a bus read gives the bytes of the array at its address, the first one highest |
| BootFlash.Flash.FlashRead | common/dev_bootflash.c:190-203 | the value of one cell of this chip |
| BootFlash.Flash.FlashWrite | common/dev_bootflash.c:206-219 | one cell of this chip changes, and no other chip's view of the array |
| BootFlash.Flash.FlashCmd | common/dev_bootflash.c:222-256 | the state a command leads to; unknown commands change nothing |
| BootFlash.Flash.StoreBuffer | common/dev_bootflash.c:346-348 | the buffered values go to consecutive cells of this chip only |
| BootFlash.Flash.EraseBlock | common/dev_bootflash.c:391-393 | a block of this chip's cells becomes all ones, and no other chip's |
| BootFlash.Flash.Written | common/dev_bootflash.c:259-408 | a write access takes the chip to the next state of an independent chip |
| BootFlash.Flash.ReadFrom | common/dev_bootflash.c:259-408 | a read answers by state and changes nothing but the status state |
| BootFlash.FlashSet.constructor | common/dev_bootflash.c:148-187 | as many chips as the geometry says, at their positions, in array mode |
| BootFlash.FlashSet.WriteAt | common/dev_bootflash.c:444-450 | one byte address reaches one chip; the others are as they were |
| BootFlash.FlashSet.DevWrite | common/dev_bootflash.c:443-451 | a bus write is its lanes from the highest byte down, each on its chip, as if the chips were separate |
| BootFlash.FlashSet.DevRead | common/dev_bootflash.c:430-442 | a bus read puts the lanes' answers together, the first one highest |
| CiscoEeprom.PackedBytes | common/cisco_eeprom.c:602-618 | a byte put in either half of a word reads back and leaves the other half |
| CiscoEeprom.Eeprom.GetByte | common/cisco_eeprom.c:582-599 | the byte, high half first, or 0xFF and an error out of range |
| CiscoEeprom.Eeprom.SetByte | common/cisco_eeprom.c:602-619 | one byte changes, or nothing out of range |
| CiscoEeprom.Eeprom.GetRegion | common/cisco_eeprom.c:622-633 | succeeds exactly when the region is in range, and then gives its bytes; otherwise what is in range, then 0xFF, and nothing after that |
| CiscoEeprom.Eeprom.SetRegion | common/cisco_eeprom.c:636-647 | what is in range is written even when the end is reached, and that is reported |
| CiscoEeprom.Eeprom.GetField | common/cisco_eeprom.c:650-678 | error, end mark or field, as the bytes at the offset say |
| CiscoEeprom.Eeprom.FindField | common/cisco_eeprom.c:725-746 | the search ends and finds what the list of fields says |
| CiscoEeprom.FindIsFirst | common/cisco_eeprom.c:725-746 | the result is the payload offset of the first field of the type, or none if there is none |
| CiscoEeprom.EntriesFound | common/cisco_eeprom.c:650-678 | types and payloads written by an encoder one after the other, with a type's length as its class says, are exactly the fields read back, payload by payload |
| CiscoEeprom.SearchFinds | common/cisco_eeprom.c:725-746 | a search in them finds the payload of the first entry of the type, and fails exactly when there is none |
| CiscoEeprom.WordOrder | common/cisco_eeprom.c:582-599 | the high half of each word is the byte of the lower offset |
| CiscoEeprom.FieldsOrdered | common/cisco_eeprom.c:731-743 | later fields start after the payload of earlier ones |
| CiscoEeprom.FieldsStable | common/cisco_eeprom.c:650-746 | contents that agree outside one field's payload have the same fields |
| CiscoEeprom.PayloadWrite | common/cisco_eeprom.c:602-746 | writing inside one field's payload leaves every search as it was, reads back exactly and changes no other byte |
| Base64.BytesBack | common/base64.c:37-99 | the four 6-bit values of three bytes give the bytes back |
| Base64.SameNumber | common/base64.c:36-44 | three bytes and their four digits are the same 24-bit number, the highest part first |
| Base64.DigitOrder | common/base64.c:12-13 | the digits are A to Z, a to z, 0 to 9, plus and slash, in this order |
| Base64.DecodeEncoded | common/base64.c:33-111 | decoding an encoding from any point of the output gives the bytes when they fit and an error exactly when they do not |
| Base64.RoundTripBytes | common/base64.c:33-111 | decoding the encoding of any non-empty byte string returns it and its length, with no limit or a limit at least that long, and is an error with a smaller one; whatever ends the text, a carriage return or anything after padding included, and with or without a plus and a space before it |
| Base64.EmptyLine | common/base64.c:71-72 | a text that starts with a carriage return decodes to nothing, without an error |
| Base64.EncodedCanonical | common/base64.c:33-55 | every encoding is canonical: whole groups, padding only at the end, spare bits zero |
| Base64.CanonicalIsEncoded | common/base64.c:64-111 | every canonical text is the encoding of some bytes |
| Base64.RoundTripText | common/base64.c:33-111 | a non-empty text is canonical if and only if it is an encoding, and then encoding its decoding gives it back |
| Base64.DecodeBounded | common/base64.c:73-108 | the decoder writes in order, never more than a positive limit, and returns what it has written |
| Base64.LimitIsRoom | common/base64.c:87-102 | an output of the size of a positive limit is large enough for any text |
| Base64.Encode | common/base64.c:33-55 | the output is the encoding and a NUL, and nothing after that is touched; a negative length is an empty input |
| Base64.ReadGroup | common/base64.c:74-85 | the four characters of a group are read without ever passing the NUL |
| Base64.Decode | common/base64.c:64-111 | result and bytes written are those of the decoding function, and nothing beyond them is touched |
| CiscoCard.FindDriver | common/cisco_card.c:218-228 | the first driver with the type name, or none |
| CiscoCard.Router.PortsDistinct | common/cisco_card.c:243-298 | different ports of a slot have different places; on a network module with WICs each block of sixteen ports is one WIC and ports from 0x90 on are refused |
| CiscoCard.Router.PortPlaces | common/cisco_card.c:243-298 | which card and which of its ports a port number means, block by block of sixteen |
| CiscoCard.Card.FindNioBinding | common/cisco_card.c:80-92 | finds a binding exactly when the list has one for the port |
| CiscoCard.Card.Push | common/cisco_card.c:491-493 | the list stays doubly linked, with the binding at its head |
| CiscoCard.Card.Unlink | common/cisco_card.c:526-535 | the list stays doubly linked, without exactly that binding |
| CiscoCard.RefsAdd | common/cisco_card.c:475-488 | one more binding and one more reference keep the counts equal |
| CiscoCard.RefsRemove | common/cisco_card.c:537-539 | a live binding's NIO is registered and referenced, and dropping both keeps the counts equal |
| CiscoCard.Router.Attach | common/cisco_card.c:481-493 | invariant kept; a new binding heads the card's list and its NIO has one reference more |
| CiscoCard.Router.Detach | common/cisco_card.c:525-540 | invariant kept; one binding and one reference fewer, all other lists untouched |
| CiscoCard.Router.DropAll | common/cisco_card.c:96-113 | invariant kept; a card's bindings are released one by one, never read after being freed, and its list is empty |
| CiscoCard.Router.AddNioBinding | common/cisco_card.c:454-501 | a port from 0x10 to 0x8F of a network module with WICs is that WIC's port, from 0x90 on it is refused, every other is the main card's own; binding succeeds exactly when that card exists, the port is free on it and the NIO is registered; the new binding heads that card's list and the NIO has one reference more; only new bindings are added |
| CiscoCard.Router.RemoveNioBinding | common/cisco_card.c:504-541 | the same places; it succeeds exactly when the port is bound on that card; one binding of the port goes and its NIO loses one reference; bindings of other slots stay |
| CiscoCard.Router.RemoveAllNioBindings | common/cisco_card.c:544-562 | empties the lists of the slot's card and sub-cards, and of no other slot |
| CiscoCard.Router.AddBinding | common/cisco_card.c:349-417 | succeeds exactly when the bay is empty and a driver of the type is allowed there: the router's own for a main card, else those that the main card's driver answers; the new card's place, parent and identity; only new cards and arrays are added |
| CiscoCard.Router.RemoveBinding | common/cisco_card.c:420-451 | refused while active or with sub-cards; else the card is gone and its whole slot has no bindings |
| CiscoCard.Router.Free | common/cisco_card.c:447-450 | only a card without sub-cards and bindings leaves its bay; every other bay is as it was |
| CiscoCard.Router.ParentInSlot | common/cisco_card.c:361-415 | a sub-card's parent is the card in its slot |
| CiscoCard.Router.ReferencedIffBound | common/cisco_card.c:454-541 | cards hold a reference on an NIO if and only if some port is bound to it |
| CiscoCard.Router.DeleteNio | common/net_io.c:157-160 | an NIO is deleted only when unreferenced, and then no port is bound to it |
| CiscoCard.Router.RegisterNio | common/net_io.c:130-133 | a new name starts without references from cards |
| CiscoCard.Router.Execute | stable/hv_vm.c:1023-1121 | each command keeps the invariant and does what its name says to names, references, lists and cards, or is refused and changes none of them; bindings are lost only in the slot of an unbind or a removal |
| CiscoCard.Router.Serve | stable/hypervisor.c:374-418 | any sequence of commands, in any order and refused or not, leaves lists well formed and references on exactly the bound NIOs; names created and not dropped are there, no others; a slot without unbind or removal keeps every binding; the first command to create a name is answered by whether it was there |

## Left out

- Threads, mutexes, the registry, logging, configuration files and NIO back ends: each handler is one atomic step, a network interface is what has been sent to it, and `netio_can_transmit` is a Boolean for each attempt.
- Allocation failures, and everything that only creates, names or destroys devices.
- RX listener bookkeeping in the switch (common/atm.c:316, common/atm.c:409): whether a listener can be added is a parameter; that the error paths remove listeners that may not have been added is not modelled.
- AtmSwitch.ConnTable.Insert: the chained nodes of a bucket are a sequence, so pointer surgery inside one bucket is not modelled; order is.
- `unsigned long` in common/crc.c:67 is 32 bits wide in the model; the values never need more.
- AtmBridge.RunAll: frames whose length with the prefix is below 65536, the limit of the trailer's length field; `common/net_io.h:26` keeps every interface below it.
- Guest memory is plain bytes: device regions, translation and buffers that run past the end of the 32-bit space are not modelled; writes beyond the memory are lost and reads give zero.
- AtmChain.ChainTransparent: links between switches keep order and take every cell, and the switches are not reconfigured while the frames are under way.
- Am79c971.Chip.ReceivePkt: for software styles 2 and 3, a ring inside the 32-bit space and a position inside the ring; when positions stay inside is what `ChipRuns.DeviceInRange` says.
- RxRing.RxVisits: the bound is for buffers that do not overlap the ring; `RxRing.RxVisitsAnywhere` is for all.
- RxRing.ReceptionTerminates: likewise; `RxRing.ReceptionEnds` is for all memories.
- RxScatter.Handover: for a packet that fits or is short of descriptors; a packet that overruns a fully owned ring is what `RxOverrun.HandoverLost` is about.
- RxScatter.ReceptionHandover: likewise; `RxOverrun.HandoverExactly` is for packets of every size.
- RxScatter.ScatterComplete: for descriptors with buffers that overlap neither each other nor the ring, and inside memory. Above 2048 bytes the source stores the whole packet while it cuts the count, and so does the claim.
- Am79c971.Chip.GatherChain: for chains of at most 2048 bytes, the room of the source's packet buffer, that end within one turn of the ring.
- Am79c971.Chip.HandleTxRingSingle: for chains of at most 2048 bytes that end, in ENP or in a descriptor not owned, within one turn of the ring; without either the loop of the source does not end.
- `cisco_isl_rewrite` is not part of this model: it is an arbitrary function on packets.
- BCR reads, MII registers and PCI configuration: each is settled by reading one branch.
- BootFlash.FlashSet.DevWrite: accesses whose stores stay inside the chip and whose size is a multiple of the cell width; the source checks neither.
- BootFlash.FlashSet.DevRead: accesses whose size is a multiple of the cell width, as the source needs for its shift counts.
- Word-mode sets of several chips: every word-mode model of common/dev_bootflash.c:101-129 has one chip.
- Flash bits that can only be cleared, and block alignment: the source enforces neither.
- Base64: the digit tables are given by their ranges; a `char` is signed, as the table of the source needs; input text is a value, so decoding in place is not modelled.
- EEPROM tables, copying, dumping and the NVRAM of other devices.
- Cards with the override flag, whose forced replacement can lose an active card with its bindings.
- CiscoCard.Router.SetActive: stands for a driver starting or stopping a card; what drivers do with a NIO is not part of this model.
- CiscoCard.Router.Execute: commands arrive parsed; tokens, replies and looking up the router by name are not modelled.
- CiscoCard.Router.DeleteNio: references that other components hold are one number.
- POS, BRI and byte-swap devices, FPGA switches, IRQ tables and platform setup.
