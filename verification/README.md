# Verified models of udf's index, layer, image and NTFS code

`udf` reads archives, disk images and file system images. This project models the parts of it that are
algorithms and proves what they promise.

- **Random access into gzip** (`Bits`, `Huffman`, `HuffmanTable`, `Inflate`, `Deflate`, `Restart`,
  `Lookahead`, `ShortStream`, `CodeTables`, `BitReader`, `Output`, `Checkpoints`, `Scanner`, `Index`). `Inflate`
  is RFC 1951 as functions from bits to bytes, `Deflate` the other direction, bit by bit, and the two are proved
  inverse. The hand-written scanner, with its 64-bit register, direct-lookup tables, hot loop and sliding
  buffer, is proved to do exactly that; decoding is proved to be restartable at the boundaries it records; and
  a read at any offset of an index it builds is proved to be the suffix of the stream there.
- **Tar directories in passing** (`TarStreams`, `TarListing`, `Capture`, `Replay`). Headers are picked out of
  the decompressed stream chunk by chunk, and nested tars are captured with holes for file bodies and
  replayed.
- **Image layers** (`Layers`, `LayerNames`, `Tree`, `EntryNames`). Whiteouts, opaque directories and shadowing
  on a mutable tree refine a flat map from paths to entries; what each name does is stated for names as written.
- **Disk images** (`L2Cache`, `QedDisk`, `QcowDisk`, `Gather`, `SuperMapping`, `SparseImage`, `RunReads`). A
  bounded cache of page tables whose lock is released between a miss and the insertion, and reads gathered
  through page tables, extents, chunks and runs, each proved to be a slice of one flat image.
- **NTFS structures** (`Runlist`, `RunMap`, `Allocator`, `IndexEntries`, `IndexBlocks`, `IndexFormat`,
  `UpdateSequence`, with `Outcomes`). Signed variable-width runlists, looked up and merged, the first-fit
  cluster bitmap, directory index entries, also edited in place, and update sequence arrays.

What the source updates in place is a class or an array here, each method stated against functions of the
old state; what the source promises is then proved about those functions. Bytes are numbers below 256,
registers are natural numbers below 2^64 whose shifts and ors are written out.

What the proofs brought out about the code, each stated as a lemma:

- The scanner does not take every raw deflate stream: a dynamic header's code lengths need ten more bits
  each, which a stream of twelve bytes may not have (`ShortStream.Refused`). A byte after it makes
  every stream safe (`ShortStream.FollowedBy`).
- A cut between chunks inside a PAX or GNU extension's body makes a capture replay the body's padding twice,
  miss a size override or see one that is not there (`Captures.CutInBody`, `Captures.SplitOverride`), and what
  follows a zero block is listed or not depending on the cut (`TarListings.ChunksDoNotMatterWhen`).
- Adding an entry to an index block in place moves 16 bytes of its end mark and loses a child's number
  (`IndexBlocks.SameBytesWhen`, `IndexBlocks.ChildLost`).
- Two callers that miss on the same page table leave an element that no call finds (`L2Cache.LostTable`);
  tables returned are right all the same.
- A failed cluster allocation keeps every cluster it took (`Allocator.FailureTakesAll`,
  `Allocator.LosesWhen`).
- A QED data cluster beyond the end of the file leaves the caller's buffer as it was
  (`QedDisks.BufferShows`, `QedDisks.CutShortShows`).
- A hole can swallow the extent that is merged behind it, and clusters are found at the end of a long hole
  (`RunMaps.MergedHolds`, `RunMaps.LookupTells`); and behind a negative length an attribute read at once is not
  the one read in ranges (`RunReads.BackOver`).
- An update sequence array over its own header comes back in some layouts and not in others
  (`UpdateSequences.ComesBackWhen`).
- An index block whose header claims more room than it has may take an entry and be no index any more
  (`IndexBlocks.OverwritingAppends`).
- A runlist with a hole of negative length is cut short when read back (`Runlists.DecodesSurvivors`).

`dafny verify dfyconfig.toml` checks the project.

## Model

| member | source | states |
|---|---|---|
| Huffman.SpellsUnique | gzipidx/inflate.go:298-343 | The canonical codes are prefix-free: at most one symbol's codeword can come next in any bit stream, for every length vector whatever (section 3.2.2 of RFC 1951). |
| Huffman.SpellsNotLonger | gzipidx/inflate.go:298-343 | A shorter codeword that comes next rules every longer one out. |
| Huffman.LeftIsKraft | gzipidx/inflate.go:312-319 | The running count with which the builder checks the lengths ends at 2^15 less Kraft's sum. |
| Huffman.KraftMeansFits | gzipidx/inflate.go:312-319 | Kraft's inequality holds if and only if, for every length, the assigned codewords fit in that many bits. |
| Huffman.CodewordDecodes | gzipidx/inflate.go:351-366 | Every symbol of an accepted code is decoded from its codeword, whatever bits follow. |
| Huffman.DecodeSame | gzipidx/inflate.go:381-412 | Decoding depends on the bits from its position on only, not on where in the stream they are. |
| Huffman.RevOfMsb | gzipidx/inflate.go:370-376 | The bits of a codeword, read least significant bit first as the register does, are the reversed codeword. |
| Huffman.RevInjective | gzipidx/inflate.go:370-376 | Two codewords of a length have different reversals. |
| Huffman.WalkFinds | gzipidx/inflate.go:990-1007 | Where the canonical walk stops it names the symbol that comes next. |
| Huffman.WalkFails | gzipidx/inflate.go:990-1007 | Where the walk has passed every length, or the bits have run out, no symbol comes next. |
| Huffman.SlotMeansSpells | gzipidx/inflate.go:351-366 | A slot of the direct-lookup table belongs to a symbol if and only if that symbol comes next wherever the next ten bits read the slot's number, and is at most ten bits long. |
| Huffman.SlotUnique | gzipidx/inflate.go:351-366 | No slot belongs to two symbols. |
| HuffmanTables.PackEntry | gzipidx/inflate.go:294-296 | A packed entry comes apart into the symbol and the length it was packed from. |
| HuffmanTables.ReverseBits | gzipidx/inflate.go:370-376 | The loop gives the reversal of the low bits. |
| HuffmanTables.HuffmanTable.Build | gzipidx/inflate.go:298-368 | Refuses exactly the vectors with a length above 15 or with more codewords than fit; otherwise all tables are those of the code. Incomplete codes are taken. |
| HuffmanTables.HuffmanTable.CheckRoom | gzipidx/inflate.go:312-319 | The early-exit check accepts if and only if Kraft's sum is at most one. |
| HuffmanTables.HuffmanTable.SortSymbols | gzipidx/inflate.go:322-343 | The counting sort lists each used symbol exactly where its length and its rank among symbols of that length put it. |
| HuffmanTables.HuffmanTable.FillFast | gzipidx/inflate.go:345-366 | After the in-place fill every slot of the table holds the entry of the one short symbol it belongs to, or zero. |
| HuffmanTables.HuffmanTable.EnterCodeword | gzipidx/inflate.go:355-363 | A short codeword goes to every slot it is a prefix of and to no other. |
| HuffmanTables.FastDecodes | gzipidx/inflate.go:345-390 | For every accepted vector and any bits, a slot is non-zero if and only if a symbol of at most ten bits comes next, and then it names that symbol and its length. |
| HuffmanTables.HuffmanTable.DecodeCanonical | gzipidx/inflate.go:990-1007 | The walk over the register finds a symbol if and only if the reference decoder does, and the same one with the same length. |
| HuffmanTables.HuffmanTable.DecodeRegister | gzipidx/inflate.go:821-836 | So does the direct lookup with the walk behind it: the fast form is the slow one. |
| CodeTables.LengthTable | gzipidx/inflate.go:416-418 | The literal length table of the code is the one that the pattern of section 3.2.5 gives. |
| CodeTables.DistanceTable | gzipidx/inflate.go:419-420 | So is the distance table. |
| Inflate.DistanceInWindow | gzipidx/inflate.go:887-892 | No distance code with its extra bits reaches further back than 32 KiB. |
| Inflate.LengthInRange | gzipidx/inflate.go:856-866 | No length code with its extra bits leaves 3 to 258. |
| Scanners.FixedCodesAreValid | gzipidx/inflate.go:573-595 | The fixed code of section 3.2.6 is complete, and both fixed codes are accepted by the builder. |
| Deflate.CodeIsSpace | gzipidx/inflate.go:298-343 | Symbols in order of length, and within a length in their own order, take code space one after the other, 2^-length each; the codeword assigned to a symbol is where its own space starts. |
| Deflate.ReadsCodeword | gzipidx/inflate.go:381-412 | A symbol is decoded exactly where the leading binary digits of that place come next, highest first. |
| Deflate.TokenRead | gzipidx/inflate.go:821-892 | A literal, or a match as indices of a length and a distance code with the numbers in their extra bits, is read back from its bits as that byte, or that length and distance. |
| Deflate.SymbolsRead | gzipidx/inflate.go:766-934 | Any tokens written with two codes, and an end of block, are read back as what they stand for, a match being the last bytes over and over. |
| Deflate.SymbolsFound | gzipidx/inflate.go:766-934 | And whatever is read with two codes is tokens written with them. |
| Deflate.RunsRead | gzipidx/inflate.go:700-746 | Code lengths written in any way, as literal lengths, 16 with two bits for 3 to 6 more of the last, 17 with three bits for 3 to 10 zeros and 18 with seven bits for 11 to 138, are read back as the list. |
| Deflate.RunsFound | gzipidx/inflate.go:700-746 | And whatever is read as code lengths was written as such runs. |
| Deflate.HeaderRead | gzipidx/inflate.go:601-753 | A dynamic header written from two codes, with the three counts, its own lengths in the order of section 3.2.7 and the runs, is read as those codes. |
| Deflate.HeaderFound | gzipidx/inflate.go:601-753 | And a dynamic header that is read was written from the codes it is read as. |
| Deflate.BlockRead | gzipidx/inflate.go:474-595 | A stored, fixed or dynamic block is read back as what it stands for; a stored one has its length, then the complement, at the next byte. |
| Deflate.InflateUndoesDeflate | gzipidx/inflate.go:461-519 | Inflating is the inverse of deflating, however that was done: a byte string inflates to some bytes, ending at some bit, if and only if it begins with a stream of blocks that stand for those bytes and end there. |
| Restart.CopyRepeats | gzipidx/inflate.go:1009-1045 | An LZ77 copy repeats with its distance as the period from its first byte on. |
| Restart.CopyUnique | gzipidx/inflate.go:1009-1045 | And it is the only continuation of its length that does, so every copy strategy that keeps the period is the byte-by-byte copy. |
| Restart.BlocksBehind | gzipidx/index.go:154-167 | Output further back than 32 KiB never matters: decoding any blocks after a longer history is decoding them after its last 32 KiB, with the rest put in front. |
| Restart.BlocksAhead | gzipidx/index.go:154-167 | A stream's blocks decode alike at any byte-aligned distance from its start; stored-block alignment is kept. |
| Restart.RestartAtBoundary | gzipidx/reader.go:79-102 | The restart theorem: from any byte-aligned block boundary, decoding with the last 32 KiB before it as dictionary succeeds if and only if decoding goes on successfully there, consumes the same bits and gives exactly the rest of the output. |
| Lookahead.BlocksLook | gzipidx/inflate.go:642-658 | The demand for ten bits of lookahead in dynamic headers never changes what a stream decodes to, and not whether it decodes where all but two of the bits asked for follow it. |
| Lookahead.BlocksRoom | gzipidx/inflate.go:642-658 | With the demand a stream decodes if and only if it decodes without it and the last code length symbol of all its dynamic blocks has the bits asked for. |
| Lookahead.ScannedWhen | gzipidx/inflate.go:474-519 | So the scanner accepts a stream if and only if RFC 1951 decodes it and ten bits follow the start of its last code length symbol. |
| Lookahead.BlocksBegins | gzipidx/inflate.go:461-472 | What follows a complete stream is never looked at. |
| Lookahead.ScannedIsRfc1951 | gzipidx/inflate.go:474-519 | Soundness: whatever the scanner accepts, RFC 1951 decodes to the same bytes, ending at the same bit. |
| Lookahead.MemberIsScanned | gzipidx/inflate.go:474-519 | Every RFC 1951 stream with at least one byte after it, as in a gzip member, is accepted with the same result. |
| ShortStream.FollowedBy | gzipidx/inflate.go:474-519 | A trailer makes all RFC 1951 streams be accepted with their own result if and only if it has at least one byte. |
| ShortStream.Refused | gzipidx/inflate.go:642-658 | A raw stream of twelve bytes that RFC 1951 decodes and the scanner refuses: what follows the code lengths is too short for the demand. |
| ShortStream.LengthsRead | gzipidx/inflate.go:700-746 | Its code lengths are read in full without the demand, and not with it. |
| BitInput.BitReader.Accounted | gzipidx/inflate.go:138-204 | Consumed bits and bits held are eight times the bytes pulled; the register holds exactly the next bits of the stream and nothing above them. An invariant of every method of the reader. |
| BitInput.RegisterLoad | gzipidx/inflate.go:138-154 | Or-ing a little-endian word above the held bits extends the register by the next bits of the stream. |
| BitInput.RegisterLoadPart | gzipidx/inflate.go:790-803 | So does or-ing a word that does not fit and masking off what was not taken. |
| BitInput.BitReader.FillBits | gzipidx/inflate.go:138-154 | Succeeds if and only if the stream has that many bits left; consumes nothing. |
| BitInput.BitReader.ReadBits | gzipidx/inflate.go:184-191 | Gives the next bits of the stream, or fails without consuming if and only if there are too few. |
| BitInput.BitReader.AlignToByte | gzipidx/inflate.go:200-204 | Skips to the next byte boundary, after which the register holds whole bytes. |
| BitInput.BitReader.DecodeSymbol | gzipidx/inflate.go:381-412 | Near the end of the stream too, decodes the symbol the reference decoder does, or fails where it does, and consumes exactly its codeword. |
| BitInput.BitReader.DecodeSlowly | gzipidx/inflate.go:391-411 | The bit-by-bit walk does the same. |
| BitInput.BitReader.TakeChunk | gzipidx/inflate.go:552-569 | With an empty register at a byte boundary, the bulk copy starts at the right byte of the stream. |
| BitInput.BitReader.RefillGroup | gzipidx/inflate.go:789-819 | The hot loop's word-sized refill keeps the accounting in local variables, fills 48 bits or writes the exact position back. |
| BitInput.BitReader.Sync | gzipidx/inflate.go:772-783 | Writing the locals back restores the accounting: position and register are those of the symbols consumed. |
| BitInput.BitReader.ReadLocal | gzipidx/inflate.go:614-641 | A header field read through local copies of the register is the next bits of the stream; it fails if and only if there are too few. |
| BitInput.BitReader.DecodeLocal | gzipidx/inflate.go:642-658 | A code length symbol is the one the reference decoder finds; it fails if and only if there is none or fewer than ten bits are left. |
| Output.OutBuffer.History | gzipidx/inflate.go:217-278 | The output is what the sink got, in contiguous chunks with the right offsets, and then the buffer, which is bounded. Either nothing was flushed yet or at least 32 KiB are buffered, so the window is in the buffer: an invariant of every method. |
| Output.OutBuffer.FlushOut | gzipidx/inflate.go:228-245 | Flushing and sliding the buffer in place changes no output and keeps 32 KiB. |
| Output.OutBuffer.AppendOut | gzipidx/inflate.go:217-223 | Appends exactly the bytes given. |
| Output.OutBuffer.WindowBefore | gzipidx/inflate.go:264-278 | The window is the last 32 KiB of all output, or all of it. |
| Output.CopiedIsMatch | gzipidx/inflate.go:902-932 | A buffer that repeats in place is the RFC's copy over the whole output, whatever was flushed before. |
| Output.OutBuffer.CopyOverlapping | gzipidx/inflate.go:921-932 | The piecewise copy of an overlapping match, in place, is the byte-by-byte copy. |
| Output.OutBuffer.CopyFast | gzipidx/inflate.go:909-932 | So is the hot loop's choice between 8-byte, 16-byte, one-move and piecewise copies; bytes written past the match are harmless. |
| Output.OutBuffer.HotMatch | gzipidx/inflate.go:894-932 | The hot loop's match is refused if and only if it reaches further back than all output (or 32 KiB), and otherwise appends the RFC's copy. |
| Output.OutBuffer.CopyMatch | gzipidx/inflate.go:1009-1045 | The tail's match does the same. |
| Output.OutBuffer.Drain | gzipidx/inflate.go:461-472 | At the end the sink's chunks are the whole output. |
| Scanners.Scanner.DecodeGroup | gzipidx/inflate.go:821-892 | Out of 48 bits in the register, without a refill, one whole literal, end of block or match is decoded exactly as RFC 1951 has it, and the register moves by exactly its bits. |
| Scanners.Scanner.TailGroup | gzipidx/inflate.go:939-985 | The tail's symbol step is the same step, refilling as it goes. |
| Scanners.Scanner.HuffmanBlock | gzipidx/inflate.go:766-934 | The hot loop, with its hand-over to the tail in the middle of a block, succeeds if and only if symbol-by-symbol decoding does, and ends at the same bit with the same output. |
| Scanners.Scanner.HuffmanBlockTail | gzipidx/inflate.go:939-985 | So does the tail from any position; hence both loops are equal to each other. |
| Scanners.Scanner.StoredBlock | gzipidx/inflate.go:527-571 | A stored block succeeds if and only if section 3.2.4 has it so, and copies its bytes. |
| Scanners.Scanner.CopyStored | gzipidx/inflate.go:540-570 | Draining the register and then copying in bulk gives exactly the bytes of the stream at that place. |
| Scanners.Scanner.BuildFixed | gzipidx/inflate.go:573-595 | The tables are those of the fixed codes. |
| Scanners.Scanner.ReadCodeLengths | gzipidx/inflate.go:700-746 | The run-length coded lengths are those of section 3.2.7 with the ten-bit demand; fails exactly where that does. |
| Scanners.Scanner.DynamicBlock | gzipidx/inflate.go:601-753 | A dynamic header is accepted if and only if section 3.2.7 with the ten-bit demand does, and the tables built in place are those it describes. |
| Scanners.Scanner.Block | gzipidx/inflate.go:489-514 | One block of any kind, with the tables that are its own even when a fixed block follows a dynamic one. |
| Scanners.Scanner.NextBlock | gzipidx/inflate.go:474-519 | From any block boundary reached, one more block leads to another from which the rest decodes to the same result, or to failure only if the stream fails, or to its end. |
| Scanners.Scanner.Scan | gzipidx/inflate.go:474-519 | Succeeds if and only if the stream decodes with the ten-bit demand; then position and output are the specification's and the recorded restart points are exactly the byte-aligned block boundaries at the asked distance, each with its 32 KiB and each decoding on to the same result. |
| Scanners.Scanner.Finish | gzipidx/inflate.go:461-472 | The same, with the whole output in the sink. |
| Scanners.MarksGrow | gzipidx/index.go:154-167 | Restart points recorded early stay restart points of the longer output. |
| Scanners.MarksSpaced | gzipidx/index.go:154-167 | The restart points of a stream are byte-aligned boundaries at least one spacing in and one spacing apart, and no byte-aligned boundary is passed over that far behind the last. |
| Checkpoints.Recorder.ToSink | gzipidx/index.go:124-147 | Each chunk extends the last restart point's context by exactly the bytes of the output at its place, up to 64 KiB. |
| Checkpoints.Recorder.OnBlock | gzipidx/index.go:154-167 | A boundary is recorded if and only if it is byte-aligned and far enough from the one before. |
| Index.CandidateHolds | gzipidx/index.go:154-167 | A recorded candidate is a restart point of the RFC 1951 stream and its context is a prefix of the output there. |
| Index.CheckRestarts | gzipidx/reader.go:79-102 | Started there with its window, an RFC 1951 decoder delivers exactly the rest of the output. |
| Index.StartDelivers | gzipidx/reader.go:155-168 | Started at the beginning it delivers all of it. |
| Index.SpacedIs | gzipidx/index.go:238-260 | Those asked for are the candidates nearest to a target, one step further, two steps and so on, as long as that is before the end. |
| Index.ResampleCandidates | gzipidx/index.go:238-260 | Keeps, strictly increasing and each once, exactly the candidates nearest at or before each multiple of the step. |
| Index.LastChosen | gzipidx/index.go:238-260 | The last candidate is among them when it lies a whole step before the end, or is the only one. |
| Index.VerifyCheckpoint | gzipidx/index.go:264-275 | Accepts if and only if the stock decoder, restarted, delivers the context. |
| Index.KeepVerified | gzipidx/index.go:182-219 | With a decoder that follows RFC 1951 the in-place filter drops exactly the restart points without context. |
| Index.Build | gzipidx/index.go:85-226 | An index made has strictly increasing restart points, each restarting the stream exactly, each context a prefix of the output there. It is made only if the stream is accepted, is longer than a step and has a recorded boundary before its end; and always then if boundaries are recorded more than 1 MiB and a match apart, as by default, or the last one is a step before the end or the only one. |
| Index.FirstKept | gzipidx/index.go:124-167 | Where boundaries are recorded farther apart than the sink can be behind, the first candidate chosen has context, so an index keeps it. |
| Index.CheckpointFor | gzipidx/index.go:295-301 | The binary search gives the last restart point at or before the offset, and none if and only if there is none. |
| Index.ReadAt | gzipidx/reader.go:151-201 | For every index of a stream and every offset up to its length, exactly the suffix of the decompressed stream there; other offsets, and only those, are refused. |
| Index.ReadRange | gzipidx/reader.go:204-215 | Exactly that range, if and only if it is all there. |
| TarListings.FedInTwoWhen | gzipidx/index.go:664-762 | Feeding a chunk and then another is feeding both at once, from any state of the directory scanner that has not met the end of the archive, if and only if the first does not meet it or the second is empty. |
| TarListings.MemberListing | gzipidx/index.go:688-717 | A header of a type other than x, g, L and K is listed at the place after it, under the name given before it or else its own, and the listing goes on behind its body, a whole number of blocks on. |
| TarListings.ExtensionListing | gzipidx/index.go:688-699 | A header of type x, g, L or K is not listed, whatever was given before it is forgotten, and its body may give the next header's name. |
| TarListings.LongNameIs | gzipidx/index.go:764-804 | What such a body gives: all of it but for zeros at its end if it has no equals sign; the rest of its first line if that starts with "path="; otherwise nothing. |
| TarListings.NamedByExtension | gzipidx/index.go:664-804 | So such a header and then a member list as one entry, under the name in the body of the first if it gives one, at the place after the second. |
| TarListings.OnlyMembersListed | gzipidx/index.go:688-717 | No header of type x, g, L or K is ever listed. |
| TarListings.FedIsListing | gzipidx/index.go:664-762 | One call records the listing: a header every block boundary reached by adding the size rounded up to 512, extensions naming the next member. |
| TarListings.ChunksDoNotMatter | gzipidx/index.go:664-762 | For every way of cutting a tar stream into chunks, up to the one that completes its first zero block, the recorded entries are the listing of the whole. |
| TarListings.ListingPlaces | gzipidx/index.go:664-762 | In a listing every entry's body starts where its header, read from the stream, ends, and no header starts before the body before it ends, rounded up to 512. |
| TarListings.ChunksDoNotMatterWhen | gzipidx/index.go:664-762 | Over any chunks, the state they leave is that of one call if and only if no chunk that holds anything comes after one that met the end of the archive. |
| TarListings.PastTheEnd | gzipidx/index.go:664-686 | Witness: after a zero block a header in the same chunk is passed over, the same header in the next chunk is recorded. |
| TarListings.DirScanner.Feed | gzipidx/index.go:664-762 | The loop over mutable fields is the feeding function of the old state and the chunk. |
| TarListings.DirScanner.FinishHeader | gzipidx/index.go:764-785 | The name an extension's body gives, by the code's rule, and the capture emptied. |
| Captures.FedInTwo | gzipidx/nested.go:86-175 | Feeding a captured member in two calls is feeding it in one, unless the cut is in an extension's body. |
| Captures.SplitBody | gzipidx/nested.go:130-152 | Two parts of an extension's body in two calls are the same as in one if and only if the first part rules the capture out, or the second does and so does the whole, or neither does and the body has no padding. |
| Captures.CutInBody | gzipidx/nested.go:86-175 | For a cut inside a body and anything after it: the two ways agree if and only if the cut is harmless in that sense, as far as the body has come, or what follows the body has a capture given up that starts at its padding. |
| Captures.SplitOverride | gzipidx/nested.go:187-191 | Witnesses without padding: " size=" cut through is not noticed, and a "size=" inside a body that starts a chunk gives the capture up. |
| Captures.OverridesWhen | gzipidx/nested.go:130-144 | A body rules a capture out if and only if it has " size=" or "GNU.sparse." at some place, or starts with "size=". |
| Captures.FirstBlanked | gzipidx/nested.go:110-129 | A stream is captured member by member: of a header of type x, g, L or K the body is kept too, unless it rules the capture out; a type S header ends it; of any other only the header is kept, with zeros for the rest. |
| Captures.FinishedIsBlanked | gzipidx/nested.go:86-175 | A capture in one call reaches the end of the archive if and only if the stream is whole and can be captured, and then replays it with file bodies and padding zeroed. |
| Captures.ChunksDoNotMatter | gzipidx/nested.go:86-175 | So does a capture in any chunks none of which ends inside an extension's body. |
| Captures.BlankedKeepsPlaces | gzipidx/nested.go:56-60 | The blanked stream moves no byte, changes none but to zero and keeps the headers. |
| Captures.NestedCapture.Feed | gzipidx/nested.go:86-175 | The loop over mutable runs and data is the feeding function; what its runs replay is what that function says. |
| Captures.NestedCapture.AppendData | gzipidx/nested.go:179-182 | Appending captured bytes appends them to what is replayed. |
| Captures.Replaying | gzipidx/nested.go:296-303 | A reader over the capture serves exactly what was captured. |
| Replays.PieceAt | gzipidx/nested.go:56-60 | Each captured run, then its hole, lies in the stream right after the runs before it. |
| Replays.ReplayReader.Read | gzipidx/nested.go:207-238 | A read at any position, after any reads and seeks, is the slice of the captured stream there, cut at its end; end of file if and only if nothing was read. |
| Replays.ReplayReader.Seek | gzipidx/nested.go:240-284 | Ends at the target or at the end of the stream, whichever comes first, over empty runs and holes too; refused, unmoved, exactly for bad whence or negative targets. |
| Layers.EnsureDirAt | fsview/fsview.go:236-265 | Creating ancestors makes exactly the places from the root to the directory directories, leaving directories that exist as they are. |
| Layers.StepWellFormed | fsview/fsview.go:91-139 | After every entry everything is inside a directory. |
| Layers.StepLookup | fsview/fsview.go:91-139 | An entry changes each place by itself: by creation, shadowing, whiteout, opaque clearing at that point, or replacement. |
| Layers.MergeIsHistory | fsview/layerparse.go:47-61 | After any layers each place holds what the entries' effects on it alone say, in order. |
| FsView.Tree.EnsureDir | fsview/fsview.go:236-265 | In place, the nodes and paths are those of the flat map after ensuring a directory. |
| FsView.Tree.Insert | fsview/fsview.go:279-300 | In place: replaces, shadows, or refreshes a directory keeping its children, as the flat map does. |
| FsView.Tree.RemoveChild | fsview/fsview.go:302-309 | Removes the named subtree and nothing else. |
| FsView.Tree.Clear | fsview/fsview.go:106-110 | An opaque marker empties the directory where it is met, entries of the same layer included. |
| FsView.Tree.MergeEntry | fsview/fsview.go:91-139 | Refinement: accepted if and only if the flat step is, and then the tree's paths and metadata are the flat map's. Sibling names stay unique, only directories have children, no node is shared, and each node's path is its chain: an invariant of every method. |
| FsView.Tree.TreeIsTidy | fsview/fsview.go:36-53 | In every tree everything is inside a directory, only directories have children, no two siblings share a name, no node is at two places and each node's path is that of its place. |
| FsView.MergeLayer | fsview/layerparse.go:47-61 | A layer's headers in order are the fold of the step. |
| FsView.BuildParsed | fsview/layerparse.go:47-61 | Built from ordered layers, the tree is the fold of the step over all entries; fails exactly where a layer is missing or an entry stops the fold. |
| FsView.Tree.Resolve | fsview/fsview.go:200-224 | Finds a node if and only if the flat map has the path, and that path's node. |
| FsView.Show | fsview/layerparse.go:47-61 | What a built tree shows at a path is the history of that path. |
| LayerNames.NameLeads | fsview/fsview.go:164-179 | A name of plain components, with a slash, "./" or both before it or a slash behind it, leads through just those components. |
| LayerNames.WhiteoutHides | fsview/fsview.go:104-113 | A name that ends in ".wh." and n hides n in its directory and all below it, and changes nothing else but that the directories on the way are there; the opaque marker's name excepted. |
| LayerNames.OpaqueEmpties | fsview/fsview.go:105-109 | The opaque marker empties the directory it is in, which stays, and changes nothing else. |
| LayerNames.EntryGoes | fsview/fsview.go:115-139 | Any other name is put in its directory with all the header says: over a directory, a directory refreshes it and keeps what is below; anything else replaces what was there and below. The type letters are those of tar. |
| LayerNames.TypeStops | fsview/fsview.go:115-118 | An entry of any other type stops the merge. |
| LayerNames.OutsideStops | fsview/fsview.go:91-98 | So does a name that climbs out of the tree, and one for the root changes nothing. |
| EntryNames.EscapesWhenClimbing | fsview/fsview.go:164-179 | A cleaned relative name starts with ".." if and only if at some point it leads above where it started. |
| EntryNames.NamesLeadInside | fsview/fsview.go:164-179 | An entry name is refused if and only if it is unrooted and climbs above the tree; otherwise it leads through plain names, but for the empty first one of a rooted name. |
| EntryNames.PathStringIsChain | fsview/fsview.go:311-316 | A node's path string is its components joined with slashes if and only if there is at most one or the first is not empty. |
| EntryNames.FoundByOwnName | fsview/fsview.go:183-195 | Exactly which entry names, asked for as they are, lead to the place the entry was put. |
| L2Cache.EveryRunSound | qed/qed.go:134-165 | Over every interleaving of callers, with the lock released between a miss and the insertion: every index entry points to an element of the list with that offset, the list is within its bound, and every table returned is the one stored at its offset. |
| L2Cache.InsertKeepsFaithful | qed/qed.go:151-163 | Inserting keeps every list element findable if and only if the offset is not in the index yet. |
| L2Cache.LostTable | qed/qed.go:151-163 | In a cache of any bound from two up: two callers that miss on the same offset, then one less than the bound of other tables, and a table is in the list that no call finds there. |
| L2Cache.LeastRecentlyUsed | qed/qed.go:134-165 | With one caller at a time the cache is exactly the most recently used distinct offsets, as many as fit, last used first. |
| L2Cache.TableCache.Find | qcow/qcow.go:112-122 | A hit moves the element to the front and gives its table; a miss changes nothing. |
| L2Cache.TableCache.Store | qcow/qcow.go:132-142 | The push and the eviction loop make the state that the insertion function says. |
| L2Cache.TableCache.Lookup | qed/qed.go:134-165 | A whole lookup gives the stored table, keeps the cache sound, and changes it as one call does. |
| QedDisks.SplitOffset | qed/qed.go:182-205 | An offset is put together from a first-level index, a second-level index and an offset in the cluster in exactly one way, which is the code's shifts and mask. |
| QedDisks.EntryIs | qed/qed.go:151-154 | Entry i of a page table is the number in the eight bytes from byte 8 * i on, the lowest first. |
| QedDisks.ByteOfCluster | qed/qed.go:182-215 | For every pair of indices and offset in a cluster, by the words of the file: zero without a table or with an entry of 0 or 1, a failure behind a table that is not all there or past int64, otherwise the byte of the file that far behind where the entry points. |
| QedDisks.ByteWithin | qed/qed.go:182-215 | Within a cluster a contiguous read of the file is a read of each byte of the disk. |
| QedDisks.BufferShows | qed/qed.go:213-215 | A byte of the caller's buffer shows through if and only if a data cluster lies outside the file or its table cannot be read. |
| QedDisks.CutShortShows | qed/qed.go:210-216 | Witness: an image that ends before its only data cluster; whatever the buffer held, all of the disk reads as that. |
| QedDisks.Disk.Translate | qed/qed.go:188-210 | Through the cache, the place of a byte is the one the page tables say. |
| QedDisks.Disk.ReadAt | qed/qed.go:168-225 | Gathered cluster by cluster, every byte delivered is the flat disk's at its offset, every other byte of the buffer is unchanged, and it fails if and only if some cluster in the range cannot be read, at the first such one. |
| QcowDisks.SplitEntry | qcow/qcow.go:197-203 | The flag, the size and the offset of a compressed cluster tile the 64 bits of its entry: an entry is put together from them if and only if the code's test, mask and shift read them from it. |
| QcowDisks.EntryIs | qcow/qcow.go:127-130 | Entry i of a page table is the number in the eight bytes from byte 8 * i on, the highest first. |
| QcowDisks.ByteOfCluster | qcow/qcow.go:176-227 | For every pair of indices and offset in a cluster, by the words of the file: zero, a byte of the file, a byte of what comes out of the bytes that the entry's offset and size name, or a failure. |
| QcowDisks.ByteWithin | qcow/qcow.go:177-225 | Within a cluster, plain, compressed or not allocated, a read from one place is a read of each byte of the disk. |
| QcowDisks.Disk.Translate | qcow/qcow.go:190-213 | Through the cache, the place of a byte is the one the page tables say. |
| QcowDisks.Disk.DecompressCluster | qcow/qcow.go:146-161 | The compressed bytes, zeros for those the file does not have, are inflated to a whole cluster, or there is an error. |
| QcowDisks.Disk.FillPart | qcow/qcow.go:216-225 | One part of a cluster is copied from the inflated one, read from the file or cleared, and nothing else of the buffer is changed; it fails if and only if the place is behind a missing table, before the file or in a cluster that does not inflate. |
| QcowDisks.Disk.ReadAt | qcow/qcow.go:164-235 | Gathered cluster by cluster, every byte delivered is the flat disk's at its offset, every other byte of the buffer is unchanged, and it fails if and only if some cluster in the range cannot be read, at the first such one. |
| Runlists.WidthIsLeast | ntfs/read.go:113-134 | A signed number fits a count of bytes if and only if the count is at least the computed width. |
| Runlists.LengthWidthIsLeast | ntfs/read.go:101-111 | So for lengths. |
| Runlists.MinBytesSigned | ntfs/read.go:113-134 | The shifting loop with its two corrections computes that width for every int64. |
| Runlists.MinBytesUnsigned | ntfs/read.go:101-111 | The loop computes the width of a length; zero takes one byte, a negative one none. |
| Runlists.SignedOfTwos | ntfs/read.go:29-73 | A number written in a count of bytes it fits reads back, sign-extended, as itself. |
| Runlists.SignExtended | ntfs/read.go:55-63 | The or with shifted ones is sign extension, for fields of any count of bytes up to fifteen. |
| Runlists.RoundTrip | ntfs/read.go:29-99 | decode(encode(runs) + anything) is the runs if and only if no run has a negative length or a first cluster below -1. |
| Runlists.DecodesSurvivors | ntfs/read.go:29-99 | And what it is in every other case: holes become -1, negative lengths zero, and a hole of negative length ends the list. |
| Runlists.EncodeRunlist | ntfs/read.go:76-99 | The loop writes that encoding. |
| Runlists.DecodeRunlist | ntfs/read.go:29-73 | The loop over int64 registers reads that decoding, overflowing entries refused. |
| Allocator.UsedBits | ntfs/alloc.go:17-40 | Cluster l is in use if and only if bit l % 8, counted from the lowest, of byte l / 8 is set. |
| Allocator.Volume.AllocCluster | ntfs/alloc.go:17-40 | Takes the first free cluster after the boot sector's, whose bit it sets; fails if and only if there is none. |
| Allocator.Volume.AllocClusters | ntfs/alloc.go:43-63 | Gives the first n free clusters merged into runs, or fails, keeping what it took, if and only if there are fewer. |
| Allocator.Volume.TryAllocContiguous | ntfs/alloc.go:70-103 | Takes the first gap of n clusters, or changes nothing; asked for none or fewer it names the first free cluster and takes nothing. |
| Allocator.FirstGapIsFirst | ntfs/alloc.go:70-103 | There is no first gap if and only if no n clusters in a row are free from LCN 1 on, and no earlier place than the first gap has n. |
| Allocator.RunsHoldList | ntfs/alloc.go:51-61 | The merged runs hold exactly the clusters taken, in order, none of them empty. |
| Allocator.RunsAreMaximal | ntfs/alloc.go:51-61 | No two runs that follow each other touch. |
| Allocator.FirstRunsGive | ntfs/alloc.go:43-63 | One by one: works if and only if enough are free, gives exactly n clusters, all free before and none of them LCN 0. |
| Allocator.AllocationGives | ntfs/alloc.go:108-119 | So with the preference for a contiguous run and its fallback. |
| Allocator.FailureTakesAll | ntfs/alloc.go:108-119 | A failed allocation leaves no cluster free. |
| Allocator.Volume.AllocContiguousClusters | ntfs/alloc.go:108-119 | The bitmap in place is what these functions say. |
| Allocator.Volume.FreeRuns | ntfs/alloc.go:137-146 | Clears exactly the runlist's bits but the boot sector's; holes and clusters outside the bitmap are passed over. |
| Allocator.EveryRunBalanced | ntfs/alloc.go:17-146 | Over every run of allocations, and frees of what is held, each cluster in use after LCN 0 was so from the start, or is held once in one runlist, or was lost in a failed allocation: exactly one of these. |
| Allocator.HeldApart | ntfs/alloc.go:17-146 | Live runlists are pairwise disjoint, have no cluster twice, and hold neither LCN 0 nor a cluster that was in use at the start. |
| Allocator.AllGivenBack | ntfs/alloc.go:122-146 | Once all is given back the bitmap is as it was, up to bit 0, if and only if nothing was lost. |
| Allocator.LosesWhen | ntfs/alloc.go:43-63 | A step loses clusters if and only if it asks for more than are free while some are. |
| IndexFormats.BuiltIsEntry | ntfs/alloc.go:843-852 | An entry as it is built for a key, padded to a multiple of eight bytes, is an entry by itself, with the key where the readers look for it. |
| IndexFormats.BuiltIsNamed | ntfs/alloc.go:843-934 | It has a name if and only if the characters in its key do. |
| IndexFormats.BuiltIsIndex | ntfs/alloc.go:291-312 | An index put together byte by byte from entries is read as those entries. |
| IndexFormats.InsertBuilt | ntfs/alloc.go:855-890 | Inserting into it gives, byte for byte, the index put together from the entries with the new one last. |
| IndexFormats.DeleteBuilt | ntfs/alloc.go:893-934 | Deleting from it gives, byte for byte, the index put together from the entries without the first of that name. |
| IndexFormats.AddBuilt | ntfs/alloc.go:399-444 | A block that starts with "INDX", with such an index 24 bytes in, takes an entry if and only if it has room; then it is, byte for byte, the block put together with the new entry last and so much less room. |
| IndexEntries.ParsedFlat | ntfs/alloc.go:314-341 | Entries put one after the other parse back to themselves up to the end mark. |
| IndexEntries.FlatParsed | ntfs/alloc.go:344-356 | And flattening what was parsed, with the rest, is the bytes again. |
| IndexEntries.CollectRawIndexEntries | ntfs/alloc.go:314-341 | For any header and whatever lies beyond it: nothing for a corrupt one, a panic exactly where a slice is out of range, otherwise a copy of each entry the walk passes. |
| IndexEntries.Collects | ntfs/alloc.go:314-341 | On a well-formed index that is exactly its entries. |
| IndexEntries.InsertIndexEntry | ntfs/alloc.go:855-890 | For any header: refused exactly where it is corrupt or the walk meets no end mark, a panic where it is too short or its entries start after its end, otherwise spliced at the end mark with the header resized. |
| IndexEntries.Inserts | ntfs/alloc.go:855-890 | On a well-formed index that is the entry before the end mark. |
| IndexEntries.InsertAppends | ntfs/alloc.go:855-890 | The result is well-formed and its entries are the old ones followed by the new one. |
| IndexEntries.DeleteIndexEntry | ntfs/alloc.go:893-934 | For any header and whatever lies beyond it: the walk finds the first key of the name, gives the header back if there is none, and panics exactly where a slice is out of range. |
| IndexEntries.Deletes | ntfs/alloc.go:893-934 | On a well-formed index whose entries hold their keys that cuts out the first entry of the name. |
| IndexEntries.DeletedEntries | ntfs/alloc.go:893-934 | The entries left are the old ones without the first of that name. |
| IndexEntries.DeleteUndoesInsert | ntfs/alloc.go:843-934 | Deleting an inserted entry whose name no other has gives back the old entries. |
| IndexBlocks.AddEntryToIndxBlock | ntfs/alloc.go:399-444 | In place, over an array, for any block: refused, in a panic, or added exactly as the block's header and end mark say; added, the new block is the one with 16 bytes of the end mark moved; otherwise nothing changes. |
| IndexBlocks.OverwritingAppends | ntfs/alloc.go:399-444 | On a well-formed index whose header lets the entry in, the block is well-formed with the old entries followed by the new one if and only if the grown index still ends inside the block, whatever room the header claims. |
| IndexBlocks.SameBytesWhen | ntfs/alloc.go:399-444 | The index's bytes are those of a new buffer with the entry if and only if what follows the end mark's first 16 bytes is already in its new place, as where the end mark has no more. |
| IndexBlocks.ChildLost | ntfs/alloc.go:436-441 | Witness: an end mark with a child's number loses it in place and keeps it in a new buffer. |
| UpdateSequences.StampedWords | ntfs/open.go:289-312 | In a record whose array is named at byte 4 and counted at byte 6, the last two bytes of each sector of 512 that has a word are saved to that word and hold the number, low byte first, as the array's first word does. |
| UpdateSequences.RestoredWords | ntfs/open.go:267-286 | And they are given back from that word. |
| UpdateSequences.StampUSA | ntfs/open.go:289-312 | In place: the next number, never zero, is put in the array and over each sector's end the loop reaches, the ends saved to the array; a panic only where there is no room for the number. |
| UpdateSequences.ApplyUSA | ntfs/open.go:267-286 | In place: each sector end the loop reaches is given back its word of the array. |
| UpdateSequences.StampAndApply | ntfs/open.go:267-312 | Undoing a stamp over all sectors gives every byte outside the array back, where the array lies behind the fields that say where it is and ends before byte 510. |
| UpdateSequences.ComesBackWhen | ntfs/open.go:267-312 | Over those fields too, for every place and word count of an array that ends before byte 510 and every length: all records of that layout come back if and only if there are words at all and the array is behind the fields, or the new number makes it longer while the sectors run out before its words did, or it does not and no sector is stamped. |
| UpdateSequences.Lost | ntfs/open.go:267-312 | For every layout in which not all come back, a record of zeros but for its header and at most one byte, and the byte of it that is lost. |
| UpdateSequences.OverItsHeader | ntfs/open.go:267-312 | Witness: an array of two words at byte 4 in a record of one sector. |
| Gather.FlatAt | superlp/superlp.go:280-348 | Byte k of a piece lies k bytes after the pieces before it, empty ones included. |
| Gather.FillByte | image/sparse.go:171-177 | Byte k of a repeated word is its byte k % 4, counted from the lowest. |
| Gather.TileOf | superlp/superlp.go:323-328 | The last piece that starts at or before a byte of the whole is the one that holds it, empty pieces or not. |
| SuperMappings.ExtentByte | superlp/superlp.go:312-348 | Byte k of an extent lies as many sectors of 512 bytes into the partition as the extents before it have, and is in the image that far behind the origin as the extent says, or zero if it is of kind 1. |
| SuperMappings.MapPartition | superlp/superlp.go:292-306 | Refused exactly where an extent is on another device or of an unknown kind; otherwise the extents tile the partition. |
| SuperMappings.Mapping.Holder | superlp/superlp.go:323-328 | The binary search gives the last extent that starts at or before a position. |
| SuperMappings.Mapping.ReadAt | superlp/superlp.go:312-348 | Gathered extent by extent, empty and zero ones included, every byte delivered is the flat partition's; it fails if and only if some byte asked for is not in the image. |
| SparseImages.Open | image/sparse.go:85-127 | Refused exactly where a chunk is not taken or the chunks do not expand to the size; otherwise the table tiles the disk and has, for every header but checksums, at the place where the ones before it end: the bytes of the file from that of the chunk on, its word over and over, or zeros. |
| SparseImages.SparseReader.ChunkAt | image/sparse.go:196-211 | Halving finds the chunk that holds an offset, and finds one if and only if the offset is on the disk. |
| SparseImages.SparseReader.ReadAt | image/sparse.go:136-192 | Every byte delivered is the flat disk's, whatever chunks it is in; it stops early only at a byte the file does not have. |
| RunReads.ReadRuns | ntfs/read.go:213-236 | All of an attribute, for any runs: each byte is as the last run from the file that comes over it says, or zero, a negative length bringing the next run back; a panic or an error exactly at the first run whose slice is out of range or that the file ends in. |
| RunReads.RunBytes | ntfs/read.go:213-278 | A byte of a run is in the file at the volume's base and its cluster, that far into the run, or zero in a hole, for both ways of reading. |
| RunReads.WholeIsFlat | ntfs/read.go:213-236 | Where no length is negative that is the flat attribute with zeros behind, read if and only if the file has every byte of it, and never a panic. |
| RunReads.ReadRunsAt | ntfs/read.go:239-278 | A range, for any runs, as far as they ever come: each byte is as the first run that reaches past it says; it fails if and only if the file lacks one of them. |
| RunReads.RangeOfWhole | ntfs/read.go:213-278 | So both ways agree where no length is negative: a range read is the slice of what is read at once. |
| RunReads.BackOver | ntfs/read.go:213-278 | Witness: behind a hole of length -1 they do not; read at once the second run is over the first, in a range the first hides the second. |
| RunMaps.LcnOfVCN | ntfs/alloc.go:359-368 | The walk, with sums that wrap round, gives what its specification as a function says. |
| RunMaps.LookupTells | ntfs/alloc.go:359-368 | A lookup gives the cluster where there is one and a negative number where there is none, for every cluster number, if and only if no hole's first cluster plus its length is above zero, and no run goes past int64. |
| RunMaps.MergeRuns | ntfs/alloc.go:371-385 | The loop with its growing last run gives what its specification as a function says. |
| RunMaps.MergedHolds | ntfs/alloc.go:371-385 | With extents as the allocator gives them, the merged runs hold the clusters of both lists in order if and only if the last run is not a hole, or of negative length, that by its first cluster plus its length the first extent seems to go on from. |
| RunMaps.HoleTakesExtent | ntfs/alloc.go:359-385 | Witness: a hole of six clusters takes in the extent at cluster 5; and cluster 2 is found inside such a hole. |
| RunMaps.CellsAreClusters | ntfs/alloc.go:51-61 | What the allocator's runs map, cluster by cluster, is the list of clusters they were made of. |

## Left out

- Input and output: reader errors, short reads of zero bytes without an error, sink errors, a block callback that stops the scan and the `slowOnly` debug switch are not modelled; input is a byte string, output what the sink was given.
- gzip framing: header and trailer parsing, CRC, `SingleMember`, progress callbacks, nil sinks and further members of a file (gzipidx/index.go:279-291). The stream starts where the deflate data does.
- The stock decoder of restarts is a function that is assumed to deliver what RFC 1951 says for its start and dictionary. That it refuses some incomplete codes which the scanner takes is not modelled.
- The scanner is one object in the source; here it is a bit reader, an output buffer and a scanner that holds both. Its input buffer is a sequence, so reuse of the backing array is not modelled; totals are unbounded integers.
- Bit-shifted restarts (gzipidx/reader.go:18-74): no recorded restart point has a shift other than zero.
- Index.Build: for boundaries asked for less than 1 MiB and a match apart, whether an index with several of them is made when the last is less than a step before the end depends on when the buffer was flushed, and is not stated. Saving and loading an index and the parallelism of verification are left out.
- Scanners.Scanner.Scan: does not accept every raw deflate stream, because the code insists on ten bits after each code length symbol's start (ShortStream.Refused); its contract is exact, with that demand in the specification.
- TarListings.ChunksDoNotMatter: says nothing about chunks after the one that completes a zero block, where the property fails (TarListings.ChunksDoNotMatterWhen, TarListings.PastTheEnd). Header parsing is a parameter; negative sizes, which the source's parser lets through, are not modelled; nor are the selection of nested members, the sorting of entries by name, and the memory budget. Names from PAX records follow the code, which looks for "path=" where a record has its length first (gzipidx/index.go:764-785).
- Captures.ChunksDoNotMatter: asks that no chunk ends inside an extension's body; exactly which cuts there do harm is in Captures.CutInBody.
- TarListings.NamedByExtension: follows the code where it differs from tar's formats: a long name with an equals sign in it is passed over, and the body of a link name header (type K) counts as a name.
- Layer trees: the order of children in listings; modification times are integers; `TrimSpace` when a path is normalised; reading tar layers. Where the comment says names are relative, a rooted name such as "//a" leads through an empty component, as the code has it (EntryNames.NamesLeadInside); a directory met again keeps its old link name and device numbers.
- L2Cache.TableCache.Lookup: is one caller at a time; all interleavings of callers are in L2Cache.EveryRunSound, over the same two locked sections as functions.
- QcowDisks.Disk.ReadAt: what zlib makes of a compressed cluster is a parameter. Images whose cluster and table sizes together do not fit an int64, which the source opens or panics at, are not modelled.
- Disk views: lengths and offsets are unbounded, so an extent, chunk or run whose byte length does not fit an int64 is not modelled; nor is reading the headers of a sparse image or of a super partition.
- QedDisks.Disk.ReadAt: a data cluster beyond the end of the file leaves the caller's bytes as they were, as in the code, which lets end of file pass; QedDisks.BufferShows says exactly when. Header parsing when an image is opened is not modelled.
- Allocator.Volume.AllocClusters: the source returns an error without giving back what it took, and the model does the same. Locks, writes of cluster data and the MFT record bitmap are left out.
- IndexEntries.Deletes: asks that each entry is long enough for its key, as those the source builds are (ntfs/alloc.go:843-852). Comparing a name is a parameter. Splitting a full index into blocks is left out.
- UpdateSequences.StampAndApply: asks that the array lies behind the fields that say where it is; for the others UpdateSequences.ComesBackWhen says exactly which layouts come back. Arrays over a sector's last two bytes are not considered.
- RunMaps.LookupTells: asks that no length is negative; what a lookup says of such runs is in the contract of RunMaps.LcnOfVCN only. RunMaps.MergedHolds takes new runs as the allocator gives them, of positive length and within int64.
- NTFS path lookup, attributes and timestamps.
- All other formats and the command line, HTTP and MCP interfaces.
