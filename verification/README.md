# MLA archives: a verification model

MLA is an archive format and its Rust library: a writer that interleaves the
blocks of several entries into one stream and passes it down a stack of layers
(compression over encryption over signature over the file), and readers that
give random access back, through indexes and footers found by parsing lengths
from the end. This project models the library's logic in Dafny and proves what
its readers promise about what its writers wrote.

## Layout

| file | part of the system |
|---|---|
| `Io.dfy`, `Cursor.dfy` | bytes, little-endian integers, the byte source readers work on; runs of reads and seeks by any client |
| `Nonce.dfy`, `Aead.dfy` | the nonce schedule of section 5.2 of RFC 9180; the cipher, abstract |
| `EncryptFormat.dfy`, `EncryptWriter.dfy`, `EncryptReader.dfy`, `EncryptLayer.dfy` | encryption layer: chunk stream and size arithmetic, writer, reader for complete and truncated streams, header |
| `IdealCipher.dfy` | that what is assumed of tags when a truncated stream is read can be had, for every plaintext |
| `CompressFormat.dfy`, `CompressWriter.dfy`, `CompressReader.dfy` | compression layer: blocks and their index, writer, seekable reader |
| `SignatureLayer.dfy`, `StripHeadTail.dfy`, `Layers.dfy` | signature layer, views without head and tail, and whole archives with any of the eight stacks |
| `BlockFormat.dfy`, `Entries.dfy`, `Footer.dfy`, `FooterReader.dfy` | entry blocks, what sequences of them mean, and the footer |
| `ArchiveWriter.dfy`, `ArchiveReader.dfy`, `EntryReader.dfy` | writer, reader and linear extraction, reading one entry |
| `Salvage.dfy` | converting a truncated archive |
| `Splitter.dfy` | splitting standard input at a separator, from the command line tool |
| `Percent.dfy`, `Base64.dfy`, `KeyFile.dfy` | name escaping, section 4 of RFC 4648, key files |

`dafny verify dfyconfig.toml` checks the whole project.

## How it is modelled

- A class of the source is a class here, with its fields; loops stay loops. Each
  method's contract says what it does in terms of a value: the encrypted stream of a
  plaintext, the layout of compressed blocks, the bytes of a sequence of blocks.
  Ghost fields and ghost parameters name that value; they carry no computation.
- A sink is the byte string written to it, and takes all it is given. A source is
  an `Io.ByteSource`: a read call may return fewer bytes than asked, but none only
  at the end; a source may fail where another one ends.
- Sizes and positions are unbounded; where an overflow can be reached (the chunk
  counter, entry ids, lengths read from a file) it is written out. A source holds
  less than 2^63 bytes, as a seek offset demands, so sums of sizes of blocks in it
  cannot overflow.
- The cipher is a keystream per nonce, applied with XOR, and a tag function. Brotli is
  a pair of functions that are inverse on one block. A hasher is the bytes it
  was given; SHA-256 of an entry is an abstract function. Signing is a pair of
  functions whose results verify with the public key.
- A layer above another one reads a `ByteSource` of the lower reader's bytes. Two
  things justify that. First, each lower reader answers every client, that is every
  way of choosing the next operation from the replies so far, as a cursor on those
  bytes (`ServeView`, `ServeEncrypted`, `ServeCompressed`). A view does so for all
  clients. The encryption and compression readers do for clients that stay within
  `Permitted`; outside it, at the very end of the data and behind it, they differ from
  a cursor, as described below. Second, the layers above stay within it: a `ByteSource` keeps
  account of how it has been used (`Manners`), and the contracts of the compression
  reader, of `FromConfig`, and of an open archive and its entry readers say that they
  never read at the end of the layer below or seek past it, and that entries are read
  without a seek to its end (`InsideIsConsiderate`, `BeforeEndIsConsiderate`).

## What the proofs bring out

Facts about the code that a caller may not expect. Each is an exact condition,
proved for all inputs.

- Reading on after the end of an encrypted plaintext, or seeking to its end, yields
  undecrypted source bytes if the plaintext fills its last 128 KiB chunk, and only
  then (`EncryptReader.Read`, `EncryptReader.Seek`, predicates `Readable` and `Spent`).
- A `write` of no bytes to an encryption writer whose chunk is full opens a needless
  empty chunk. The final block is then checked under another sequence number, so
  such an archive is only accepted if one tag is valid under two nonces
  (`EncryptWriter.Write`, `SizeRecovered`, `FinalBlockChecked`).
- A truncated encrypted stream whose first chunk head is directly followed by the
  final block's magic, in a source of at most a chunk and a final block, is opened with its
  undecrypted bytes readable (`FirstLoadEmpty`, `OpenTruncated`).
- In truncated mode the last chunk of an encrypted stream, if not full, is refused although it is
  there if the magic that follows it also occurs earlier in it, if more than 34 bytes lie behind
  the space of a full chunk, as they do in an intact stream whose last chunk lacks fewer than eight
  bytes, or if the magic lies across the edge of that space and occurs behind it again
  (`WholeIffLastShows`).
- In compressed data a seek to the very end fails, and leaves the reader unusable, if and
  only if the end is a multiple of 4 MiB (`CompressReader.Seek`).
- `append_entry_content` does not check that its source has the announced number of bytes;
  a short block makes readers take what follows for content (`ShortBlockRunsOn`).
- `SeekFrom::End` on an entry moves correctly but answers with the entry's size,
  not with the position reached, and so does `SeekFrom::Current` once the end has been
  read (`ArchiveEntryDataReader.Seek`).
- The splitter never writes what it holds back at the end of input: the
  last entry lacks the longest proper prefix of the separator the input ends with
  (`AddFromStdinSeparated`, `StreamedIsBatch`, `HeldBackIsLost`).
- Unescaping silently drops bytes that are neither allowed nor part of an escape, so only
  strings without such bytes are escapes of what they unescape to (`EscapedUnique`).
- Base64 decoding ignores spare bits of the last character (`DecodeExact`).

## Model

| member | source | states |
|---|---|---|
| Io.U64RoundTrip | mla/src/lib.rs:846-860 | every u64 is read back from the eight bytes it is written as |
| Io.LEInjective | mla/src/lib.rs:853-860 | a fixed-width integer has one byte form only: writing what was read gives the same bytes |
| Io.LEByte | mla/src/lib.rs:853-860 | byte `i` of an integer's form is its digit of weight 256 to the power of `i` |
| NonceSchedule.ComputeNonce | mla/src/crypto/hpke.rs:163-179 | the loop keeps the first four bytes of the base and combines the last eight with the sequence number, its lowest byte last |
| NonceSchedule.XorBit | mla/src/crypto/hpke.rs:163-179 | combining two bytes sets exactly the bits in which they differ |
| NonceSchedule.NonceInjective | mla/src/crypto/hpke.rs:163-179 | distinct 64-bit sequence numbers give distinct nonces, for every base nonce |
| AeadCipher.ApplyTwice | mla/src/layers/encrypt.rs:471-484 | applying a nonce's keystream twice gives the bytes back |
| AeadCipher.ApplyConcat | mla/src/layers/encrypt.rs:471-484 | encrypting in pieces, each at its offset in the chunk, is encrypting the whole |
| EncryptFormat.ChunkCount | mla/src/layers/encrypt.rs:455-489 | the least chunk count for a length holds it, any other count that does is one more, and only when the length fills its chunks |
| EncryptFormat.ChunkInStream | mla/src/layers/encrypt.rs:53-57 | chunk `k` lies at `k` full chunk sizes and is head, ciphertext and tag under sequence number `k + 1` |
| EncryptFormat.ChunksStable | mla/src/layers/encrypt.rs:455-489 | later plaintext leaves the chunks already full unchanged |
| EncryptFormat.SizeRecovered | mla/src/layers/encrypt.rs:638-644 | the inner length alone gives back the plaintext length, for every length; the last chunk number gives the final block the writer's counter if and only if no needless empty chunk was opened |
| EncryptFormat.ShortLengths | mla/src/layers/encrypt.rs:968-995 | inner lengths no stream has: up to 58 bytes count as an empty plaintext, 59 to 73 are refused |
| EncryptFormat.PositionMapsInverse | mla/src/layers/encrypt.rs:1005-1032 | the map from inner positions undoes the map to them on every plaintext position, and lands between head and tag of the right chunk |
| EncryptFormat.InnerPositionInverse | mla/src/layers/encrypt.rs:1005-1032 | and the other way round, on every inner position of ciphertext |
| EncryptFormat.PositionMapFindsByte | mla/src/layers/encrypt.rs:873-877 | the byte at the mapped position is the encryption of the plaintext byte; head and tag have the same size, which the cache limit of the reader relies on |
| EncryptionWriting.EncryptWriter.constructor | mla/src/layers/encrypt.rs:340-406 | the first chunk is open, under counter 1, behind the given head |
| EncryptionWriting.EncryptWriter.RenewCipher | mla/src/layers/encrypt.rs:408-419 | returns the tag of the context closed, and moves to the next counter, or fails at the last one and changes nothing |
| EncryptionWriting.EncryptWriter.OpenChunk | mla/src/layers/encrypt.rs:461-468 | closes a full chunk with its tag and opens the next under the next number |
| EncryptionWriting.EncryptWriter.Write | mla/src/layers/encrypt.rs:455-489 | takes at most 4096 bytes and never past the chunk's end; the inner bytes stay head, closed chunks and the running one; a full chunk is closed by the next call, even of no bytes |
| EncryptionWriting.EncryptWriter.WriteAll | mla/src/layers/encrypt.rs:455-489 | however data is cut into nonempty writes, it is appended, and the chunk count is the least one |
| EncryptionWriting.EncryptWriter.Finalize | mla/src/layers/encrypt.rs:431-449 | leaves exactly head, all chunks with their tags, the final block under the next counter, and the end magic |
| EncryptionWriting.NoNonceUsedTwice | mla/src/layers/encrypt.rs:67-78 | in every state of a writer, the nonces of key commitment, data chunks and final block used so far are pairwise distinct, one per counter value, and no context has encrypted more than 128 KiB |
| EncryptionReading.MagicScanExact | mla/src/layers/encrypt.rs:688-743 | the scan finds a position if and only if the magic occurs in the two caches joined, across the boundary too, and that position is an occurrence |
| EncryptionReading.LoadFromStream | mla/src/layers/encrypt.rs:796-871 | over a writer's stream, loading chunk `k` opens it under the writer's sequence number, or reports the end exactly at the plaintext's end |
| EncryptionReading.LoadAuthentic | mla/src/layers/encrypt.rs:751-871 | whatever bytes the source has, if no tag in it verifies for any 64-bit number but for the writer's own chunks, a chunk that loads is the writer's chunk of that number |
| EncryptionReading.LoadWhole | mla/src/layers/encrypt.rs:751-871 | in a stream cut anywhere, a full chunk with more than 34 bytes behind it loads |
| EncryptionReading.SearchShows | mla/src/layers/encrypt.rs:688-785 | the two caches are searched so that a chunk's end is found if and only if it shows in the bytes of the stream: the final magic follows it and no other comes earlier in the order of the search |
| EncryptionReading.LoadsIffShown | mla/src/layers/encrypt.rs:751-871 | over a beginning of the writer's stream a chunk loads, with its own plaintext, if and only if its end shows |
| EncryptionReading.WholeIffLastShows | mla/src/layers/encrypt.rs:751-871 | with all chunks and the magic behind them in the source, all of the plaintext is read if and only if the end of the last chunk shows, and when that is, in terms of the bytes |
| EncryptionReading.LoadRefused | mla/src/layers/encrypt.rs:751-871 | without it a load fails for too few bytes, for no magic, or for a wrong tag |
| EncryptionReading.LoadCutChunk | mla/src/layers/encrypt.rs:764-775 | with unauthenticated data asked for, a chunk cut inside its ciphertext yields the plaintext of all the ciphertext there is |
| IdealCiphers.NothingForged | mla/src/layers/encrypt.rs:408-449 | for every plaintext and base nonce there is a cipher under which no tag is forged in the writer's stream, however it is cut |
| EncryptionReading.FirstLoadEmpty | mla/src/layers/encrypt.rs:1124-1134 | the first load of a truncated stream finds no chunk if and only if final magic follows the first head and at most a chunk and a final block are there |
| EncryptionReading.FinalBlockChecked | mla/src/layers/encrypt.rs:905-956 | the final block is accepted for the least chunk count; with a needless empty chunk acceptance would take one tag valid under two nonces |
| EncryptionReading.EncryptReader.LoadInCache | mla/src/layers/encrypt.rs:796-871 | opens the look-ahead chunk and fetches the one behind it; with nothing left it leaves the raw cache in place |
| EncryptionReading.EncryptReader.Read | mla/src/layers/encrypt.rs:873-901 | a read continues the plaintext at the position; after the end of a plaintext that fills its last chunk, and only then, reads return undecrypted source bytes; over a truncated or altered source every byte returned continues the writer's plaintext, and over a beginning of the writer's stream a read gets something if and only if the end of the chunk it is in shows |
| EncryptionReading.EncryptReader.Seek | mla/src/layers/encrypt.rs:1034-1115 | all three forms move exactly to the target in the plaintext and stay readable there, except at the end of one that fills its last chunk; a target behind the end is accepted, from the start or the position, if and only if its chunk would begin in the source |
| EncryptionReading.EncryptReader.SetAllPlaintextSize | mla/src/layers/encrypt.rs:968-995 | stores the size computed from the inner length |
| EncryptionReading.EncryptReader.CheckLastBlock | mla/src/layers/encrypt.rs:905-956 | succeeds if and only if the last 34 bytes start with the final content, encrypted and with its tag under the counter behind the last chunk; otherwise says what is wrong |
| EncryptionReading.EncryptReader.Initialize | mla/src/layers/encrypt.rs:958-966 | never succeeds without an acceptable final block, always on a stream with the least chunk count, and then stands at its start |
| EncryptionReading.ReadFrom | mla/src/layers/encrypt.rs:873-901 | for every nonempty plaintext, a seek of any form inside it and reads of any sizes up to the first empty one yield exactly the rest |
| EncryptionReading.ServeEncrypted | mla/src/layers/encrypt.rs:873-1115 | every client that seeks no further than the end, and does not go on reading at the end of a plaintext that fills its last chunk, is answered as by a cursor on the plaintext, for any number of reads and seeks |
| EncryptionReading.InsideIsConsiderate | mla/src/layers/encrypt.rs:873-1115 | a client that reads before the end and seeks into the plaintext is such a client |
| EncryptionReading.OpenTruncated | mla/src/layers/encrypt.rs:1124-1134 | fails exactly when the first load does; over a stream's beginning it opens at a first chunk if and only if the end of that shows; a load that finds nothing is not an end: the undecrypted cache stays readable |
| EncryptionReading.ReadAuthenticated | mla/src/layers/encrypt.rs:1151-1155 | whatever the source holds, if no tag in it is forged and the first load does not find nothing, what is read before the first error or empty read is a prefix of the plaintext made of whole chunks; over a beginning of the writer's stream it is exactly the chunks up to the first whose end does not show |
| EncryptionLayer.HeaderRoundTrip | mla/src/layers/encrypt.rs:498-511 | the layer's header reads back to the persistent config, and stops where the chunks start |
| EncryptionLayer.ReadEncryptionHeader | mla/src/layers/encrypt.rs:498-511 | field by field it reads what the header parser defines, with the header's length |
| EncryptionLayer.LayerParts | mla/src/layers/encrypt.rs:518-547 | head and tail of the layer, stripped, leave exactly the encrypted stream |
| EncryptionLayer.OpenEncryption | mla/src/layers/encrypt.rs:518-575 | over a written layer with the right key the reader stands at the start of the plaintext; a config verified under a signature replaces the one read |
| EncryptionLayer.Expose | mla/src/layers/encrypt.rs:550-560 | reads of any one size drain exactly the plaintext; a source of it stands for the reader in the layer above, for clients as in `ServeEncrypted` |
| StripHeadTail.WindowsCompose | mla/src/layers/strip_head_tail.rs:52-72 | stacked views add their heads and their tails |
| StripHeadTail.StripHeadTailReader.Create | mla/src/layers/strip_head_tail.rs:52-72 | refuses exactly a head and tail longer than the inner layer; else shows the window between them |
| StripHeadTail.StripHeadTailReader.Seek | mla/src/layers/strip_head_tail.rs:103-149 | a cursor on the window: all targets inside it and no others, inner position kept at head plus own position |
| StripHeadTail.StripHeadTailReader.Read | mla/src/layers/strip_head_tail.rs:152-168 | continues the window at the position, never with a byte of head or tail, and with nothing only at its end; a read before the end of the window is one before the end of the inner layer |
| StripHeadTail.ServeView | mla/src/layers/strip_head_tail.rs:81-168 | every client is answered as by a cursor on the window, for any number of reads and seeks |
| CompressFormat.BlockInCompressed | mla/src/layers/compress.rs:316-361 | the compressed sizes before a block sum to its offset, and its bytes lie there |
| CompressFormat.SizesRoundTrip | mla/src/layers/compress.rs:96-122 | the size index reads back |
| CompressFormat.SizesBytes | mla/src/layers/compress.rs:124-162 | where number of blocks, their sizes and the last block's size lie in the index |
| CompressFormat.BlockCount | mla/src/layers/compress.rs:710-754 | the fewest 4 MiB blocks that hold the data |
| CompressionWriting.CompressWriter.Write | mla/src/layers/compress.rs:710-754 | however much of its input the compressor takes, every block but the open one stays full, compressed and indexed; a nonempty write takes something |
| CompressionWriting.CompressWriter.WriteAll | mla/src/layers/compress.rs:710-754 | appends all of the data, whatever block boundaries it crosses, opening the fewest blocks that hold it |
| CompressionWriting.CompressWriter.Finalize | mla/src/layers/compress.rs:667-707 | leaves the data cut at 4 MiB, each block compressed, then options, the index of compressed sizes and last block size, and its length |
| CompressionReading.IndexFindsBlock | mla/src/layers/compress.rs:124-161 | over a writer's layout the index gives each block's place and sizes, and the total length |
| CompressionReading.IndexRecovered | mla/src/layers/compress.rs:369-391 | the index is found by its length at the end and reads back |
| CompressionReading.CompressReader.Initialize | mla/src/layers/compress.rs:369-391 | over a writer's layout the reader is ready at position 0 with the writer's index |
| CompressionReading.CompressReader.OpenBlock | mla/src/layers/compress.rs:243-361 | a decompressor on exactly the block that starts at the position, and an end-of-stream error at or past the end; whatever the index says, what is decompressed or which error it is |
| CompressionReading.CompressReader.Read | mla/src/layers/compress.rs:394-465 | a read continues the data at the position, is empty only at its end, and keeps the position |
| CompressionReading.CompressReader.SeekStart | mla/src/layers/compress.rs:470-511 | succeeds if and only if the block of the target starts before the end of the data; a failure leaves the unusable state |
| CompressionReading.CompressReader.Seek | mla/src/layers/compress.rs:468-567 | all three forms move to any target strictly inside the data; to the end itself if and only if it is not a block boundary |
| CompressionReading.ReadFrom | mla/src/layers/compress.rs:394-567 | for every nonempty data, a seek of any form before the end and reads of any sizes yield exactly the rest |
| CompressionReading.ServeCompressed | mla/src/layers/compress.rs:394-567 | every client that seeks no further than the end, and not to an end that fills its block, is answered as by a cursor on the data, for any number of reads and seeks |
| CompressionReading.BeforeEndIsConsiderate | mla/src/layers/compress.rs:394-567 | a client whose seeks go to positions before the end is such a client |
| BlockFormat.Dump | mla/src/format.rs:118-163 | field by field, appends exactly the block's encoding |
| BlockFormat.ParseEncoded | mla/src/format.rs:165-200 | parsing what was dumped gives the block back and stops in front of its content |
| BlockFormat.CutHeaderFails | mla/src/format.rs:165-200 | a header cut anywhere is an error: of the end of the file inside a hash, of the format anywhere else |
| BlockFormat.ReadHeader | mla/src/format.rs:165-200 | reads field by field what the parser defines, and consumes at least five bytes |
| BlockFormat.ReadName | mla/src/entry.rs:502-510 | reads a name of 1 to 1024 bytes, and refuses others and cut ones |
| BlockFormat.ReadOpts | mla/src/lib.rs:310-326 | skips options, also ones the source does not fully hold |
| Entries.LegalPrefix | mla/src/lib.rs:706-813 | every prefix of a legal sequence of blocks is one, and each next block is acceptable there |
| Entries.LegalNames | mla/src/lib.rs:706-717 | no two entries share a name |
| Entries.BlockAt | mla/src/lib.rs:683-703 | the stream holds every block at its recorded offset, with the next one right behind it |
| Entries.OccurrencesExact | mla/src/lib.rs:683-703 | the recorded blocks of an id are exactly its blocks |
| Entries.IndexExact | mla/src/lib.rs:683-703 | each recorded item is the output position and content size of its block, in order |
| Entries.IndexIncreasing | mla/src/lib.rs:683-703 | offsets of an entry strictly increase |
| Entries.EntryShape | mla/src/lib.rs:706-813 | an entry is one start, nonempty contents, and at most one end, last, with the hash of all its content |
| Entries.ContentAt | mla/src/lib.rs:758-781 | the recorded sizes sum to the bytes appended, and each block holds the bytes that follow the sizes before it |
| Footer.SortNames | mla/src/lib.rs:355-366 | exactly the keys of the map, sorted by their bytes, whatever the map's order |
| Footer.LessExact | mla/src/entry.rs:110 | a name comes before another if and only if it begins it or has the smaller byte where they first differ |
| Footer.SortedUnique | mla/src/lib.rs:366 | there is one sorted list of a set of names, so the footer does not depend on the map's order |
| Footer.FooterRoundTrip | mla/src/lib.rs:348-404 | a footer reads back to the map of its entries, whatever follows it |
| Footer.ToMapExact | mla/src/lib.rs:390-397 | with distinct names the map has exactly the pairs listed |
| FooterReading.ReadInfo | mla/src/lib.rs:944-990 | the loop over offsets and sizes reads what the parser defines |
| FooterReading.ReadFooter | mla/src/lib.rs:384-404 | the loop over entries reads what the footer parser defines, and nothing when the tag says there is no index |
| ArchiveWriting.RemoveItemExact | mla/src/lib.rs:560-563 | of distinct ids exactly the one is removed |
| ArchiveWriting.IndexMatchesStep | mla/src/lib.rs:683-703 | recording a block under its id keeps every index the index of that id's blocks |
| ArchiveWriting.ArchiveWriter.RecordOffsetAndSizeInIndex | mla/src/lib.rs:683-703 | appends output position and size to the id's index, or fails on an unknown id and changes nothing |
| ArchiveWriting.ArchiveWriter.StartEntry | mla/src/lib.rs:706-753 | succeeds exactly for a name not taken while ids last, with a fresh id and one start block; a refusal changes nothing |
| ArchiveWriting.ArchiveWriter.AppendEntryContent | mla/src/lib.rs:758-781 | succeeds exactly for an open entry, with one content block, none for no bytes; a refusal changes nothing; from a source shorter than announced a short block is written |
| ArchiveWriting.ShortBlockRunsOn | mla/src/format.rs:142-147 | such a block parses like a whole one, so that what follows it is taken for its content |
| ArchiveWriting.ArchiveWriter.EndEntry | mla/src/lib.rs:784-813 | succeeds exactly for an open entry, with an end block carrying the hash of all its content |
| ArchiveWriting.ArchiveWriter.Finalize | mla/src/lib.rs:644-679 | refused exactly while an entry is open; else the output is the blocks, end mark, footer of exactly the entries, names ascending by their bytes, tail options |
| ArchiveWriting.FooterDecodes | mla/src/lib.rs:348-404 | the decoded footer maps exactly the entries' names to the offsets and sizes of their blocks |
| EntryReading.HeaderAt | mla/src/entry.rs:594-602 | at a recorded offset the block's header parses, and its content and the next block follow |
| EntryReading.ItemBlock | mla/src/entry.rs:534-544 | the items of an index refer to a start, then contents, then an end, with only other entries' blocks between them |
| EntryReading.ItemContent | mla/src/entry.rs:670-680 | and each carries the content bytes that follow the sizes before it |
| EntryReading.OpenEntry | mla/src/entry.rs:547-569 | stands behind the start block, at position 0 of the entry's content; with an index that leads elsewhere, which error it is |
| EntryReading.FindFromStart | mla/src/entry.rs:672-696 | finds the block of a position and how far it is into it, if and only if the position is not past the end |
| EntryReading.FindFromEnd | mla/src/entry.rs:721-746 | the same counted from the end |
| EntryReading.ArchiveEntryDataReader.MoveToBlock | mla/src/entry.rs:586-592 | the source stands at the header of the indexed block |
| EntryReading.ArchiveEntryDataReader.Read | mla/src/entry.rs:594-666 | the next bytes of the content, none only at its end; other entries' blocks are skipped, and the recursion ends |
| EntryReading.ArchiveEntryDataReader.ReadExact | mla/src/entry.rs:711 | reads exactly that many bytes, or reports the end |
| EntryReading.ArchiveEntryDataReader.Seek | mla/src/entry.rs:668-797 | all three forms move to any target from 0 to the size, refuse all others and then change nothing; from the end the answer is the size, not the position |
| EntryReading.ServeEntry | mla/src/entry.rs:594-797 | every client is answered as by a cursor on the content, for any number of reads and seeks; only the numbers seeks answer with may differ |
| ArchiveReading.NextHeader | mla/src/helpers.rs:121-157 | behind any number of blocks lies the next block's header, or the end mark |
| ArchiveReading.ExtractBlocks | mla/src/helpers.rs:121-157 | the loop ends on every source, five bytes or more a pass, with the result `Extracted` defines for its bytes; over a legal stream every target gets exactly the content of the entry of its name |
| ArchiveReading.FooterFound | mla/src/lib.rs:1114-1132 | the lengths read from the end lead to the footer |
| ArchiveReading.Open | mla/src/lib.rs:1114-1139 | over a finished entries stream the reader holds the decoded footer, without a read at the end of the source or a seek to it; nothing else than an entries stream opens |
| ArchiveReading.ArchiveReader.NameKnown | mla/src/lib.rs:1186-1196 | the footer knows exactly the entries' names, each with the index of its complete entry |
| ArchiveReading.ArchiveReader.ListEntries | mla/src/lib.rs:1145-1151 | exactly the names of the entries |
| ArchiveReading.ArchiveReader.GetEntry | mla/src/lib.rs:1186-1209 | a reader at position 0 of exactly the named entry's content, with its size, or nothing if no entry has the name |
| ArchiveReading.ArchiveReader.GetHash | mla/src/lib.rs:1154-1181 | the hash of the named entry's whole content, or nothing |
| ArchiveReading.ArchiveReader.LinearExtract | mla/src/helpers.rs:103-158 | delivers to every exported name the bytes `GetEntry` shows for it, and to no other |
| Salvage.Fill | mla/src/lib.rs:1389-1423 | fills the buffer as far as block, buffer and source go; before a failure keeps what was read |
| Salvage.OnStart | mla/src/lib.rs:1316-1345 | an id or name in use stops the conversion; else the output gets an entry of that name |
| Salvage.OnContent | mla/src/lib.rs:1346-1434 | what the source has of the content goes to the right output entry; a failure is reported in that entry |
| Salvage.OnEnd | mla/src/lib.rs:1435-1475 | closes the output entry if and only if the hash is that of the content seen |
| Salvage.EndOpenEntries | mla/src/lib.rs:1486-1502 | ends exactly the entries still open and lists each of their names once |
| Salvage.OnBlock | mla/src/lib.rs:1300-1484 | one pass of the loop: the output keeps mirroring the entries seen, and each block that stops it is reported for its own reason |
| Salvage.CutStream | mla/src/lib.rs:1300-1316 | what a reader finds at a block of a stream cut anywhere: the header, or an error, and the beginning of the content |
| Salvage.ReceivedPrefix | mla/src/lib.rs:1372-1386 | what a cut stream holds of an entry is a beginning of it |
| Salvage.ReceivedWhole | mla/src/lib.rs:1372-1386 | and all of it once its end block is there |
| Salvage.ReadBlocks | mla/src/lib.rs:1300-1484 | entries seen and stopping reason are those `Find` defines for the source's bytes; over the beginning of a stream the entries are exactly what it holds, and the reason is the one for the place of the cut |
| Salvage.ConvertToArchive | mla/src/lib.rs:1284-1513 | on any source the output is a complete archive of exactly the entries `Find` defines for its bytes, all closed; exactly those not ended are reported, with what stopped the conversion; on the beginning of a stream these entries are exactly what it holds, and what stopped it is told by where the cut lies: unexpected end of file inside a hash, end of the original's data behind the end mark, an error on the next block elsewhere |
| Salvage.SalvageIsSafe | mla/src/lib.rs:1284-1513 | every output entry begins the original of its name, those whose end was there are whole, and nothing is lost once all blocks are there |
| SignatureLayer.SignaturesRoundTrip | mla/src/crypto/hybrid_signature.rs:83-147 | signature data of any number of keys reads back |
| SignatureLayer.SignaturesUnique | mla/src/crypto/hybrid_signature.rs:83-147 | and nothing but the written form of signatures is read as them |
| SignatureLayer.SignaturesExact | mla/src/layers/signature.rs:67-111 | an Ed25519 and an ML-DSA signature for every key, in the order of the keys |
| SignatureLayer.SignatureWriter.Write | mla/src/layers/signature.rs:55-59 | what is passed on is what is hashed, behind header and layer header |
| SignatureLayer.SignatureWriter.Finalize | mla/src/layers/signature.rs:67-111 | leaves the inner layer, tail options, both signatures of every key over header, layer header and inner layer, and their lengths |
| SignatureLayer.OwnKeyVerified | mla/src/crypto/hybrid_signature.rs:22-67 | a signing key's public key is verified by the key's own two signatures |
| SignatureLayer.VerifiedExact | mla/src/layers/signature.rs:223-245 | over the signatures of some keys, a key is verified if and only if it verifies an Ed25519 signature of one of them and an ML-DSA signature of one |
| SignatureLayer.CheckKey | mla/src/layers/signature.rs:226-238 | a key needs a verifying signature of each kind |
| SignatureLayer.CheckSignatures | mla/src/layers/signature.rs:223-245 | the keys accepted are exactly those that verify some Ed25519 and some ML-DSA signature, and it is an error exactly when there are none |
| SignatureLayer.LayerParts | mla/src/layers/signature.rs:170-209 | the lengths read backwards lead to exactly the signatures written, and head and tail leave exactly the inner layer |
| SignatureLayer.DeserializeSignatures | mla/src/crypto/hybrid_signature.rs:139-147 | the loop reads what the parser defines |
| SignatureLayer.OpenSignature | mla/src/layers/signature.rs:157-253 | shows exactly the inner layer; hashes exactly what the writer hashed; with the check on succeeds if and only if a key verifies signatures of both kinds, and returns exactly those keys |
| Layers.WriteArchive | mla/src/lib.rs:567-679 | for every choice of layers, the writers stacked leave exactly the archive's byte form, in the fewest blocks; it succeeds whenever the sizes fit their fields |
| Layers.OpenArchive | mla/src/lib.rs:1029-1064 | header and tail are found from the ends, leaving exactly what lies between; without the magics, or of another version, nothing opens |
| Layers.MiddleStarts | mla/src/lib.rs:1066-1112 | the first bytes tell the layers apart |
| Layers.OpenSigned | mla/src/lib.rs:1066-1095 | the signature step, for archives with and without signature, and what it demands |
| Layers.OpenEncrypted | mla/src/lib.rs:1097-1107 | the encryption step, and what it demands |
| Layers.OpenCompression | mla/src/layers/compress.rs:206-227 | over a written layer the reader stands at the start of the data, and the layer below was not read at its end nor sought past it |
| Layers.FromConfig | mla/src/lib.rs:1025-1139 | on a finished archive of any of the eight stacks: opens if and only if signature, encryption and key demands are met, and not if the check is on and no key verifies a signature of each kind; then every layer showed exactly its writer's bytes, the footer is decoded, the hashed range is the one signed, and an encryption or compression layer right below the entries was only read and sought before its end |
| Layers.UnsignedRefused | mla/src/layers/signature.rs:223-245 | with the check on, an archive of which no reader's key verifies any Ed25519 signature, or none any ML-DSA signature, is refused |
| Layers.WriteThenOpen | mla/src/lib.rs:567-1139 | with the right keys, what is written with any stack of layers is read back; writing fails only where sizes do not fit |
| Splitting.SplitExact | mlar/src/main.rs:783-825 | the split joins back to the input, and no piece runs into a separator early |
| Splitting.SplitUnique | mlar/src/main.rs:783-825 | it is the only list of pieces with that property |
| Splitting.SplitAppend | mlar/src/main.rs:767-779 | more input only changes the last piece |
| Splitting.HeldInBuffer | mlar/src/main.rs:827-837 | the suffix held back in the buffer is the longest for the whole piece |
| Splitting.SplitBuffer | mlar/src/main.rs:783-825 | what was already written of the open piece does not matter for splitting the buffer |
| Splitting.ChunkSplit | mlar/src/main.rs:766-862 | splitting buffer after buffer splits the input |
| Splitting.SplitChunk | mlar/src/main.rs:783-825 | finds the separators of a buffer from left to right, one ended and one started entry each; with an empty separator it fails |
| Splitting.ProcessBuffer | mlar/src/main.rs:780-862 | writes the buffer but for what is held back, which moves to the front and leaves room |
| Splitting.AddFromStdinSeparated | mlar/src/main.rs:744-867 | however reads cut the input, the entries are its leftmost split, the last without the longest proper separator prefix at its end; it fails exactly when a piece finds no name |
| Splitting.StreamedIsBatch | mlar/src/main.rs:827-867 | that is the batch split if and only if the last piece does not end with the beginning of a separator |
| Splitting.HeldExact | mlar/src/main.rs:827-837 | what is held back ends the piece and begins the separator, and nothing longer does |
| Splitting.HeldBackIsLost | mlar/src/main.rs:771-775 | an input of which a byte is not written |
| Percent.EscapeBytes | mla/src/helpers.rs:18-32 | the loop computes the escape |
| Percent.UnescapeBytes | mla/src/helpers.rs:37-60 | the loop computes the unescape |
| Percent.RoundTripExact | mla/src/helpers.rs:18-60 | unescaping undoes escaping if and only if `%` is not preserved or nothing was escaped |
| Percent.EscapedUnique | mla/src/helpers.rs:37-60 | with `%` not preserved, a string unescapes to `x` with nothing but allowed bytes outside escapes if and only if it is the escape of `x` |
| Percent.HexTable | mla/src/helpers.rs:62-87 | the digits of an escape are lower case hexadecimal |
| Base64.RoundTrip | mla/src/base64.rs:10-115 | decoding undoes encoding for every byte string |
| Base64.EncodeShape | mla/src/base64.rs:10-55 | four characters for every three bytes begun, all of the alphabet, padding only at the end |
| Base64.EncodeTable | mla/src/base64.rs:10-55 | up to three bytes are written six bits a character through the standard's table, with padding |
| Base64.DecodeExact | mla/src/base64.rs:60-115 | a nonempty string that decodes is the encoding of its value if and only if the spare bits of its last character are zero |
| Base64.EncodeBytes | mla/src/base64.rs:10-55 | the loops compute the encoding, or report a length that overflows |
| Base64.DecodeBytes | mla/src/base64.rs:60-115 | the loops compute the decoding |
| KeyFiles.KeyFileRoundTrip | mla/src/crypto/mlakey.rs:420-438 | for any format of plain lines a key file gives its keys back, also with every line end replaced by underscores |
| KeyFiles.FormatsPlain | mla/src/crypto/mlakey.rs:29-45 | no line of the two formats holds a line end or an underscore |
| KeyFiles.KnownFilesRoundTrip | mla/src/crypto/mlakey.rs:420-438 | private and public key files do so for all keys of their fixed sizes |
| KeyFiles.SplitLinesOf | mla/src/crypto/mlakey.rs:88-121 | lines joined with either line end split into themselves |
| KeyFiles.ReadWhole | mla/src/crypto/mlakey.rs:48-84 | for every way reads are cut, exactly the source; an error exactly when it fails |
| KeyFiles.SplitSeparator | mla/src/crypto/mlakey.rs:89-109 | the loop finds the line that the splitter defines |
| KeyFiles.SplitInFive | mla/src/crypto/mlakey.rs:88-121 | five lines and nothing behind them |
| KeyFiles.ReadKeyOpts | mla/src/crypto/mlakey.rs:138-178 | options are skipped by chunks, and must all be there |
| KeyFiles.ReadKeyLine | mla/src/crypto/mlakey.rs:181-211 | reads the two keys of a line that the line parser defines |
| KeyFiles.WriteKeyFile | mla/src/crypto/mlakey.rs:510-521 | writes header, the two lines of coded method, options and keys, the options line and the footer, each with its line end; fails only if a coded length overflows, which it never does for keys of the fixed sizes in the two formats |
| KeyFiles.OptionsLine | mla/src/crypto/mlakey.rs:127-135 | the options line is "AA==", which decodes to no options |
| KeyFiles.ReadKeyFile | mla/src/crypto/mlakey.rs:420-438 | reads back what was written, however reads are cut |

## Left out

- Layers.WriteThenOpen: as in `FromConfig`, a layer is read through a source of the bytes of the reader below, not through that reader; "How it is modelled" says what is proved of both.
- Layers.FromConfig: only finished archives and, if a key is found, the writer's key; on other files the steps `OpenArchive`, `LocateSignatures`, `LocateStream`, `OpenCompression` and `Open` are modelled with their error returns but nothing is stated of the whole.
- Layers.OpenEncrypted: how a reader finds the key (`load_persistent`: shared secrets, private keys, key commitment) is a function parameter; no more is assumed of it than that a key found is the writer's.
- Layers.OpenArchive: a seek before the start of the raw layer is an error here; the source clamps it to the start, which only matters for files too short to be archives.
- EncryptionReading.ReadAuthenticated: no tag in the source is forged, an assumption on cipher and source that `NothingForged` shows can be met; reading unauthenticated data has a theorem for one load (`LoadCutChunk`), not for whole runs.
- EncryptionReading.EncryptReader.Read: after an error or an empty read of a truncated stream nothing is stated.
- EncryptionReading.EncryptReader.Seek: what is read after a seek past the end of the plaintext is not stated.
- CompressionReading.CompressReader.Read: over a damaged layout, or after a failed operation, nothing is stated.
- CompressionWriting.CompressWriter.Write: a block's bytes are emitted when it is closed; how brotli buffers is not modelled.
- ArchiveWriting.ArchiveWriter.AppendEntryContent: after a short block nothing is stated of the calls that follow.
- Salvage.ConvertToArchive: a source's failure stands for any I/O error; opening the truncated layers above it is not modelled.
- Splitting.AddFromStdinSeparated: with an empty separator only failure is stated; for a failing standard input only that the writer stays valid.
- ArchiveReading.Open: damaged footers have no contract beyond the parser's own error cases.
- The truncated reader of the compression layer and its brotli stream reader depend on brotli's internal buffering.
- AES-GCM, X25519, ML-KEM, Ed25519, ML-DSA, HKDF, SHA-2, random numbers and brotli themselves are library code.
- Decoding of key, ciphertext and signature bytes into curve points or lattice elements, which may refuse some of them.
- Zeroization, constant time, configuration builders, error messages, entry names as paths, key derivation paths, the language bindings and the rest of the command line tool.
