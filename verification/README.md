# A model of the ISO 9660 driver

The driver has two halves that share no code. `Builder` (create.go) keeps a mutable tree of directories and files and
masters it into a flat image: it assigns 8.3 identifiers, numbers the directories, allocates extents with a running
sector cursor, and writes every region at its absolute offset. The reader (volume.go, dirrecord.go, read.go, openfile.go,
fs.go, rockridge.go) scans an image back. This project models both and proves that reading undoes writing, together with
the laws each half promises on its own: gap-free allocation, directory extents that scan back, random access that agrees
with whole-file reading, multi-extent merging that inverts splitting, Rock Ridge names and links that survive chunking,
and symbolic-link resolution that terminates on every graph.

How it is organised:

- `Bytes`, `Ordering`, `Paths`: byte orders, lexicographic order, sorting by key, slash-separated paths.
- `Identifiers`, `DirRecords`, `DirExtents`, `MultiExtents`: identifiers, one directory record, a directory extent, and
  files recorded in several extents; the writer's and the reader's side of each.
- `Trees`, `Plans`: the tree a builder stands for, as a map from paths to entries, and layout as mathematics over it.
- `Builders`, `Siblings`, `Naming`, `Numbering`, `Placing`, `Layouts`, `Allocations`: `Node` and `Builder` as classes,
  `layout` step by step over their fields, and where it puts everything.
- `PathTables`, `DirWriters`, `Volumes`, `Images`, `Mastering`: serialising, and `WriteTo` onto a device.
- `Readers`, `OpenFiles`: whole-file reading and random access over a backing reader.
- `Susp`, `RockRidge`, `Resolving`, `FileSystems`, `RockRidgeImages`: System Use entries, Rock Ridge attributes,
  resolution, the opened filesystem, and what it shows of a Rock Ridge image.
- `RoundTrips`, `Lookups`, `PlainNames`, `Capacity`, `EndToEnd`: reading undoes writing, on every tree that fits, and a
  bound a caller can check under which a tree does.

Lemmas whose names end in `Means` (or `Mean`) say what a specification function is in terms of bytes, characters and
offsets, without naming the functions it is made of.

Conventions. A name given to the builder is the sequence of code points of a valid UTF-8 string; bytes on disk are
sequences of integers below 256. The fixed-width arithmetic of layout is written out with its wrap-around; `Fits` is the
bound on a tree under which none of it wraps. A backing reader is a function from offset and length to the bytes
delivered and an error; `Conforms` is the io.ReaderAt contract, and `Honest` says that reads inside the data succeed
without error. A device is a function from offset and length to the bytes it takes. Timestamps are arbitrary bytes of
the right length. Case folding of names and decoding of UTF-16 are parameters.

Where the code and its comments disagree the code is followed: `splitPath` drops "" and "." but keeps "..", despite the
comment on link targets in fs.go; CE continuation areas are followed, despite the file comment of rockridge.go.

Facts that turn out to hold only under a condition are stated with it:

- Every entry of a mastered image is found by its path except a file `FOO;1` beside a directory `FOO`, and entries below
  a directory of more than 16 MiB, which is mastered but refused by the reader (`Lookups.FoundExactly`).
- Every file found reads back except, with the image size unknown, one of more than 1 GiB (`Lookups.FilesReadBack`).
- `sectorsFor` is exact exactly up to 2^32 - 2048 (`Plans.SectorsForExact`).
- A directory record reads back exactly for identifiers of at most 221 bytes (`DirRecords.ParseEncodedLimit`).
- A path table reads back exactly while every parent's number fits 16 bits (`PathTables.PtTableDecodes`).
- Areas of System Use entries can be scanned one after the other exactly when the first is tiled by entries
  (`Susp.TilingIsExact`).
- A continuation area or a primary root that cannot be read is silently passed over
  (`FileSystems.UnreadableAreaEndsChain`, `FileSystems.UnreadableRootMissesRockRidge`).
- Whole-file reading accepts a full read that comes with io.EOF, random access reports it as an error
  (`OpenFiles.FullReadWithEof`).

## Model

| member | source | states |
|---|---|---|
| `EndToEnd.MasterAndOpen` | create.go:126-179 | on a device that takes whole writes, mastering a builder's tree and opening what the device holds, its size known or not, succeeds over a reader that does not fail; over any reader, what is opened is the filesystem of that tree |
| `EndToEnd.StoreAndLoad` | create.go:87-102 | a session that adds a file, masters, opens the result and reads the file under the path it is shown at returns the bytes given, on any tree of at most a thousand entries and files of at most 1 GiB; it fails only if AddFile, device or reader do |
| `EndToEnd.StoreAndLoadSamePath` | create.go:87-102 | where every name is a level 1 identifier, the same under the very path the file was added with |
| `PlainNames.SamePathReadsBack` | fs.go:224-230 | where every name is a level 1 identifier, a file reads back under any spelling of the path it was stored under |
| `PlainNames.CleanPathIsPath` | create.go:231-248 | where every name is a level 1 identifier, the path the reader shows is made of the names themselves |
| `PlainNames.IdIsName` | create.go:591-608 | such a name is its own identifier, with ";1" added for a file |
| `PlainNames.SameNamesListed` | fs.go:234-254 | such a tree is listed under its names, directories marked 2 and files 0, each with the sector of its extent |
| `PlainNames.AddFileKeepsLevelOne` | create.go:87-102 | adding a file under a path of such names keeps the tree such |
| `Capacity.SmallTreesFit` | create.go:184-226 | every tree of at most a thousand entries and files of at most 1 GiB fits the 32-bit fields, and none of its directories is too large for the reader |
| `Lookups.FoundExactly` | fs.go:176-221 | over an honest reader, looking up the cleaned path of an entry finds it exactly if no directory above it is over 16 MiB and it is not a file that a directory of the same identifier shadows; over any reader, what is found is the entry or what shadows it |
| `Lookups.FilesReadBack` | fs.go:224-230 | reading a file under its cleaned path returns its bytes and nothing else over any reader; over an honest one it succeeds exactly if no directory above is over 16 MiB, the file is at most 1 GiB or the image size known, and no directory shadows it |
| `Lookups.DirectoriesListBack` | fs.go:234-254 | listing a directory under its cleaned path returns exactly its children, in identifier order, with their kinds and extents, over any reader; over an honest one it succeeds exactly if neither it nor a directory above is over 16 MiB |
| `Lookups.RawWalkFinds` | read.go:105-148 | following identifiers as they stand on disk leads to the entry, shadowed or not, exactly if no directory above it is over 16 MiB |
| `Lookups.LookupStays` | fs.go:176-221 | no path, however spelt, leads outside the tree, however the reader fails |
| `Lookups.ReadsOnlyFiles` | fs.go:224-230 | whatever path a file is read under, and however the reader fails, the bytes returned are exactly those of one file of the tree |
| `Lookups.EnterFinds` | fs.go:181-206 | looking up one cleaned identifier in a mastered directory leads to its entry or to the directory that shadows it, exactly if the directory is at most 16 MiB |
| `Lookups.ShadowedMeans` | dirrecord.go:86-101 | an entry is shadowed exactly if it is a file and a directory beside it has the same cleaned identifier |
| `Lookups.NothingShadowed` | create.go:239-245 | siblings with distinct cleaned identifiers are never shadowed |
| `Lookups.ShadowedWitness` | create.go:239-245 | in the tree of a directory "F" and a file "f" the file is shadowed |
| `RoundTrips.OpensAsMounted` | fs.go:40-65 | opening an image of a tree, if it succeeds, yields its volume and chooses the plain primary tree, whatever else can be read; over an honest reader it succeeds |
| `RoundTrips.VolumeReads` | volume.go:44-90 | the descriptor scan of a mastered image yields the builder's volume |
| `RoundTrips.DirReads` | read.go:105-148 | every directory of a mastered image reads as ".", ".." and each child with its identifier, extent and kind, unless it is over 16 MiB: that is refused |
| `RoundTrips.DirectoryEntries` | create.go:308-328 | a directory read back from a mastered image has "." with its own place and size, ".." with those of the directory above it (the root for the root), and each child with its identifier, kind, place and size, in identifier order |
| `RoundTrips.DescriptorsOnDisk` | create.go:401-442 | sixteen zero sectors, a primary descriptor that gives the image's size and the places of both path tables, the tables at those places, and a terminator |
| `RoundTrips.FileReads` | read.go:210-268 | every file of a mastered image reads as exactly its bytes, unless it is over 1 GiB and the image size is unknown: that is refused |
| `Images.ImageMastered` | create.go:126-179 | in the finished image, and in anything that starts with it, system area, descriptors, both path tables and the extent of every entry each hold exactly what was serialised for them |
| `Images.ImageLength` | create.go:446-469 | the volume size in the descriptor times 2048 is the written length |
| `Images.ContentLength` | create.go:288-303 | every extent fills exactly the sectors allocated to it |
| `Images.PaddedMeans` | create.go:674-682 | data is padded with zeros to the next whole sector, and no further |
| `Mastering.WriteTo` | create.go:126-179 | succeeds on every device that takes whole writes, and on success leaves the image of the tree on the device, region by region, and what was there before past its end |
| `Mastering.WriteFiles` | create.go:159-178 | the traversal that writes file data puts each file's bytes where layout placed it |
| `Mastering.WriteDirs` | create.go:151-156 | directory extents are written one after the other where layout placed them |
| `Mastering.WriteNext` | create.go:674-682 | data is padded to whole sectors, and writing it disturbs nothing written before |
| `Mastering.PrimaryVolumeDescriptor` | create.go:401-442 | the descriptor carries the recomputed volume size, path-table size and places, and the root's record |
| `Volumes.VolumeReadsBack` | volume.go:44-90 | an image whose sectors 16 and 17 are the builder's descriptors yields the builder's volume, identifier included |
| `Volumes.PvdMeans` | create.go:401-442 | the parts of a primary descriptor by offset |
| `Volumes.PvdHeadMeans` | create.go:402-408 | type, standard identifier, version, system and volume identifier, byte by byte |
| `Volumes.PvdSizesMeans` | create.go:410-422 | sizes and places of path tables, each in the byte order it has at its offset |
| `Volumes.PvdTailMeans` | create.go:427-441 | blank text fields, the four times and the file structure version |
| `Volumes.VolumeIdentMeans` | create.go:654-660 | the first 32 characters of the volume name, or CDROM |
| `Volumes.ReadVolume` | volume.go:44-90 | over any reader, what the scan of sectors 16 to 99 accepts is what the image holds; over an honest one the result is exact |
| `Volumes.PrimaryMeans` | volume.go:60-72 | what a primary descriptor gives, by offset, 2048 standing in for a block size of zero |
| `Volumes.SupplementaryMeans` | volume.go:73-80 | a supplementary descriptor gives the Joliet root exactly with one of three escape sequences |
| `Volumes.JolietVolumeReads` | volume.go:44-90 | a primary, a Joliet and a terminating descriptor give a volume with both roots |
| `Volumes.ScanLimits` | volume.go:52-90 | a descriptor set is read if it ends by sector 99 and refused if it does not |
| `Volumes.TrimMeans` | volume.go:103-105 | trimming an identifier padded with spaces and zeros gives the identifier back |
| `Layouts.Layout` | create.go:184-226 | on a fresh builder whose tree fits, gives every node the identifier, parent, number and extent of a plan of the tree |
| `Layouts.TotalSectors` | create.go:446-469 | the volume size recomputed from the nodes is where allocation ended |
| `Layouts.NameAndNumber` | create.go:185-192 | the first half of layout assigns identifiers and path-table numbers |
| `Placing.Place` | create.go:208-223 | the traversal that places files gives each file at or below a directory its planned extent, ends at the planned cursor, and moves no other node |
| `Placing.PlaceDirs` | create.go:201-206 | directories get their planned sizes and extents in path-table order |
| `Placing.DirectoryExtentSize` | create.go:288-303 | the size computed in one pass is the size of the directory's packed records |
| `Placing.PathTableSize` | create.go:352-359 | adds up the sizes of the path-table entries |
| `Allocations.FilesInTreeOrder` | create.go:208-223 | files lie on disk in tree order: those at or below a child of smaller identifier come first |
| `Allocations.DirectoriesFirst` | create.go:194-206 | the root starts right after the two path tables at sector 18; directories come in path-table order, before every file |
| `Allocations.TableOrder` | create.go:253-263 | the root first, then by the number of the parent, then by identifier |
| `Plans.ExtentsDisjoint` | create.go:184-226 | extents of different entries share no sector, and none reaches into the path tables or past the end |
| `Plans.PlanExists` | create.go:194-225 | every tree that fits has a gap-free allocation for its numbering |
| `Plans.AllEntries` | create.go:201-223 | directories and then files list every entry exactly once |
| `Plans.SectorsForExact` | create.go:505 | the 32-bit rounding is exact exactly up to 2^32 - 2048 |
| `Numbering.OrderedDirs` | create.go:253-263 | lists every directory once, parents first, in order of parent number and then identifier |
| `Numbering.Expand` | create.go:255-261 | expanding one directory keeps the worklist in path-table order |
| `Naming.AssignIdentifiers` | create.go:231-248 | every node below gets its identifier and its parent link, and no other node changes |
| `Siblings.SortedChildren` | create.go:267-283 | children in strictly ascending order of key, whatever order the map yields them in |
| `Siblings.AllIdsPicked` | create.go:236-246 | the identifiers a directory's children get in name order are the first ones free |
| `Ordering.OrderUnique` | create.go:271-282 | a listing in strict key order does not depend on how the set was enumerated |
| `PathTables.PathTable` | create.go:363-389 | the table holds one record for each directory in order, in either byte order, padded to whole sectors |
| `PathTables.PathTablesDecode` | create.go:363-389 | decoding either written table gives one record for each directory, exactly if every parent is among the first 65535 directories; with at most 65535 directories that is so |
| `PathTables.PtTableDecodes` | create.go:363-389 | decoding any written table gives its records with parent numbers modulo 65536, so the records themselves exactly if no parent number exceeds 65535 |
| `PathTables.PathTablesNameDirs` | create.go:367-382 | following parent numbers gives each directory's full path of identifiers, no two the same, and its record its extent |
| `PathTables.PtRecordsMean` | create.go:363-389 | the root first, its own parent; every other directory with its identifier, its place and its parent's number |
| `PathTables.PtEntryDecodes` | create.go:372-384 | an entry decodes to the record encoded exactly while the parent's number fits 16 bits |
| `PathTables.PtEntryMeans` | create.go:372-384 | where the fields of an entry stand, in either byte order |
| `PathTables.PtImageMeans` | create.go:363-389 | entries one after the other, padded with zeros to a whole sector |
| `DirWriters.DirectoryExtent` | create.go:308-328 | serialises ".", ".." and each child by identifier, packed so that no record crosses a sector (`RoundTrips.DirectoryEntries` says what they are) |
| `DirWriters.DirBytesLength` | create.go:288-328 | the size computed beforehand is the size written |
| `DirExtents.NoRecordCrossesSector` | create.go:311-317 | every record lies whole inside one logical sector (section 6.8.1.1 of ECMA-119) |
| `DirExtents.PackLength` | create.go:288-303 | the size computed from identifier lengths alone is the length of what is then packed |
| `DirExtents.ScanUndoesPacking` | read.go:125-147 | the sector-skipping scan of packed records yields exactly those records, in order |
| `DirExtents.DirectoryReadsBack` | read.go:105-148 | a directory written to an image reads back as exactly its records |
| `DirExtents.AnyDirectoryReadsBack` | read.go:105-148 | any records packed into a directory's extent, with whatever flags and System Use Areas, read back as they are but for merging |
| `DirExtents.ReadDirMeans` | read.go:105-148 | which directories are refused: no directory, over 16 MiB, or outside the image |
| `DirExtents.ReadDirRecordsFrom` | read.go:105-148 | over any reader, success yields what the image's extent scans to; it succeeds exactly if the checks pass, every read is accepted and the extent scans and merges |
| `DirExtents.ScanRecords` | read.go:125-147 | the loop computes the scan |
| `DirRecords.ParseEncoded` | dirrecord.go:51-81 | a written record decodes to its identifier, extent and flags, whatever follows it |
| `DirRecords.ParseFields` | dirrecord.go:51-81 | any record of at most 255 bytes decodes to its place, size, flag byte, identifier and System Use Area, whatever follows it |
| `DirRecords.FieldsStand` | create.go:332-348 | where the fields of a record stand, numbers in both byte orders |
| `DirRecords.ParseRefuses` | dirrecord.go:51-62 | which records are refused, and what an empty slot is |
| `DirRecords.FlagBits` | dirrecord.go:13-18 | bit 1 of the flag byte marks a directory, bit 7 a record that is not the last of its file |
| `DirRecords.ParseEncodedLimit` | create.go:332-348 | a record decodes to what was encoded exactly for identifiers of at most 221 bytes |
| `DirRecords.BuildRecord` | create.go:332-348 | fills a zeroed buffer with the record's fields |
| `Identifiers.AssignCorrect` | create.go:231-248 | siblings get pairwise distinct, non-empty identifiers of the shape of their kind |
| `Identifiers.PickId` | create.go:240-244 | finds the first identifier not taken |
| `Identifiers.PickShape` | create.go:591-624 | what is picked has the right shape, is not taken, and fits one record |
| `Identifiers.PickMeans` | create.go:239-245 | the base if it is free, else its first free variant counting from 2 |
| `Identifiers.FileIdentifierMeans` | create.go:595-608 | eight characters before the last dot and three after it, sanitised; a dot in front or at the end makes no extension |
| `Identifiers.DotlessIdentifierMeans` | create.go:595-608 | a name without a dot gives its first eight characters, sanitised |
| `Identifiers.DirIdentifierMeans` | create.go:592-594 | a directory's name gives its first eight characters, sanitised |
| `Identifiers.SanitizeMeans` | create.go:628-640 | what becomes of each character |
| `Identifiers.VariantMeans` | create.go:612-624 | "~k" after as much of the stem as leaves eight characters, extension and version kept |
| `Identifiers.DigitsMean` | create.go:613 | k in decimal, without leading zero |
| `Identifiers.TakenVariants` | create.go:241-243 | among the first n variants no more than n identifiers can be taken, so the search ends |
| `Identifiers.VariantsInjective` | create.go:612-624 | different counters give different variants |
| `Identifiers.AssignLengths` | create.go:231-248 | with fewer than 2^32 siblings no identifier exceeds 25 bytes |
| `Identifiers.CleanGoodId` | dirrecord.go:86-101 | cleaning removes exactly the version of a file's identifier and nothing of a directory's |
| `Identifiers.CleanNameMeans` | dirrecord.go:86-101 | any identifier is cut at its first semicolon and loses one dot at the end; the special ones become "." and ".." |
| `Identifiers.CleanCollision` | dirrecord.go:86-101 | cleaned identifiers of siblings collide exactly for a directory X beside a file X;1 |
| `Identifiers.CleanCollisionWitness` | create.go:239-245 | a directory F and a file f beside it do collide |
| `Builders.Builder.AddDir` | create.go:79-82 | makes a path and everything above it directories, changes nothing else, and fails exactly if one of them is a file |
| `Builders.Builder.AddFile` | create.go:87-102 | sets or replaces exactly one file below directories it creates, so that the path holds the data given, and changes nothing when it fails |
| `Trees.AddFileMeans` | create.go:87-102 | afterwards the path holds the data, the paths above it are directories, and nothing else has changed; it fails exactly for the root, for a directory, and below a file |
| `Trees.AddDirMeans` | create.go:79-82 | what AddDir leaves at every path, and exactly when it fails |
| `Builders.Builder.MkdirAll` | create.go:105-121 | walks and creates the chain of directories, starting to create only after the last possible conflict |
| `Trees.AddDirIdempotent` | create.go:76-82 | adding a directory again changes nothing; afterwards it and all its prefixes are directories |
| `Trees.AddKeepsWellFormed` | create.go:79-121 | both operations keep every entry hanging below directories |
| `Trees.WithDirsAt` | create.go:105-121 | exactly the missing prefixes are added, as directories |
| `Trees.AllFiles` | create.go:208-224 | the traversal from the root visits every file exactly once |
| `Trees.SiblingOrders` | create.go:267-283 | siblings by identifier and by name, each once, ascending |
| `Bytes.LessMeans` | create.go:271-282 | the order of strings: at the first difference, the one that has ended or has the smaller element comes first |
| `Bytes.ByteOrdersMean` | create.go:509-533 | little-endian and big-endian, byte by byte |
| `Paths.SplitUndoesJoin` | fs.go:308-317 | splitting undoes joining usable components |
| `Paths.SplitPathMeans` | fs.go:308-317 | how any path splits: at each slash, parts that are empty or "." dropped, ".." kept |
| `Paths.SplitComponentsUsable` | fs.go:308-317 | the components of a split path are non-empty, slash-free and not "." |
| `OpenFiles.OpenAndReadAt` | openfile.go:78-190 | over any reader on which whole-file reading succeeds, one open and one read at any offset give exactly that slice of the file, and EOF exactly past its end; or, exactly if the read of some crossed extent's part reports an error, an error and what arrived before |
| `OpenFiles.HonestSlices` | openfile.go:146-190 | over an honest reader no part fails, so random access always agrees with whole-file reading |
| `OpenFiles.IsoFile.ReadAt` | openfile.go:146-190 | over any reader: the EOF rules; an error exactly if the read of some crossed extent's part reports one, then with the bytes up to the first such part; every byte reported is the file's |
| `OpenFiles.IsoFile.Fill` | openfile.go:156-189 | the loop over crossed extents stops at the first part whose read reports an error, and nowhere else |
| `OpenFiles.Search` | openfile.go:176-178 | the binary search lands on the extent that holds the byte |
| `OpenFiles.OpenRecord` | openfile.go:78-118 | opens exactly the records whose extents fit their size, placing the non-empty ones end to end |
| `OpenFiles.OpenMeans` | openfile.go:78-103 | which records open |
| `OpenFiles.OpensWhatReads` | openfile.go:78-118 | whatever whole-file reading accepts, opening accepts |
| `OpenFiles.FileBytesAgree` | openfile.go:156-182 | a byte as the placed extents give it is the byte of the whole file |
| `OpenFiles.FullReadWithEof` | openfile.go:183-187 | over a reader that returns io.EOF with a full read, whole-file reading returns the file, while random access to all of it delivers the same bytes and reports an error |
| `Readers.ReadFileFrom` | read.go:210-268 | over any reader, success means exactly the extents' bytes in order, zero-padded to the size; with the size known it succeeds exactly if the checks pass and every non-empty extent is delivered in one read; an honest reader succeeds whenever the bytes are there; reservations stay within twice what was delivered or 1 MiB beyond it, or within the image size if that is known |
| `Readers.ReadFileMeans` | read.go:210-252 | which files of an image read, its size known or not |
| `Readers.WholeFileMeans` | read.go:252-268 | each extent's stretch of the file is the image's bytes from its block on |
| `Readers.TailIsZero` | read.go:261-267 | what the extents do not cover is zero |
| `Readers.AppendAt` | read.go:81-98 | delivers exactly the run of bytes, and succeeds exactly if every read it issues is accepted, a full read with io.EOF included; with the size unknown it never reserves more than twice what was delivered, or 1 MiB beyond it |
| `Readers.CoverExtents` | read.go:228-244 | the validation loop accepts exactly the extent lists that fit |
| `MultiExtents.MergeMultiExtent` | read.go:159-202 | the loops compute the merge |
| `MultiExtents.MergeInvertsSplitting` | read.go:159-202 | entries recorded as runs of flagged records merge back to the entries, even when neighbours share a name |
| `MultiExtents.EntryMeans` | read.go:171-198 | a merged record keeps the first record's name and System Use Area, the last one's flags without the multi-extent bit, the sum of sizes and every extent in order |
| `MultiExtents.IsEntryMeans` | read.go:160-196 | which runs of records are one entry, by their flag bytes |
| `MultiExtents.MergeSucceedsExactly` | read.go:191-196 | merging succeeds exactly on concatenations of whole runs |
| `MultiExtents.MergeRecoversEntries` | read.go:159-202 | every input that merges splits into runs whose entries are the result |
| `MultiExtents.MergeConserves` | read.go:171-198 | the in-order list of extents and the total byte count are conserved |
| `MultiExtents.MergeIdempotent` | read.go:159-202 | merging again changes nothing |
| `MultiExtents.SplitIsEntry` | read.go:171-198 | splitting a file over any extents gives a run that merges to that file with those extents |
| `Susp.EntriesOfEncoded` | rockridge.go:96-108 | scanning recovers exactly the entries written |
| `Susp.EntriesMean` | rockridge.go:96-108 | what stands where in an entry, and where a scan ends |
| `Susp.TilingIsExact` | fs.go:107 | two areas can be scanned one after the other exactly when the first is tiled by entries |
| `Susp.CeEntry` | rockridge.go:52-68 | finds the first continuation entry |
| `Susp.FirstCEMeans` | rockridge.go:52-68 | the first entry "CE" with its three numbers, little-endian at 0, 8 and 16 |
| `Susp.DetectSuspSkip` | rockridge.go:74-91 | finds the first entry that announces SUSP |
| `Susp.FirstSPMeans` | rockridge.go:74-91 | the first entry "SP" with check bytes BE EF gives the bytes to skip |
| `RockRidge.ParseRockRidge` | rockridge.go:95-163 | the loops compute the fold of the entry state machine |
| `RockRidge.WalkComponents` | rockridge.go:123-155 | the inner loop computes the fold over component records |
| `RockRidge.NameSurvivesSplitting` | rockridge.go:112-117 | however a name is split over NM entries, and whatever stands between them, it is read back whole |
| `RockRidge.TargetSurvivesSplitting` | rockridge.go:123-161 | a link target written as component records, cut anywhere into chunks that are each encoded in an SL entry, with any other entries between, is read back as the same target |
| `RockRidge.EncodedRecordsFound` | rockridge.go:121-131 | the component records found in SL entries are exactly those encoded, wherever one entry ends and the next begins |
| `RockRidge.TargetComponents` | fs.go:212 | following a target walks its elements, except the current-directory ones |
| `RockRidge.MisplacedRoot` | rockridge.go:140-160 | a root record that does not come first only ends the component before it |
| `RockRidge.ModeMeans` | rockridge.go:119-121 | PX gives the low 16 bits of its first number |
| `FileSystems.ContinuationsFold` | fs.go:94-111 | for exactly tiled areas, parsing the collected bytes folds the state machine over at most 16 areas in chain order |
| `RockRidgeImages.ChainParsed` | fs.go:94-111 | entries laid out over a chain of up to 16 continuation areas, each where the one before points, are read in order as one |
| `RockRidgeImages.NameShown` | fs.go:116-124 | a record shows the name in the NM entries of its System Use Area and continuations, however it is split |
| `RockRidgeImages.IdentifierShown` | fs.go:116-124 | without NM entries it shows its Joliet name in a Joliet tree, else its cleaned identifier |
| `RockRidgeImages.LinkShown` | rockridge.go:123-161 | a record is a link exactly if it has SL entries, and leads to the target they hold, however that is split |
| `RockRidgeImages.NamedEntryFound` | fs.go:181-204 | a record written to a directory's extent with a Rock Ridge name is found by that name |
| `RockRidgeImages.PathThroughLink` | fs.go:205-216 | a path that ends in a link leads where the path with a relative target in place of the link leads, or where an absolute target leads from the root |
| `RockRidgeImages.ChooseMeans` | fs.go:56-83 | an SP entry in the root's "." opens the primary tree with its skip; without one the Joliet tree is opened if there is one |
| `FileSystems.JolietNameMeans` | dirrecord.go:105-123 | a Joliet name is cut at its first semicolon and loses one dot at the end |
| `FileSystems.CollectSuspFrom` | fs.go:94-111 | over any reader, the walk along the chain collects the areas up to the first that cannot be read, and stops on every chain |
| `FileSystems.UnreadableAreaEndsChain` | fs.go:104-106 | a read error ends the chain silently: the areas collected are a prefix of those an honest reader collects, and all of them exactly if none is unreadable |
| `FileSystems.FS.ResolveFrom` | fs.go:176-221 | over any reader, the nested loop and recursion compute resolution over what it returns |
| `FileSystems.FS.ChooseTree` | fs.go:56-65 | Rock Ridge wins, then Joliet, then the plain primary tree |
| `FileSystems.UnreadableRootMissesRockRidge` | fs.go:70-74 | opening hides that the primary root cannot be read: another tree is chosen than over an honest reader exactly if there is Rock Ridge to miss |
| `FileSystems.FS.ListDir` | fs.go:234-254 | lists the ordinary entries of the directory a path leads to |
| `FileSystems.ListDirMeans` | fs.go:242-253 | each ordinary entry in recorded order: the sector of its extent, the name it shows, and 2 for a directory |
| `FileSystems.FS.ReadFileAt` | fs.go:224-230 | reads the file a path leads to |
| `FileSystems.Open` | fs.go:40-51 | opens what the volume descriptors describe |
| `Resolving.ResolvesExactly` | fs.go:176-221 | resolution succeeds exactly when there is a derivation, relative targets starting at the containing directory and absolute ones at the root, whose links nest no deeper than the hops left of 40 |
| `Resolving.LinkLeads` | fs.go:205-216 | a link takes one hop and leads where its target leads from the directory that contains it, or from the root if it begins with a slash; a final link not to be followed stays |
| `Resolving.FindMeans` | fs.go:189-204 | a name finds the first ordinary entry of that name, else the first equal without regard to case, else nothing |
| `Resolving.DerivationUnique` | fs.go:176-221 | there is at most one derivation and one result |
| `Resolving.FewerHopsUsed` | fs.go:177-179 | success after some hops is success, with the same result, after fewer |
| `Resolving.ResolveComposes` | fs.go:181-220 | resolving a path and then a further one from where it led is resolving the two together |
| `Resolving.ResolvedReached` | fs.go:181-220 | resolution ends at the start, the root or an ordinary entry of a directory reached from them, and never at a link if neither start nor root is one |
| `Resolving.SelfLinkFails` | fs.go:177-179 | a link that leads to itself is reported, with any budget |

## Left out

- Names given to the builder that are not valid UTF-8: the model starts from code points.
- A second `WriteTo` on the same builder: `sortedChildren` then sorts by the identifiers of the first run, which can
  permute the numbered variants; `WriteTo` is modelled for a builder that has not been laid out.
- Trees that do not satisfy `Fits`: the 32-bit fields then wrap, and nothing is claimed of the image.
- `Siblings.SortedChildren`: `sort.Slice` is library code; it is modelled as an insertion into the sorted part of the
  list, children being taken from the map in any order.
- Timestamps and the free-text descriptor fields: arbitrary bytes of their length, or spaces, as written.
- `Resolving.ResolvesExactly`: says nothing about which error a failing resolution reports.
- Joliet names: decoding of UTF-16 is a parameter; which tree is chosen, and cutting the version, are modelled.
- Case-insensitive lookup: Unicode folding is a parameter; every statement holds for any folding.
- `Mastering.WriteTo`: a device that refuses a write may have taken part of it; nothing is claimed of its contents then.
- PX mode bits beyond their decoding, `Stat`, pseudo-inodes, `ReadLink`, the read-only mutators, `OpenFile` and `Close`
  of the image handle, error-message text: thin wrappers or I/O.
- The atomic `closed` flag: a plain boolean, with no concurrent readers; the extent list does not change after opening.
- `Readers.AppendAt`: `slices.Grow` may reserve more than it is asked for, which moves the boundaries between reads when
  the image size is unknown; growth is exact here. Indices are unbounded, with the on-disk widths kept.
