# Py-Utils in Dafny

This project models the core of Py-Utils, a collection of small Python utilities, and proves properties of the model. Each Dafny module follows one part of the repository.

The set-associative cache simulator of `cache-emu/memory.py`:

- `ListViews` is `ListView`, a bounds-checked, write-through window over a list.
- `CacheModel` describes one `access` as a function on values (`Step`, `RunAll`): two floor `divmod`s split the address, every way of the target set ages, and the access either hits or replaces a victim chosen by LFU, LRU or FIFO. The lemmas about the cache are stated there.
- `Memory.Cache` is a class over the five per-slot lists (`valid`, `tags`, `usecount`, `lasttime`, `firsttime`) held in `array`s. Its methods work through `ListView` windows, as the Python does, and are proved to compute exactly what `CacheModel` says.

The image writers:

- `Bmp` is `encode_bmp` of `image-generation/bmp.py`: the two headers and the padded, bottom-up BGR rows.
- `Png` is `save_png` of `image-generation/png.py`: signature, IHDR, IDAT and IEND chunks around a buffer of filtered scanlines.
- `Gif` is the uncompressed GIF89a writer of `image-gen/gif.py`, with its 9-bit little-endian code packer and data sub-blocks.
- `ByteStream` holds `struct.pack` for the unsigned formats, the readers that undo it, and the file the writers append to.

The number utilities:

- `Polynomials` is `maths/polynomials.py`: Ruffini's rule, the integer root search, factorisation into linear factors and the pretty-printers.
- `Extrapolation` and `ExtrapolationGeneric` are `interpolation/extrapolation.py` and `interpolation/extrapolation_generic.py`: tables of differences (or of any operation) and the next item they predict.
- `EulerGcd` is `euler/gcd.py`: Euclid's algorithm, prime factorisation and the totient from its definition.
- `PrimeBuffer`, `TrialPrimeSeq`, `SixStepPrimeSeq` and `SievePrimeSeq` are the three prime sequences of `primeseq/primeseq.py`, `maths/primeseq.py` and `math/primeseq.py`. The first two grow a buffer of primes by trial division; the third uses an incremental sieve. `Primes` and `Bisect` hold what they share.

The Brazilian document numbers:

- `Cnpj` and `Cpf` are the `CNPJ` and `CPF` classes of `business/cnpj.py` and `business/cpf.py`: construction from a number, a string or a list, the modulo-11 check digits, validation, formatting and indexing. `DocNumbers` holds what they share.

The logic formula solver of `logicmind`:

- `LogicTokens` is the token classes and their `apply` methods.
- `LogicExpressions` is `Expression`: regrouping by precedence (`tokenize`), evaluation under an assignment (`apply`) and the search for every satisfying assignment (`find_solutions`).
- `TokenParser` is `parse_expression`, and `LogicMain` is `repr_solution` and the reading of the `-t` option.

The Android backup helper:

- `BackupInfo` is `get_info` of `androidbak/main.py` and the file name `backup_packages` in `androidbak/adb.py` builds.

Shared modules:

- `Wrappers` holds `Option`, `Result` and `Outcome`, and the Python exceptions the code raises.
- `PyInt` holds Python's floor `//` and `%`.
- `Text` holds the string built-ins the code relies on: `str(int)`, `int(str)`, `split`, `strip`, `join`, `replace`, `in` and string ordering.

## Model

| member | source | states |
|---|---|---|
| PyInt.FloorDiv | cache-emu/memory.py:104-105 | `//` rounds down: for a positive divisor `b*q <= a < b*q + b`, mirrored for a negative one |
| PyInt.FloorMod | cache-emu/memory.py:104-105 | `a == b*(a // b) + a % b`, and the remainder has the divisor's sign |
| PyInt.FloorDivUnique | cache-emu/memory.py:104-105 | the floor quotient is the only `q` with `b*q <= a < b*q + b` |
| ListViews.FindSpec | cache-emu/memory.py:61-66 | the position found is the first occurrence, and nothing is found exactly when the value is absent |
| ListViews.ClampStart | cache-emu/memory.py:26 | `max(start, 0)` or 0 when absent: never negative, 0 for an absent or negative start, the start itself otherwise |
| ListViews.ClampEnd | cache-emu/memory.py:27 | `min(end, len(lst))` or the length when absent: never past the length, the length for an absent or larger end, the end itself otherwise |
| ListViews.ListView.constructor | cache-emu/memory.py:21-23 | the view keeps its list and its bounds are the clamped `start`/`end` |
| ListViews.ListView.Move | cache-emu/memory.py:25-27 | the new bounds are the clamped ones and never leave the backing list |
| ListViews.ListView.Len | cache-emu/memory.py:33-34 | `end - start`: the number of elements, negative only for an empty inverted window |
| ListViews.ListView.Contains | cache-emu/memory.py:36-40 | true iff the value occurs inside `[start, end)` |
| ListViews.ListView.GetIndex | cache-emu/memory.py:42-47 | a negative key counts from `end`, any other from `start`; `IndexError` exactly when the index leaves `[start, end)` |
| ListViews.ListView.Get | cache-emu/memory.py:49-50 | Python list indexing of the window's elements, `IndexError` out of range |
| ListViews.ListView.Set | cache-emu/memory.py:52-53 | exactly one backing element changes, or none and `IndexError` |
| ListViews.ListView.Index | cache-emu/memory.py:61-66 | the first local position of the value; `ValueError` (not `IndexError`) when it is absent |
| ListViews.ListView.Original | cache-emu/memory.py:68-69 | `start + index`: inside the window it is the backing index `_getindex` finds; a negative index lands before the window and one at or past its length at or after its end |
| CacheModel.MakeConfig | cache-emu/memory.py:87-96 | `ValueError` when `ways != 1` without a policy or for an unknown policy; `ZeroDivisionError` from `partitions // ways` when `ways == 0` passes both checks; otherwise `sets == partitions // ways` and the policy is kept |
| CacheModel.Initial | cache-emu/memory.py:222-237 | all five lists have one entry per slot, all invalid and zero; both counters are 0; `last_access` is `(None, None)` |
| CacheModel.Locate | cache-emu/memory.py:104-105 | `ref == block*partition_size + offset` with the offset in range, and `block == tag*sets + set` with `set < sets` |
| CacheModel.SetBounds | cache-emu/memory.py:114-116 | the slots `[set*ways, set*ways + ways)` of every set lie inside the cache |
| CacheModel.SetsDisjoint | cache-emu/memory.py:114-116 | the slots of two different sets do not overlap |
| CacheModel.Incremented | cache-emu/memory.py:125-127 | every entry rises by exactly one |
| CacheModel.ArgMin | cache-emu/memory.py:159 | the first position of a least element |
| CacheModel.ArgMax | cache-emu/memory.py:162-169 | the first position of a greatest element |
| CacheModel.Victim | cache-emu/memory.py:152-170 | the replaced way is a way of the set |
| CacheModel.SetAccessSpec | cache-emu/memory.py:125-190 | a hit is the first way holding the tag when that way is valid; a miss replaces the policy's victim of the aged set; the way used ends valid with the tag; every other way only ages by one |
| CacheModel.Step | cache-emu/memory.py:100-190 | `ZeroDivisionError` exactly when `partition_size` or `sets` is 0; otherwise exactly one of hits and misses grows by one |
| CacheModel.RunAll | cache-emu/memory.py:218-220 | the accesses in order; `hits + misses` grows by the number of references; a raising access leaves the state unchanged |
| CacheModel.InitialInv | cache-emu/memory.py:222-237 | the state `reset` leaves satisfies the set invariant |
| CacheModel.AgedInv | cache-emu/memory.py:125-127 | aging keeps the set invariant and makes every age at least 1 |
| CacheModel.VictimIsFirstInvalid | cache-emu/memory.py:152-170 | in a set with an invalid way, every policy picks the first invalid way |
| CacheModel.HitKeepsInv | cache-emu/memory.py:133-134 | the writes of a hit keep the set invariant |
| CacheModel.MissKeepsInv | cache-emu/memory.py:182-188 | the writes of a miss keep the set invariant |
| CacheModel.MissTagFree | cache-emu/memory.py:129 | when the hit test fails, no valid way holds the tag |
| CacheModel.SetAccessInv | cache-emu/memory.py:125-190 | one access keeps the set invariant: valid ways form a prefix and no two valid ways hold the same tag |
| CacheModel.HitIffHeld | cache-emu/memory.py:129 | under the invariant the first-match hit test is the same as "some valid way holds the tag" |
| CacheModel.StepInv | cache-emu/memory.py:100-190 | every access keeps the invariant in every set |
| CacheModel.StepHitIffHeld | cache-emu/memory.py:129-151 | an access counts a hit iff its block is held by a valid way of its set, and a miss otherwise |
| CacheModel.StepHolds | cache-emu/memory.py:129-188 | after an access its block is held |
| CacheModel.StepOnlyTouchesItsSet | cache-emu/memory.py:114-123 | slots outside the accessed set keep all five fields |
| CacheModel.StepKeepsOtherSets | cache-emu/memory.py:114-123 | whether a block of another set is held does not change |
| CacheModel.RepeatHits | cache-emu/memory.py:129-138 | accessing the same address twice in a row hits the second time, for every policy |
| CacheModel.NothingValidHoldsNothing | cache-emu/memory.py:224 | a cache with no valid slot holds no block |
| CacheModel.ThreeSetsThenRepeat | cache-emu/memory.py:218-220 | from a reset cache, three references in three sets miss and the first one again hits: 1 hit, 3 misses |
| CacheModel.LruExample | cache-emu/memory.py:218-220 | `Cache(4, 8, 2, 'lru')` on references 0, 4, 8, 0 gives 1 hit and 3 misses |
| CacheModel.ParseAllSpec | cache-emu/memory.py:212-216 | the references parse exactly when every piece is a number, and then hold each piece's value in order; otherwise `ValueError` |
| CacheModel.ParseRefs | cache-emu/memory.py:210-216 | one reference per piece of the split text, or `ValueError` |
| Text.SplitJoin | cache-emu/memory.py:212 | splitting a join on its separator gives the pieces back |
| CacheModel.ParseRefsOfJoin | cache-emu/memory.py:210-216 | two or more references written as `'a,b,...'` read back as themselves |
| CacheModel.RunText | cache-emu/memory.py:205-220 | a string that does not parse raises `ValueError` before any access; otherwise the parsed references run in order |
| CacheModel.BitLength | cache-emu/memory.py:251 | the number of binary digits: `n < 2^b`, `b == 0` for `n == 0`, and `2^(b-1) <= n` for `n > 0` |
| CacheModel.ContentOf | cache-emu/memory.py:245-255 | `IndexError` past the last slot, `''` exactly for an invalid slot, otherwise the word range of `ReportedBlock`, the tag shifted past the set's bit length and or-ed with the set |
| CacheModel.IntendedContentOf | cache-emu/memory.py:245-255 | as `ContentOf`, but the word range of `HeldBlock`, the block the slot holds (`tag * sets + set`) |
| CacheModel.SlotInSet | cache-emu/memory.py:248 | `slot // ways` of a slot of set `k` is `k` |
| CacheModel.IntendedContentOfAccess | cache-emu/memory.py:245-255 | after an access, some valid slot's intended contents are the words of the accessed block |
| CacheModel.HeldInSet | cache-emu/memory.py:245-255 | a set holding a tag has a slot whose intended contents name that tag's block |
| CacheModel.ContentOfMisreports | cache-emu/memory.py:251 | in `Cache(4, 8, 2, 'lru')`, after accessing 16, `content_of(0)` gives `'4-7'` although the slot holds words 16-19 |
| CacheModel.ExampleContents | cache-emu/memory.py:251-254 | slot 0 holding tag 1 is reported as `'4-7'`, and holds `'16-19'` |
| CacheModel.FirstAccessFillsFirstWay | cache-emu/memory.py:149-188 | the first access after `reset` puts its tag in the first slot of its set |
| CacheModel.FillsFirstWayOfEmptySet | cache-emu/memory.py:149-188 | a miss on an empty set fills the set's first slot |
| CacheModel.EmptySetFillsFirstWay | cache-emu/memory.py:149-170 | an access to an empty set misses and uses way 0 |
| Memory.Write | cache-emu/memory.py:52-53 | `w[i] = x` changes one element of the window and nothing outside it |
| Memory.Bump | cache-emu/memory.py:125-127 | `w[i] += 1` changes one element of the window and nothing outside it |
| Memory.FirstMin | cache-emu/memory.py:159 | the loop finds the first way with the least use count |
| Memory.FirstMax | cache-emu/memory.py:162-169 | the loop finds the first way with the greatest age |
| Memory.Age | cache-emu/memory.py:125-127 | every way's `lasttime` and `firsttime` rise by one, nothing outside the set changes |
| Memory.Probe | cache-emu/memory.py:129 | the hit test: the first way holding the tag exists and is valid |
| Memory.Install | cache-emu/memory.py:182-188 | the victim gets the tag, becomes valid, use count 1 and both ages 0 |
| Memory.UseWay | cache-emu/memory.py:133-134 | a hit adds one to the way's use count and zeroes its `lasttime`; every other entry of the set, `firsttime` included, is unchanged |
| Memory.HitWay | cache-emu/memory.py:129-138 | the hit writes, and `last_access` reports `start + tag` |
| Memory.ReplaceWay | cache-emu/memory.py:149-190 | the miss writes on the policy's victim, and `last_access` reports `start + way` |
| Memory.ChooseVictim | cache-emu/memory.py:152-170 | way 0 when direct mapped, otherwise the first LFU, LRU or FIFO victim |
| Memory.UseOrReplace | cache-emu/memory.py:129-190 | hit or replace after the aging, with the new contents of the set |
| Memory.UpdateSet | cache-emu/memory.py:125-190 | the writes through the five windows are exactly `SetAccess` |
| Memory.AccessWindow | cache-emu/memory.py:114-190 | the five lists become the old ones with the set's new windows spliced in |
| Memory.AccessArrays | cache-emu/memory.py:104-190 | the array work of one access is `Step` |
| Memory.FreshLists | cache-emu/memory.py:224-237 | five fresh, distinct lists of `[False] * n` and `[0] * n` |
| Memory.Cache.constructor | cache-emu/memory.py:93-98 | stores the configuration and ends in the state `reset` installs |
| Memory.Cache.Create | cache-emu/memory.py:73-98 | raises exactly as the constructor's checks say, otherwise a reset cache |
| Memory.Cache.Access | cache-emu/memory.py:100-190 | the new state is `Step` of the old one; `ZeroDivisionError` with nothing changed when `partition_size` or `sets` is 0 |
| Memory.Cache.AccessAll | cache-emu/memory.py:205-220 | the accesses of a list, in order, as `RunAll` says |
| Memory.Cache.AccessAllText | cache-emu/memory.py:205-220 | the accesses of a string, as `RunText` says |
| Memory.Cache.ContentOfSlot | cache-emu/memory.py:245-255 | reads `content_of` off the arrays, as `ContentOf` says |
| Memory.Cache.Reset | cache-emu/memory.py:222-237 | fresh lists and counters: the state `Initial` describes |
| Text.ParseIntOfIntToString | cache-emu/memory.py:212 | `int(str(i)) == i` |
| ByteStream.Pack | image-generation/bmp.py:21-37 | `struct.pack` of an unsigned `B`, `H` or `I` field: `struct.error` exactly when the value does not fit; otherwise `size` bytes that read back as the value in the chosen byte order |
| ByteStream.Little | image-generation/bmp.py:21 | the low `size` bytes, least significant first, all bytes |
| ByteStream.Big | image-generation/png.py:32 | the low `size` bytes, most significant first, all bytes |
| ByteStream.LittleRoundTrip | image-generation/bmp.py:21 | reading the little-endian bytes of a value that fits gives the value back |
| ByteStream.BigRoundTrip | image-generation/png.py:32 | reading the big-endian bytes of a value that fits gives the value back |
| ByteStream.Limits | image-generation/bmp.py:21-22 | the fields `B`, `H` and `I` hold values below 2^8, 2^16 and 2^32 |
| ByteStream.Ascii | image-generation/bmp.py:20 | a `bytes` literal is its characters' codes |
| ByteStream.Zeros | image-generation/bmp.py:13-15 | `bytes(n)` is n zero bytes |
| ByteStream.Sink.Write | image-generation/bmp.py:20 | `f.write(bs)` appends `bs` to what was written |
| Bmp.PaddingAligns | image-generation/bmp.py:11-15 | the padding is below 4 bytes, brings `bytes_per_row` to a multiple of 4, and is empty exactly when the row already is one |
| Bmp.PackedConstants | image-generation/bmp.py:22-30 | the unused fields, the offset 54, the info size 40 and the 2 planes are the `struct.pack` bytes of those constants |
| Bmp.PackedInfoTail | image-generation/bmp.py:32-37 | the 24 fixed bytes after `bpp` are the packed 0, 16, 2835, 2835, 0 and 0 |
| Bmp.ChannelsOk | image-generation/bmp.py:42-43 | a pixel's channels pack without `struct.error` exactly when every value is a byte |
| Bmp.PixelsOk | image-generation/bmp.py:41-43 | a row packs exactly when every channel of every pixel is a byte |
| Bmp.RowsOk | image-generation/bmp.py:40-44 | the pixel array packs exactly when every channel value in `data` is a byte |
| Bmp.EncodeErrors | image-generation/bmp.py:6-44 | `encode_bmp` succeeds exactly when the size field, width and height fit 32 unsigned bits, `bpp` fits 16 and every channel is a byte; otherwise it raises `struct.error` |
| Bmp.HeaderReadBack | image-generation/bmp.py:20-37 | the header is 54 bytes starting `BM`; a reader finds the size `54 + data_size`, offset 54, info size 40, the width, the height, 2 planes, `bpp` and the fixed fields |
| Bmp.ReversedTwice | image-generation/bmp.py:42 | reversing a pixel's channels twice gives the pixel back |
| Bmp.ChannelsValue | image-generation/bmp.py:42-43 | a byte pixel is written as its channels in reverse order (RGB becomes BGR) |
| Bmp.RowReadBack | image-generation/bmp.py:41-43 | a row of byte pixels of c channels is written as `len(row) * c` bytes that a reader turns back into the row |
| Bmp.PixelsReadBack | image-generation/bmp.py:40-44 | the rows are written last row first, each followed by the padding, `len(data)` lines of `width * c + padding` bytes; a reader gets `data` back |
| Bmp.EncodeLength | image-generation/bmp.py:40-44 | the file is 54 bytes plus one padded row per element of `data`: the row count comes from `len(data)`, not `height` |
| Bmp.SizeFieldAsWritten | image-generation/bmp.py:17-21 | as written, a one-pixel 24-bit image gets the size field 56 while the file has 58 bytes |
| Bmp.CorrectedSizeField | image-generation/bmp.py:17-21 | with `data_size` computed from `bytes_per_row`, the size field equals the file's length |
| Bmp.WriteChannels | image-generation/bmp.py:42-43 | writes the channels last first, or raises at the first value that is not a byte; only appends |
| Bmp.WriteRowPixels | image-generation/bmp.py:41-43 | writes a row's pixels left to right, or raises as the row's packing does |
| Bmp.WriteLine | image-generation/bmp.py:41-44 | writes a row and then its padding |
| Bmp.WriteRows | image-generation/bmp.py:40-44 | writes the rows from the last to the first, or raises as the pixel array's packing does |
| Bmp.WriteFileHeader | image-generation/bmp.py:20-24 | writes the 14-byte file header or raises when the size field does not fit 32 bits |
| Bmp.WriteInfoHeader | image-generation/bmp.py:27-37 | writes the 40-byte info header or raises when width, height or `bpp` does not fit its field |
| Bmp.WriteHeader | image-generation/bmp.py:20-37 | writes exactly the 54 header bytes, or raises `struct.error` |
| Bmp.RowPadding | image-generation/bmp.py:11-15 | the padding is `PaddingLength` zero bytes |
| Bmp.EncodeBmp | image-generation/bmp.py:6-44 | writes exactly the bytes of `Encode` when it succeeds, raises the same exception otherwise, and only ever appends to `f` |
| Png.Chunk | image-generation/png.py:41-45 | a chunk is the payload's length, the tag and payload, and the CRC of both; `struct.error` exactly when the length does not fit 32 bits |
| Png.PackWord | image-generation/png.py:45 | packing a CRC never fails: it is a 32-bit value |
| Png.ColorCode | image-generation/png.py:20-26 | the code is below 8, bit 0 set iff `'p'` is in the colour type, bit 1 iff `'c'`, bit 2 iff `'a'` |
| Png.ColorBits | image-generation/png.py:20-26 | or-ing the flags one by one gives that code |
| Png.AcceptedColorTypes | image-generation/png.py:28-29 | the codes 0, 2, 3, 4 and 6 are accepted: a palette only with colour and without alpha |
| Png.IhdrPayload | image-generation/png.py:31-38 | the payload is 13 bytes; `struct.error` exactly when width or height does not fit 32 unsigned bits or the bit depth or code is not a byte |
| Png.IhdrFields | image-generation/png.py:31-38 | the payload reads back as width, height, bit depth, colour code and three zero bytes |
| Png.PackGray | image-generation/png.py:70 | a grey level packs as its one byte exactly when it is an `int` byte; otherwise `struct.error` |
| Png.PackByte | image-generation/png.py:56 | `struct.pack('>B', n)` of a byte is that byte |
| Png.PackItem | image-generation/png.py:86-88 | `datum[k]` packs to its byte; `IndexError` exactly past the end, otherwise `struct.error` for a non-byte |
| Png.PackRgb | image-generation/png.py:86-88 | a tuple with three byte channels packs to those three bytes; an `int` datum raises `TypeError` |
| Png.PackDatum | image-generation/png.py:67-98 | a packed datum is one byte (grey) or three (colour), all bytes |
| Png.Repeat | image-generation/png.py:73-79 | `count` copies, none for a count that is not positive, as for an empty `range` |
| Png.DefaultPixel | image-generation/png.py:52-62 | black in the colour type's format when none is given; the given pixel packed for `''` or `'c'`; `ValueError` for another colour type |
| Png.Iend | image-generation/png.py:112-117 | the IEND chunk is length 0, the tag and the CRC of the tag alone |
| Png.LongestRow | image-generation/png.py:141 | the length of a longest row: no row is longer and some row has it |
| Png.WriteIhdr | image-generation/png.py:9-45 | writes the IHDR chunk, or raises and writes nothing to the handle |
| Png.WriteIhdrPayload | image-generation/png.py:31-38 | the seven block writes are the payload, or `struct.error` |
| Png.WriteChunk | image-generation/png.py:41-45 | the three handle writes are the chunk |
| Png.WriteDefaults | image-generation/png.py:73-74 | the default pixel once per index of the range |
| Png.WriteDatum | image-generation/png.py:70 | one datum written as it packs, or its exception |
| Png.ValuesFailSpread | image-generation/png.py:69-70 | the first datum that fails makes its row fail with that exception |
| Png.WriteValues | image-generation/png.py:69-70 | the values of a row as they pack, or the first exception |
| Png.WriteLine | image-generation/png.py:67-74 | filter byte 0, the row's values, default pixels up to `width` |
| Png.RowsFailSpread | image-generation/png.py:67-74 | the first row that fails makes the rows fail with that exception |
| Png.WriteRows | image-generation/png.py:67-74 | every given row's line in order, or the first exception |
| Png.WriteMissing | image-generation/png.py:77-79 | `width` default pixels per missing row, after a filter byte only in the colour branch |
| Png.WriteRaw | image-generation/png.py:64-100 | the raw block in the colour type's format, or the exception of the first datum that fails, or `ValueError` for another colour type |
| Png.WriteIdat | image-generation/png.py:48-109 | writes the IDAT chunk of the compressed raw block, or raises having written nothing |
| Png.IdatChunk | image-generation/png.py:102-109 | the IDAT chunk is the chunk of the compressed raw block |
| Png.WriteIend | image-generation/png.py:112-117 | writes the IEND chunk |
| Png.SavePng | image-generation/png.py:120-158 | the writes and the exception are those of `Save` |
| Png.WriteFile | image-generation/png.py:154-158 | signature, IHDR, IDAT and IEND in order; an exception stops the sequence and keeps what was written |
| Png.ReadChunk | image-generation/png.py:41-45 | a chunk read off the front has a 4-byte tag and leaves a shorter rest |
| Png.ChunkReadBack | image-generation/png.py:41-45 | a written chunk reads back as its tag and payload, whatever follows it |
| Png.ChunkListReadBack | image-generation/png.py:154-158 | chunks written one after another read back as those chunks |
| Png.FileReadBack | image-generation/png.py:154 | the signature followed by chunks reads back as the chunks |
| Png.EmitReadBack | image-generation/png.py:154-158 | a completed file reads back as IHDR, IDAT of the compressed raw block and an empty IEND |
| Png.SaveReadBack | image-generation/png.py:134-158 | when `save_png` returns, its IHDR holds the width (longest row by default), the height (`len(data)` by default), the bit depth and the colour code (inferred from the first datum by default) |
| Png.SaveSignatureFirst | image-generation/png.py:134-158 | either `ValueError` or `IndexError` before anything is written, or the signature comes first |
| Png.SaveDimensionErrors | image-generation/png.py:134-143 | a height or width that is not positive raises `ValueError` with nothing written |
| Png.EmitRejectsColorType | image-generation/png.py:99-100 | a non-empty colour type without `'c'` fails with `ValueError`, after the IHDR when that was accepted |
| Png.Split | image-generation/png.py:64-100 | `n` pieces of `size` bytes each |
| Png.SplitAppend | image-generation/png.py:64-100 | cutting a concatenation is cutting each part |
| Png.SplitRepeat | image-generation/png.py:77-79 | `count` copies cut back into `count` copies |
| Png.ValuesSplit | image-generation/png.py:69-70 | a row's values are one pixel per datum |
| Png.LineSplit | image-generation/png.py:67-74 | a row's scanline is filter byte 0, its pixels, then default pixels |
| Png.RowsSplit | image-generation/png.py:67-74 | the given rows' buffer is one scanline per row |
| Png.ScanlinesDecode | image-generation/png.py:81-98 | a buffer with a filter byte before every row decodes as the rows padded with the default pixel, then default rows |
| Png.BufferLines | image-generation/png.py:81-98 | such a buffer has `height` scanlines of `1 + width*pixel` bytes |
| Png.BufferSplit | image-generation/png.py:81-98 | its scanlines are the given rows' lines, then the missing rows' lines |
| Png.LinesDecode | image-generation/png.py:81-98 | such scanlines decode as the image |
| Png.GrayMissingRowsAsWritten | image-generation/png.py:77-79 | as written, the grey buffer is one byte short per missing row and does not decode as the image |
| Png.CorrectedScanlines | image-generation/png.py:77-79 | with a filter byte before each missing grey row, both colour types decode as the image |
| Gif.LsbValue | image-gen/gif.py:28 | reading the w low bits of n (least significant first) back gives n, for n below 2^w |
| Gif.ValueLsb | image-gen/gif.py:28 | the w bits of any bit string are the w low bits of the number it writes: bit order and value determine each other |
| Gif.BinaryReversed | image-gen/gif.py:28 | the most-significant-first digits of n read back to front are its least-significant-first bits |
| Gif.ZFilledDigits | image-gen/gif.py:18 | for n below 2^w, `bin(n)[2:].zfill(w)` is exactly the w low bits of n, most significant first |
| Gif.ParseBinaryValue | image-gen/gif.py:38 | `int(s, base=2)` is the value of the digits of s read as bits from the last digit |
| Gif.UnbytesBytes | image-gen/gif.py:38 | cutting a whole number of bytes' worth of bits into bytes gives bytes, and splitting those bytes back into bits gives the same bits |
| Gif.StreamSlice | image-gen/gif.py:17-31 | code k occupies bits 9k to 9k+8 of the code stream, least significant bit first |
| Gif.PackedLength | image-gen/gif.py:12-38 | n nine-bit codes pack into ⌈9n/8⌉ bytes |
| Gif.PackedRoundTrip | image-gen/gif.py:12-38 | the packed values are bytes; their bits are the code stream padded with zeros to a whole byte; reading n nine-bit codes back from them gives the codes |
| Gif.BytesOfFlat | image-gen/gif.py:38 | parsing each 8-digit result string as binary gives the bytes that the strings' digits make when each string is read last digit first |
| Gif.PackStep | image-gen/gif.py:18-31 | one round of the loop appends `b[take:] + left` and keeps `b[:take]`, so the strings plus the carried digits still spell the code stream up to and including this code |
| Gif.PackStrings | image-gen/gif.py:15-31 | the loop leaves 8-digit strings plus at most 8 carried digits that together spell the whole code stream, 9 bits per code |
| Gif.PackFinish | image-gen/gif.py:33-38 | zero-filling the carried digits to a final string and parsing every string gives the packed bytes of the padded stream |
| Gif.ConvertLittleEndian9Bits | image-gen/gif.py:12-38 | `convert_little_endian_9bits(codes)` returns exactly the codes packed least significant bit first into bytes |
| Gif.SubBlocksAppend | image-gen/gif.py:104-112 | sub-blocking data whose first part is a multiple of 255 bytes sub-blocks the two parts independently |
| Gif.OneBlock | image-gen/gif.py:107-112 | a chunk of 1 to 255 bytes becomes its length followed by the chunk |
| Gif.SubBlocksLength | image-gen/gif.py:105-112 | the sub-blocks add one length byte per chunk: ⌈len/255⌉ of them |
| Gif.SubBlocksRoundTrip | image-gen/gif.py:104-113 | a decoder that reads sub-blocks up to the zero-length terminator recovers the data exactly and stops right after the terminator |
| Gif.SubBlocksBytes | image-gen/gif.py:110-112 | sub-blocks of bytes are bytes: each length byte is at most 255 |
| Gif.BitLengthBound | image-gen/gif.py:42 | `n.bit_length() <= w` holds exactly when n < 2^w, for n ≥ 0 |
| Gif.SixteenBits | image-gen/gif.py:42-46 | `n.bit_length() > 16` fails exactly for -65536 < n < 65536 |
| Gif.PaletteOk | image-gen/gif.py:64-68 | the colour table packs exactly when every channel of every entry is a byte; otherwise `struct.error` |
| Gif.PaletteLayout | image-gen/gif.py:64-68 | the colour table is bytes, and entry k is bytes 3k, 3k+1 and 3k+2 in the order red, green, blue |
| Gif.CodesNineBit | image-gen/gif.py:97-101 | the code list is Clear, the indices, End of Information: two longer than the indices and all nine-bit |
| Gif.EncodeErrors | image-gen/gif.py:41-92 | `ValueError` is raised exactly when a dimension needs more than 16 bits, the palette lacks 256 entries or the indices do not number width × height; after those checks `struct.error` is raised exactly when a dimension is negative, a channel is not a byte or the transparent index is not a byte |
| Gif.EncodeCases | image-gen/gif.py:58-84 | once the checks pass, the first field that fails to pack (width, height, palette, transparent index, in that order) makes the result `struct.error` |
| Gif.EncodeIsLayout | image-gen/gif.py:54-115 | once every field packs, the output is the header, screen descriptor, colour table, control extension, image descriptor, image data and terminator in that order |
| Gif.LayoutParts | image-gen/gif.py:54-115 | in that layout the signature is bytes 0-5, width and height bytes 6-9, the flags 10-12, the colour table 13-780, the control extension 781-788, the image descriptor 789-798, and the image data plus terminator the rest |
| Gif.EncodeOk | image-gen/gif.py:41-115 | a successful encoding passed every check, has both dimensions in 0..65535, a packed colour table and control extension, and is their layout |
| Gif.EncodeBytes | image-gen/gif.py:54-115 | every value written is a byte |
| Gif.LayoutBytes | image-gen/gif.py:54-115 | a layout of byte fields is bytes |
| Gif.EncodeReadBack | image-gen/gif.py:41-115 | a decoder reading the file (9-bit codes, fixed field offsets) gets back the width, the height, the 256 palette entries, the transparent index and the indices that were encoded |
| Gif.FieldsReadBack | image-gen/gif.py:64-113 | the colour table, the control extension and the packed codes give back the palette, the transparent index and the indices |
| Gif.ReadLayout | image-gen/gif.py:54-115 | a file whose fields lie at the writer's offsets is read field by field |
| Gif.PaletteReadBack | image-gen/gif.py:64-68 | the triples read from the colour table bytes are the palette |
| Gif.PackByte | image-gen/gif.py:66 | `struct.pack('<B', x)` of a byte x is the single byte x |
| Gif.PaletteStep | image-gen/gif.py:65-68 | a colour table that packs, extended by an entry of bytes, is the old table followed by red, green and blue |
| Gif.WriteEntry | image-gen/gif.py:65-68 | one entry writes red, green, blue and succeeds exactly when all three are bytes; on `struct.error` it has only appended |
| Gif.WritePalette | image-gen/gif.py:64-68 | the palette loop writes the colour table and succeeds exactly when it packs; on `struct.error` it has only appended |
| Gif.WriteGce | image-gen/gif.py:70-85 | the control extension writes are the extension bytes, failing exactly when the transparent index is not a byte |
| Gif.NineBitCodes | image-gen/gif.py:97-101 | the `nine_bits` loop builds Clear, every index in order, End of Information |
| Gif.WriteSubBlocks | image-gen/gif.py:104-112 | the chunk loop writes exactly the sub-blocks of the data |
| Gif.WriteChunkStep | image-gen/gif.py:105-112 | chunk i starts before the end of the data and is one more sub-block after the chunks before it |
| Gif.WriteImageData | image-gen/gif.py:94-113 | the image data writes are code size 8, the packed codes in sub-blocks and the zero-length terminator |
| Gif.WriteDescriptor | image-gen/gif.py:87-92 | the image descriptor is 0x2C, the corner (0, 0), width, height and a zero flags byte |
| Gif.WriteScreen | image-gen/gif.py:54-62 | the header and screen descriptor writes are `GIF89a`, width and height little-endian and 0xF7 0 0, failing with `struct.error` exactly when a dimension does not fit two bytes |
| Gif.WriteAccepted | image-gen/gif.py:54-115 | once the checks pass, the writes are the encoding on success, or the exception it raises and only appended bytes on failure |
| Gif.EncodeGif | image-gen/gif.py:41-115 | `encode_gif` writes exactly the encoding when it succeeds, raises the same exception as the encoding otherwise, writes nothing when a check fails, and only ever appends to the handle |
| Polynomials.HornerIsEval | maths/polynomials.py:23-26 | the Horner loop of `ruf` computes the value Σ pol[k]·x^(deg−k) |
| Polynomials.Ruf | maths/polynomials.py:18-26 | `ruf(pol, x)` is true exactly when `x` is a root; an empty list raises `IndexError` |
| Polynomials.Rufv | maths/polynomials.py:29-68 | the row r[0] = pol[0], r[k] = pol[k] + r[k−1]·x is returned exactly when `x` is a root, otherwise `None` |
| Polynomials.RowLastIsValue | maths/polynomials.py:36-38 | the last entry of the row is the value of the polynomial at `x` |
| Polynomials.RuffiniQuotient | maths/polynomials.py:36-38 | (x − a) times the row without its last entry is the polynomial minus the remainder |
| Polynomials.RootQuotient | maths/polynomials.py:114-118 | at a root, (x − a) times the quotient is exactly the polynomial |
| Polynomials.EvalMulLinear | maths/polynomials.py:117-118 | the factor [1, −a] times q evaluates to (x − a)·q(x) |
| Polynomials.HornerAtZero | maths/polynomials.py:78-83 | the value at 0 is the constant term |
| Polynomials.FindRuf | maths/polynomials.py:71-99 | 0 when the constant term is 0; otherwise the first root in the order 1, −1, 2, −2, … within ±limit, or `None` when there is none; an empty list raises `IndexError` |
| Polynomials.RootBeyond | maths/polynomials.py:88-99 | a search with no limit reaches any non-zero integer root, so it stops |
| Polynomials.CubicFirstRoot | maths/polynomials.py:195-196 | for x³ + 3x² + 7x + 21 the first root tried that works is −3 |
| Polynomials.ExpandEval | maths/polynomials.py:102-106 | the expanded product of the factors takes the product of their values |
| Polynomials.ExpandSplit | maths/polynomials.py:114-118 | splitting off [1, −a] from (x − a)·q keeps the product |
| Polynomials.IntFactorize | maths/polynomials.py:102-141 | the factors are [1, −r] and a last quotient whose product is the input; the loop ends with at most two coefficients or no root in range |
| Polynomials.CubicFactors | maths/polynomials.py:195-198 | x³ + 3x² + 7x + 21 is (x + 3)(x² + 7) |
| Polynomials.StrPower | maths/polynomials.py:144-156 | the decimal digits of `i` as superscripts; a negative `i` indexes the digit string from the end and below −10 raises `IndexError` |
| Polynomials.StrPowerDecodes | maths/polynomials.py:144-156 | reading the superscripts back gives `i` |
| Polynomials.SuperscriptRoundTrip | maths/polynomials.py:146-156 | superscript digits read back to the value of the decimal digits |
| Polynomials.CollectPieces | maths/polynomials.py:161-179 | the loop's list is the pieces of every non-zero coefficient in order: sign, coefficient unless it is 1, `x` and the superscript exponent above degree 1 |
| Polynomials.StrPol | maths/polynomials.py:159-188 | the pieces of the non-zero terms, joined without a leading '+', signs spaced; `IndexError` exactly when every coefficient is 0 |
| Polynomials.PiecesEmptyIffZero | maths/polynomials.py:163-180 | nothing is emitted exactly when all coefficients are 0 |
| Polynomials.ConstantOne | maths/polynomials.py:168-173 | a coefficient of exactly 1 prints no digits: `strpol([1])` is empty |
| Polynomials.SquareMinusTwo | maths/polynomials.py:163-186 | [1, 0, −2] prints as "x² - 2" |
| Extrapolation.GetDiff | interpolation/extrapolation.py:4-7 | `getdiff` has one entry fewer than its input (none for an empty one), entry i being s[i+1] − s[i] |
| Extrapolation.DiffTelescopes | interpolation/extrapolation.py:4-7 | every entry is the first plus the sum of the differences before it, so the difference sequence determines the input up to its first entry |
| Extrapolation.ConstantIffZeroDiffs | interpolation/extrapolation.py:16-19 | `isconstant(s)` holds exactly when every difference of `s` is 0 |
| Extrapolation.ZeroSum | interpolation/extrapolation.py:108-109 | a level of zeros contributes nothing to the accumulated sum |
| Extrapolation.GetDiv | interpolation/extrapolation.py:10-13 | `getdiv` has one entry fewer than its input when it succeeds, and the only error it raises is `ZeroDivisionError` |
| Extrapolation.GetDivSpec | interpolation/extrapolation.py:10-13 | `getdiv(s)` raises exactly when some divisor s[i] (i < len(s) − 1) is 0; otherwise entry i is the floor quotient s[i+1] // s[i] |
| Extrapolation.DivUndoes | interpolation/extrapolation.py:10-13 | where the division is exact, multiplying back by the divisor restores the next entry |
| Extrapolation.FloorDivUniqueAny | interpolation/extrapolation.py:13 | Python's `//` returns q whenever the dividend is exactly q times a non-zero divisor, whatever the signs |
| Extrapolation.DiffTableShape | interpolation/extrapolation.py:22-38 | the difference table is empty exactly below two entries; otherwise level 0 is `getdiff(s)`, each level is `getdiff` of the one before and only the last is constant or a single entry |
| Extrapolation.DivTableShape | interpolation/extrapolation.py:41-53 | the division table is empty below two entries; otherwise level 0 is `getdiv(s)`, each level is `getdiv` of the one before and only the last is constant or a single entry |
| Extrapolation.GetDiffs | interpolation/extrapolation.py:22-38 | the loop of `getdiffs` builds exactly the difference table |
| Extrapolation.GetDivs | interpolation/extrapolation.py:41-53 | the loop of `getdivs` builds exactly the division table, or raises the `ZeroDivisionError` of the first level that divides by 0 |
| Extrapolation.DiffTableLevels | interpolation/extrapolation.py:103-105 | every level of the difference table is non-empty, so `ds[-1][-1]` and `ds[i][-1]` exist from two entries on |
| Extrapolation.DivTableLevels | interpolation/extrapolation.py:120-121 | every level of a division table that was built is non-empty, so `ds[-1][-1]` and `ds[i][-1]` exist from two entries on |
| Extrapolation.AccumulateSum | interpolation/extrapolation.py:105-109 | the loop from the bottom level up adds the last entries of all levels |
| Extrapolation.AccumulateProduct | interpolation/extrapolation.py:121-123 | the loop from the bottom level up multiplies the last entries of all levels |
| Extrapolation.NextItem | interpolation/extrapolation.py:98-112 | `nextitem(s)` raises `IndexError` exactly below two entries and otherwise returns s[-1] plus the sum of the last entries of the difference table |
| Extrapolation.NextDItem | interpolation/extrapolation.py:115-125 | `nextditem(s)` raises `IndexError` below two entries, raises `ZeroDivisionError` exactly when building the division table does, and otherwise returns s[-1] times the product of the last entries |
| Extrapolation.ArithmeticNext | interpolation/extrapolation.py:98-112 | on an arithmetic sequence with step d the guessed next item is s[-1] + d |
| Extrapolation.GeometricNext | interpolation/extrapolation.py:115-125 | on a geometric sequence with non-zero start and integer ratio q the guessed next item is s[-1] · q |
| Extrapolation.NonZeroPrefix | interpolation/extrapolation.py:13 | a geometric sequence with non-zero start and ratio has no zero entry, so its divisions never raise |
| Extrapolation.DiffExample | interpolation/extrapolation.py:129-133 | the table of [6, 9, 2, 5] is [[3, −7, 3], [−10, 10], [20]] and the next item is 38 |
| Extrapolation.DivExample | interpolation/extrapolation.py:140-144 | the division table of [1, 2, 8, 64] is [[2, 4, 8], [2, 2]] and the next item is 1024 |
| ExtrapolationGeneric.GetSubseq | interpolation/extrapolation_generic.py:10-22 | when `get_subseq` succeeds it has one entry fewer than its input (none for an empty one) |
| ExtrapolationGeneric.GetSubseqOk | interpolation/extrapolation_generic.py:10-22 | `get_subseq(s, op)` succeeds exactly when `op` succeeds on every pair of neighbours, and then entry i is `op(s[i], s[i+1])` |
| ExtrapolationGeneric.GetSubseqErr | interpolation/extrapolation_generic.py:22 | when `get_subseq` raises, it raises the error of the first pair, left to right, on which `op` raises |
| ExtrapolationGeneric.Levels | interpolation/extrapolation_generic.py:38-39 | a built chain of levels starts with the level it was built from |
| ExtrapolationGeneric.SubseqTableShape | interpolation/extrapolation_generic.py:25-41 | the table is empty exactly below two entries; otherwise level 0 is `get_subseq(s, op)`, each level is `get_subseq` of the one before and only the last is constant or a single entry |
| ExtrapolationGeneric.GetSubseqs | interpolation/extrapolation_generic.py:25-41 | the loop of `get_subseqs` builds exactly that table, or raises the first error of `op` |
| ExtrapolationGeneric.AccumulateInv | interpolation/extrapolation_generic.py:73-78 | the loop from the bottom level up folds `invop` over the last entries of the levels |
| ExtrapolationGeneric.NextItem | interpolation/extrapolation_generic.py:64-81 | `nextitem(s, op, invop)` is `invop(s[-1], r)` with r folded up the table; errors of `op` propagate and below two entries it raises `IndexError` |
| ExtrapolationGeneric.SubseqIsDiff | interpolation/extrapolation_generic.py:86-87 | with `b - a`, `get_subseq` is `getdiff` of interpolation/extrapolation.py |
| ExtrapolationGeneric.FoldIsSum | interpolation/extrapolation_generic.py:88 | with `b + a` the fold up the table is the sum of the last entries |
| ExtrapolationGeneric.DiffInstance | interpolation/extrapolation_generic.py:86-88 | with `b - a` and `b + a` the generic table is `getdiffs` and the generic `nextitem` is `nextitem` of interpolation/extrapolation.py, including its `IndexError` |
| ExtrapolationGeneric.SubseqIsDiv | interpolation/extrapolation_generic.py:106 | with `b // a`, `get_subseq` is `getdiv`, including its `ZeroDivisionError` |
| ExtrapolationGeneric.FoldIsProduct | interpolation/extrapolation_generic.py:107 | with `b * a` the fold up the table is the product of the last entries |
| ExtrapolationGeneric.TableIsDivTable | interpolation/extrapolation_generic.py:106 | with `b // a` the generic table is `getdivs` |
| ExtrapolationGeneric.DivInstance | interpolation/extrapolation_generic.py:106-107 | with `b // a` and `b * a` the generic `nextitem` is `nextditem`, errors included |
| ExtrapolationGeneric.SelfTest | interpolation/extrapolation_generic.py:85-114 | the self-test's sequences continue with 38 (differences) and 1024 (divisions) |
| PyInt.FloorDivPositive | euler/gcd.py:9 | for a positive divisor Python's `//` and `%` are Dafny's `/` and `%` |
| Primes.IsSafePrime | primeseq/primeseq.py:4-17 | `is_safe_prime(n)` is true exactly when `n` is prime: at least 2 with no divisor in `[2, n)` |
| Primes.SmallestDivisor | euler/gcd.py:8-17 | the least divisor of `n` above 1 divides `n` and no smaller number above 1 does |
| Primes.SmallestDivisorIsPrime | euler/gcd.py:8-17 | that divisor is prime |
| Primes.CompositeHasSmallDivisor | primeseq/primeseq.py:54 | a number that is not prime has its least divisor at most its square root |
| Primes.PrimeIffNoSmallPrimeDivisor | maths/primeseq.py:81-91 | `n >= 2` is prime exactly when no prime whose square is at most `n` divides it |
| Primes.Isqrt | maths/primeseq.py:84 | `int(n ** 0.5)` read as the integer square root: `r*r <= n < (r+1)*(r+1)` |
| Primes.IsqrtBound | maths/primeseq.py:84-91 | `p <= isqrt(n)` exactly when `p*p <= n` |
| Primes.PrimeAbove | euler/gcd.py:8 | `p! + 1` has a prime divisor above `p`: the primes never run out |
| Primes.NextPrime | euler/gcd.py:8 | the next prime above `p`, with no prime in between |
| Primes.NextPrimeLeast | euler/gcd.py:8 | every prime above `p` is at least the next prime |
| EulerGcd.Gcd | euler/gcd.py:24-40 | `ZeroDivisionError` exactly when `b == 0`; otherwise the loop returns the last non-zero remainder of Euclid's sequence |
| EulerGcd.FloorModSmaller | euler/gcd.py:38-39 | each remainder is smaller than the divisor in magnitude, so the loop ends |
| EulerGcd.CommonDivisorsOfRemainder | euler/gcd.py:37-39 | `a` and `b` have the same common divisors as `b` and `a % b` |
| EulerGcd.EuclidIsGcd | euler/gcd.py:24-40 | the result is non-zero, divides both arguments, and every common divisor divides it |
| EulerGcd.EuclidPositive | euler/gcd.py:24-40 | with `b > 0` the result is positive |
| EulerGcd.EuclidOneIffCoprime | euler/gcd.py:57 | for `b > 0`, `gcd(a, b) == 1` exactly when no number above 1 divides both |
| EulerGcd.GetFactors | euler/gcd.py:5-21 | for `n >= 1` the factors are primes in non-decreasing order whose product is `n`, and none exactly for `n == 1` |
| EulerGcd.ProductOfPrimes | euler/gcd.py:19-21 | a product of primes is at least 1, and 1 only for no primes |
| EulerGcd.DivideOutStep | euler/gcd.py:11-17 | dividing `p` out once keeps the product, the order and "no smaller prime divides what is left" |
| EulerGcd.NextPrimeStep | euler/gcd.py:8 | once `p` no longer divides `n > 1`, the next prime is at most `n` and no prime below it divides `n` |
| EulerGcd.ZeroDividesForever | euler/gcd.py:9-17 | for `n == 0` every run of the inner loop leaves `n == 0` with remainder 0, so the loop never ends |
| EulerGcd.NegativeNeverOne | euler/gcd.py:9-21 | a negative `n` stays negative, so `n == 1` never holds and the call never returns |
| EulerGcd.GetFactorsChecked | euler/gcd.py:5-21 | `ValueError` exactly for `n <= 0`; otherwise the factorisation of `GetFactors` |
| EulerGcd.PhiDefinition | euler/gcd.py:52-59 | the loop returns 1 plus the number of `i` in `[2, n)` with `gcd(n, i) == 1`, and 1 for `n <= 2` |
| EulerGcd.CoprimeCountAll | euler/gcd.py:56-58 | at most every `i` in `[2, k)` is counted, and all of them exactly when all are coprime to `n` |
| EulerGcd.EuclidBelowPrime | euler/gcd.py:57 | below a prime `n` every `i >= 2` has `gcd(n, i) == 1`; a divisor `i >= 2` of `n` does not |
| EulerGcd.PhiDefinitionPrime | euler/gcd.py:52-59 | for `n >= 2` the result is at most `n - 1`, and equal to it exactly when `n` is prime |
| PrimeBuffer.InitialBuffers | primeseq/primeseq.py:22 | the starting buffers `[2]`, `[2, 3]` and `[2, 3, 5]` hold exactly the primes up to their last entry |
| PrimeBuffer.PrimePrefixAppend | primeseq/primeseq.py:34 | appending the prime after the last keeps the buffer the list of consecutive primes from 2 |
| PrimeBuffer.PrimePrefixFirst | primeseq/primeseq.py:22 | such a buffer starts with 2 and ends with its largest entry |
| PrimeBuffer.NthPrime | primeseq/primeseq.py:35 | the `k`-th prime, counting from 2, is prime |
| PrimeBuffer.NthPrimeIncreasing | primeseq/primeseq.py:28-35 | the primes are enumerated in increasing order |
| PrimeBuffer.NthPrimeCovers | primeseq/primeseq.py:28-35 | every prime is enumerated |
| PrimeBuffer.PrimePrefixIsFirstPrimes | primeseq/primeseq.py:22-35 | a buffer of consecutive primes from 2 holds the `j`-th prime at index `j` |
| PrimeBuffer.NthPrimeAfter | primeseq/primeseq.py:30-34 | the prime after the buffer's last is the next one in the enumeration |
| PrimeBuffer.Grown | primeseq/primeseq.py:29-34 | moving to index `k` keeps the buffer as it is inside it and appends exactly one prime past its end |
| PrimeBuffer.FoundNext | primeseq/primeseq.py:31-33 | the first prime after the last buffered one, with none between, is the next prime |
| PrimeBuffer.NextPrimeSkip | primeseq/primeseq.py:31-33 | the search may step two at a time over odd candidates that are not prime |
| PrimeBuffer.CanBePrimeMod | primeseq/primeseq.py:37-40 | `_canbeprime(n)` holds exactly when `n % 6` is 1 or 5 |
| PrimeBuffer.CanBePrimeFilter | primeseq/primeseq.py:49-51 | from 5 on every prime passes `_canbeprime`, and it holds exactly for numbers divisible by neither 2 nor 3 |
| PrimeBuffer.ScanBuffer | primeseq/primeseq.py:54-59 | the loop over the buffer returns what `Scan` says: True past the limit, False on a divisor, nothing when the buffer runs out |
| PrimeBuffer.ScanSound | primeseq/primeseq.py:54-59 | an answer of the scan is the primality of `n`; running out means every buffered prime is at most `isqrt(n)` and divides nothing |
| PrimeBuffer.DivisorBelowSqrt | primeseq/primeseq.py:58-63 | a divisor from 2 to `isqrt(n)` shows `n` is not prime |
| PrimeBuffer.TrialDivisionSound | primeseq/primeseq.py:61-65 | trial division past `isqrt(n)` without a divisor shows `n` is prime |
| PrimeBuffer.BufferContains | primeseq/primeseq.py:42-65 | `n in ps` is true exactly when `n` is prime, for every `n`, and so agrees with `is_safe_prime` |
| TrialPrimeSeq.InfPrimeSeq.constructor | primeseq/primeseq.py:21-22 | the buffer is `[2, 3, 5]` and the index is not set |
| TrialPrimeSeq.InfPrimeSeq.Iter | primeseq/primeseq.py:24-26 | the index is reset to -1 and the buffer kept |
| TrialPrimeSeq.InfPrimeSeq.Contains | primeseq/primeseq.py:42-65 | `n in ps` is true exactly when `n` is prime |
| TrialPrimeSeq.InfPrimeSeq.Next | primeseq/primeseq.py:28-35 | `AttributeError` before `__iter__`; otherwise the index moves on and the `i`-th prime is returned, appended when it was past the buffer |
| TrialPrimeSeq.SearchNext | primeseq/primeseq.py:31-33 | the search from two past the last prime stops at the next prime |
| TrialPrimeSeq.PrimeSeq.constructor | primeseq/primeseq.py:69-71 | a fresh inner sequence and the bound `stop` |
| TrialPrimeSeq.PrimeSeq.Next | primeseq/primeseq.py:73-78 | the inner sequence moves on; its prime is returned when below `stop`, otherwise `StopIteration` |
| TrialPrimeSeq.Bounded | primeseq/primeseq.py:75-78 | a prime below `stop` is returned as it is, otherwise `StopIteration` |
| TrialPrimeSeq.StopPersists | primeseq/primeseq.py:75-78 | once `StopIteration` is raised at the `j`-th prime it is raised at every later one |
| TrialPrimeSeq.YieldsEveryPrimeBelow | primeseq/primeseq.py:68-78 | every prime below `stop` is yielded at some call |
| SixStepPrimeSeq.FastContains | maths/primeseq.py:81-91 | an answer is the primality of `n`; `ValueError` exactly when every buffered prime is at most `isqrt(n)` and divides nothing |
| SixStepPrimeSeq.FastContainsGap | maths/primeseq.py:91 | that `ValueError` only happens for `n` at least the square of the last buffered prime |
| SixStepPrimeSeq.PrimeSixStep | maths/primeseq.py:45-47 | a prime from 5 on is `6k+1` or `6k+5` |
| SixStepPrimeSeq.SkipFromFive | maths/primeseq.py:56-67 | from the last prime or a rejected candidate `6k+5` the search moves to `6k+7` without passing a prime |
| SixStepPrimeSeq.SkipFromOne | maths/primeseq.py:62-72 | from the last prime or a rejected candidate `6k+1` the search moves to `6k+5` without passing a prime |
| SixStepPrimeSeq.TryCandidate | maths/primeseq.py:58-70 | accepting a candidate means it is the next prime; rejecting means it is not prime; raising means the next prime is at least the square of the last |
| SixStepPrimeSeq.SearchNext | maths/primeseq.py:55-72 | the search finds the next prime, or raises `ValueError` only when the next prime is at least the square of the last |
| SixStepPrimeSeq.SearchLoop | maths/primeseq.py:63-72 | the `while True` loop finds the next prime, or raises as `_fastcontains` does |
| SixStepPrimeSeq.InfPrimeSeq.constructor | maths/primeseq.py:22-23 | the buffer `[2, 3, 5]` and index -1 |
| SixStepPrimeSeq.InfPrimeSeq.Iter | maths/primeseq.py:36-38 | the index is reset to -1 and the buffer kept |
| SixStepPrimeSeq.InfPrimeSeq.Contains | maths/primeseq.py:93-117 | `n in ps` is true exactly when `n` is prime |
| SixStepPrimeSeq.InfPrimeSeq.Next | maths/primeseq.py:40-74 | inside the buffer the `i`-th prime; past it the next prime appended, or `ValueError` with the buffer unchanged |
| SixStepPrimeSeq.InfPrimeSeq.Prefill | maths/primeseq.py:29-34 | `N` calls of `__next__` then the index reset: the buffer holds `max(3, N)` primes |
| SixStepPrimeSeq.InfPrimeSeq.Extend | maths/primeseq.py:44-72 | the next prime is appended and returned, or `ValueError` |
| SixStepPrimeSeq.New | maths/primeseq.py:21-34 | `ValueError` for a negative size; otherwise the first `max(3, N)` primes with the index at -1 |
| SixStepPrimeSeq.PrimeSeq.constructor | maths/primeseq.py:121-123 | wraps an inner sequence already built by the base constructor and keeps the bound `stop` |
| SixStepPrimeSeq.NewPrimeSeq | maths/primeseq.py:121-123 | `primeseq(stop, initial_buffer_size)`: `ValueError` for a negative size, as the base constructor raises it; otherwise the first `max(3, N)` primes, `[2, 3, 5]` for an absent or zero size, the index at -1 and the bound `stop` |
| SixStepPrimeSeq.PrimeSeq.Next | maths/primeseq.py:120-133 | `next(ps)` is the class's `__next__`: the bound `stop` is not applied |
| SixStepPrimeSeq.StopIgnored | maths/primeseq.py:126-133 | `primeseq(3)` as written yields 3 at its second step |
| SixStepPrimeSeq.PrimeSeq.NextBelowStop | maths/primeseq.py:126-131 | with the bound applied: inside the buffer the `i`-th prime bounded by `stop`; past it the next prime appended and bounded by `stop` (returned when below it, `StopIteration` otherwise), or `ValueError` from the search with the buffer unchanged, only when the next prime is at least the square of the last; these are the values `TrialPrimeSeq.StopPersists` and `TrialPrimeSeq.YieldsEveryPrimeBelow` speak of |
| SixStepPrimeSeq.ExtendBelowStop | maths/primeseq.py:126-131 | one step past the buffer where the search cannot raise: the next prime is appended and bounded by `stop` |
| SixStepPrimeSeq.AfterSmallBuffer | maths/primeseq.py:55-72 | after `[2, 3, 5]` come 7 and 11, and the search cannot raise before either |
| SixStepPrimeSeq.StopApplied | maths/primeseq.py:126-131 | with the bound applied, `primeseq(10)` yields 7 at its fourth step and raises `StopIteration` at its fifth |
| SievePrimeSeq.SieveTest | math/primeseq.py:97-99 | under the sieve invariant, an odd `q` is a key of `D` exactly when it is not prime |
| SievePrimeSeq.CompositeStep | math/primeseq.py:99-111 | re-marking a popped composite keeps the sieve invariant |
| SievePrimeSeq.PrimeStep | math/primeseq.py:112-114 | yielding a prime and marking its square keeps the sieve invariant |
| SievePrimeSeq.NextFree | math/primeseq.py:107-110 | the marking loop stops at the first odd multiple of `p` above `q` that is not a key, having passed only keys |
| SievePrimeSeq.Advance | math/primeseq.py:96-115 | one resumption of the generator yields the next prime, and the sieve keeps running |
| SievePrimeSeq.Sift | math/primeseq.py:96-111 | popping and re-marking composites stops at the prime after the last one yielded |
| SievePrimeSeq.Eratosthenes.constructor | math/primeseq.py:93-94 | a sieve before its first prime |
| SievePrimeSeq.Eratosthenes.Next | math/primeseq.py:90-115 | `next(e)` yields 2 first, then the primes in increasing order: the `k`-th call gives the `k`-th prime |
| SievePrimeSeq.Draw | math/primeseq.py:40-41 | the prime drawn from the sieve is the one after the buffered ones |
| SievePrimeSeq.Extend | math/primeseq.py:71-74 | primes are drawn until the last reaches the limit; the one before it is below the limit |
| SievePrimeSeq.Take | math/primeseq.py:27 | the first `n` primes from a fresh sieve |
| SievePrimeSeq.TrialDivides | math/primeseq.py:82-84 | whether one of the first `ilimit` buffered primes divides `n` |
| SievePrimeSeq.InBufferVerdict | math/primeseq.py:59-66 | for `n` up to the last buffered prime, `bisect_left` finds `n` exactly when it is prime |
| SievePrimeSeq.TrialVerdict | math/primeseq.py:76-87 | with enough primes buffered, trial division by those up to `isqrt(n) + 1` decides primality |
| SievePrimeSeq.GrownVerdict | math/primeseq.py:71-87 | after growing, no divisor means prime; a prime is rejected only when no prime lies between `isqrt(n)` and `n` |
| SievePrimeSeq.TrialContains | math/primeseq.py:70-87 | True only for primes; a prime gets False only when the buffer had to grow and no prime lies between `isqrt(n)` and `n` |
| SievePrimeSeq.PrimeSeq.constructor | math/primeseq.py:23-31 | the first `initial_buffer_size` primes, or just 2 when it is falsy, with the index at -1; a negative size leaves the buffer empty and the recorded size negative |
| SievePrimeSeq.PrimeSeq.Iter | math/primeseq.py:33-35 | the index is reset to -1 and the buffer kept |
| SievePrimeSeq.PrimeSeq.Next | math/primeseq.py:37-45 | the index moves on and the `i`-th prime is returned, drawn from the sieve one past the buffer; after a negative size, `IndexError` with nothing else changed |
| SievePrimeSeq.PrimeSeq.Contains | math/primeseq.py:47-87 | the buffer only grows; True only for primes; a prime gets False only when no prime lies between `isqrt(n)` and `n`; after a negative size, `IndexError` exactly for the `n` that pass the small-number and 6k±1 filters |
| Bisect.BisectLeft | math/primeseq.py:65 | `bisect_left`: everything before the result is below `x`, nothing from it on is |
| Bisect.BisectRight | math/primeseq.py:80 | `bisect_right`: everything before the result is at most `x`, everything from it on is above |
| Bisect.BisectLeftFinds | math/primeseq.py:65-66 | in a strictly increasing list `bisect_left` lands on `x` whenever `x` occurs |
| DocNumbers.CheckDigit | business/cnpj.py:134-139 | a digit 0..9; 0 exactly when the sum leaves a remainder of at most 1 by 11; otherwise adding it makes the sum a multiple of 11 |
| DocNumbers.Insert | business/cnpj.py:114 | `list.insert(i, x)`: before position `i`, or at the end when `i` is past it |
| DocNumbers.InsertAll | business/cnpj.py:113-114 | inserting each mark in turn adds one entry per mark |
| DocNumbers.InsertAllSnoc | business/cnpj.py:113-114 | one more mark is inserted into the list the earlier marks left |
| DocNumbers.PyIndex | business/cnpj.py:69 | list indexing accepts exactly `-n <= index < n`, negative indices counting from the end |
| DocNumbers.Strs | business/cnpj.py:112 | `map(str, xs)` renders every entry in decimal |
| DocNumbers.Values | business/cnpj.py:52 | `map(int, s)` on digits gives each digit's value |
| DocNumbers.IntEach | business/cnpj.py:52 | converting every character keeps the length, and fails only with `ValueError` |
| DocNumbers.IntEachSpec | business/cnpj.py:52 | converting every character succeeds exactly on a string of digits and then gives their values |
| DocNumbers.ParseChar | business/cpf.py:56 | `int(c)` of a digit is its value; of any other character `ValueError` |
| DocNumbers.DigitStringChars | business/cnpj.py:83 | single digits render one character each, and read back as the same digits |
| DocNumbers.ReplaceDrops | business/cnpj.py:42-44 | `s.replace(c, '')` removes every `c` and keeps the rest in order |
| Cnpj.New | business/cnpj.py:27-52 | a list is kept when it has 14 entries or more; otherwise, and for a string with fewer than 14 characters left or a non-digit character, `ValueError` |
| Cnpj.NewSpec | business/cnpj.py:40-52 | a string is accepted exactly when, without '.', '-' and '/', it is at least 14 characters long and all digits; the number is then those digits |
| Cnpj.UnpunctuatedDrops | business/cnpj.py:42-44 | the three `replace` calls remove exactly '.', '-' and '/' |
| Cnpj.Prepared | business/cnpj.py:41-44 | skipping the `replace` calls for an all-digit string gives what they would have |
| Cnpj.GetItem | business/cnpj.py:55-69 | `a[index]` is the entry rendered with `str`, negative indices from the end; `IndexError` outside |
| Cnpj.ReprRoundTrip | business/cnpj.py:71-83 | for single digits, the text quoted by `repr` constructs the same number |
| Cnpj.Eq | business/cnpj.py:85-101 | equal exactly to another `CNPJ` with the same entries |
| Cnpj.ToString | business/cnpj.py:103-116 | the rendered entries with '.', '.', '/' and '-' inserted at 2, 6, 10 and 15, joined |
| Cnpj.MarksLayout | business/cnpj.py:111-116 | for 14 or more single digits that is `XX.XXX.XXX/XXXX-XX` with the rest after the dash |
| Cnpj.FormatRoundTrip | business/cnpj.py:103-116 | `CNPJ(str(a)) == a` and equals `CNPJ` of the plain digits |
| Cnpj.PlainRoundTrip | business/cnpj.py:83 | the digits written out read back as the same number |
| Cnpj.FormatUnpunctuated | business/cnpj.py:42-44 | removing the punctuation from the formatted number leaves its digits |
| Cnpj.Completed | business/cnpj.py:129-141 | twelve digits followed by the two check digits the loop appends |
| Cnpj.IsValid | business/cnpj.py:118-144 | the loop of `isValid` returns exactly `Valid` |
| Cnpj.ValidMeans | business/cnpj.py:129-144 | valid exactly when there are 14 entries, the 13th is the check digit of the first twelve under 5,4,3,2,9,8,7,6,5,4,3,2 and the 14th that of the first thirteen with a 6 prepended to the weights |
| Cnpj.CheckDigitsDetermined | business/cnpj.py:129-144 | twelve entries have one valid completion, and changing either check digit makes the number invalid |
| Cnpj.ExampleValid | business/cnpj.py:10 | 11222333000181 is valid |
| Cnpj.ExampleInvalid | business/cnpj.py:124-126 | 11222333000182 is not valid |
| Cnpj.ExampleParse | business/cnpj.py:7-13 | `'11222333000181'` and `'11.222.333/0001-81'` construct the same number |
| Cnpj.ExampleFormat | business/cnpj.py:19 | that number formats as `11.222.333/0001-81` |
| Cnpj.ExampleList | business/cnpj.py:9-12 | the list ending in 8, 2 is constructed and is not valid |
| Cpf.TranslateOnlyDigits | business/cpf.py:4 | only digits are kept |
| Cpf.TranslateChar | business/cpf.py:4 | one character is kept exactly when it is a digit |
| Cpf.TranslateAppend | business/cpf.py:4 | `_translate` of a concatenation is the concatenation of the results |
| Cpf.TranslateDigits | business/cpf.py:4 | a string is left as it is exactly when it is all digits |
| Cpf.New | business/cpf.py:40-56 | a string constructs the number of its digits, a list is kept; no length is refused |
| Cpf.SameDigitsSameNumber | business/cpf.py:52-56 | two strings with the same digits construct the same number |
| Cpf.GetItem | business/cpf.py:58-63 | `a[index]` is the entry itself, negative indices from the end; `IndexError` outside |
| Cpf.ReprRoundTrip | business/cpf.py:65-72 | for single digits, the text quoted by `repr` constructs the same number |
| Cpf.PlainRoundTrip | business/cpf.py:72 | the digits written out read back as the same number |
| Cpf.Eq | business/cpf.py:74-79 | equal exactly to another `CPF` with the same entries |
| Cpf.ToString | business/cpf.py:81-93 | the rendered entries with '.', '.' and '-' inserted at 3, 7 and 11, joined; for nine or more single digits `XXX.XXX.XXX-` and the rest |
| Cpf.FormatRoundTrip | business/cpf.py:81-93 | `CPF(str(a)) == a` and equals `CPF` of the plain digits |
| Cpf.FormatDigits | business/cpf.py:4 | `_translate` of the formatted number is its digits |
| Cpf.ExceptionsMeans | business/cpf.py:6-16 | `_exceptions` holds exactly for lists that are not 11 long or repeat one digit |
| Cpf.RenderingLength | business/cpf.py:13 | each entry renders to at least one character, and only single digits to exactly one |
| Cpf.GenWeights | business/cpf.py:23-25 | the weights of a list of `n` entries run from `n + 1` down to 2 |
| Cpf.NextDigit | business/cpf.py:27-32 | a digit 0..9 that makes the weighted sum a multiple of 11, or 0 when its remainder is at most 1 |
| Cpf.Gen | business/cpf.py:18-32 | the loop of `_gen` computes that digit |
| Cpf.Completed | business/cpf.py:103-105 | nine digits followed by the two digits `_gen` appends |
| Cpf.IsValid | business/cpf.py:95-106 | `isValid` returns exactly `Valid` |
| Cpf.ValidMeans | business/cpf.py:95-106 | valid exactly when there are 11 entries, not all one digit, the 10th is the check digit of the first nine under 10..2 and the 11th that of the first ten under 11..2 |
| Cpf.ExampleValid | business/cpf.py:95-106 | 123.456.789-09 is valid |
| Cpf.ExampleRepdigit | business/cpf.py:14 | 111.111.111-11 has the right check digits but is an exception, so not valid |
| LogicTokens.Operands | logicmind/tokens/token.py:11-15 | the stored operand count: 2 exactly for `Iff`, 1 exactly for `Not`, 0 for constants, variables and groups |
| LogicTokens.Precedence | logicmind/tokens/iff.py:7-8 | the stored precedence: 5 for `Iff`, 1 for `Not`, 0 for every token without operands |
| LogicTokens.Construct | logicmind/tokens/then.py:5-6 | calling `Then`, `And` or `Or` raises `TypeError`, because the base constructor also needs `precedence`; the other classes build a token with their operand count |
| LogicTokens.NotApply | logicmind/tokens/nop.py:10-11 | `not right`: a `bool` that is true exactly when `right` is false |
| LogicTokens.IffApply | logicmind/tokens/iff.py:10-11 | `left == right`: a `bool`, true exactly when the two compare equal as numbers |
| LogicTokens.ThenApply | logicmind/tokens/then.py:8-9 | `not left or right`: false exactly when `left` is true and `right` false, and `right` itself when `left` is true |
| LogicTokens.AndApply | logicmind/tokens/andd.py:8-9 | `left and right`: true exactly when both are, and one of the operands |
| LogicTokens.OrApply | logicmind/tokens/orr.py:8-9 | `left or right`: false exactly when both are, and one of the operands |
| LogicTokens.IffSymmetric | logicmind/tokens/iff.py:10-11 | the result does not depend on the order of the operands |
| LogicTokens.AndOrCommute | logicmind/tokens/andd.py:8-9 | `and` and `or` commute in truth value, but not in the operand returned |
| LogicTokens.NotTwice | logicmind/tokens/nop.py:10-11 | negating twice gives a `bool` back, and `True`/`False` for 1/0 |
| LogicTokens.ConnectivesAgree | logicmind/tokens/then.py:8-9 | the implication is `not left or right`; the biconditional is both implications; De Morgan holds |
| LogicTokens.ReprBalanced | logicmind/tokens/expression.py:122-123 | a token's `repr`, with names free of brackets, has as many `(` as `)`, and a group's is wrapped in brackets |
| LogicExpressions.Expression.constructor | logicmind/tokens/expression.py:9-11 | a new expression has no tokens |
| LogicExpressions.Expression.AddToken | logicmind/tokens/expression.py:13-14 | `add_token` appends the token at the end and leaves the others as they were |
| LogicExpressions.LowestAt | logicmind/tokens/expression.py:44 | the index `min(operators_at, key=precedence)` picks is in range and holds an operator |
| LogicExpressions.LowestAtSpec | logicmind/tokens/expression.py:28-44 | that operator has minimal precedence among the level's operators and every operator before it has strictly higher precedence (the first of the lowest) |
| LogicExpressions.LowestAtUnique | logicmind/tokens/expression.py:28-44 | any index with those two properties is the one `min` picks |
| LogicExpressions.LowestOperator | logicmind/tokens/expression.py:28-31 | the scan counts exactly the level's operators and, when there is one, returns the first of lowest precedence |
| LogicExpressions.CountZero | logicmind/tokens/expression.py:33-34 | a level has no operator exactly when every token takes no operands |
| LogicExpressions.SliceBound | logicmind/tokens/expression.py:51-64 | a slice bound is read as Python reads it: within the list, and unchanged when already in range (a binary operator at index 0 gives start -1) |
| LogicExpressions.StepLeaves | logicmind/tokens/expression.py:51-64 | one regrouping keeps every token in the same order at every depth |
| LogicExpressions.SplitCount | logicmind/tokens/expression.py:59-64 | replacing a slice that holds an operator by one group lowers the level's operator count |
| LogicExpressions.StepProgress | logicmind/tokens/expression.py:43-64 | outside the stuck case a regrouping removes at least one operator from the level and never lengthens it |
| LogicExpressions.StuckStep | logicmind/tokens/expression.py:51-64 | when the lowest operator is a binary one at index 0 of a level of three or more tokens, the group starts at -1 (the last token), the slice is empty, an empty expression is inserted before the last token and the level is stuck again, one token longer |
| LogicExpressions.TokenizedSpec | logicmind/tokens/expression.py:16-67 | when `tokenize` returns, every level at every depth holds at most one operator and the tokens are the original ones in the original order |
| LogicExpressions.TokenizedError | logicmind/tokens/expression.py:16-67 | the only exception `tokenize` raises is `RecursionError` |
| LogicExpressions.StuckDiverges | logicmind/tokens/expression.py:64-67 | a stuck level never stops regrouping: `tokenize` raises `RecursionError` whatever the recursion limit |
| LogicExpressions.DoubleNotDiverges | logicmind/tokens/expression.py:51-67 | `(¬ ¬)` is regrouped into a nested copy of itself forever and raises `RecursionError` |
| LogicExpressions.Expression.Tokenize | logicmind/tokens/expression.py:16-67 | the in-place regrouping succeeds exactly when the reference `Tokenized` does, leaves the tokens it computes, and otherwise raises `RecursionError` |
| LogicExpressions.Expression.TokenizeNested | logicmind/tokens/expression.py:34-41 | the loop over a level with fewer than two operators tokenizes each nested expression in turn, succeeding exactly when the reference `TokenizeChildren` does and leaving its tokens |
| LogicExpressions.VariablesAreLeaves | tokens/expression.py:16-25 | a name is a variable of the expression exactly when a variable token of that name lies at some depth |
| LogicExpressions.Expression.GetVariables | logicmind/tokens/expression.py:69-78 | the method asking each nested expression as an object returns the reference set of variable names |
| LogicExpressions.EvaluateMeaning | tokens/expression.py:27-43 | on a well formed expression whose variables all hold 0 or 1, `apply` raises nothing and returns 1 exactly when the propositional meaning is true |
| LogicExpressions.Expression.Apply | logicmind/tokens/expression.py:80-96 | the method applies the first operator of the level to its neighbours (or returns the first token's value) as the reference `Evaluate` does, errors included |
| LogicExpressions.ApplyToken | logicmind/tokens/expression.py:87-93 | a neighbour's value is the reference value of that operand, a nested expression asked as its own object |
| LogicExpressions.BinaryDigit | logicmind/tokens/expression.py:98-101 | `(decimal >> index) & 1` is 0 or 1 |
| LogicExpressions.IndexOfAssignment | tokens/expression.py:45-48 | each number below 2^n is the index of the assignment its bits build |
| LogicExpressions.AssignmentOfIndex | tokens/expression.py:45-48 | every 0/1 assignment of the variables is the assignment of its own index and that index is below 2^n |
| LogicExpressions.AssignmentDigits | logicmind/tokens/expression.py:110-115 | the assignment of `i` gives the `j`-th sorted variable bit `j` of `i` and assigns nothing else |
| LogicExpressions.BinaryAssignment | logicmind/tokens/expression.py:110-115 | the inner loop builds exactly the assignment of `i` |
| LogicExpressions.SolutionsStep | logicmind/tokens/expression.py:117-118 | an exception from `apply` ends the search with it, a true assignment is kept and a false one skipped |
| LogicExpressions.SolutionsExact | tokens/expression.py:50-67 | the solutions are exactly the 0/1 assignments of the sorted variables that make the expression true, each once, in increasing order of the number whose bits they hold, at most 2^n of them |
| LogicExpressions.SolutionsFromExact | logicmind/tokens/expression.py:109-120 | from round `i` on, the kept assignments are exactly the true ones with index at least `i`, in increasing order |
| LogicExpressions.Expression.FindSolutions | logicmind/tokens/expression.py:103-120 | the method returns the reference solution list |
| LogicExpressions.Expression.Search | logicmind/tokens/expression.py:109-120 | the loop over `range(2**len(variables))` returns the reference list from round 0 |
| TokenParser.Classify | logicmind/token_parser.py:55-62 | a word is given the first class of the list whose single character it is, and no class when none of them has it as its single character |
| TokenParser.PushChecks | logicmind/token_parser.py:53-73 | with single characters for every class, a word never raises unless it is `)` with only the outermost expression open, which raises `IndexError` |
| TokenParser.PushSize | logicmind/token_parser.py:66-70 | `(` opens one expression, `)` closes one and any other word leaves the stack's height as it was |
| TokenParser.PushLeaves | logicmind/token_parser.py:53-73 | a word adds its token, if any, at the end of the innermost open expression and the tokens of all open expressions stay in reading order |
| TokenParser.PushAllChecks | logicmind/token_parser.py:52-73 | reading the words raises nothing exactly when no prefix closes more expressions than are open, and otherwise raises `IndexError` |
| TokenParser.PushAllLeaves | logicmind/token_parser.py:52-73 | after the words the open expressions hold the words' tokens in order and as many expressions are open as the words leave open |
| TokenParser.RootLeaves | logicmind/token_parser.py:52-79 | when every bracket is closed the outermost expression holds all the words' tokens in order |
| TokenParser.ReadWords | logicmind/token_parser.py:52-73 | the loop with the stack of open expressions computes the reference reading of the words |
| TokenParser.SpaceOperators | logicmind/token_parser.py:44-46 | the loop replacing each spelling by its class's single character with a space on each side computes the reference spacing, `TypeError` included |
| TokenParser.ParseAlwaysRaises | logicmind/token_parser.py:44-46 | with the attributes as the repository sets them, every call raises `TypeError` at the first spelling of `Iff`, whose single character is `None` |
| TokenParser.FixedSpacingSucceeds | logicmind/token_parser.py:44-46 | once `Iff` and `Not` have single characters the spacing step raises nothing |
| TokenParser.FixedParse | logicmind/token_parser.py:17-79 | with those single characters, parsing raises `IndexError` exactly when a closing bracket has no opening one, raises nothing else but the `RecursionError` of `tokenize`, and a text whose brackets all match parses to its words' tokens in order |
| TokenParser.ParseExpression | logicmind/token_parser.py:17-79 | the method succeeds exactly when the reference `Parsed` does, returns an expression holding its tokens, and otherwise raises the same exception |
| LogicMain.Entries | logicmind/main.py:9-11 | one entry per name in the given order, `* n: v` in the multi-line form and `n: 1` or `n: 0` by truth value otherwise |
| LogicMain.ReprSolution | logicmind/main.py:5-11 | the names are sorted strictly increasing, every variable of the assignment appears exactly once, and the text is their entries joined |
| LogicMain.MultilineEntries | logicmind/main.py:8-9 | the multi-line form is one line per variable showing the value as `str` prints it (`True`/`False` for booleans) |
| LogicMain.AssignErrors | logicmind/main.py:53-58 | reading `-t` raises only `IndexError` and does so exactly when some comma-separated piece has no `=` |
| LogicMain.AssignDict | logicmind/main.py:56-58 | when no piece raises, the result is the dict comprehension over the pieces with the stripped left-hand side as name and the truth of the right-hand side as value |
| LogicMain.DictKeys | logicmind/main.py:56-58 | a dict comprehension's names are exactly the names of its pieces |
| LogicMain.DictLastWins | logicmind/main.py:56-58 | in a dict comprehension a name takes the value of the last piece with that name |
| LogicMain.AssignKeys | logicmind/main.py:56-58 | the names read are exactly the stripped left-hand sides of the pieces |
| LogicMain.AssignLastWins | logicmind/main.py:56-58 | a name assigned by several pieces takes the value of the last of them |
| LogicMain.PieceKey | logicmind/main.py:53-57 | a piece `a=b` with one `=` assigns to `a` stripped |
| LogicMain.PieceVal | logicmind/main.py:53-57 | a piece `a=b` with one `=` assigns true exactly when `b` stripped is a substring of `tTyY1` |
| LogicMain.EmptyValueTrue | logicmind/main.py:57 | `A=` reads as true: the empty string is a substring of `tTyY1` |
| LogicMain.DigitSpelling | logicmind/main.py:57 | of the digits `1` and `0`, only `1` reads as true |
| LogicMain.NormalizedText | logicmind/main.py:46-50 | with `:` read as `=` and `;` as `,` the single-line form is its pieces joined by commas |
| LogicMain.AssignReadPieces | logicmind/main.py:53-58 | those pieces assign every listed name its truth value |
| LogicMain.TruthValues | logicmind/main.py:56-58 | the truth values are given for exactly the listed names |
| LogicMain.ReprReadsBack | logicmind/main.py:5-58 | the single-line form of a non-empty assignment of plain names (no `,` `:` `;` `=` and no surrounding spaces) is non-empty, so `main` reads it, and it reads back through `-t` as the truth value of every variable |
| LogicMain.ReprSolutionReadsBack | logicmind/main.py:5-58 | what `repr_solution` prints for a non-empty assignment of plain names reads back as that assignment's truth values |
| LogicMain.TestOption | logicmind/main.py:45-58 | `if args.test:`: an empty `-t` is not read at all, any other text is read by `ParseTest` |
| LogicMain.EmptyReprSkipped | logicmind/main.py:10-58 | an empty assignment prints the empty string; reading it would raise `IndexError` at lines 53-58, but `main` skips an empty `-t` |
| BackupInfo.GetInfo | androidbak/main.py:56-65 | a name that does not match gives `(None, None)`; a matching name gives its date and its one-digit package count when the date exists and raises `ValueError` when it does not |
| BackupInfo.TrailingIgnored | androidbak/main.py:57 | the pattern is anchored at the start only: anything after the first 26 characters changes nothing |
| BackupInfo.DotMatchesAny | androidbak/main.py:57 | the unescaped `.` before `ab` accepts any character but a new line |
| BackupInfo.Padded | androidbak/adb.py:25-26 | the zero-padded field has exactly the width asked for and only digits |
| BackupInfo.PaddedValue | androidbak/adb.py:25-26 | a number that fits the width reads back from its zero-padded digits |
| BackupInfo.NameLayout | androidbak/adb.py:25-26 | the date fields, the dashes, the count and `packages.ab` sit at the offsets the pattern reads |
| BackupInfo.NameReadsBack | androidbak/main.py:56-65 | a name built from a date and fewer than ten packages reads back as that date, to the minute, and that count |
| BackupInfo.ManyPackagesUnread | androidbak/main.py:57 | with ten packages or more the count has two digits, the pattern allows one, and the name reads as `(None, None)` |
| Text.NatToString | androidbak/adb.py:25-26 | `str(n)`: at least one digit, no leading zero, and one digit exactly when `n < 10` |
| Text.NatToStringValue | androidbak/adb.py:25-26 | the digits of `str(n)` spell `n` |
| Text.NatToStringInjective | androidbak/adb.py:25-26 | two numbers with the same decimal text are equal |
| Text.Split | logicmind/main.py:53 | `s.split(sep)`: at least one piece, none holding the separator, and the pieces joined by it give `s` back |
| Text.SplitsAt | logicmind/main.py:53-57 | a string splits into two or more pieces exactly when it holds the separator |
| Text.SplitWhitespace | logicmind/token_parser.py:49 | `s.split()`: non-empty words without whitespace which, written one after another, are `s` with its whitespace removed |
| Text.SplitWhitespaceJoin | logicmind/token_parser.py:49 | non-empty words without whitespace, joined by single spaces, split back into those words |
| Text.Strip | logicmind/main.py:57 | `s.strip()` neither starts nor ends with whitespace |
| Text.StripPadded | logicmind/main.py:57 | `s.strip()` removes exactly the surrounding whitespace: whitespace, a text that neither starts nor ends with whitespace, and whitespace strip to that text, which fixes the result for every string |
| Text.StripKeeps | logicmind/main.py:57 | stripping a string with no whitespace at either end changes nothing |
| Text.ReplaceAppend | logicmind/main.py:48-50 | replacing a character distributes over concatenation |
| Text.ReplaceAbsent | logicmind/main.py:48-50 | replacing a character the string does not hold changes nothing |
| Text.SortedOf | logicmind/main.py:6-7 | `sorted(names)`: the same names, each once, strictly increasing |
| Text.StrictlySortedUnique | logicmind/main.py:6-7 | a strictly increasing list is determined by its set of names |
| Text.SortedList | logicmind/tokens/expression.py:104-105 | the insertion loop produces `sorted(names)` |

## Left out

- Presentation code of `cache-emu/memory.py` is not modelled: `draw`, `__str__`, the `show`/`draw` printing inside `access` and `access_all`, the `time.sleep` pacing, `plot_ways`/`plot_psize` and colorama. `ListView.__str__`/`__repr__` are also left out. `ListView.__iter__` is `Elements`.
- `partitions` and `ways` are natural numbers in the model. Python also accepts negative ones, which give a negative `sets`.
- CacheModel.ContentOf, Memory.Cache.ContentOfSlot: the slot is a natural number, so Python's negative list indices into `valid`/`tags` are not modelled.
- Text.ParseInt accepts ASCII digits with an optional sign and surrounding whitespace. Python's `int` also accepts underscores between digits and non-ASCII digits, which are not modelled.
- A policy that is neither `None` nor a string makes the constructor's error message raise `TypeError`. The model takes the policy as an optional string.
- Bmp.EncodeBmp: channel values, widths and heights are integers; the `TypeError` Python raises for other values is not modelled.
- The example image and the file writes at image-generation/bmp.py:49-72 are a demonstration script and are not modelled.
- `zlib.crc32` and the zlib compressor are foreign code; the model takes them as the parameters `crc` and `compress`, so what the compressed bytes are is not modelled.
- Png.SavePng: channel values, widths and heights are integers; `TypeError` for other Python values is only modelled for an `int` datum in a colour image.
- The example image and the `tst.png` write at image-generation/png.py:161-182 are a demonstration script and are not modelled.
- Gif.EncodeGif: indices are required to be 0..511; `convert_little_endian_9bits` on a wider or negative index produces digit strings of other lengths or raises, which is not modelled.
- Gif.ReadGif: reads every code with 9 bits; a standard LZW decoder widens its codes as its table grows (after 255 codes without a Clear), which the model does not capture. This is the failure on larger images noted at image-gen/gif.py:7-9.
- Gif.WriteSubBlocks: `bytes(chunk)` can raise `ValueError` on a value above 255; the packer only produces bytes (Gif.PackedRoundTrip), so that path cannot happen and is not modelled.
- The example image and the `test.gif` write at image-gen/gif.py:118-139 are a demonstration script and are not modelled.
- The console drawing of `rufv` (`show=True`) and of `intfactorize`, with the `compat` characters, is printing only and is not modelled.
- Polynomials.FindRuf: with `limit=None` or a negative limit and no non-zero integer root, the Python loop never ends; the model requires that the search stops.
- Polynomials.IntFactorize: the limit is a natural number. With `limit=None` the loop only ends if every intermediate quotient has an integer root, so that case is not modelled.
- Coefficients are integers. Python also accepts floats, which are not modelled.
- `printtree`, `printdtree` and the self-tests' printing in interpolation/extrapolation.py and interpolation/extrapolation_generic.py are console output and are not modelled; the generic self-test prints the division sequence's table with the difference operation (interpolation/extrapolation_generic.py:109), which only affects what is printed.
- Sequences are integer lists; a list of floats, for which `//` and `-` would round, is not modelled.
- ExtrapolationGeneric.NextItem: `invop` is total here; an inverse operation that raises is not modelled.
- `euler_phi` (euler/gcd.py:43-49) multiplies by `1 - 1/p` in floating point and is not modelled; the self-test comparing it with `euler_phi_definition` (euler/gcd.py:62-66) is printing only.
- EulerGcd.GetFactors: requires `n >= 1`; for other inputs the source never returns, which EulerGcd.ZeroDividesForever and EulerGcd.NegativeNeverOne state (see "## Findings").
- `get_factors` iterates over a module-level `infprimeseq`; the model walks the primes through `NextPrime` instead of sharing that iterator's buffer.
- `int(n**0.5)` is modelled as the integer square root (Primes.Isqrt); the floating-point rounding for very large `n` is not modelled.
- SievePrimeSeq.PrimeSeq.Contains: True is proved to mean prime, but a prime is only proved to get True when some prime lies between `isqrt(n)` and `n`; that there always is one for `n >= 4` is Bertrand's postulate, which is not proved.
- SixStepPrimeSeq.InfPrimeSeq.Next: that `_fastcontains` never raises is not proved; the model states that it can only raise when the next prime is at least the square of the last, which Bertrand's postulate rules out.
- The self-tests comparing `n in ps` with `is_safe_prime` for `n < 10000` print only; the contracts of the `Contains` methods state the agreement for every `n`.
- `unwrap` (math/primeseq.py:119) is the generator function itself and is not modelled apart from `Eratosthenes`.
- The assignment `self.__next__ = nxt` (maths/primeseq.py:133) is modelled by its effect: SixStepPrimeSeq.PrimeSeq.Next is the class's `__next__`, which ignores `stop`.
- Both classes are Python 2 code (`basestring`, `unicode`, `xrange`, `iter(...).next()`, `map` returning a list); the model follows Python 2's meaning. Under Python 3 `CNPJ(...)[i]` and `str(a)` would fail on the `map` object.
- Cnpj.New, Cpf.New: list entries are integers; a list of digit strings, which `int` would convert, is not modelled.
- Cnpj.GetItem, Cpf.GetItem: slices as the index are not modelled.
- `doctest.testmod` at business/cnpj.py:146-148 runs the examples; the examples are proved as lemmas instead.
- `Then`, `And` and `Or` (logicmind/tokens/then.py, andd.py, orr.py) call `Token.__init__` without its required arguments, so building one raises `TypeError`; LogicTokens.Construct returns that error and the model has no token for them. Their `apply` methods are modelled as functions on truth values (LogicTokens.ThenApply, AndApply, OrApply).
- Nested `Expression` objects are kept as values (`Group`) inside the token list. Python never shares one child object between two lists here, so the aliasing of child objects is not modelled.
- LogicExpressions.Expression.Tokenize: Python's recursion limit is the parameter `fuel`, the number of nested calls left; the exact limit and the stack used by other frames are not modelled.
- TokenParser.ParseExpression: the classes' `single_char_representation` attributes are the parameter `single`; the lemmas use the repository's values (`SingleChar`) and the values the spacing step needs (`FixedSingleChar`).
- `main` in logicmind/main.py (argparse, printing the parsed expression, the solutions and the test result) is console input and output and is not modelled; the two pieces of logic it holds, `repr_solution` and reading `-t`, are.
- LogicMain.ReprReadsBack: names holding `,` `:` `;` `=` or surrounding whitespace do not read back and are excluded by its precondition.
- `__repr__` is modelled as LogicTokens.Repr, with the bracket balance proved (LogicTokens.ReprBalanced); printing it is not modelled.
- tokens/expression.py is the same code as logicmind/tokens/expression.py without `tokenize`, and the model covers both with one `Expression`. Its constructor passes `operands=0` only; the `Token` class that file imports is not part of this model, so whether that call raises `TypeError` there is not modelled.
- `\d` is modelled as the ASCII digits; Python's `re` also matches other Unicode decimal digits, which `int` then reads.
- BackupInfo.BackupName: `datetime.now()` is a parameter, and its seconds do not appear in the name; `%Y` is modelled as four zero-padded digits, which is what `strftime` gives for years 1000-9999.
- The rest of androidbak (running `adb`, listing and choosing packages) is process and console work and is not modelled.

## Findings

| source | as written | input that shows it | evidently intended | confidence | as-written member | corrected member |
|---|---|---|---|---|---|---|
| cache-emu/memory.py:251 | `content_of` rebuilds the block as `(tag << set.bit_length()) \| set`, which is not the inverse of `tag, set = divmod(block, sets)` | `Cache(4, 8, 2, 'lru')`, `access(16)`: block 4 goes to set 0 with tag 1, and `content_of(0)` returns `'4-7'` | the words of block `tag*sets + set`, here `'16-19'` | not executed | CacheModel.ContentOfMisreports | CacheModel.IntendedContentOfAccess |
| image-generation/bmp.py:17 | `data_size = height * (width + len(padding))` | width 1, height 1, bpp 24, one black pixel: the size field says 56, the file has 58 bytes | `height * (bytes_per_row + len(padding))` | not executed | Bmp.SizeFieldAsWritten | Bmp.CorrectedSizeField |
| image-generation/png.py:77-79 | the grey branch writes each missing row as `width` default pixels with no filter byte | `save_png(f, [[0]], width=1, height=2)`: the raw buffer is 3 bytes, a decoder expects 2 scanlines of 2 bytes | a filter byte before each missing row, as the colour branch writes at image-generation/png.py:96 | not executed | Png.GrayMissingRowsAsWritten | Png.CorrectedScanlines |
| euler/gcd.py:9-21 | `get_factors` divides `n` until it is 1, with no check that `n` is positive | `get_factors(0)`: `divmod(0, 2)` is `(0, 0)`, so `2` is appended for ever; `get_factors(-1)` never reaches 1 | `ValueError` for `n <= 0`, the factorisation otherwise | not executed | EulerGcd.ZeroDividesForever | EulerGcd.GetFactorsChecked |
| maths/primeseq.py:126-133 | `nxt` is stored as an instance attribute, but `next()` looks `__next__` up on the class, so `stop` is never applied | `primeseq(3)`: the second call of `next` returns 3 | `StopIteration` at the first prime not below `stop` | not executed | SixStepPrimeSeq.StopIgnored | SixStepPrimeSeq.PrimeSeq.NextBelowStop |
| logicmind/token_parser.py:44-46 | every spelling is replaced by `' ' + operator.single_char_representation + ' '`, but `Iff` and `Not` leave that attribute `None` | `parse_expression('A')`: the first spelling of `Iff`, `'<->'`, makes `' ' + None` raise `TypeError` before any word is read | a one-character spelling for each class that has spellings, such as `≡` and `¬` | not executed | TokenParser.ParseAlwaysRaises | TokenParser.FixedParse |

Other behaviour of the code is modelled as written:

- On a hit, `last_access` names slot `start + tag` where `start + way` is evidently meant (cache-emu/memory.py:138). `Step` and `Memory.HitWay` keep the code's value.
- `ListView.index` raises `ValueError`, not `IndexError` (cache-emu/memory.py:66).
- The constructor does not check that `ways` divides `partitions`. When `ways > partitions`, `sets` is 0 and every `access` raises `ZeroDivisionError` (cache-emu/memory.py:96,105). `Step` returns that error.
- `if not cnpj.isdigit:` tests the method object, which is always true, so it never raises; a string with a non-digit raises `ValueError` from `int` instead (business/cnpj.py:46). `Cnpj.New` keeps that behaviour.
