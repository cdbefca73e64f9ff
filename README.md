# Drizzle storage-path core in Dafny

This project models, in Dafny, the part of the Drizzle database server
that turns rows into bytes for a storage engine and back, together with
the small data structures and string routines around it:

- **Blob codec** (`drizzled/field/blob.cc`): the 1 to 4 byte length
  prefix of a BLOB column and the largest length it allows; `store`
  for the binary character set; the packed row image written by `pack`
  and read by `unpack`; the key image of `pack_key`, `unpack_key` and
  `pack_key_from_key_image`; `cmp_binary`; and the binary sort key of
  `sort_string`, whose length goes big-endian after the payload.
- **BlitzDB engine adapter** (`plugin/blitzdb/ha_blitz.cc`): the
  process-wide table cache with use counts (`get_share`/`free_share`).
  It also covers the scan cursor, which hands the current key over to
  `updateable_key` before it moves on, and the update and delete that
  act on that key. Finally it covers row packing and unpacking with
  null bytes, `max_row_length`, the choice of pack buffer and
  `store_lock`. The Tokyo Cabinet store is a sequence of (key, row)
  pairs in iteration order; the buffers the cursor allocates are
  ghost tokens, each freed exactly once.
- **DYNAMIC_ARRAY** (`mysys/array.c`): a class over an `array` of
  elements with its `elements`, `max_element` and growth rules.
- **LINE_BUFFER** (`client/readline.cc`): a class holding the buffer as
  a sequence and the unread input as a sequence. It covers the
  growing and shifting `fill_buffer`, the line scan of
  `intern_read_line` and `batch_readline`'s newline stripping.
- **modify_defaults_file** (`mysys/default_modify.cc`): the line loop
  as a state machine over lines with the corrected semantics, and
  beside it a byte-buffer model of the code as it stands.
- **dirname routines** (`mysys/mf_dirname.c`, Unix branch).
- **User-level locks** (`plugin/user_locks/locks.cc`): a class over a
  `map` from key to session.
- **The PBMS cloud system table** (`plugin/pbms/src/SysTab_cloud.cc`): the
  ordered entry array, `gMaxInfoRef`, the scan cursor and the
  private-key masking.
- **RENAME TABLE** (`drizzled/rename.cc`): in-place reversal of the
  `next_local` chain, the pairwise renames over a catalog map, and the
  rollback.
- **Table functions** (`drizzled/plugin/table_function.cc`) and the
  **COLLATIONS generator** (`plugin/data_engine/collations.cc`): column
  descriptors, the `push` cursor, and the resumable nested loop.
- **data_ref_basic** (`drizzled/util/data_ref.h`) and the **Table helpers**
  of `drizzled/table.h` (ordering, null row, bitmaps, duplicate key).

Each file is one module. `common.dfy` holds the shared byte,
little/big-endian and C-string definitions. Where the code does
something other than what it evidently intends, the model keeps the
code as written in an `...AsWritten` member with a lemma that exhibits
the difference. The rest of the model uses the corrected member (see
"## Findings").

`Table::is_name_opened` and `needs_reopen_or_name_lock` are the
predicates `TableOrder.Table.IsNameOpened` and
`TableOrder.Table.NeedsReopenOrNameLock`. `data_ref_basic`'s
`begin()`, `end()` and `data()` are the accessors `Begin`, `End` and
`Data`.

## Model

| member | source | states |
|---|---|---|
| BlobCodec.MaxLength | drizzled/field/blob.cc:28-32 | a prefix of n bytes allows lengths up to 2^(8·min(n,4)) − 1 |
| BlobCodec.LengthBytes | drizzled/field/blob.cc:56-88 | store_length writes `width` bytes holding the length modulo 2^(8·width) for widths 1–4, and nothing for other widths |
| BlobCodec.GetLength | drizzled/field/blob.cc:91-124 | the decoded length never exceeds the width's maximum; any width other than 1–4 reads as 0 |
| BlobCodec.LengthRoundTrip | drizzled/field/blob.cc:56-124 | get_length returns what store_length wrote modulo the width's range, so it returns it exactly when it fits |
| BlobCodec.MaxLengthIsLargest | drizzled/field/blob.cc:28-32 | the maximum length is exactly the set of lengths that survive the prefix round trip |
| BlobCodec.MaxDisplayLength | drizzled/field/blob.cc:706-722 | below 4 prefix bytes the display length is the maximum length times mbmaxlen; for a single-byte charset it is the maximum length |
| BlobCodec.SlotValue | drizzled/field/blob.cc:138-154 | a record slot holds as many payload bytes as its prefix says |
| BlobCodec.BlobField.constructor | drizzled/field/blob.cc:41-53 | the field is bound to the given record slot, its packlength is the one given and its field_length is the largest length that packlength can hold; its own buffer starts empty |
| BlobCodec.BlobField.Length | drizzled/field/blob.cc:91-124 | the field's length is within its prefix's maximum |
| BlobCodec.BlobField.Contents | drizzled/field/blob.cc:138-154 | the field's bytes number exactly its length |
| BlobCodec.BlobField.Store | drizzled/field/blob.cc:157-228 | an empty value zeroes prefix and pointer and returns 0; storing (a prefix of) the field's own buffer keeps its pointer and sets the length, so the field holds that prefix; otherwise the value is copied, clipped to the maximum (returning 2 when that cuts and cut fields are counted), or on allocation failure the field is cleared and −1 returned |
| BlobCodec.BlobField.StoreOwnBuffer | drizzled/field/blob.cc:172-179 | store_length of the given length and the own buffer's pointer: the field then holds that many of the buffer's bytes, modulo the prefix's range |
| BlobCodec.BlobField.Unpack | drizzled/field/blob.cc:526-538 | reads the master's prefix width and returns the position just past the payload; the field holds the payload clipped to its maximum, or nothing when allocation fails |
| BlobCodec.BlobField.UnpackKey | drizzled/field/blob.cc:633-652 | reads the 1- or 2-byte key length and the bytes after it; a zero length stores a NULL pointer; returns the position past the key |
| BlobCodec.BlobField.Pack | drizzled/field/blob.cc:482-506 | writes the (corrected) packed image at `at` and returns the position after it, leaving the rest of `to` alone |
| BlobCodec.BlobField.PackKey | drizzled/field/blob.cc:587-608 | writes the key image at `at` and returns the position after it |
| BlobCodec.BlobField.SortString | drizzled/field/blob.cc:431-471 | writes the sort key of the current value at the front of `to` |
| BlobCodec.MasterWidth | drizzled/field/blob.cc:526-531 | unpack's prefix width is param_data's low byte, or the field's own width when param_data is 0 |
| BlobCodec.ReadPacked | drizzled/field/blob.cc:526-538 | unpack consumes the prefix plus exactly the decoded length of payload |
| BlobCodec.PackImageAsWritten | drizzled/field/blob.cc:482-506 | as written: the prefix holds min(length, max_length) but the whole payload follows |
| BlobCodec.PackImage | drizzled/field/blob.cc:482-506 | the intended image: prefix and payload both clipped to max_length |
| BlobCodec.PackUnpackRoundTrip | drizzled/field/blob.cc:482-538 | unpacking the packed image with the same width gives back the clipped value and ends exactly at the image's end |
| BlobCodec.PackAsWrittenAgreesWhenUnclipped | drizzled/field/blob.cc:482-506 | when max_length does not cut, the code as written and the intended image agree |
| BlobCodec.PackAsWrittenMisframes | drizzled/field/blob.cc:482-538 | a value longer than max_length packs to 3 bytes of which unpack consumes 2 |
| BlobCodec.KeyHeaderWidth | drizzled/field/blob.cc:600-604 | the key length header is 2 bytes exactly when max_length > 255, else 1 |
| BlobCodec.KeyLengthHeader | drizzled/field/blob.cc:600-604 | the header is the low byte of the length, then the high byte when max_length > 255 |
| BlobCodec.PackKeyImage | drizzled/field/blob.cc:587-608 | pack_key writes the header and the value clipped to max_length |
| BlobCodec.KeyLength | drizzled/field/blob.cc:636-639 | unpack_key's length is below 2^16, and below 256 for a 1-byte header |
| BlobCodec.ReadKey | drizzled/field/blob.cc:633-652 | unpack_key consumes the header and exactly the decoded number of key bytes |
| BlobCodec.PackKeyRoundTrip | drizzled/field/blob.cc:587-652 | unpack_key reads back the clipped value pack_key wrote and stops right after the image |
| BlobCodec.KeyImage | drizzled/field/blob.cc:349-374 | the key-buffer image of a value for a key part of `length` bytes: a 2-byte little-endian min(length, value length), the value clipped to `length`, zero padding to 2 + `length` bytes; the second result is where the value part ends |
| BlobCodec.PackKeyFromKeyImage | drizzled/field/blob.cc:658-670 | re-packing a key-buffer image gives a 1- or 2-byte header and min(length, max_length) bytes |
| BlobCodec.KeyImageRepacksAsPackKey | drizzled/field/blob.cc:349-374 | re-packing the key-buffer image gives pack_key of the value clipped to the key part, and pack_key of the value itself whenever max_length is at most the key part length |
| BlobCodec.PackedColLength | drizzled/field/blob.cc:673-678 | packed_col_length is the header width plus the stored key length |
| BlobCodec.PackedColLengthOfPackKey | drizzled/field/blob.cc:587-678 | packed_col_length measures exactly the image pack_key wrote |
| BlobCodec.MaxPackedColLength | drizzled/field/blob.cc:681-684 | no key image is longer, and every value of at least max_length bytes reaches it |
| BlobCodec.MemCmp | drizzled/field/blob.cc:342 | −1, 0 or 1: zero iff the first n bytes agree; negative only when a sorts first and positive only when b does |
| BlobCodec.Clip | drizzled/field/blob.cc:336-341 | a length above max_length is cut to max_length: the first min(length, max_length) bytes |
| BlobCodec.Int32 | drizzled/field/blob.cc:343 | the `(int)` cast of a 32-bit pattern: a value in the signed 32-bit range congruent to it modulo 2^32 |
| BlobCodec.CmpBinary | drizzled/field/blob.cc:328-344 | negative, zero or positive exactly as the two values clipped to max_length sort lexicographically, a proper prefix first |
| BlobCodec.CmpBinaryAsWritten | drizzled/field/blob.cc:328-344 | as written: agrees with CmpBinary whenever memcmp decides |
| BlobCodec.CmpBinaryAsWrittenWrapsSign | drizzled/field/blob.cc:343 | the unsigned length difference makes an empty value compare greater than a 2^31+1-byte value |
| BlobCodec.Pad | drizzled/field/blob.cc:461-463 | the payload region is the value cut or zero-padded to its length |
| BlobCodec.SortKey | drizzled/field/blob.cc:431-471 | an empty value gives all zeros; otherwise the padded payload, then the length big-endian in the last packlength bytes |
| BlobCodec.SortKeyShorterFirst | drizzled/field/blob.cc:431-471 | with equal payload regions, the shorter value's key sorts first |
| BlobCodec.SortKeyPayloadDecides | drizzled/field/blob.cc:431-471 | a payload region that sorts first makes the whole key sort first |
| BlobCodec.SortKeyEmptyFirst | drizzled/field/blob.cc:431-471 | the key of an empty value sorts strictly before that of any non-empty value whose length fits the prefix |
| BlitzDb.IndexOf | plugin/blitzdb/ha_blitz.cc:221-260 | the position of a key in the store's iteration order, or none when no record has it |
| BlitzDb.Lookup | plugin/blitzdb/ha_blitz.cc:306-341 | a row is found exactly when some record has the key |
| BlitzDb.Put | plugin/blitzdb/ha_blitz.cc:306-332 | storing keeps keys distinct, makes the key map to the row, leaves every other key alone, keeps the order for an existing key and appends a new one |
| BlitzDb.Remove | plugin/blitzdb/ha_blitz.cc:334-341 | removal drops exactly that key's record |
| BlitzDb.NextAfter | plugin/blitzdb/ha_blitz.cc:204-260 | with no key the scan starts at the first record |
| BlitzDb.NextAfterIsSuccessor | plugin/blitzdb/ha_blitz.cc:221-260 | the record after the i-th is the (i+1)-th, and none follows the last |
| BlitzDb.BlitzData.constructor | plugin/blitzdb/ha_blitz.cc:479 | the store startup opens holds the data file's rows, with the key counter past every stored key |
| BlitzDb.BlitzData.GenerateKey | plugin/blitzdb/ha_blitz.cc:306-318 | the generated key belongs to no stored record; it is the counter's value, and the counter moves on by one |
| BlitzDb.BlitzData.OverwriteRow | plugin/blitzdb/ha_blitz.cc:315-317 | overwrite_row reports `stored`, the store's own outcome; on success the store is Put of the key and row, on failure it is unchanged; the key counter does not move |
| BlitzDb.BlitzData.DeleteRow | plugin/blitzdb/ha_blitz.cc:334-341 | the store afterwards is Remove of the key; success iff the key was stored |
| BlitzDb.ReadField | plugin/blitzdb/ha_blitz.cc:402-407 | Field::unpack of one column never consumes more than is there |
| BlitzDb.ReadFieldImage | plugin/blitzdb/ha_blitz.cc:402-407 | what a column's unpack consumed is that column's pack image of the value read |
| BlitzDb.UnpackFields | plugin/blitzdb/ha_blitz.cc:402-407 | the unpack loop yields one value per remaining column |
| BlitzDb.Merged | plugin/blitzdb/ha_blitz.cc:387-410 | there is one merged value per column (what they are is stated by UnpackPackKeepsValues and UnpackPackKeepsNullColumns) |
| BlitzDb.MergedFromAt | plugin/blitzdb/ha_blitz.cc:403-407 | the merged values from column i on hold, at each later column, that column's packed value, or its old one when it is skipped as NULL |
| BlitzDb.UnpackPackFields | plugin/blitzdb/ha_blitz.cc:364-410 | the unpack loop over the pack loop's output, whatever follows, gives the merged values |
| BlitzDb.UnpackPackRoundTrip | plugin/blitzdb/ha_blitz.cc:364-410 | unpack_row of pack_row's image restores the null bytes and every value, NULL columns of packed tables keeping the buffer's old value |
| BlitzDb.UnpackPackKeepsValues | plugin/blitzdb/ha_blitz.cc:364-410 | every non-NULL column (every column of a fixed-length table) comes back unchanged |
| BlitzDb.UnpackPackKeepsNullColumns | plugin/blitzdb/ha_blitz.cc:403-407 | a NULL column of a packed table is not unpacked, so the record buffer keeps its old value |
| BlitzDb.ReadFieldOfImage | plugin/blitzdb/ha_blitz.cc:402-407 | a column's unpack reads back the value its pack image holds and consumes exactly that image |
| BlitzDb.ReadBlobOfImage | drizzled/field/blob.cc:526-538 | a blob column's image, its stored length then the payload, unpacks to the payload and ends after it |
| BlitzDb.FetchedRowDecodes | plugin/blitzdb/ha_blitz.cc:214-217 | the row fetched from a valid store decodes under the table's layout |
| BlitzDb.StoreKeepsDecoding | plugin/blitzdb/ha_blitz.cc:306-332 | writing or overwriting a decodable row keeps every stored row decodable |
| BlitzDb.RemoveKeepsDecoding | plugin/blitzdb/ha_blitz.cc:334-341 | deleting a row keeps every stored row decodable |
| BlitzDb.PackFieldsBound | plugin/blitzdb/ha_blitz.cc:351-385 | the field images of the columns fit within their record widths plus the blob extras |
| BlitzDb.PackedRowFitsMaxRowLength | plugin/blitzdb/ha_blitz.cc:351-385 | a packed row is never longer than max_row_length |
| BlitzDb.PackRow | plugin/blitzdb/ha_blitz.cc:364-385 | pack_row writes exactly the packed image into the buffer and returns its length |
| Common.CopyInto | plugin/blitzdb/ha_blitz.cc:375 | memcpy into a buffer: the bytes land at the offset and the rest of the buffer is unchanged |
| BlitzDb.PackColumn | plugin/blitzdb/ha_blitz.cc:378-382 | one pass of the pack loop: the bytes before `pos` followed by column i's image, or by nothing when the column is NULL in a packed table |
| BlitzDb.PackColumns | plugin/blitzdb/ha_blitz.cc:377-384 | after the null bytes, the pack loop leaves exactly the row's packed image in the buffer and returns its length |
| BlitzDb.PackFieldsStep | plugin/blitzdb/ha_blitz.cc:378-382 | the images of the columns from i on are what column i writes followed by the images of the rest |
| BlitzDb.FieldImage | plugin/blitzdb/ha_blitz.cc:381 | a fixed column packs as its bytes; a blob column as its length in packlength little-endian bytes followed by the bytes |
| BlitzDb.PackFieldsShape | plugin/blitzdb/ha_blitz.cc:378-382 | columns that are all skipped as NULL write nothing; fixed columns written in full take exactly the sum of their widths |
| BlitzDb.PackedRow | plugin/blitzdb/ha_blitz.cc:364-385 | a packed row starts with the record's null bytes; a fixed-length table's packed row is exactly reclength bytes |
| BlitzDb.UnpackedRow | plugin/blitzdb/ha_blitz.cc:387-410 | an image shorter than the null bytes does not decode; a decoded record's null bytes are the image's first null_bytes bytes |
| BlitzDb.BlobExtra | plugin/blitzdb/ha_blitz.cc:356-359 | the blob term of max_row_length is at least 2 + length for every blob column |
| BlitzDb.MaxRowLength | plugin/blitzdb/ha_blitz.cc:351-362 | max_row_length is at least reclength + 2 per field, plus 2 + length for any one blob column |
| BlitzDb.UnpackRow | plugin/blitzdb/ha_blitz.cc:387-410 | unpack_row yields the record the row image decodes to |
| BlitzDb.UnpackColumns | plugin/blitzdb/ha_blitz.cc:402-407 | the unpack loop yields the decoded values of all columns |
| BlitzDb.UnpackColumn | plugin/blitzdb/ha_blitz.cc:402-407 | one pass of the unpack loop reads column i's value and advances past its bytes, or keeps the old value for a skipped NULL |
| BlitzDb.UnpackedRowFields | plugin/blitzdb/ha_blitz.cc:387-400 | a decodable image starts with the null bytes, and the fields decode from what follows |
| BlitzDb.PackBufferAsWritten | plugin/blitzdb/ha_blitz.cc:412-432 | as written: a small row gets the stack buffer, and so does a large row that fits the already-grown secondary buffer |
| BlitzDb.PackBufferAsWrittenOverflows | plugin/blitzdb/ha_blitz.cc:412-432 | a second 3000-byte row is handed the 2048-byte stack buffer |
| BlitzDb.PackBufferChoice | plugin/blitzdb/ha_blitz.cc:412-432 | the buffer chosen always holds the row; NULL exactly when the secondary buffer must grow and realloc fails |
| BlitzDb.PackBufferAgreement | plugin/blitzdb/ha_blitz.cc:412-432 | the corrected and written choices agree except for a large row fitting the grown buffer |
| BlitzDb.PackBufferAsWrittenCanBeNull | plugin/blitzdb/ha_blitz.cc:417-424 | a 3000-byte row with no secondary buffer and a failing realloc gets NULL, which holds nothing |
| BlitzDb.StoreLockType | plugin/blitzdb/ha_blitz.cc:434-453 | with no lock held, a concurrent-insert-to-write request becomes TL_WRITE_ALLOW_WRITE outside tablespace operations; a held lock or TL_IGNORE changes nothing |
| BlitzDb.StoreLockIdempotent | plugin/blitzdb/ha_blitz.cc:434-453 | asking twice is asking once, and a strong write lock is never taken outside a tablespace operation |
| BlitzDb.BlitzShare.constructor | plugin/blitzdb/ha_blitz.cc:476-479 | a new share has no users yet and a freshly opened store holding the data file's rows |
| BlitzDb.PackedRowDecodes | plugin/blitzdb/ha_blitz.cc:364-410 | every packed row decodes, whatever the record buffer held |
| BlitzDb.GetCounts | plugin/blitzdb/ha_blitz.cc:457-494 | get_share adds one user to a cached name, caches a new one with one user, and caches nothing when startup fails |
| BlitzDb.FreeCounts | plugin/blitzdb/ha_blitz.cc:496-512 | free_share takes one user away; the last one removes the entry unless shutdown fails |
| BlitzDb.GetFreeRoundTrip | plugin/blitzdb/ha_blitz.cc:457-512 | a get followed by a free leaves the counts as they were, except that a cached entry with no user is evicted |
| BlitzDb.FreeRemovesOnlyAtZero | plugin/blitzdb/ha_blitz.cc:496-512 | an entry leaves the cache exactly when its last user frees it and shutdown succeeds |
| BlitzDb.TableCache.Counts | plugin/blitzdb/ha_blitz.cc:457-512 | there is one use count per cached name |
| BlitzDb.TableCache.constructor | plugin/blitzdb/ha_blitz.cc:516 | tcmapnew: the cache starts empty |
| BlitzDb.TableCache.GetShare | plugin/blitzdb/ha_blitz.cc:457-494 | counts follow GetCounts; a cached name returns the same share, a new one a fresh share, a failed startup NULL; other entries are kept |
| BlitzDb.TableCache.Reuse | plugin/blitzdb/ha_blitz.cc:467-472 | a cached share gets one more user and the cache is unchanged |
| BlitzDb.TableCache.Open | plugin/blitzdb/ha_blitz.cc:485-492 | a fresh share with one user is cached under the name |
| BlitzDb.TableCache.FreeShare | plugin/blitzdb/ha_blitz.cc:496-512 | counts follow FreeCounts; HA_ERR_CRASHED_ON_USAGE exactly when the last user's shutdown fails; the cache map and the set of shares lose exactly that share's entry when the last user's shutdown succeeds and are otherwise unchanged, so the zero-count entry of a failed shutdown stays cached and every other session's share stays freeable |
| BlitzDb.TableCache.Decrement | plugin/blitzdb/ha_blitz.cc:501 | the share's use count drops by one |
| BlitzDb.TableCache.Evict | plugin/blitzdb/ha_blitz.cc:506-507 | the share's entry leaves the cache: the cache map loses exactly that name, the set of shares exactly that share, and the counts that name |
| BlitzDb.BlitzCursor.constructor | plugin/blitzdb/ha_blitz.cc:168-174 | a cursor starts with no keys, no buffers, no table scan and no lock |
| BlitzDb.BlitzCursor.FetchCurrent | plugin/blitzdb/ha_blitz.cc:214-217 | the current key becomes the next record's key in a freshly allocated buffer, or NULL past the end |
| BlitzDb.BlitzCursor.RndInit | plugin/blitzdb/ha_blitz.cc:203-218 | records table_scan, takes the scan lock for a scan, and positions on the first record, whose row becomes the current row; a current key left from an earlier scan is overwritten without being freed (its buffer leaks) and the updateable key is kept |
| BlitzDb.BlitzCursor.RndNext | plugin/blitzdb/ha_blitz.cc:221-260 | frees the previous updateable key (the freed set grows by exactly that buffer, the leaked set is unchanged); at NULL returns HA_ERR_END_OF_FILE; otherwise decodes the current row, moves the current key to updateable_key and advances to the next record, whose stored row becomes the current row |
| BlitzDb.BlitzCursor.ScanTable | plugin/blitzdb/ha_blitz.cc:203-276 | rnd_init, rnd_next until HA_ERR_END_OF_FILE, rnd_end: the rows returned are exactly the stored records in the store's order, each decoded over the caller's buffer, and the scan lock is released |
| BlitzDb.BlitzCursor.ScanRows | plugin/blitzdb/ha_blitz.cc:221-260 | rnd_next called from the first record to the end returns every stored row in order and leaves no current key |
| BlitzDb.BlitzCursor.DropUpdateable | plugin/blitzdb/ha_blitz.cc:226-227 | the updateable key's buffer is freed once and the key cleared |
| BlitzDb.BlitzCursor.HandOver | plugin/blitzdb/ha_blitz.cc:253-258 | the current key becomes the updateable key and the next record's key and stored row are fetched into one fresh buffer; nothing is freed |
| BlitzDb.BlitzCursor.RndEnd | plugin/blitzdb/ha_blitz.cc:261-276 | frees both held buffers, clears both keys, and releases the scan lock iff table_scan; buffers leaked by an earlier rnd_init stay allocated |
| BlitzDb.BlitzCursor.Release | plugin/blitzdb/ha_blitz.cc:227 | free() of a buffer the cursor holds moves it from the live set to the freed set, so no buffer is freed twice |
| BlitzDb.BlitzCursor.WriteRow | plugin/blitzdb/ha_blitz.cc:306-318 | when the pack buffer cannot be had the call fails with 1 and stores nothing; otherwise 0 exactly when overwrite_row succeeds, in which case the packed row is appended under the key drawn (the old key counter, which no record had), and 1 with the store unchanged when it fails; the key counter moves on exactly when a buffer was had; the secondary buffer size is that of the buffer choice; the field frame keeps the scan state (current and updateable keys, current row, table_scan, thread_locked) and the buffer sets |
| BlitzDb.BlitzCursor.UpdateRow | plugin/blitzdb/ha_blitz.cc:320-332 | 0 exactly when a locked table scan is under way, a pack buffer was had and overwrite_row succeeded, and then the updateable key's row is the packed new row; otherwise −1 and the store is unchanged; get_pack_buffer runs in every case; the key counter is kept, and the field frame keeps the scan state (current and updateable keys, current row, table_scan, thread_locked) and the buffer sets, so a scan can go on after the update |
| BlitzDb.BlitzCursor.DeleteRow | plugin/blitzdb/ha_blitz.cc:334-341 | under a locked table scan the updateable key's record is removed, returning 0 iff it was stored; otherwise −1 and the store is unchanged; the key counter is kept in every case |
| BlitzDb.BlitzCursor.GetPackBuffer | plugin/blitzdb/ha_blitz.cc:412-432 | the (corrected) buffer choice for max_row_length, NULL only when the secondary buffer must grow and realloc fails; a non-NULL buffer holds the row; the store and the scan state are untouched |
| BlitzDb.BlitzCursor.StoreLock | plugin/blitzdb/ha_blitz.cc:434-453 | the lock type becomes StoreLockType of the old one |
| DynArray.InitIncrement | mysys/array.c:43-60 | a nonzero increment is kept; a zero one becomes at most max((8192−8)/size, 16), at least 16 unless it is 2·init_alloc, and at most 2·init_alloc when init_alloc > 8 |
| DynArray.RoundUp | mysys/array.c:237-238 | the new capacity is a multiple of the increment strictly above max_elements and at most one increment beyond |
| DynArray.SetSpec | mysys/array.c:199-212 | set_dynamic overwrites slot idx only, and past the end zero-fills the gap and extends to idx+1 |
| DynArray.SetThenGet | mysys/array.c:199-285 | after set, get of idx gives the element and get of any other index what it gave before |
| DynArray.GetIndexAsWritten | mysys/array.c:369-381 | as written: −1 below the buffer or for an index above `elements` |
| DynArray.GetIndexAsWrittenAcceptsEnd | mysys/array.c:376 | the offset just past the last element is accepted as index `elements` |
| DynArray.GetIndex | mysys/array.c:369-381 | −1 exactly for offsets outside the stored elements; otherwise the element whose bytes hold the offset |
| DynArray.AllocateAsWritten | mysys/array.c:231-263 | as written: a success grows the capacity above max_elements |
| DynArray.AllocateAsWrittenSilentFailure | mysys/array.c:245-248 | a failed malloc on the static path reports success without growing |
| DynArray.NewBuffer | mysys/array.c:245-259 | the new buffer keeps the first elements (memcpy or realloc) |
| DynArray.DynamicArray.Contents | mysys/array.c:95-110 | there are `elements` elements, each element_size bytes |
| DynArray.DynamicArray.constructor | mysys/array.c:43-72 | empty, with the defaulted increment; init_alloc 0 becomes the increment; max_element 0 exactly when malloc fails |
| DynArray.DynamicArray.Alloc | mysys/array.c:130-159 | hands out slot `elements` and counts it, growing by one increment when full and keeping the elements; fails unchanged when growth fails |
| DynArray.DynamicArray.Insert | mysys/array.c:95-110 | appends the element; fails, unchanged, only when full and growth fails |
| DynArray.DynamicArray.Pop | mysys/array.c:174-179 | removes and returns the last element; NULL on an empty array |
| DynArray.DynamicArray.Allocate | mysys/array.c:231-263 | keeps the elements; grows to RoundUp when max_elements ≥ max_element; fails exactly when that growth fails |
| DynArray.DynamicArray.Set | mysys/array.c:199-212 | the contents become SetSpec; fails unchanged when idx is beyond capacity and growth fails |
| DynArray.DynamicArray.Get | mysys/array.c:276-285 | the element at idx, or element_size zero bytes past the end |
| DynArray.DynamicArray.Delete | mysys/array.c:296-310 | empties the array; frees a malloc'd buffer, keeps a static one |
| DynArray.DynamicArray.DeleteElement | mysys/array.c:321-327 | removes element idx, the rest in order |
| DynArray.DynamicArray.FreezeSize | mysys/array.c:339-356 | keeps the elements; a malloc'd buffer shrinks to max(elements, 1) slots, a static one is left alone |
| LineReader.GrownSize | client/readline.cc:150-161 | bufread is doubled until at least IO_SIZE bytes are free after the kept bytes, and grows less than twice past what is needed |
| LineReader.ReadCount | client/readline.cc:171-173 | the read size is the free space rounded down to a nonzero multiple of IO_SIZE |
| LineReader.StripNewline | client/readline.cc:54-56 | what is removed is "", "\n" or "\r\n" at the end; a trailing newline is always removed, and a line without one is unchanged |
| LineReader.Kludge | client/readline.cc:177-181 | at most one character, a newline, added exactly when the read that hit end of file left a last line without one |
| LineReader.FromStringText | client/readline.cc:114-131 | the buffer after init_line_buffer_from_string: the old text with its last character turned into a space, then the string and a newline |
| LineReader.Fed | client/readline.cc:107-131 | the text after feeding strings is empty exactly when none were fed, and otherwise ends with the last string and a newline |
| LineReader.FedJoinsWithSpaces | client/readline.cc:112-131 | feeding strings one after another joins them with single spaces, ending in one newline |
| LineReader.LineBuffer.Init | client/readline.cc:32-44 | an empty IO_SIZE buffer over the whole input, not at end of file |
| LineReader.LineBuffer.FromCommand | client/readline.cc:73-87 | the buffer holds the command and a newline, at end of file, max_size 1 |
| LineReader.LineBuffer.FromString | client/readline.cc:112-131 | the previous text's last character becomes a space, then the string and a newline follow; eof is set and max_size is 1 |
| LineReader.LineBuffer.GrowBuffer | client/readline.cc:150-161 | the buffer grows to GrownSize keeping its text and the unfinished line |
| LineReader.LineBuffer.FillBuffer | client/readline.cc:140-186 | returns 0 and changes nothing at eof; otherwise the unfinished line moves to the front and the input follows, with the synthetic newline when the input ends without one; no character is lost or duplicated |
| LineReader.LineBuffer.FillOpen | client/readline.cc:147-186 | fill_buffer's growing, shifting and reading before eof |
| LineReader.LineBuffer.ShiftAndRead | client/readline.cc:164-184 | moves the unfinished line to the front, appends up to readCount input bytes, adds the synthetic newline iff nothing more came and the text lacks one, and puts the NUL sentinel after |
| LineReader.LineBuffer.RefillLine | client/readline.cc:204-209 | asking for more input keeps the text up to the end of file, extended only at its end |
| LineReader.LineBuffer.ShiftDown | client/readline.cc:164-168 | the memmove brings the unfinished line to the front |
| LineReader.LineBuffer.ReadChunk | client/readline.cc:171-184 | appends up to readCount bytes, the synthetic newline iff the input ended without one, and the sentinel |
| LineReader.LineBuffer.ReadLine | client/readline.cc:190-216 | returns the text up to and including the first newline or NUL (or a line cut at max_size at the buffer's end), minus the eof byte; NULL when input is exhausted without a full line; nothing is skipped |
| LineReader.LineBuffer.FindLineEnd | client/readline.cc:196-211 | finds the line's terminator, refilling as needed, or reports that no more input exists |
| LineReader.LineBuffer.ScanLine | client/readline.cc:198-200 | the scan stops at the first newline or NUL |
| LineReader.LineBuffer.TakeLine | client/readline.cc:212-215 | the line ends after position pos and its length drops the eof byte |
| LineReader.LineBuffer.BatchReadline | client/readline.cc:47-60 | returns the next line stripped of its newline, NUL-terminated in place, with read_length its length |
| LineReader.LineBuffer.FinishLine | client/readline.cc:54-58 | strips the newline, writes the NUL after the line and sets read_length |
| LineReader.LineBuffer.TerminatorInsideLine | client/readline.cc:54-58 | unless the line was cut at max_size, the NUL batch_readline writes lands inside the consumed line |
| LineReader.LineBuffer.PutTerminator | client/readline.cc:58 | writing the NUL changes only that byte |
| DefaultsFile.SkipSpace | mysys/default_modify.cc:115-116 | skipping leading blanks leaves a text that does not start with one |
| DefaultsFile.SkipSpaceDropsBlanks | mysys/default_modify.cc:115-116 | what is skipped is exactly a run of blanks at the front |
| DefaultsFile.Newlines | mysys/default_modify.cc:160-161 | n newline characters |
| DefaultsFile.AddOption | mysys/default_modify.cc:235-252 | "option=value\n" for a non-empty value, "option\n" for an empty one, nothing when removing |
| DefaultsFile.AddedOptionIsRecognised | mysys/default_modify.cc:125-128 | a line add_option wrote matches the option it names |
| DefaultsFile.Step | mysys/default_modify.cc:111-193 | one line of the loop: a blank line is only counted; the output only grows; once applied the option stays applied |
| DefaultsFile.Run | mysys/default_modify.cc:111-193 | the loop over the lines: once applied the change stays applied, the output only grows, and when removing it grows by no more than the lines' text |
| DefaultsFile.Rewrite | mysys/default_modify.cc:111-210 | when an option or a section is removed the new file is never longer than the old |
| DefaultsFile.LeaveRemovedSection | mysys/default_modify.cc:164-186 | in a removed section, the header of another section is copied and ends the removed section |
| DefaultsFile.Finish | mysys/default_modify.cc:201-210 | at end of file the change counts as applied exactly when it already was, or when the file ends inside the section and no option is being removed; the output only grows |
| DefaultsFile.StepOutside | mysys/default_modify.cc:118-161 | outside the section a line is copied after the counted blank lines |
| DefaultsFile.RunOutsideSection | mysys/default_modify.cc:111-193 | outside the section every line is copied through |
| DefaultsFile.NoSectionNoChange | mysys/default_modify.cc:111-210 | a file without the section comes back unchanged and nothing is applied |
| DefaultsFile.RemoveSectionDropsIt | mysys/default_modify.cc:164-192 | removing a section that is the whole file drops its header and its lines and counts as applied |
| DefaultsFile.RemoveSectionKeepsOtherLines | mysys/default_modify.cc:164-192 | removing a section keeps the lines before its header and every line from the next section header on, whatever the removed section held, and counts as applied |
| DefaultsFile.RemoveSectionKeepsNextSection | mysys/default_modify.cc:164-192 | with the corrected step, removing s from "[s]\n", "a=1\n", "[t]\n", "b=2\n" gives "[t]\nb=2\n" |
| DefaultsFile.RunInRemovedSection | mysys/default_modify.cc:164-166 | lines of a section being removed write nothing |
| DefaultsFile.EnterSection | mysys/default_modify.cc:169-192 | a target header opens the section and is copied, unless the section is being removed |
| DefaultsFile.SetsExistingOption | mysys/default_modify.cc:111-210 | in a file with any lines before the section, an option already in the section has its line replaced by add_option's line; every other line comes out as it was (blank lines normalised): the rest of the section, which does not set the option again, and every later section whatever its lines set, since only lines inside the section are matched |
| DefaultsFile.OptionLineTail | mysys/default_modify.cc:125-160 | from the option's line to the end of the file: that line is replaced, the rest of the section (blank lines included) is kept, and so is every later section, including lines there that set the same option |
| DefaultsFile.SetsOptionKeepsLaterSections | mysys/default_modify.cc:111-210 | setting port=9 in [client] of "[client]\n", "port=1\n", "[mysqld]\n", "port=2\n" gives "[client]\nport=9\n[mysqld]\nport=2\n": the [mysqld] port line is left alone |
| DefaultsFile.AppliedTail | mysys/default_modify.cc:111-210 | once the option is applied inside the section, the section's remaining lines (none setting it again) and every later section (whatever it sets, as long as the section is not reopened) come out as they were, and the change is reported |
| DefaultsFile.SectionRestAfterApplied | mysys/default_modify.cc:117-161 | after the option's line, the section's other lines are copied through with blank lines at most deferred |
| DefaultsFile.LaterSections | mysys/default_modify.cc:146-192 | once the option is applied, from the next section header on every line is copied after the pending blank lines, and the end of file adds nothing |
| DefaultsFile.LeaveAppliedSection | mysys/default_modify.cc:146-192 | with the option applied, another section's header is copied after the counted blank lines and leaves the section |
| DefaultsFile.StepAfterApplied | mysys/default_modify.cc:118-192 | once the option is applied, a non-blank line is copied after the counted blank lines and nothing more is added |
| DefaultsFile.RunAfterApplied | mysys/default_modify.cc:111-193 | once the option is applied, every later line that does not set it again is copied through |
| DefaultsFile.ReplaceOptionLine | mysys/default_modify.cc:125-144 | inside the section the option's line is replaced by add_option's output |
| DefaultsFile.RemoveOptionLine | mysys/default_modify.cc:125-144 | when removing an option, its line inside the section is dropped and the removal counts as applied |
| DefaultsFile.RunInSectionWithoutOption | mysys/default_modify.cc:148-166 | inside the section, before the option is applied, lines that neither set it nor open a section are copied through |
| DefaultsFile.LeaveSectionAddsOption | mysys/default_modify.cc:153-192 | the next section's header, with the option still pending, gets add_option's line written before it, marks the option applied and leaves the section |
| DefaultsFile.NextSectionTail | mysys/default_modify.cc:111-210 | from the next section's header to the end of the file, the pending option comes first and every line follows as it was |
| DefaultsFile.AddsOptionBeforeNextSection | mysys/default_modify.cc:111-210 | an option missing from a section that another section follows is added at the end of the section, right before the next header; every other line comes out as it was |
| DefaultsFile.AddsOptionBetweenHeaders | mysys/default_modify.cc:153-166 | for the target header directly followed by another header, the option's line goes between the two |
| DefaultsFile.ThroughTargetHeader | mysys/default_modify.cc:111-192 | the lines before the section come out as they were, then its header unless the section is being removed; the section is open with nothing applied |
| DefaultsFile.AppendsMissingOption | mysys/default_modify.cc:111-208 | an option missing from the section that ends the file is added after the section's last line, preceded by a newline when that line has none; every line before it comes out as it was |
| DefaultsFile.FinishAtSectionEnd | mysys/default_modify.cc:195-208 | at end of file inside the section with the option still pending, a newline is added when the text lacks one, then the option's line |
| DefaultsFile.SkipBlanks | mysys/default_modify.cc:115-116 | the skip loop stops at the first non-blank |
| DefaultsFile.EmitNewlines | mysys/default_modify.cc:160-161 | the counted blank lines are written back as newlines |
| DefaultsFile.ProcessLine | mysys/default_modify.cc:111-193 | one pass of the fgets loop is Step |
| DefaultsFile.FinishFile | mysys/default_modify.cc:201-210 | the end-of-file handling is Finish |
| DefaultsFile.ModifyLines | mysys/default_modify.cc:111-210 | the whole rewrite is Rewrite over the lines |
| DefaultsFile.RemoveSectionAsWrittenKeepsHeader | mysys/default_modify.cc:164-192 | as written, removing section s from "[s]\n", "a=1\n" leaves "[s]\n" |
| DefaultsFile.AsWrittenCopiesHeader | mysys/default_modify.cc:164-166 | as written, the target header is copied out before it is recognised |
| DefaultsFile.AsWrittenRewindsOverOption | mysys/default_modify.cc:164-186 | as written, the header's length is taken back off dst_ptr while its bytes stay in the buffer |
| DefaultsFile.RemoveSectionDropsHeader | mysys/default_modify.cc:164-192 | with the corrected step, the same input gives an empty file |
| DefaultsFile.StepAsWritten | mysys/default_modify.cc:111-193 | the loop body as written moves the flags exactly as the corrected step does, and never moves dst_ptr back |
| DefaultsFile.RunAsWritten | mysys/default_modify.cc:111-193 | the loop as written ends with the corrected loop's flags, and dst_ptr never moves back |
| DefaultsFile.RewriteAsWritten | mysys/default_modify.cc:111-210 | the file as written is saved exactly when the corrected rewrite saves it |
| DefaultsFile.AsWrittenSkipsNextHeader | mysys/default_modify.cc:164-166 | as written, the header that ends a removed section is stepped over without being copied |
| DefaultsFile.RemoveSectionAsWrittenDropsNextHeader | mysys/default_modify.cc:164-192 | as written, removing s from "[s]\n", "a=1\n", "[t]\n", "b=2\n" leaves "[s]\n", stale bytes and "b=2\n": the next section's header is lost |
| DefaultsFile.BufferRequestAsWritten | mysys/default_modify.cc:99-107 | the buffer size as written is SIZE_MAX whatever the file size |
| DefaultsFile.BufferRequestAsWrittenIsSizeMax | mysys/default_modify.cc:99-107 | as written, the malloc request is SIZE_MAX, more than any available memory |
| DefaultsFile.BufferRequest | mysys/default_modify.cc:99-107 | the intended request is the file, its NUL and the reserve |
| DefaultsFile.WriteSucceedsReportedAsError | mysys/default_modify.cc:212-219 | as written, a complete fwrite of a non-empty file is taken for a failure |
| DefaultsFile.WriteFailsAsWritten | mysys/default_modify.cc:214-217 | as written, any nonzero fwrite count is a failure; a zero count fails only with ftruncate or fseeko |
| DefaultsFile.WriteFails | mysys/default_modify.cc:214-217 | with the corrected test a complete write fails exactly when ftruncate or fseeko does, and a short write of a non-empty file always fails |
| DefaultsFile.ModifyDefaultsFile | mysys/default_modify.cc:63-232 | 0, 1 or 2: 2 exactly when the file cannot be opened; 0 exactly when fstat and the buffer succeed, any applied change is truncated, sought and written back, and the close succeeds; the rewritten text is written back exactly when a change was applied and those steps succeed |
| DirName.DirnameLengthSpec | mysys/mf_dirname.c:21-51 | the length is at most the name's, and a nonzero length ends just after a '/' |
| DirName.DirnameLengthIsLast | mysys/mf_dirname.c:21-51 | no '/' follows the directory part |
| DirName.DirnameLength | mysys/mf_dirname.c:21-51 | the scan keeps 1 + the index of the last '/', 0 without one |
| DirName.CopyLimit | mysys/mf_dirname.c:114-116 | at most FN_REFLEN−2 characters are taken, up to from_end when it is nearer |
| DirName.ConvertDirname | mysys/mf_dirname.c:107-162 | the result fits in FN_REFLEN with its NUL and, unless empty, ends in '/' |
| DirName.ConvertDirnameShape | mysys/mf_dirname.c:107-162 | the result is the copied prefix and at most one '/', and is empty exactly when nothing was copied |
| DirName.ConvertDirnameIdempotent | mysys/mf_dirname.c:155-160 | converting a converted name changes nothing |
| DirName.DocumentedSizeTooSmall | mysys/mf_dirname.c:82-84 | "a" needs 3 bytes where the comment asks for 2 |
| DirName.NeededSize | mysys/mf_dirname.c:107-162 | whatever from_end is, no call writes more bytes than this size |
| DirName.ConvertDirnameInto | mysys/mf_dirname.c:107-162 | writes the converted name and a NUL into `to`, returning the NUL's index, and nothing after it |
| DirName.DirnamePart | mysys/mf_dirname.c:67-74 | returns dirname_length and the length of the converted directory written to `to` |
| DirName.DirnamePartIsDirectory | mysys/mf_dirname.c:67-74 | a directory part that fits is written exactly as it stands in the name |
| UserLocks.LockSpec | plugin/user_locks/locks.cc:60-67 | inserts only for a key nobody holds, the caller included, and reports whether it did; no other entry changes |
| UserLocks.Acquired | plugin/user_locks/locks.cc:84-89 | every requested key absent before now belongs to the caller; the rest keep their holders |
| UserLocks.ReleaseSpec | plugin/user_locks/locks.cc:122-142 | indeterminate for an absent key; true, with the key erased, for its holder; false and unchanged for anyone else |
| UserLocks.IsFreeAsWritten | plugin/user_locks/locks.cc:108-115 | as written: true exactly when the key is held |
| UserLocks.IsFreeAsWrittenInverted | plugin/user_locks/locks.cc:108-115 | on an empty table isFree says "not free" while a lock on the key is granted |
| UserLocks.LockThenRelease | plugin/user_locks/locks.cc:60-142 | a lock and release by the same session leave the table as it was |
| UserLocks.ReleaseByOtherKeepsLock | plugin/user_locks/locks.cc:122-142 | only the holder can release; another session's release changes nothing |
| UserLocks.AcquiredHoldsAll | plugin/user_locks/locks.cc:69-92 | after the multi-key lock the caller holds every key and earlier holders are kept |
| UserLocks.Locks.Lock | plugin/user_locks/locks.cc:60-67 | the table and result are LockSpec's |
| UserLocks.Locks.LockWaiting | plugin/user_locks/locks.cc:30-58 | true at once for the holder; false and unchanged when another holder keeps the key past the timeout; otherwise the key is taken |
| UserLocks.Locks.LockAll | plugin/user_locks/locks.cc:69-92 | all or nothing: true iff no key is held by another session, and then the table is Acquired |
| UserLocks.Locks.IsUsed | plugin/user_locks/locks.cc:94-106 | true with the holder for a held key; false with id_arg untouched otherwise |
| UserLocks.Locks.IsFree | plugin/user_locks/locks.cc:108-115 | true exactly when the key is not held, the opposite of the code as written |
| UserLocks.Locks.Copy | plugin/user_locks/locks.cc:117-120 | the snapshot equals the table |
| UserLocks.Locks.Release | plugin/user_locks/locks.cc:122-142 | the table and result are ReleaseSpec's |
| CloudTable.IndexOf | plugin/pbms/src/SysTab_cloud.cc:371-377 | getIndex is a position within the array or its end |
| CloudTable.Get | plugin/pbms/src/SysTab_cloud.cc:397-399 | get(id) finds an entry with that id whenever one is stored, and finds only such an entry |
| CloudTable.Put | plugin/pbms/src/SysTab_cloud.cc:412 | set holds the new entry afterwards and adds at most one entry |
| CloudTable.Remove | plugin/pbms/src/SysTab_cloud.cc:432 | remove(id) leaves no entry with that id and adds none |
| CloudTable.GetSorted | plugin/pbms/src/SysTab_cloud.cc:397-399 | in the ordered array get finds an entry iff one has that id, and returns it |
| CloudTable.PutSorted | plugin/pbms/src/SysTab_cloud.cc:412 | set keeps the order; afterwards the entry is the one with its id and the others keep theirs |
| CloudTable.RemoveSorted | plugin/pbms/src/SysTab_cloud.cc:372 | remove keeps the order and drops exactly the entries with that id |
| CloudTable.RemoveAt | plugin/pbms/src/SysTab_cloud.cc:427-432 | the entry at position i is found at i and removing it closes the gap |
| CloudTable.NothingBelowZero | plugin/pbms/src/SysTab_cloud.cc:96 | before the first load the array is empty |
| CloudTable.Mask | plugin/pbms/src/SysTab_cloud.cc:287-294 | the private key shows as min(length, 64) asterisks |
| CloudTable.ScanRow | plugin/pbms/src/SysTab_cloud.cc:235-312 | a row exists exactly for positions inside the array, and is that entry with its key masked |
| CloudTable.ScanPosition | plugin/pbms/src/SysTab_cloud.cc:314-321 | the stored position is 4 bytes |
| CloudTable.PositionRoundTrip | plugin/pbms/src/SysTab_cloud.cc:314-327 | reading back a stored position gives the row the scan last returned |
| CloudTable.DeleteKeepsScanPosition | plugin/pbms/src/SysTab_cloud.cc:418-435 | deleting the row the scan last returned leaves the cursor on the row after it |
| CloudTable.LoadStep | plugin/pbms/src/SysTab_cloud.cc:127-151 | a valid record moves gMaxInfoRef past its id |
| CloudTable.LoadStepKeepsInvariant | plugin/pbms/src/SysTab_cloud.cc:127-151 | each record keeps the array ordered with every id below gMaxInfoRef |
| CloudTable.LoadRecords | plugin/pbms/src/SysTab_cloud.cc:126-151 | the loop leaves gMaxInfoRef above every valid record's id and never lowers it |
| CloudTable.Load | plugin/pbms/src/SysTab_cloud.cc:90-166 | after loading, gMaxInfoRef is above the id of every valid data record |
| CloudTable.LoadStepAsWritten | plugin/pbms/src/SysTab_cloud.cc:134-140 | the step as written builds the same table as the corrected one; gMaxInfoRef differs only for a record whose id equals it, which it leaves in place |
| CloudTable.LoadRecordsKeepsInvariant | plugin/pbms/src/SysTab_cloud.cc:126-151 | the record loop keeps the array ordered with every id below gMaxInfoRef |
| CloudTable.LoadIsValid | plugin/pbms/src/SysTab_cloud.cc:90-166 | whatever the file holds, the loaded table has every id below gMaxInfoRef |
| CloudTable.LoadAsWrittenReusesId | plugin/pbms/src/SysTab_cloud.cc:134-140 | as written, a record with id equal to gMaxInfoRef leaves gMaxInfoRef there, and the next insert replaces that entry |
| CloudTable.UpdateAsWrittenReusesId | plugin/pbms/src/SysTab_cloud.cc:329-383 | as written, moving an entry to id gMaxInfoRef lets the next insert overwrite it |
| CloudTable.UpdateAsWritten | plugin/pbms/src/SysTab_cloud.cc:329-383 | as written the new entry is stored and gMaxInfoRef stays where it was |
| CloudTable.CloudTable.constructor | plugin/pbms/src/SysTab_cloud.cc:206-210 | nothing loaded and the cursor at 0 |
| CloudTable.CloudTable.LoadTable | plugin/pbms/src/SysTab_cloud.cc:90-166 | only the first load reads the file: a missing file gives gMaxInfoRef 1, otherwise the table is Load of the records |
| CloudTable.CloudTable.ScanInit | plugin/pbms/src/SysTab_cloud.cc:229-232 | the cursor goes back to 0 |
| CloudTable.CloudTable.MaskPassword | plugin/pbms/src/SysTab_cloud.cc:292-294 | the masking loop yields Mask of the key |
| CloudTable.CloudTable.ScanNext | plugin/pbms/src/SysTab_cloud.cc:235-312 | returns the row at the cursor (none past the end) and moves the cursor on |
| CloudTable.CloudTable.ScanPos | plugin/pbms/src/SysTab_cloud.cc:314-321 | stores max(cursor−1, 0) big-endian |
| CloudTable.CloudTable.ScanRead | plugin/pbms/src/SysTab_cloud.cc:323-327 | returns the row at the stored position and leaves the cursor after it |
| CloudTable.CloudTable.InsertRow | plugin/pbms/src/SysTab_cloud.cc:385-416 | a duplicate explicit id fails unchanged; id 0 takes gMaxInfoRef, which moves on; an explicit id moves gMaxInfoRef past itself; the inserted id is below gMaxInfoRef |
| CloudTable.CloudTable.UpdateRow | plugin/pbms/src/SysTab_cloud.cc:329-383 | a change to another existing id fails with nothing changed; an unchanged (masked) key keeps the stored one; the old entry is replaced by the new; the cursor steps back one when the entry moved to a later position; gMaxInfoRef moves past the new id |
| CloudTable.CloudTable.DeleteRow | plugin/pbms/src/SysTab_cloud.cc:418-435 | the entry goes, and the cursor steps back one when the entry's position was at or before it |
| RenameTables.TableList.constructor | drizzled/rename.cc:31-34 | a list element with the names and no next_local |
| RenameTables.Reversed | drizzled/rename.cc:119-131 | the reversed list has the same length |
| RenameTables.ReversedSameElements | drizzled/rename.cc:119-131 | the reversed list holds the same elements |
| RenameTables.ReversedTwice | drizzled/rename.cc:77-78 | reversing twice restores the original order |
| RenameTables.BackLinkedIsReversedChain | drizzled/rename.cc:119-131 | elements each linked to the one before form the reversed list, started by the last |
| RenameTables.ReverseTableList | drizzled/rename.cc:119-131 | relinks the chain backwards in place and returns the old tail |
| RenameTables.DoRename | drizzled/rename.cc:153-199 | ER_NO_SUCH_TABLE iff the source is missing; ER_TABLE_EXISTS_ERROR iff the target exists, even with skip_error; an engine failure is an error only without skip_error; a failure leaves the catalog unchanged |
| RenameTables.DoRenameMoves | drizzled/rename.cc:191-197 | a rename that went through moves the definition to the new name and leaves every other table alone |
| RenameTables.Move | drizzled/rename.cc:191-193 | after the move the new name holds the old definition, the old name is gone (when different), and every other name is unchanged |
| RenameTables.RenameBack | drizzled/rename.cc:153-199 | a rename is undone by the rename back when the engine carries it out |
| RenameTables.RenameAll | drizzled/rename.cc:224-236 | the failing pair, if any, is one of the pairs |
| RenameTables.RenameAllAppend | drizzled/rename.cc:224-236 | renaming a + b is renaming a, then, if nothing failed, b |
| RenameTables.RenameAllPrefix | drizzled/rename.cc:224-236 | the renames before the first failure all went through, and the failing one left the catalog as they had it |
| RenameTables.Inverse | drizzled/rename.cc:61-75 | the rollback list has one swapped pair per pair |
| RenameTables.UndoRenames | drizzled/rename.cc:61-75 | renames that all went through are undone by the swapped pairs in reverse order with skip_error |
| RenameTables.RollbackRestores | drizzled/rename.cc:61-81 | after a failed rename the rollback restores the catalog |
| RenameTables.Pairs | drizzled/rename.cc:31-34 | an even-length list is half as many (old, new) pairs |
| RenameTables.PairsOfReversed | drizzled/rename.cc:61-75 | reading the reversed list in pairs gives the rollback list |
| RenameTables.RollbackPairs | drizzled/rename.cc:66-75 | the pairs after the failing one in the reversed list are the earlier pairs backwards and swapped |
| RenameTables.RenameTableList | drizzled/rename.cc:224-236 | the catalog after the renames, and NULL or the old-name element of the first failing pair with its error |
| RenameTables.FindLastRenamed | drizzled/rename.cc:69-73 | the loop finds the element after the failing pair in the reversed list |
| RenameTables.ReverseToLastRenamed | drizzled/rename.cc:66-73 | the list is reversed and the rollback starts at the pairs renamed before the failure |
| RenameTables.RenameBackTables | drizzled/rename.cc:63-78 | the renamed pairs are renamed back and the list order restored |
| RenameTables.RenameStatement | drizzled/rename.cc:35-106 | inside a transaction the statement fails with ER_LOCK_OR_ACTIVE_TRANSACTION and changes nothing; an error is reported exactly when it fails; when no rename fails the catalog is the renamed one |
| RenameTables.RenameStatementAtomic | drizzled/rename.cc:35-106 | a failed statement leaves the catalog as it was; a successful one gives all the renames |
| RenameTables.DrizzleRenameTables | drizzled/rename.cc:35-106 | result, error and catalog are RenameStatement's, and the list is left in its order |
| TableFunction.Describe | drizzled/plugin/table_function.cc:94-144 | NUMBER is BIGINT, the only type without a length; only STRING and VARBINARY can be nullable, and then as asked, with the default NULL matching; BOOLEAN has length 5, STRING and VARBINARY the length asked; only VARBINARY carries a collation, the binary one |
| TableFunction.BooleanIsShortString | drizzled/plugin/table_function.cc:113-126 | a BOOLEAN column is described like a not-null STRING of length 5 |
| TableFunction.DescriptorDeterminesType | drizzled/plugin/table_function.cc:94-144 | the descriptor tells the type back, except that BOOLEAN and STRING can look alike |
| TableFunction.TableFunction.constructor | drizzled/plugin/table_function.cc:39-56 | the table proto starts with no columns |
| TableFunction.TableFunction.AddField | drizzled/plugin/table_function.cc:94-144 | appends Describe of the arguments |
| TableFunction.TableFunction.AddTypedField | drizzled/plugin/table_function.cc:87-92 | appends the column with length 5 |
| TableFunction.TableFunction.AddStringField | drizzled/plugin/table_function.cc:81-85 | appends a STRING column of that length |
| TableFunction.ToInt64 | drizzled/plugin/table_function.cc:171 | static_cast to int64_t lands in the signed range |
| TableFunction.FromInt64Unsigned | drizzled/plugin/table_function.cc:171 | an unsigned field reads its int64_t back into the unsigned range |
| TableFunction.UnsignedRoundTrip | drizzled/plugin/table_function.cc:169-174 | push(uint64_t) loses nothing |
| TableFunction.Store | drizzled/plugin/table_function.cc:169-219 | every push sets the field NOT NULL except push() (NULL) and push(bool) (unchanged); integers keep their signedness; bool stores "TRUE"/"FALSE" |
| TableFunction.StoreChars | drizzled/plugin/table_function.cc:183-193 | a zero length stores the characters up to the NUL; otherwise exactly that many |
| TableFunction.StoreText | drizzled/plugin/table_function.cc:202-205 | push(std::string) stores the whole string |
| TableFunction.Apply | drizzled/plugin/table_function.cc:152-167 | a row's pushes fill the first columns and leave the others |
| TableFunction.Generator.constructor | drizzled/plugin/table_function.cc:146-150 | the generator is bound to the table's columns and their types; columns_iterator keeps whatever value it is given |
| TableFunction.Generator.PushUnsignedValue | drizzled/plugin/table_function.cc:169-174 | stores the value with the unsigned flag and advances one column |
| TableFunction.Generator.PushSignedValue | drizzled/plugin/table_function.cc:176-181 | stores the value and advances one column |
| TableFunction.Generator.PushCharsValue | drizzled/plugin/table_function.cc:183-193 | stores the characters (strlen for length 0) and advances one column |
| TableFunction.Generator.PushNullValue | drizzled/plugin/table_function.cc:195-200 | sets the VARCHAR column NULL and advances one column |
| TableFunction.Generator.PushTextValue | drizzled/plugin/table_function.cc:202-205 | stores the string and advances one column |
| TableFunction.Generator.PushBoolValue | drizzled/plugin/table_function.cc:207-219 | stores "TRUE"/"FALSE" without set_notnull and advances one column |
| TableFunction.Generator.Push | drizzled/plugin/table_function.cc:169-219 | every overload stores its value in the current column as Store says and advances exactly one column |
| TableFunction.Generator.SubPopulate | drizzled/plugin/table_function.cc:152-167 | the row is Apply of the pushes; when populate returns true the column count equals field_size |
| Collations.Columns | plugin/data_engine/collations.cc:27-37 | the tool declares seven columns |
| Collations.TypesOf | plugin/data_engine/collations.cc:27-37 | one field type per column |
| Collations.ColumnsShape | plugin/data_engine/collations.cc:27-37 | names in order CHARACTER_SET_NAME, COLLATION_NAME, DESCRIPTION, ID, IS_DEFAULT, IS_COMPILED, SORTLEN; types three VARCHARs, BIGINT, two VARCHARs of length 5, BIGINT; ID, IS_DEFAULT, IS_COMPILED and SORTLEN are never NULL |
| Collations.DeclareColumns | plugin/data_engine/collations.cc:27-37 | the constructor appends exactly those columns |
| Collations.RowPushes | plugin/data_engine/collations.cc:66-85 | a row is seven pushes |
| Collations.RowFitsColumns | plugin/data_engine/collations.cc:66-85 | a row's pushes fill every column, each with a push its type accepts |
| Collations.Remaining | plugin/data_engine/collations.cc:46-98 | every pair still to come makes a row and lies at or after the cursor position |
| Collations.CStringLength | plugin/data_engine/collations.cc:67-73 | strlen of the C string of a name without NUL is the name's length |
| Collations.NameStored | plugin/data_engine/collations.cc:67-73 | a name reaches its field whole |
| Collations.RemainingMembers | plugin/data_engine/collations.cc:46-98 | the rows still to come are exactly the qualifying (set, collation) pairs at or after the cursors |
| Collations.RemainingAscending | plugin/data_engine/collations.cc:46-98 | they come each once, in character-set-major order |
| Collations.CollationsGenerator.constructor | plugin/data_engine/collations.cc:39-44 | both cursors start at the first slot |
| Collations.CollationsGenerator.Populate | plugin/data_engine/collations.cc:46-98 | returns the next qualifying pair's row and leaves the rest to come; false, and false for good, once the sets are exhausted |
| Collations.CollationsGenerator.Fill | plugin/data_engine/collations.cc:46-98 | the row is produced iff qualifying pairs remain; it is then the next remaining pair's row, pushed into all seven columns in order, and the cursors move past that pair; at the end the cells are untouched and nothing remains |
| DataRef.RangeSize | drizzled/util/data_ref.h:90-93 | size is end − begin as size_t; zero iff the pointers meet |
| DataRef.SizeOfSpan | drizzled/util/data_ref.h:69-73 | a view of sz bytes from b has size sz |
| DataRef.DataRef.FromRange | drizzled/util/data_ref.h:41-44 | begin and end are the arguments |
| DataRef.DataRef.FromSize | drizzled/util/data_ref.h:46-49 | begin is b and the size is sz |
| DataRef.DataRef.FromCString | drizzled/util/data_ref.h:51-54 | the size is strlen: the NUL's position, with no NUL before it |
| Common.CStrLen | drizzled/util/data_ref.h:51-54 | strlen: the characters before the first NUL, and the NUL sits at that index when the memory holds one |
| DataRef.DataRef.FromContainer | drizzled/util/data_ref.h:32-39 | an empty container gives the cleared view; otherwise the view spans the container |
| DataRef.DataRef.Size | drizzled/util/data_ref.h:90-93 | zero iff begin == end, and end − begin when end is not below begin |
| DataRef.DataRef.Empty | drizzled/util/data_ref.h:95-98 | empty iff the size is 0 |
| DataRef.DataRef.Clear | drizzled/util/data_ref.h:56-61 | both pointers NULL; empty with size 0 |
| DataRef.DataRef.AssignRange | drizzled/util/data_ref.h:63-67 | begin and end are the arguments; the size is e − b |
| DataRef.DataRef.AssignSize | drizzled/util/data_ref.h:69-73 | begin is b, the size is sz, empty iff sz is 0 |
| TableOrder.Fold | drizzled/table.h:473 | tolower of each character |
| TableOrder.StrCaseCmp | drizzled/table.h:473 | strcasecmp's sign: one of −1, 0, 1; 0 for equal strings and only for strings of equal length |
| TableOrder.StrCaseCmpIsFoldedOrder | drizzled/table.h:473-481 | strcasecmp is negative exactly when the lowered strings are in order and zero exactly when they are equal |
| TableOrder.ShareLess | drizzled/table.h:471-493 | when schema and table names match without case, the proto's table type alone decides |
| TableOrder.LessIsKeyOrder | drizzled/table.h:471-493 | operator< is the lexicographic order on (lowered schema, lowered name, type) |
| TableOrder.LessIrreflexive | drizzled/table.h:471-493 | no table sorts before itself |
| TableOrder.LessTransitive | drizzled/table.h:471-493 | operator< is transitive |
| TableOrder.LessAsymmetric | drizzled/table.h:471-493 | operator< is asymmetric |
| TableOrder.IncomparableIsSameKey | drizzled/table.h:471-493 | two tables are unordered exactly when their names differ only in case and their types agree |
| TableOrder.Table.constructor | drizzled/table.h:66-149 | a Table whose share, null flags, db_stat, open_placeholder, null_row, status, read and write bitmaps and errkey are the values given |
| TableOrder.Table.Less | drizzled/table.h:471-493 | the key order, and never both ways |
| TableOrder.Table.Compare | drizzled/table.h:495-498 | compare is *a < *b, and holds only when the reverse does not |
| TableOrder.Table.MarkAsNullRow | drizzled/table.h:436-441 | null_row set, STATUS_NULL_ROW or'ed into status, the first null_bytes of null_flags 0xFF, nothing else changed |
| TableOrder.Table.ColumnBitmapsSet | drizzled/table.h:343-348 | read and write sets become the arguments; no other field changes |
| TableOrder.Table.UseAllColumns | drizzled/table.h:353-356 | both sets become the share's all_set; no other field changes |
| TableOrder.Table.DefaultColumnBitmaps | drizzled/table.h:358-362 | the sets become def_read_set and def_write_set; no other field changes |
| TableOrder.Table.GetDupKey | drizzled/table.h:457-466 | the key the engine reports for the four duplicate-key errors, (uint32_t) −1 otherwise; only errkey changes |
| TableOrder.Table.IsNameOpened | drizzled/table.h:416-419 | a table with a name-lock placeholder counts as opened; one not opened has no handler |
| TableOrder.Table.NeedsReopenOrNameLock | drizzled/table.h:423-426 | the table needs reopening exactly when the share's version differs from the refresh version |

## Left out

- Memory allocation outside the named allocators (`my_malloc` in
  `Field_blob::store`, `realloc` in readline, `malloc` for the BlitzDB
  key buffers) is a boolean parameter or assumed to succeed. Out-of-memory
  paths are modelled only where the code branches on them.
- `my_read` errors in `client/readline.cc`: the input is a sequence of
  characters that reads always deliver.
- The `reserve_occupied` bookkeeping and the `my_realloc` of
  `modify_defaults_file`: the output is a sequence, so no overflow of the
  file buffer is modelled. `fgets` pieces are taken to be whole lines.
- A line holding an embedded NUL in readline: the line scan stops at the
  NUL; batch_readline then writes its terminator on the first byte not
  yet read, as the code does. The model states no "nothing lost"
  property for that case.
- 32-bit and 64-bit wrap-around of counters is not modelled:
  `elements`/`max_element` in array.c, `gMaxInfoRef` and the cloud ids,
  `use_count` in ha_blitz.cc. The integers are unbounded.
- `convert_dirname`'s in-place use (`to == from`) and the
  `BACKSLASH_MBTAIL`, `FN_DEVCHAR` and `FN_C_*` branches: only the Unix
  branch is modelled.
- The timed wait of `Locks::lock(id, key, wait_for)`: the wait and
  the condition variable are one boolean, whether the key was
  released in time. All locking (the blitz mutexes, `thr_lock`,
  LOCK_open, the global read lock, `lock_table_names_exclusively`)
  is left out; every operation is atomic.
- Engine renames that fail are a `refused` set of (old, new) pairs;
  `build_table_filename` and the table definition files are a catalog map.
  `write_bin_log` and `my_ok` are not modelled.
- The CSSparseArray of SysTab_cloud.cc is not part of this model. It is
  taken to be an array sorted by id, `getIndex` giving the position of the
  id or where it would go, and `itemAt` NULL outside the array.
  `SysTabRec` records are a sequence of (valid, id, strings). Saving,
  dumping, restoring, transferring and removing the table file are left
  out, and so are the exceptions' messages.
- `Field::store` conversions and the UTF-8/system character sets: pushes
  are recorded as typed values; the binary character set is the only one
  modelled for blob.cc (`my_strnxfrm`, `strnncollsp`, `my_charpos`,
  `well_formed_copy_nchars` are not).
- The default argument of `add_field(label, length)` is in a header that
  is not shown; it is the `isDefaultNull` parameter.
- `my_charset_same` compares the two collations' character-set names
  here; its pointer-equality shortcut is not modelled.
- `all_charsets` is a sequence of 255 slots; only those the loop visits.
- `data_ref_basic`'s default constructor (which leaves both pointers
  uninitialised) and `operator<<` are not modelled.
- The HA_ERR_* codes, the thr_lock_type values, STATUS_NULL_ROW, FN_REFLEN,
  IO_SIZE, MALLOC_OVERHEAD and BLITZ_MAX_ROW_STACK come from headers that
  are not shown; the values used are those of the MySQL and Drizzle headers
  of the same era.
- `cursor->info(HA_STATUS_ERRKEY)` in `get_dup_key` is the parameter
  `engineErrkey`. Column bitmaps are modelled as names of the bitmap a
  pointer designates, not as bit sets.
- For a fixed-length table `pack_row`/`unpack_row` copy `reclength` bytes
  of the record buffer; the model lays those bytes out as the columns'
  fixed images, so a fixed-length record image is the concatenation of
  its column images.
- The Tokyo Cabinet hash database is a sequence of (key, row) pairs in
  iteration order with distinct keys; keys are natural numbers handed out
  by a counter. `scan_lock`/`scan_unlock` live in a header that is not
  shown; they are taken to set and clear `thread_locked`.
- TableFunction's `init`, `addPlugin`, `getFunction`, `getNames`,
  `generator` and `Generator::isWild` register plugins or call
  `wild_case_compare`; they are not modelled.
- DynArray.DynamicArray.FreezeSize: a failed shrinking `my_realloc` leaves
  `buffer` NULL with `max_element` = max(elements, 1); the model takes the
  shrink to succeed.
- BlitzDb.BlitzCursor.DeleteRow: requires an updateable key under a locked
  table scan, for the same reason as UpdateRow below.
- BlitzDb.BlitzCursor.UpdateRow: requires that a locked table scan has an
  updateable key, which the handler protocol guarantees (update follows a
  successful `rnd_next`); the code would pass a NULL key to the store.
  It also requires that key to be below the store's key counter: the key
  was read from the store, and the BlitzData.constructor assumption is that
  every stored key is below the counter, so a key from a scan always is.
- The outcome of the store's `overwrite_row` and of `realloc` in
  `get_pack_buffer` are the parameters `stored` and `reallocOk` of
  WriteRow and UpdateRow.
- Only fixed-width and blob columns are modelled in BlitzDB rows: the
  `Field::pack`/`Field::unpack` of other field types (VARCHAR, DECIMAL and
  the rest) are not part of this model.
- UserLocks.Locks.constructor: the `Locks` class is declared in a header
  that is not part of this model; the model's constructor starts from an
  empty lock map, as a default-constructed `std::map` does.
- TableFunction.Generator.constructor: `Generator(Field**)` leaves
  `columns_iterator` unset until `sub_populate`; the model takes its first
  value as a parameter kept within the columns.
- BlitzDb.BlitzData.constructor: `BlitzData::startup` and the data file
  are not part of this model; the rows the file holds and the key counter
  are parameters, taken to be consistent (distinct keys below the counter,
  every row decodable under the table's layout).
- BlobCodec.BlobField.constructor: `share->blob_fields++` and the
  BLOB_FLAG bit set by Field_blob's constructor are not modelled; the
  record slot the field is bound to is a parameter.
- SetsExistingOption, AppendsMissingOption, AddsOptionBeforeNextSection:
  the section's lines before the option's place are taken to be non-blank.
  Blank lines there are only counted, and are written back after the
  option's line (default_modify.cc:118-122, 153-161, 201-210), so the
  stated output would not hold for them; that reordering is not stated.
- TableOrder.Table.constructor: the body of `Table::Table()` is not part of
  this model, so the initial value of every field is a parameter rather
  than a default.
- CloudTable.CloudTable.UpdateRow: requires the old id to be stored, as
  the row came from a scan; the code dereferences the entry without a
  check.

## Findings

| source | as written | input that shows it | evidently intended | confidence | as-written member | corrected member |
|---|---|---|---|---|---|---|
| drizzled/field/blob.cc:482-506 | `pack` stores min(length, max_length) in the prefix but copies all `length` payload bytes and returns past them | packlength 1, value [7, 7], max_length 1: image [1, 7, 7], of which unpack consumes 2 bytes | payload clipped like the prefix | medium, not executed | BlobCodec.PackAsWrittenMisframes | BlobCodec.PackUnpackRoundTrip |
| drizzled/field/blob.cc:343 | on a memcmp tie, `(int)(a_length - b_length)` subtracts in unsigned 32-bit arithmetic | a empty, b of 2^31+1 zero bytes, max_length 2^32−1: result positive | the shorter value sorts first | low (needs blobs over 2 GB), not executed | BlobCodec.CmpBinaryAsWrittenWrapsSign | BlobCodec.CmpBinary |
| plugin/blitzdb/ha_blitz.cc:417-431 | a row above BLITZ_MAX_ROW_STACK that fits the already-grown secondary buffer is given the stack buffer | two calls with max_row_length 3000: the second returns the 2048-byte stack buffer | the secondary buffer whenever the row is larger than the stack buffer | high, not executed | BlitzDb.PackBufferAsWrittenOverflows | BlitzDb.PackBufferChoice |
| plugin/blitzdb/ha_blitz.cc:306-332 | write_row and update_row pack into whatever get_pack_buffer returns, NULL included | max_row_length 3000, no secondary buffer yet, realloc fails: pack_row writes through NULL | the call fails without touching the store | high, not executed | BlitzDb.PackBufferAsWrittenCanBeNull | BlitzDb.BlitzCursor.WriteRow |
| mysys/array.c:245-248 | on the static-buffer path a malloc failure returns 0, which means success | static array of 16, max_elements 16, malloc fails: returns false with max_element 16 | return true | high, not executed | DynArray.AllocateAsWrittenSilentFailure | DynArray.DynamicArray.Allocate |
| mysys/array.c:376 | `ret > array->elements` accepts the index just past the last element | offset elements × size: returns `elements` | `ret >= array->elements` | high, not executed | DynArray.GetIndexAsWrittenAcceptsEnd | DynArray.GetIndex |
| mysys/default_modify.cc:164-166 | dst_ptr advances by strlen(linebuff) whether or not the line was copied | remove section s from "[s]\n", "a=1\n": the file becomes "[s]\n" | skipped lines leave no trace; the file becomes empty | high, not executed | DefaultsFile.RemoveSectionAsWrittenKeepsHeader | DefaultsFile.RemoveSectionDropsHeader |
| mysys/default_modify.cc:164-186 | in MY_REMOVE_SECTION mode the header that ends the removed section is still seen inside it, so it is not copied | remove section s from "[s]\n", "a=1\n", "[t]\n", "b=2\n": "[t]\n" is lost and "b=2\n" ends up in section s | the next section's header is copied and every line outside the removed section is kept | high, not executed | DefaultsFile.RemoveSectionAsWrittenDropsNextHeader | DefaultsFile.RemoveSectionKeepsOtherLines |
| mysys/default_modify.cc:99-107 | the buffer size is max(…, SIZE_MAX), which is always SIZE_MAX | any file: malloc is asked for SIZE_MAX bytes and fails, so the call returns 1 | the file size, its NUL and the reserve | high, not executed | DefaultsFile.BufferRequestAsWrittenIsSizeMax | DefaultsFile.BufferRequest |
| mysys/default_modify.cc:215-217 | any nonzero fwrite count is treated as an error | a complete write of a non-empty file: reported as failure | failure only when fewer bytes than asked are written | high, not executed | DefaultsFile.WriteSucceedsReportedAsError | DefaultsFile.ModifyDefaultsFile |
| mysys/mf_dirname.c:82-84 | the comment asks for min(FN_REFLEN, strlen(from) + 1) bytes in `to` | from "a": 3 bytes are written ("a/" and the NUL) where 2 are asked for | strlen(from) + 2, capped at FN_REFLEN | high, not executed | DirName.DocumentedSizeTooSmall | DirName.ConvertDirnameInto |
| plugin/user_locks/locks.cc:114 | isFree returns true when the key is found | empty table: isFree says not free, yet a lock is granted | `iter == lock_map.end()` | high, not executed | UserLocks.IsFreeAsWrittenInverted | UserLocks.Locks.IsFree |
| plugin/pbms/src/SysTab_cloud.cc:134-140 | loadTable bumps gMaxInfoRef only for ids strictly above it | gMaxInfoRef 1 and a record with id 1: gMaxInfoRef stays 1 and the next insert with id 0 replaces the loaded entry | `>=`, as insertRow uses | high, not executed | CloudTable.LoadAsWrittenReusesId | CloudTable.LoadIsValid |
| plugin/pbms/src/SysTab_cloud.cc:329-383 | updateRow never moves gMaxInfoRef past the new id | entry 1 moved to id 2 with gMaxInfoRef 2: the next insert with id 0 gets id 2 and overwrites it | gMaxInfoRef moved past the new id, as insertRow does | high, not executed | CloudTable.UpdateAsWrittenReusesId | CloudTable.CloudTable.UpdateRow |
