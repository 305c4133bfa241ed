# A verified model of the AlasdairF binary-search, codec, sort and conversion libraries

This project models, in Dafny, the integer and byte-level core of the libraries this repository carries and one small service. Each part below names the Go source it follows.

- **KeyBytes** (`binsearch.go`) is a sorted set of byte keys of up to 64 bytes.
  - Keys are packed into big-endian 64-bit words and kept in 64 buckets, one per key length, each bucket sorted by its words.
  - A 64-entry `count` table turns a position inside a bucket into a position in the whole listing. The listing goes bucket by bucket, so keys are ordered by length first and then bytewise.
  - Keys are added one at a time in order (`Add`, `AddAt`), or in bulk (`AddUnsorted`) followed by one `Build`. `Build` sorts the buckets and reports where each added key ended up.
  - `Reset`/`Next` walk the keys, `Keys` lists them, and `Write`/`Read` store and restore the whole index through the Custom codec.
  - The model keeps the Go state: buckets, add orders, `count`, `total` and the cursor fields. The methods change that state in place.
  - Modules: `Words` (word packing and unpacking), `Buckets` (the layout and the listing it defines), `KeyBytesIndex` (the class) and `KeyBytesCodec` (the stored form).
- **Custom** (`custom.go`) holds three classes and the encodings they share.
  - `Buffer` is a growing byte buffer. `Writer` is a 64 KiB buffer in front of a byte sink. `BytesReader` decodes values at a cursor over a byte slice.
  - Each encoding is a function in `CustomCodec` with its decoder and a round-trip lemma: fixed little-endian integers, the variable-width integers, packed booleans and nibbles, length-prefixed strings and UTF-8 runes.
- **Sorting**. `Introsort` is the quicksort, heap sort and insertion sort from which `Uint16Uint64.go` and `Limit56.go` are generated. `StableSort` is their insertion-block and SymMerge stable sort.
  - `Uint16Uint64` instantiates both sorts by value or by key, in either direction.
  - `Limit56` instantiates the introsort on keys of seven words.
  - `RpcServer` is the Lomuto quicksort of the Thrift sorting service (`server/rpcserver.go`).
  - Every sort is proved to leave a sorted permutation of its input; the stable ones also keep equal elements in order.
- **Conv** (`conv.go`) covers decimal formatting with zero padding, parsing back with `Int`/`Uint`, the number scanner `Ints`/`Uints`, the numeric-byte test and thousands grouping.

Conventions:
- Go's fixed-width integers are Dafny integers restricted to their range (`byte`, `u16`, `u64`, `int64`).
- Go's wrap-around is written out: `U64`/`S64` in `Conv`, and `% 256` for bytes.
- A shift is a division and a mask is a remainder.
- Where Go would index outside a slice and panic, the model states the range as a precondition. These are listed under "Left out".
- Where the Go code does not do what its design evidently intends, the model contains both the code as written, with a lemma that exhibits the difference, and the corrected behaviour, which the rest of the model uses (see "Findings").

## Model

| member | source | states |
|---|---|---|
| Words.Bytes2Uint64 | vendor/github.com/AlasdairF/BinSearch/binsearch.go:170-191 | for a key of 1 to 8 bytes the word is the big-endian value of the key and the sub-bucket is its length minus one; longer input packs the first 8 bytes; the empty key gives (0, 0) |
| Words.EmptyKeyLikeZero | vendor/github.com/AlasdairF/BinSearch/binsearch.go:170-191 | the empty key and the one-byte key 0x00 land in the same bucket with the same word |
| Words.Uint642Bytes | vendor/github.com/AlasdairF/BinSearch/binsearch.go:193-202 | exactly 8 bytes whose big-endian value is the word |
| Words.Uint642BytesEnd | vendor/github.com/AlasdairF/BinSearch/binsearch.go:205-267 | the shortest big-endian form of the word: its value is the word, it has no leading zero byte, and it has the fewest bytes that can hold the word |
| Words.BytesEndBE | vendor/github.com/AlasdairF/BinSearch/binsearch.go:205-267 | the shortest form of the value of a byte string gives that string back exactly when it is empty or starts with a non-zero byte |
| Words.KeyWords | vendor/github.com/AlasdairF/BinSearch/binsearch.go:426-831 | a key of n bytes becomes (n-1)/8+1 words (one word for the empty key) |
| Words.Flat | vendor/github.com/AlasdairF/BinSearch/binsearch.go:426-448 | the bucket of a key of at most 64 bytes is 8 * ((len-1)/8) + sub, which is len-1 (0 for the empty key), always in [0, 64) |
| Words.KeyWordsArity | vendor/github.com/AlasdairF/BinSearch/binsearch.go:426-448 | every key of a bucket has the same number of words, the arity of that bucket |
| Words.KeyWordsSplit | vendor/github.com/AlasdairF/BinSearch/binsearch.go:426-831 | all words of a key but the last are its 8-byte chunks; the last is the value of the final chunk of 1 to 8 bytes |
| Words.KeyWordsInjective | vendor/github.com/AlasdairF/BinSearch/binsearch.go:426-831 | two non-empty keys are equal exactly when they share bucket and words, so comparing words is comparing keys |
| Words.CompareNum | vendor/github.com/AlasdairF/BinSearch/binsearch.go:426-831 | comparing tuples word by word (the nested comparisons of the binary searches) is comparing their values as base-2^64 numbers: below, equal, above |
| Words.Reverse | vendor/github.com/AlasdairF/BinSearch/binsearch.go:269-419 | reverse8 ... reverse64b: all words but the last become 8 bytes each, the last becomes its shortest form (leading zero bytes dropped) |
| Words.ReverseKeyWords | vendor/github.com/AlasdairF/BinSearch/binsearch.go:269-419 | rebuilding a key from its words gives the key back exactly when the first byte of its last chunk is non-zero |
| Words.ReverseDropsLeadingZero | vendor/github.com/AlasdairF/BinSearch/binsearch.go:269-419 | the key 0x00 0x61 comes back as the single byte 0x61 |
| Words.ReverseExact | vendor/github.com/AlasdairF/BinSearch/binsearch.go:269-419 | the corrected rebuild: exactly f+1 bytes, the leading words as 8 bytes each and the last word in the length its bucket fixes |
| Words.ReverseExactKeyWords | vendor/github.com/AlasdairF/BinSearch/binsearch.go:269-419 | the corrected rebuild gives back every non-empty key of at most 64 bytes |
| Words.KeyWordsReverseExact | vendor/github.com/AlasdairF/BinSearch/binsearch.go:269-419 | and packing the rebuilt key gives back the bucket and the words of every well-formed tuple |
| Words.StoredKey | vendor/github.com/AlasdairF/BinSearch/binsearch.go:144-168 | what a bucket stores for a key rebuilds to the key itself, or to 0x00 for the empty key |
| Buckets.SizeMono | vendor/github.com/AlasdairF/BinSearch/binsearch.go:144-168 | the number of keys in the buckets below j grows with j, by the size of each bucket passed |
| Buckets.FlattenIndex | vendor/github.com/AlasdairF/BinSearch/binsearch.go:144-168 | the i-th tuple of bucket g sits at position Size(b, g) + i of the traversal order |
| Buckets.LocateUnique | vendor/github.com/AlasdairF/BinSearch/binsearch.go:144-168 | every position of the traversal order belongs to exactly one bucket and one index in it |
| Buckets.Locate | vendor/github.com/AlasdairF/BinSearch/binsearch.go:2023-2046 | every position below the total is some bucket g and index i with position Size(b, g) + i |
| Buckets.ListingIndex | vendor/github.com/AlasdairF/BinSearch/binsearch.go:2085-2140 | the key at position Size(b, g) + i of the listing is the exact key of the i-th tuple of bucket g |
| Buckets.ShownListing | vendor/github.com/AlasdairF/BinSearch/binsearch.go:2085-2140 | the key Keys shows at each position equals the exact key exactly when the first byte of its last chunk is non-zero |
| Buckets.ShownIndex | vendor/github.com/AlasdairF/BinSearch/binsearch.go:2048-2083 | the key shown at position Size(b, g) + i is the rebuild (reverseN) of the i-th tuple of bucket g |
| Buckets.StoredAs | vendor/github.com/AlasdairF/BinSearch/binsearch.go:834-1391 | the tuple stored for a key is well formed and its exact key is the key (0x00 for the empty key) |
| Buckets.KeyOfWords | vendor/github.com/AlasdairF/BinSearch/binsearch.go:834-1391 | a stored tuple rebuilt into a key and packed again gives the same bucket and words |
| Buckets.Insert | vendor/github.com/AlasdairF/BinSearch/binsearch.go:834-1391 | the shift-insert of copy(cur[at+1:], cur[at:]): one element longer, x at at, the elements before at kept, those after it moved up one |
| Buckets.InsertListing | vendor/github.com/AlasdairF/BinSearch/binsearch.go:834-1391 | inserting a tuple at index at of bucket f inserts its key into the listing at position Size(b, f) + at and changes nothing else |
| Buckets.InsertSize | vendor/github.com/AlasdairF/BinSearch/binsearch.go:871-873 | after an insert into bucket f the sizes below every bucket above f grow by one, those at or below it stay |
| Buckets.Search | vendor/github.com/AlasdairF/BinSearch/binsearch.go:426-831 | the binary search: when found, the tuple at at matches; otherwise every tuple before at is smaller and every tuple from at on is larger |
| Buckets.InsertSorted | vendor/github.com/AlasdairF/BinSearch/binsearch.go:834-1391 | inserting at the search point keeps a bucket ascending, and strictly ascending when it was |
| Buckets.SortBucket | vendor/github.com/AlasdairF/BinSearch/binsearch.go:1702-1937 | a bucket sorted by its tuples: ascending, a permutation of the tuples and of their add numbers, each number still with its own tuple |
| KeyBytesIndex.KeyBytes.constructor | vendor/github.com/AlasdairF/BinSearch/binsearch.go:144-168 | a new index is empty, in the unsorted mode as well as the sorted one |
| KeyBytesIndex.KeyBytes.Len | vendor/github.com/AlasdairF/BinSearch/binsearch.go:421-423 | the number of keys stored |
| KeyBytesIndex.KeyBytes.Find | vendor/github.com/AlasdairF/BinSearch/binsearch.go:426-831 | a key over 64 bytes gives (total, false); otherwise found exactly when the key is stored, the rank r with Contents()[r] the key when found, and when not, the count of keys in lower buckets plus the keys of its bucket below it |
| KeyBytesIndex.SearchMeans | vendor/github.com/AlasdairF/BinSearch/binsearch.go:426-831 | a bucket search result plus count[bucket] is the rank of the key in the listing when found, and its insertion rank when not |
| KeyBytesIndex.KeyBytes.Add | vendor/github.com/AlasdairF/BinSearch/binsearch.go:834-1391 | a key over 64 bytes changes nothing; an existing key returns its rank and changes nothing; a new key is inserted at the rank returned, every bucket stays ascending (strictly when it was) and count stays a rank table |
| KeyBytesIndex.ShiftRanks | vendor/github.com/AlasdairF/BinSearch/binsearch.go:871-873 | the count[l]++ loop: every entry above the bucket that grew goes up by one, the others stay |
| KeyBytesIndex.KeyBytes.AddAt | vendor/github.com/AlasdairF/BinSearch/binsearch.go:1489-1699 | a key over 64 bytes is refused with the key-length error; otherwise the key is inserted at global position i and nothing else changes |
| KeyBytesIndex.KeyBytes.AddUnsorted | vendor/github.com/AlasdairF/BinSearch/binsearch.go:1394-1486 | a key over 64 bytes is refused; otherwise its words are appended to its bucket, its add number to the bucket order, and count counts the bucket |
| KeyBytesIndex.KeyBytes.Build | vendor/github.com/AlasdairF/BinSearch/binsearch.go:1702-1937 | after AddUnsorted calls: every bucket sorted and a permutation of itself, count a rank table, the result a permutation of 0..total-1 with the p-th listed key being the key of the result[p]-th AddUnsorted; a second Build on a non-empty index fails and changes nothing |
| KeyBytesIndex.BuildBuckets | vendor/github.com/AlasdairF/BinSearch/binsearch.go:1702-1937 | the sort of every bucket with its add numbers, the origin map and the new rank table, or failure when the order arrays no longer match |
| KeyBytesIndex.PrefixRanks | vendor/github.com/AlasdairF/BinSearch/binsearch.go:1931-1935 | the prefix sum that turns per-bucket sizes into the rank table count |
| KeyBytesIndex.KeyBytes.Reset | vendor/github.com/AlasdairF/BinSearch/binsearch.go:2009-2021 | false exactly when there are no keys; otherwise the cursor is at the first key |
| KeyBytesIndex.KeyBytes.Forward | vendor/github.com/AlasdairF/BinSearch/binsearch.go:2023-2046 | moves the cursor to the next key of the listing, skipping empty buckets, or reports the end and goes back to the start |
| KeyBytesIndex.KeyBytes.Next | vendor/github.com/AlasdairF/BinSearch/binsearch.go:2048-2083 | returns the key Keys lists at the cursor position, reports eof exactly at the last key and then puts the cursor back at the start, otherwise advances by one |
| KeyBytesIndex.KeyBytes.Keys | vendor/github.com/AlasdairF/BinSearch/binsearch.go:2085-2140 | all keys in traversal order, one per stored key, each equal to the stored key exactly when the first byte of its last chunk is non-zero |
| KeyBytesIndex.ListKeys | vendor/github.com/AlasdairF/BinSearch/binsearch.go:2085-2140 | the loop over all buckets collects the shown keys in traversal order |
| KeyBytesIndex.KeyBytes.Write | vendor/github.com/AlasdairF/BinSearch/binsearch.go:2142-2246 | appends the stored form of total, count and every bucket to the writer |
| KeyBytesIndex.KeyBytes.Read | vendor/github.com/AlasdairF/BinSearch/binsearch.go:2248-2367 | replaces total, count and the buckets with what the stored form at the reader cursor holds, and consumes exactly those bytes |
| KeyBytesIndex.StoredRoundTrip | vendor/github.com/AlasdairF/BinSearch/binsearch.go:2142-2367 | reading back what Write stores for any index reached by Add, AddAt or AddUnsorted gives the same total, count and buckets, word for word, and leaves the bytes after it |
| KeyBytesCodec.WordBytes | vendor/github.com/AlasdairF/BinSearch/binsearch.go:2142-2246 | a bucket word is stored as 8 bytes |
| KeyBytesCodec.VarRoundTrip | vendor/github.com/AlasdairF/BinSearch/binsearch.go:2248-2367 | a length or count read back with ReadUint64Variable gives the number written |
| KeyBytesCodec.WordRoundTrip | vendor/github.com/AlasdairF/BinSearch/binsearch.go:2248-2367 | a word read back as 8 little-endian bytes gives the word written |
| KeyBytesCodec.TupleRoundTrip | vendor/github.com/AlasdairF/BinSearch/binsearch.go:2248-2367 | a tuple of k words read back gives the tuple |
| KeyBytesCodec.TuplesRoundTrip | vendor/github.com/AlasdairF/BinSearch/binsearch.go:2248-2367 | l tuples of k words read back give the tuples |
| KeyBytesCodec.BucketRoundTrip | vendor/github.com/AlasdairF/BinSearch/binsearch.go:2248-2367 | a bucket (its length, then its tuples) read back gives the bucket |
| KeyBytesCodec.BucketsRoundTrip | vendor/github.com/AlasdairF/BinSearch/binsearch.go:2248-2367 | the buckets from flat index f on read back give the buckets |
| KeyBytesCodec.IntsRoundTrip | vendor/github.com/AlasdairF/BinSearch/binsearch.go:2248-2367 | the entries of count read back give the entries |
| KeyBytesCodec.SerialRoundTrip | vendor/github.com/AlasdairF/BinSearch/binsearch.go:2142-2367 | the whole stored form read back gives total, count and buckets and leaves what follows |
| KeyBytesCodec.WriteImage | vendor/github.com/AlasdairF/BinSearch/binsearch.go:2142-2246 | the writer ends holding what it held before followed by the stored form |
| KeyBytesCodec.WriteBucket | vendor/github.com/AlasdairF/BinSearch/binsearch.go:2142-2246 | one bucket: its length as a variable-width number, then its words as 8 bytes each |
| KeyBytesCodec.ReadFrom | vendor/github.com/AlasdairF/BinSearch/binsearch.go:2248-2367 | the reader cursor moves past exactly the stored form, and the result is what it decodes to |
| KeyBytesCodec.NextBucket | vendor/github.com/AlasdairF/BinSearch/binsearch.go:2248-2367 | reads one bucket at the cursor and moves past it |
| CustomCodec.LERoundTrip | src/github.com/AlasdairF/Custom/custom.go:560-599 | n little-endian bytes of v read back give v modulo 256^n |
| CustomCodec.ValueLERoundTrip | src/github.com/AlasdairF/Custom/custom.go:2029-2074 | and writing the value of n bytes back in n bytes gives the same bytes |
| CustomCodec.FixedRoundTrip | src/github.com/AlasdairF/Custom/custom.go:2029-2074 | ReadUint16/24/32/48/64 read back a value that fits in 2/3/4/6/8 bytes from the first bytes, whatever follows |
| CustomCodec.NumBytes | src/github.com/AlasdairF/Custom/custom.go:1358-1370 | numbytes: 0 exactly for 0, at most 8, and v fits in that many bytes |
| CustomCodec.NumBytesLeast | src/github.com/AlasdairF/Custom/custom.go:1358-1370 | the byte count is the least that holds v, except for 2^48-1 which gets 7 |
| CustomCodec.VarintAsWritten | src/github.com/AlasdairF/Custom/custom.go:602-615 | the length byte and the body as written, the ninth case shifting by 25 where 24 is meant |
| CustomCodec.VarintAsWrittenSmall | src/github.com/AlasdairF/Custom/custom.go:602-615 | below 2^56 the written form is the correct one |
| CustomCodec.VarintAsWrittenCorrupts | src/github.com/AlasdairF/Custom/custom.go:602-615 | 0x100_0000_0100_0000 written as written reads back as 0x100_0000_0000_0000 |
| CustomCodec.Varint | src/github.com/AlasdairF/Custom/custom.go:602-615 | the corrected form: a byte numbytes(v), then v in that many little-endian bytes |
| CustomCodec.VarintRoundTrip | src/github.com/AlasdairF/Custom/custom.go:2077-2092 | ReadUint64Variable reads every corrected form back to v and consumes exactly its bytes |
| CustomCodec.Varint2RoundTrip | src/github.com/AlasdairF/Custom/custom.go:618-643 | the two numbers of Write2Uint64sVariable, with their byte counts packed in one byte, read back with Read2Uint64sVariable |
| CustomCodec.Uint16Var | src/github.com/AlasdairF/Custom/custom.go:565-570 | one byte below 255, otherwise 255 and two bytes |
| CustomCodec.Uint16VarRoundTrip | src/github.com/AlasdairF/Custom/custom.go:2035-2041 | every uint16 reads back with ReadUint16Variable |
| CustomCodec.Int16Var | src/github.com/AlasdairF/Custom/custom.go:573-579 | one byte for -128 < v < 128, otherwise 255 and two bytes |
| CustomCodec.Int16VarRoundTrip | src/github.com/AlasdairF/Custom/custom.go:2044-2050 | every int16 reads back with ReadInt16Variable |
| CustomCodec.Bools2RoundTrip | src/github.com/AlasdairF/Custom/custom.go:512-521 | Write2Bools then Read2Bools gives both flags back |
| CustomCodec.Unpack2Bools | src/github.com/AlasdairF/Custom/custom.go:1933-1941 | a byte of 4 or more reads as two false flags |
| CustomCodec.Bools8RoundTrip | src/github.com/AlasdairF/Custom/custom.go:524-551 | Write8Bools then Read8Bools gives all eight flags back |
| CustomCodec.Uint4sRoundTrip | src/github.com/AlasdairF/Custom/custom.go:554-557 | Write2Uint4s then Read2Uint4s gives both values back exactly when both are at most 15 |
| CustomCodec.Cap | src/github.com/AlasdairF/Custom/custom.go:656-731 | the stored length is the string length cut to the largest a w-byte prefix can state |
| CustomCodec.PrefixedRoundTrip | src/github.com/AlasdairF/Custom/custom.go:2136-2163 | ReadString8/16/32 and ReadBytes8/16/32 give back the string written, cut to that length |
| CustomCodec.EncodeRune | src/github.com/AlasdairF/Custom/custom.go:270-288 | one to four bytes |
| CustomCodec.RuneRoundTrip | src/github.com/AlasdairF/Custom/custom.go:270-288 | the UTF-8 form of section 3 of RFC 3629 decodes back to the rune for every scalar value and to U+FFFD for surrogates and values outside the Unicode range, and its first byte announces its length |
| CustomCodec.RuneLengths | src/github.com/AlasdairF/Custom/custom.go:270-288 | one byte up to U+007F, two up to U+07FF, three up to U+FFFF, four above |
| CustomCodec.RuneLengthAsWritten | src/github.com/AlasdairF/Custom/custom.go:2012-2026 | the reader as written takes 1, 2 or 3 bytes, never 4 |
| CustomCodec.RuneLength | src/github.com/AlasdairF/Custom/custom.go:2012-2026 | the corrected length takes 4 bytes after a four-byte lead byte and agrees with the written one otherwise |
| CustomCodec.ReadRuneAsWrittenLoses | src/github.com/AlasdairF/Custom/custom.go:2012-2026 | U+1F600 is written in 4 bytes but read as written from 3, which decodes to U+FFFD |
| Custom.Buffer.constructor | src/github.com/AlasdairF/Custom/custom.go:825-831 | an empty buffer of 64 KiB, or of l bytes when l is larger |
| Custom.Buffer.Grow | src/github.com/AlasdairF/Custom/custom.go:854-863 | the contents stay and the new array has room for l more bytes, twice the old length plus l |
| Custom.Buffer.Write | src/github.com/AlasdairF/Custom/custom.go:866-874 | Bytes() becomes the bytes before followed by p |
| Custom.Buffer.WriteString | src/github.com/AlasdairF/Custom/custom.go:877-885 | Bytes() becomes the bytes before followed by p |
| Custom.Buffer.WriteByte | src/github.com/AlasdairF/Custom/custom.go:888-895 | Bytes() becomes the bytes before followed by the byte |
| Custom.Buffer.Writeln | src/github.com/AlasdairF/Custom/custom.go:898-905 | Bytes() becomes the bytes before followed by a newline byte |
| Custom.Buffer.WriteRune | src/github.com/AlasdairF/Custom/custom.go:908-926 | Bytes() becomes the bytes before followed by the UTF-8 form of the rune (EncodeRune) |
| Custom.Buffer.WriteInt | src/github.com/AlasdairF/Custom/custom.go:929-931 | Bytes() becomes the bytes before followed by the decimal text of the int (Conv.Formatted) |
| Custom.Buffer.WriteBool | src/github.com/AlasdairF/Custom/custom.go:1058-1064 | Bytes() becomes the bytes before followed by one byte, non-zero exactly for true |
| Custom.Buffer.Write2Bools | src/github.com/AlasdairF/Custom/custom.go:1067-1076 | Bytes() becomes the bytes before followed by one byte packing both flags |
| Custom.Buffer.Write8Bools | src/github.com/AlasdairF/Custom/custom.go:1079-1106 | Bytes() becomes the bytes before followed by one byte packing the eight flags |
| Custom.Buffer.Write2Uint4s | src/github.com/AlasdairF/Custom/custom.go:1109-1112 | Bytes() becomes the bytes before followed by one byte packing both nibbles |
| Custom.Buffer.WriteUint16 | src/github.com/AlasdairF/Custom/custom.go:1115-1117 | Bytes() becomes the bytes before followed by 2 little-endian bytes |
| Custom.Buffer.WriteUint16Variable | src/github.com/AlasdairF/Custom/custom.go:1120-1125 | Bytes() becomes the bytes before followed by the Uint16Var form |
| Custom.Buffer.WriteInt16Variable | src/github.com/AlasdairF/Custom/custom.go:1128-1134 | Bytes() becomes the bytes before followed by the Int16Var form |
| Custom.Buffer.WriteUint24 | src/github.com/AlasdairF/Custom/custom.go:1137-1139 | Bytes() becomes the bytes before followed by 3 little-endian bytes |
| Custom.Buffer.WriteUint32 | src/github.com/AlasdairF/Custom/custom.go:1142-1144 | Bytes() becomes the bytes before followed by 4 little-endian bytes |
| Custom.Buffer.WriteUint48 | src/github.com/AlasdairF/Custom/custom.go:1147-1149 | Bytes() becomes the bytes before followed by 6 little-endian bytes |
| Custom.Buffer.WriteUint64 | src/github.com/AlasdairF/Custom/custom.go:1152-1154 | Bytes() becomes the bytes before followed by 8 little-endian bytes |
| Custom.Buffer.WriteUint64Variable | src/github.com/AlasdairF/Custom/custom.go:1157-1170 | Bytes() becomes the bytes before followed by the corrected Varint form |
| Custom.Buffer.Write2Uint64sVariable | src/github.com/AlasdairF/Custom/custom.go:1173-1198 | Bytes() becomes the bytes before followed by the corrected Varint2 form |
| Custom.Buffer.WriteString8 | src/github.com/AlasdairF/Custom/custom.go:1211-1221 | Bytes() becomes the bytes before followed by a 1-byte length and the string |
| Custom.Buffer.WriteString16 | src/github.com/AlasdairF/Custom/custom.go:1224-1234 | Bytes() becomes the bytes before followed by a 2-byte length and the string |
| Custom.Buffer.WriteString32 | src/github.com/AlasdairF/Custom/custom.go:1237-1247 | Bytes() becomes the bytes before followed by a 4-byte length and the string |
| Custom.Buffer.WriteBytes8 | src/github.com/AlasdairF/Custom/custom.go:1250-1260 | Bytes() becomes the bytes before followed by a 1-byte length and the bytes |
| Custom.Buffer.WriteBytes16 | src/github.com/AlasdairF/Custom/custom.go:1263-1273 | Bytes() becomes the bytes before followed by a 2-byte length and the bytes |
| Custom.Buffer.WriteBytes32 | src/github.com/AlasdairF/Custom/custom.go:1276-1286 | Bytes() becomes the bytes before followed by a 4-byte length and the bytes |
| Custom.Buffer.Reset | src/github.com/AlasdairF/Custom/custom.go:1321-1324 | empties the buffer and keeps its array |
| Custom.Buffer.Len | src/github.com/AlasdairF/Custom/custom.go:1327-1329 | the number of bytes written |
| Custom.Buffer.Bytes | src/github.com/AlasdairF/Custom/custom.go:1332-1334 | everything written since the buffer was made or reset |
| Custom.Buffer.BytesCopy | src/github.com/AlasdairF/Custom/custom.go:1337-1341 | a fresh array holding a copy of Bytes() |
| Custom.Writer.constructor | src/github.com/AlasdairF/Custom/custom.go:172-178 | an empty 64 KiB buffer in front of the sink; nothing written yet beyond what the sink holds |
| Custom.Writer.Closer | src/github.com/AlasdairF/Custom/custom.go:181-183 | the same, marked to close the sink on Close |
| Custom.Writer.Write | src/github.com/AlasdairF/Custom/custom.go:196-214 | all bytes written so far (those handed to the sink and those still buffered) become the old ones followed by p; the buffer keeps its array and sink |
| Custom.Writer.WriteString | src/github.com/AlasdairF/Custom/custom.go:217-235 | all bytes written so far (those handed to the sink and those still buffered) become the old ones followed by p; the buffer keeps its array and sink |
| Custom.Writer.WriteByte | src/github.com/AlasdairF/Custom/custom.go:238-251 | all bytes written so far (those handed to the sink and those still buffered) become the old ones followed by the byte; the buffer keeps its array and sink |
| Custom.Writer.Writeln | src/github.com/AlasdairF/Custom/custom.go:254-267 | all bytes written so far (those handed to the sink and those still buffered) become the old ones followed by a newline byte; the buffer keeps its array and sink |
| Custom.Writer.WriteRune | src/github.com/AlasdairF/Custom/custom.go:270-288 | all bytes written so far (those handed to the sink and those still buffered) become the old ones followed by the UTF-8 form of the rune (EncodeRune); the buffer keeps its array and sink |
| Custom.Writer.WriteInt | src/github.com/AlasdairF/Custom/custom.go:291-293 | all bytes written so far (those handed to the sink and those still buffered) become the old ones followed by the decimal text of the int (Conv.Formatted); the buffer keeps its array and sink |
| Custom.Writer.WriteBool | src/github.com/AlasdairF/Custom/custom.go:503-509 | all bytes written so far (those handed to the sink and those still buffered) become the old ones followed by one byte, non-zero exactly for true; the buffer keeps its array and sink |
| Custom.Writer.Write2Bools | src/github.com/AlasdairF/Custom/custom.go:512-521 | all bytes written so far (those handed to the sink and those still buffered) become the old ones followed by one byte packing both flags; the buffer keeps its array and sink |
| Custom.Writer.Write8Bools | src/github.com/AlasdairF/Custom/custom.go:524-551 | all bytes written so far (those handed to the sink and those still buffered) become the old ones followed by one byte packing the eight flags; the buffer keeps its array and sink |
| Custom.Writer.Write2Uint4s | src/github.com/AlasdairF/Custom/custom.go:554-557 | all bytes written so far (those handed to the sink and those still buffered) become the old ones followed by one byte packing both nibbles; the buffer keeps its array and sink |
| Custom.Writer.WriteUint16 | src/github.com/AlasdairF/Custom/custom.go:560-562 | all bytes written so far (those handed to the sink and those still buffered) become the old ones followed by 2 little-endian bytes; the buffer keeps its array and sink |
| Custom.Writer.WriteUint16Variable | src/github.com/AlasdairF/Custom/custom.go:565-570 | all bytes written so far (those handed to the sink and those still buffered) become the old ones followed by the Uint16Var form; the buffer keeps its array and sink |
| Custom.Writer.WriteInt16Variable | src/github.com/AlasdairF/Custom/custom.go:573-579 | all bytes written so far (those handed to the sink and those still buffered) become the old ones followed by the Int16Var form; the buffer keeps its array and sink |
| Custom.Writer.WriteUint24 | src/github.com/AlasdairF/Custom/custom.go:582-584 | all bytes written so far (those handed to the sink and those still buffered) become the old ones followed by 3 little-endian bytes; the buffer keeps its array and sink |
| Custom.Writer.WriteUint32 | src/github.com/AlasdairF/Custom/custom.go:587-589 | all bytes written so far (those handed to the sink and those still buffered) become the old ones followed by 4 little-endian bytes; the buffer keeps its array and sink |
| Custom.Writer.WriteUint48 | src/github.com/AlasdairF/Custom/custom.go:592-594 | all bytes written so far (those handed to the sink and those still buffered) become the old ones followed by 6 little-endian bytes; the buffer keeps its array and sink |
| Custom.Writer.WriteUint64 | src/github.com/AlasdairF/Custom/custom.go:597-599 | all bytes written so far (those handed to the sink and those still buffered) become the old ones followed by 8 little-endian bytes; the buffer keeps its array and sink |
| Custom.Writer.WriteUint64Variable | src/github.com/AlasdairF/Custom/custom.go:602-615 | all bytes written so far (those handed to the sink and those still buffered) become the old ones followed by the corrected Varint form; the buffer keeps its array and sink |
| Custom.Writer.Write2Uint64sVariable | src/github.com/AlasdairF/Custom/custom.go:618-643 | all bytes written so far (those handed to the sink and those still buffered) become the old ones followed by the corrected Varint2 form; the buffer keeps its array and sink |
| Custom.Writer.WriteString8 | src/github.com/AlasdairF/Custom/custom.go:656-666 | all bytes written so far (those handed to the sink and those still buffered) become the old ones followed by a 1-byte length and the string; the buffer keeps its array and sink |
| Custom.Writer.WriteString16 | src/github.com/AlasdairF/Custom/custom.go:669-679 | all bytes written so far (those handed to the sink and those still buffered) become the old ones followed by a 2-byte length and the string; the buffer keeps its array and sink |
| Custom.Writer.WriteString32 | src/github.com/AlasdairF/Custom/custom.go:682-692 | all bytes written so far (those handed to the sink and those still buffered) become the old ones followed by a 4-byte length and the string; the buffer keeps its array and sink |
| Custom.Writer.WriteBytes8 | src/github.com/AlasdairF/Custom/custom.go:695-705 | all bytes written so far (those handed to the sink and those still buffered) become the old ones followed by a 1-byte length and the bytes; the buffer keeps its array and sink |
| Custom.Writer.WriteBytes16 | src/github.com/AlasdairF/Custom/custom.go:708-718 | all bytes written so far (those handed to the sink and those still buffered) become the old ones followed by a 2-byte length and the bytes; the buffer keeps its array and sink |
| Custom.Writer.WriteBytes32 | src/github.com/AlasdairF/Custom/custom.go:721-731 | all bytes written so far (those handed to the sink and those still buffered) become the old ones followed by a 4-byte length and the bytes; the buffer keeps its array and sink |
| Custom.Writer.Flush | src/github.com/AlasdairF/Custom/custom.go:789-795 | the sink receives every buffered byte, in order; the buffer is empty afterwards |
| Custom.Writer.Close | src/github.com/AlasdairF/Custom/custom.go:766-786 | flushes: the sink holds everything written, in order |
| Custom.Writer.Reset | src/github.com/AlasdairF/Custom/custom.go:798-815 | the old sink receives every buffered byte, then the writer starts empty in front of the new sink |
| Custom.BytesReader.constructor | src/github.com/AlasdairF/Custom/custom.go:1885-1887 | a reader over p with the cursor at 0 |
| Custom.BytesReader.Read | src/github.com/AlasdairF/Custom/custom.go:1890-1902 | copies p.Length bytes from the cursor, or what is left when that is fewer, and reports the end exactly when the cursor reaches it |
| Custom.BytesReader.Readx | src/github.com/AlasdairF/Custom/custom.go:1905-1909 | the next x bytes; the cursor moves past them |
| Custom.BytesReader.ReadxRaw | src/github.com/AlasdairF/Custom/custom.go:1912-1915 | the next x bytes; the cursor moves past them |
| Custom.BytesReader.ReadByte | src/github.com/AlasdairF/Custom/custom.go:1918-1921 | the byte at the cursor |
| Custom.BytesReader.ReadBool | src/github.com/AlasdairF/Custom/custom.go:1924-1930 | true exactly when the byte at the cursor is non-zero |
| Custom.BytesReader.Read2Bools | src/github.com/AlasdairF/Custom/custom.go:1933-1941 | the two flags packed in the byte at the cursor |
| Custom.BytesReader.Read8Bools | src/github.com/AlasdairF/Custom/custom.go:1944-1972 | the eight flags packed in the byte at the cursor |
| Custom.BytesReader.Read2Uint4s | src/github.com/AlasdairF/Custom/custom.go:1975-1979 | the two nibbles of the byte at the cursor |
| Custom.BytesReader.ReadUTF8 | src/github.com/AlasdairF/Custom/custom.go:1982-1994 | the bytes of the rune at the cursor, by the corrected rune length |
| Custom.BytesReader.ReadUTF8Raw | src/github.com/AlasdairF/Custom/custom.go:1997-2009 | the bytes of the rune at the cursor, by the corrected rune length |
| Custom.BytesReader.ReadRune | src/github.com/AlasdairF/Custom/custom.go:2012-2026 | the rune at the cursor, decoded from the corrected rune length |
| Custom.BytesReader.ReadUint16 | src/github.com/AlasdairF/Custom/custom.go:2029-2032 | the value of the next 2 little-endian bytes |
| Custom.BytesReader.ReadUint16Variable | src/github.com/AlasdairF/Custom/custom.go:2035-2041 | the Uint16Var decoding at the cursor, and the cursor moves past it |
| Custom.BytesReader.ReadInt16Variable | src/github.com/AlasdairF/Custom/custom.go:2044-2050 | the Int16Var decoding at the cursor, and the cursor moves past it |
| Custom.BytesReader.ReadUint24 | src/github.com/AlasdairF/Custom/custom.go:2053-2056 | the value of the next 3 little-endian bytes |
| Custom.BytesReader.ReadUint32 | src/github.com/AlasdairF/Custom/custom.go:2059-2062 | the value of the next 4 little-endian bytes |
| Custom.BytesReader.ReadUint48 | src/github.com/AlasdairF/Custom/custom.go:2065-2068 | the value of the next 6 little-endian bytes |
| Custom.BytesReader.ReadUint64 | src/github.com/AlasdairF/Custom/custom.go:2071-2074 | the value of the next 8 little-endian bytes |
| Custom.BytesReader.ReadUint64Variable | src/github.com/AlasdairF/Custom/custom.go:2077-2092 | the variable-width number at the cursor, and the cursor moves past it |
| Custom.BytesReader.Read2Uint64sVariable | src/github.com/AlasdairF/Custom/custom.go:2095-2123 | the two variable-width numbers at the cursor |
| Custom.BytesReader.ReadString8 | src/github.com/AlasdairF/Custom/custom.go:2136-2138 | the string after a 1-byte length |
| Custom.BytesReader.ReadString16 | src/github.com/AlasdairF/Custom/custom.go:2141-2143 | the string after a 2-byte length |
| Custom.BytesReader.ReadString32 | src/github.com/AlasdairF/Custom/custom.go:2146-2148 | the string after a 4-byte length |
| Custom.BytesReader.ReadBytes8 | src/github.com/AlasdairF/Custom/custom.go:2151-2153 | the bytes after a 1-byte length |
| Custom.BytesReader.ReadBytes16 | src/github.com/AlasdairF/Custom/custom.go:2156-2158 | the bytes after a 2-byte length |
| Custom.BytesReader.ReadBytes32 | src/github.com/AlasdairF/Custom/custom.go:2161-2163 | the bytes after a 4-byte length |
| Custom.BytesReader.Discard | src/github.com/AlasdairF/Custom/custom.go:2166-2168 | moves the cursor x bytes on |
| Custom.BytesReader.Seek | src/github.com/AlasdairF/Custom/custom.go:2171-2188 | the new position from the start, the cursor or the end; a negative position or an unknown whence is an error and leaves the cursor |
| Custom.BytesReader.EOF | src/github.com/AlasdairF/Custom/custom.go:2191-2196 | true exactly when the cursor is at or past the end |
| Conv.Decimal | src/github.com/AlasdairF/Conv/conv.go:149-205 | the decimal digits of n: at least one, at least two from 10 and three from 100, all ASCII digits |
| Conv.DecimalValue | src/github.com/AlasdairF/Conv/conv.go:149-205 | the digits read back as a number give n |
| Conv.Formatted | src/github.com/AlasdairF/Conv/conv.go:149-205 | a sign when negative and the digits, zero-padded to the padding width when that is wider, never cut |
| Conv.FormattedNegative | src/github.com/AlasdairF/Conv/conv.go:182-204 | a negative number starts with a minus, and the padding zeros come between the minus and the digits |
| Conv.FormattedNonNegative | src/github.com/AlasdairF/Conv/conv.go:182-204 | a non-negative number is the padding zeros followed by the digits |
| Conv.Format | src/github.com/AlasdairF/Conv/conv.go:149-205 | the digits of the 20-byte array loop are the Formatted text |
| Conv.PutDigits | src/github.com/AlasdairF/Conv/conv.go:149-181 | the two-digits-at-a-time loop leaves exactly the decimal digits at the end of the array |
| Conv.Bytes | src/github.com/AlasdairF/Conv/conv.go:61-63 | a minus for negatives, then the decimal digits |
| Conv.Write | src/github.com/AlasdairF/Conv/conv.go:275-332 | the sink receives exactly the Formatted text, and the count is its length |
| Conv.Int | src/github.com/AlasdairF/Conv/conv.go:411-429 | the value of the digits as a 64-bit int, negated after a leading minus, which Int overwrites with a zero in its argument |
| Conv.FormatIntRoundTrip | src/github.com/AlasdairF/Conv/conv.go:411-429 | Int of the formatted text of any int other than the minimum, at any padding, is the int |
| Conv.Uint | src/github.com/AlasdairF/Conv/conv.go:431-441 | the value of the digits as a 64-bit uint, 0 for empty input |
| Conv.DecimalUintRoundTrip | src/github.com/AlasdairF/Conv/conv.go:431-441 | Uint of the decimal digits of any uint64 is the number |
| Conv.IsNumeric | src/github.com/AlasdairF/Conv/conv.go:32-39 | true exactly when every byte is a digit or a minus, so true on empty input |
| Conv.IsNumericString | src/github.com/AlasdairF/Conv/conv.go:41-51 | the same over runes, false for every rune above 255 |
| Conv.FormatNumeric | src/github.com/AlasdairF/Conv/conv.go:32-39 | everything Formatted produces passes IsNumeric |
| Conv.FormatThousands | src/github.com/AlasdairF/Conv/conv.go:14-30 | the digits with the mark inserted before every group of three counted from the right |
| Conv.GroupedLength | src/github.com/AlasdairF/Conv/conv.go:14-30 | the result has len + (len-1)/3 bytes |
| Conv.GroupedWithout | src/github.com/AlasdairF/Conv/conv.go:14-30 | removing the marks gives the digits back when the mark is not one of them |
| Conv.Ints | src/github.com/AlasdairF/Conv/conv.go:443-481 | one int per number text of the input (Numbers), each its Int value, and every minus that starts a number turned into a zero in the argument |
| Conv.Uints | src/github.com/AlasdairF/Conv/conv.go:483-521 | one uint per number text of the input, each its Uint value |
| Conv.NumbersRange | src/github.com/AlasdairF/Conv/conv.go:443-481 | "12-15" gives the texts "12" and "-15" |
| Conv.NumbersSingle | src/github.com/AlasdairF/Conv/conv.go:443-481 | one run of digits, with or without a leading minus, is one number |
| Conv.NumbersSeparator | src/github.com/AlasdairF/Conv/conv.go:443-481 | a byte that is neither digit nor minus splits the numbers of the two sides |
| Conv.TokensShape | src/github.com/AlasdairF/Conv/conv.go:443-481 | every number text is some digits, optionally after one minus |
| Introsort.InsertionSort | vendor/github.com/AlasdairF/Sort/Uint16Uint64/Uint16Uint64.go:63-70 | sorts [a, b) stably by rank, permuting only that range |
| Introsort.SiftDown | vendor/github.com/AlasdairF/Sort/Uint16Uint64/Uint16Uint64.go:72-88 | restores the heap below lo, permuting only the heap |
| Introsort.Heapify | vendor/github.com/AlasdairF/Sort/Uint16Uint64/Uint16Uint64.go:50-61 | the first loop of heapSort builds a heap over [first, first+hi) |
| Introsort.HeapSort | vendor/github.com/AlasdairF/Sort/Uint16Uint64/Uint16Uint64.go:50-61 | sorts [a, b) by rank, a permutation of that range |
| Introsort.MedianOfThree | vendor/github.com/AlasdairF/Sort/Uint16Uint64/Uint16Uint64.go:90-104 | puts the median of the three at a, with b ranking no higher and c no lower; only a, b and c change |
| Introsort.SwapRange | vendor/github.com/AlasdairF/Sort/Uint16Uint64/Uint16Uint64.go:106-112 | swaps the blocks of n elements at a and at b |
| Introsort.DoPivot | vendor/github.com/AlasdairF/Sort/Uint16Uint64/Uint16Uint64.go:114-164 | a permutation of [lo, hi) returning lo <= midlo < midhi <= hi with [lo, midlo) below the pivot, [midlo, midhi) equal to it and [midhi, hi) above |
| Introsort.QuickSort | vendor/github.com/AlasdairF/Sort/Uint16Uint64/Uint16Uint64.go:166-185 | sorts [a, b) by rank, a permutation of that range, switching to heap sort when the depth budget is spent and to insertion sort on 7 or fewer |
| Introsort.MaxDepth | vendor/github.com/AlasdairF/Sort/Uint16Uint64/Uint16Uint64.go:187-194 | twice the bit length of n |
| Introsort.Sort | vendor/github.com/AlasdairF/Sort/Uint16Uint64/Uint16Uint64.go:187-194 | the array ends sorted by rank and a permutation of its input |
| Introsort.IsSorted | vendor/github.com/AlasdairF/Sort/Uint16Uint64/Uint16Uint64.go:196-203 | true exactly when no element ranks below the one before it |
| Introsort.BitLen | vendor/github.com/AlasdairF/Sort/Uint16Uint64/Uint16Uint64.go:187-194 | the bit length of n: n < 2^r, 0 only for 0, and 2^(r-1) <= n |
| StableSort.Rotate | vendor/github.com/AlasdairF/Sort/Uint16Uint64/Uint16Uint64.go:264-288 | data[a:m] ++ data[m:b] becomes data[m:b] ++ data[a:m], and everything else stays |
| StableSort.RotateLoop | vendor/github.com/AlasdairF/Sort/Uint16Uint64/Uint16Uint64.go:278-286 | the i != j loop of block swaps computes the rotation |
| StableSort.RotationUnique | vendor/github.com/AlasdairF/Sort/Uint16Uint64/Uint16Uint64.go:264-288 | the rotation of a range is one sequence |
| StableSort.MirrorSearch | vendor/github.com/AlasdairF/Sort/Uint16Uint64/Uint16Uint64.go:228-262 | the binary search for the cut point: the element just before the cut ranks no higher than its mirror, and the one at the cut ranks strictly higher than its mirror |
| StableSort.SymMerge | vendor/github.com/AlasdairF/Sort/Uint16Uint64/Uint16Uint64.go:228-262 | two sorted neighbouring runs become one sorted run, a permutation that keeps equal elements in their order |
| StableSort.SortBlocks | vendor/github.com/AlasdairF/Sort/Uint16Uint64/Uint16Uint64.go:205-226 | insertion sort of every block of 20, stable, a permutation |
| StableSort.MergeRuns | vendor/github.com/AlasdairF/Sort/Uint16Uint64/Uint16Uint64.go:205-226 | one round of merging neighbouring runs of width w into runs of 2w |
| StableSort.SortStable | vendor/github.com/AlasdairF/Sort/Uint16Uint64/Uint16Uint64.go:205-226 | the array ends sorted by rank, a permutation of its input, with equal elements in their original order |
| Uint16Uint64.New | vendor/github.com/AlasdairF/Sort/Uint16Uint64/Uint16Uint64.go:10-16 | a fresh slice whose i-th record has K = i mod 2^16 (Go's uint16(i)) and V = ar[i] |
| Uint16Uint64.Fill | vendor/github.com/AlasdairF/Sort/Uint16Uint64/Uint16Uint64.go:18-28 | the same records in newar when it is long enough (the rest of it untouched), else in a fresh slice |
| Uint16Uint64.KeysOf | vendor/github.com/AlasdairF/Sort/Uint16Uint64/Uint16Uint64.go:30-39 | the K fields in order |
| Uint16Uint64.Keys | vendor/github.com/AlasdairF/Sort/Uint16Uint64/Uint16Uint64.go:30-39 | the K fields of newar, in ar when it is long enough (the rest of it untouched), else in a fresh slice |
| Uint16Uint64.IndexedLookup | vendor/github.com/AlasdairF/Sort/Uint16Uint64/Uint16Uint64.go:10-16 | any permutation of the New records pairs each K with ar[K] |
| Uint16Uint64.SortedKeysOrderValues | vendor/github.com/AlasdairF/Sort/Uint16Uint64/Uint16Uint64.go:10-39 | after sorting the New records by value, the K fields list positions of ar in ascending order of value |
| Uint16Uint64.Asc | vendor/github.com/AlasdairF/Sort/Uint16Uint64/Uint16Uint64.go:187-194 | a permutation with V non-decreasing |
| Uint16Uint64.Desc | vendor/github.com/AlasdairF/Sort/Uint16Uint64/Uint16Uint64.go:429-436 | a permutation with V non-increasing |
| Uint16Uint64.AscByKey | vendor/github.com/AlasdairF/Sort/Uint16Uint64/Uint16Uint64.go:671-678 | a permutation with K non-decreasing |
| Uint16Uint64.DescByKey | vendor/github.com/AlasdairF/Sort/Uint16Uint64/Uint16Uint64.go:913-920 | a permutation with K non-increasing |
| Uint16Uint64.IsSortedAsc | vendor/github.com/AlasdairF/Sort/Uint16Uint64/Uint16Uint64.go:196-203 | true exactly when V is non-decreasing |
| Uint16Uint64.IsSortedDesc | vendor/github.com/AlasdairF/Sort/Uint16Uint64/Uint16Uint64.go:438-445 | true exactly when V is non-increasing |
| Uint16Uint64.IsSortedAscByKey | vendor/github.com/AlasdairF/Sort/Uint16Uint64/Uint16Uint64.go:680-687 | true exactly when K is non-decreasing |
| Uint16Uint64.IsSortedByKeyDesc | vendor/github.com/AlasdairF/Sort/Uint16Uint64/Uint16Uint64.go:922-929 | true exactly when K is non-increasing |
| Uint16Uint64.StableAsc | vendor/github.com/AlasdairF/Sort/Uint16Uint64/Uint16Uint64.go:205-226 | a permutation with V non-decreasing and records of equal V in their original order |
| Uint16Uint64.StableDesc | vendor/github.com/AlasdairF/Sort/Uint16Uint64/Uint16Uint64.go:447-468 | a permutation with V non-increasing and records of equal V in their original order (with the corrected cut test) |
| Uint16Uint64.StableAscByKey | vendor/github.com/AlasdairF/Sort/Uint16Uint64/Uint16Uint64.go:689-710 | a permutation with K non-decreasing and records of equal K in their original order |
| Uint16Uint64.StableDescByKey | vendor/github.com/AlasdairF/Sort/Uint16Uint64/Uint16Uint64.go:931-952 | a permutation with K non-increasing and records of equal K in their original order (with the corrected cut test) |
| Uint16Uint64.SymMergeCutDescAsWritten | vendor/github.com/AlasdairF/Sort/Uint16Uint64/Uint16Uint64.go:470-504 | the cut search of symMergeDesc as written, with a strict test: the element before the cut has a value strictly above its mirror, the one at the cut a value at most its mirror |
| Uint16Uint64.TieExample | vendor/github.com/AlasdairF/Sort/Uint16Uint64/Uint16Uint64.go:470-504 | a 21-record input: a sorted run of 20 and one record whose value ties with record 9 |
| Uint16Uint64.TieCutAsWritten | vendor/github.com/AlasdairF/Sort/Uint16Uint64/Uint16Uint64.go:470-504 | on it the cut as written stops at 9, before the tie |
| Uint16Uint64.TieRotationUnstable | vendor/github.com/AlasdairF/Sort/Uint16Uint64/Uint16Uint64.go:470-504 | the rotation that cut asks for moves record 20 before record 9 although their values tie |
| Uint16Uint64.SymMergeCutByKeyDescAsWritten | vendor/github.com/AlasdairF/Sort/Uint16Uint64/Uint16Uint64.go:954-988 | the cut search of symMergeByKeyDesc as written, strict in the same way |
| Uint16Uint64.TieCutByKeyAsWritten | vendor/github.com/AlasdairF/Sort/Uint16Uint64/Uint16Uint64.go:954-988 | on the key example the cut as written stops at 9 |
| Uint16Uint64.TieRotationUnstableByKey | vendor/github.com/AlasdairF/Sort/Uint16Uint64/Uint16Uint64.go:954-988 | and its rotation moves record 20 before record 9 although their keys tie |
| Limit56.LessFromCompare | src/github.com/AlasdairF/BinSearch/Limit56/Limit56.go:15-32 | the chain of word comparisons from word i on is the lexicographic comparison of the remaining words |
| Limit56.Less | src/github.com/AlasdairF/BinSearch/Limit56/Limit56.go:15-32 | less is the lexicographic order of the seven words, which is the order of their values |
| Limit56.LessTrichotomy | src/github.com/AlasdairF/BinSearch/Limit56/Limit56.go:15-32 | less is irreflexive and asymmetric, and for different keys one direction holds |
| Limit56.Asc | src/github.com/AlasdairF/BinSearch/Limit56/Limit56.go:177-184 | a permutation (each K still with its V) in which no record is less than the one before it |
| RpcServer.Less | server/rpcserver.go:27-32 | a < b when ascending, a > b otherwise |
| RpcServer.Partition | server/rpcserver.go:34-49 | the middle element becomes the pivot at the returned q in [l, r]; everything before it is less than the pivot and nothing after it is; only [l, r] is permuted |
| RpcServer.Scan | server/rpcserver.go:40-45 | the loop keeps the elements less than the pivot at the front of [l, r) |
| RpcServer.QSort | server/rpcserver.go:51-57 | [l, r] ends sorted in the chosen direction and is a permutation of itself; the rest of the array is untouched |
| RpcServer.Sort | server/rpcserver.go:68-79 | the array ends ascending or descending as asked, a permutation of its input |

## Left out

- KeyValBytes (binsearch.go:2389-4480) and CounterBytes (4482-6267) are not part of this model. They repeat the KeyBytes bucket code with a parallel value array per bucket: `Add` as an upsert, `Update`, `UpdateAll` and `GreatestVal`, plus a `CounterBytes.Build` that sums the values of equal keys. Modelling them would duplicate the bucket model with value arrays; their key handling is the KeyBytes handling modelled here.
- The numeric containers (`KeyUint64/32/16/8/Int`, `KeyVal*`, `Counter*`, binsearch.go:6530-8831) are not part of this model. They sit on sort packages whose source is not part of this model.
- `runes2bytes`/`bytes2runes` and the `KeyRunes`, `KeyValRunes` and `CounterRunes` wrappers are not modelled. They convert runes to UTF-8 and delegate to the byte containers.
- `Optimize` (binsearch.go:1939-2006) is not modelled, because it only trims slice capacity. The model's buckets are sequences with no capacity, so the capacity doubling in `Add`, `AddAt` and `AddUnsorted` is not represented either.
- KeyBytesIndex.KeyBytes.Find: requires the sorted mode (every bucket sorted, `count` a rank table).
  - Go does not check this.
  - A Find between `AddUnsorted` and `Build` searches unsorted buckets with per-bucket counts, and the model leaves that result undefined.
- KeyBytesIndex.KeyBytes.Add: requires the sorted mode, for the same reason as Find.
- KeyBytesIndex.KeyBytes.AddUnsorted: requires the unsorted mode (`count` holding per-bucket counts, every stored key waiting in an order list).
  - Go does not check the mode. After Add, AddAt or Build it still appends the key to its bucket and its add number to the order list, and does `count[f+1]++` (binsearch.go:1394-1486). Once `count` holds ranks, that increment breaks the rank table.
  - A later Build then finds a bucket whose order list is shorter than the bucket and fails with the "Build can only be run once" error (binsearch.go:1709-1713).
  - The model leaves that mixed state undefined.
- KeyBytesIndex.KeyBytes.AddAt: requires the sorted mode and a position in the key's own bucket range, `count[f] <= i <= count[f] + len(bucket)`. Go subtracts `count[f]` and slices the bucket at the result (binsearch.go:1494-1504), which panics outside that range.
- KeyBytesIndex.KeyBytes.Read: reads from a `BytesReader` over the stored bytes, not from the stream `Reader` Go uses. It requires that the bytes at the cursor hold a complete stored form; Go's reader would run out of input there.
- KeyBytesIndex.KeyBytes.Build: sorts every bucket with `Buckets.SortBucket`, which uses the generic `Introsort.Sort` and its sorted-permutation contract. Go calls `sortIntUint64.Asc` or one of `sortLimit16.Asc` … `sortLimit64.Asc`, depending on the key width. Of those packages only `Limit56` is part of this model.
- Conv.Format: requires `u != MinInt64` and `padding <= 20`. For the minimum int, `u = -u` stays negative and the digit table is indexed out of range. For wider padding, the 20-byte array is written below index 0. Go panics in both cases.
- Conv.Write: requires the same as Conv.Format, for the same reasons.
- Conv.Bytes: requires `u != MinInt64`, for the same reason.
- `String`, `StringPad`, `BytesPad` and `formatString` (conv.go:53-67, 207-273) produce the same bytes as `Format`, as Go strings. The model has no separate string type, so `Format` stands for them.
- Conv.IsNumericString: takes the runes of the string. Go's UTF-8 decoding of the string into runes is not modelled.
- Floating point is not modelled: `FloatString`, `FloatBytes`, `WriteFloat`, `WriteFloat32/64` and `ReadFloat32/64`.
- Custom.BytesReader (every Read* method, Discard): requires the bytes it reads to lie inside the data. Go indexes past the end of the slice and panics.
- Custom.Writer.Close: flushes, but does not close the underlying sink for a writer made with `NewWriterCloser`. The sink is a byte sequence with no closed state.
  - Go's Close also returns the 64 KiB buffer to the pool and sets both the buffer and the sink to nil (custom.go:771-784), so any later write or Flush panics.
  - The model does not capture that closed, unusable state: after Close its writer is still `Valid()`, with the same sink and buffer.
- Custom.Writer.Reset: the same; it also does not close the old sink.
- Custom.Writer: the sink always accepts every byte, so Go's write errors are not modelled.
- The `Reader` stream type (custom.go:1383-1883), `Copy`, `CopyFile`, the zlib and snappy constructors, `Buffer.ReadFrom`, `Buffer.String`, `Buffer.Close` and `WriteAll` are not modelled. They are I/O, compression or reflection.
- `Write2Bytes` … `Write9Bytes` (custom.go:296-500, 934-1056) have no member of their own. They append 2 to 9 given bytes, and each encoder that uses them is modelled by the bytes it appends.
- The four generated copies of each sort in `Uint16Uint64.go`, and `Limit56.go`'s copy, are modelled once, generically over a rank. The copies differ only in the comparison: V, -V, K, -K, or the seven-word order.
- The sort packages whose source is not part of this model (`sortLimit8` … `sortLimit64` other than `Limit56`, `sortLimitVal*`, `sortIntUint64` and the like) are represented by the same sorted-permutation contract.
- `randInt`, `Plus`, `Hello` and `RunServer` in `server/rpcserver.go`, the Thrift connection pool, the HTTP handlers and `main.go` are not modelled. They are randomness, network and process glue; `Sort` is modelled without its Thrift request and response types.

## Findings

| source | as written | input that shows it | evidently intended | confidence | as-written member | corrected member |
|---|---|---|---|---|---|---|
| src/github.com/AlasdairF/Custom/custom.go:602-615 | the 9-byte case of `WriteUint64Variable` stores its fourth body byte as `byte(v >> 25)`. The same slip is in `Write2Uint64sVariable` (618-643) and both `Buffer` versions (1157-1198). Modelled by `CustomCodec.VarintAsWritten`; the corrected encoder is `CustomCodec.Varint`. | v = 0x100_0000_0100_0000 reads back as 0x100_0000_0000_0000 | `byte(v >> 24)`, so that every uint64 reads back | high (not executed) | CustomCodec.VarintAsWrittenCorrupts | CustomCodec.VarintRoundTrip |
| src/github.com/AlasdairF/Custom/custom.go:2012-2026 | `ReadRune`, `ReadUTF8` and `ReadUTF8Raw` (1982-2009) read 2 bytes when bit 5 of the lead byte is clear and 3 otherwise. They never read 4, although `WriteRune` (270-288) writes 4 bytes above U+FFFF. Modelled by `CustomCodec.RuneLengthAsWritten`; corrected in `CustomCodec.RuneLength`. | U+1F600 is written as F0 9F 98 80; the reader takes F0 9F 98, decodes U+FFFD and leaves the cursor on the 0x80 | a 4-byte read after a lead byte of the form 11110xxx | high (not executed) | CustomCodec.ReadRuneAsWrittenLoses | CustomCodec.RuneRoundTrip |
| vendor/github.com/AlasdairF/Sort/Uint16Uint64/Uint16Uint64.go:470-504 | `symMergeDesc` moves its cut past position c only when `data[p-c].V < data[c].V`, a strict test where SymMerge needs "not less in the sort order" (`<=` for a descending sort). Modelled by `Uint16Uint64.SymMergeCutDescAsWritten` and `Uint16Uint64.TieCutAsWritten`. | a sorted run of 20 records followed by one record whose value ties with record 9 (`TieExample`): the cut stops at 9, and the rotation puts record 20 before record 9. This is the first rotation of `StableDesc` on that input. | `data[p-c].V <= data[c].V`, so that records with equal values keep their order | medium (not executed; only the first rotation of the run is shown) | Uint16Uint64.TieRotationUnstable | Uint16Uint64.StableDesc |
| vendor/github.com/AlasdairF/Sort/Uint16Uint64/Uint16Uint64.go:954-988 | `symMergeByKeyDesc` has the same strict test on K. Modelled by `Uint16Uint64.SymMergeCutByKeyDescAsWritten` and `Uint16Uint64.TieCutByKeyAsWritten`. | `KeyTieExample`: the cut stops at 9, and the rotation puts record 20 before record 9 although their keys tie | `data[p-c].K <= data[c].K` | medium (not executed; only the first rotation of the run is shown) | Uint16Uint64.TieRotationUnstableByKey | Uint16Uint64.StableDescByKey |
| vendor/github.com/AlasdairF/BinSearch/binsearch.go:205-267 | `uint642bytesend`, which the `reverse*` functions (269-419) use for a key's last word, drops leading zero bytes. So `Keys` and `Next` (2048-2140) list a stored key whose last chunk starts with 0x00 without that byte. Modelled by `Words.Reverse`, which `KeyBytesIndex.KeyBytes.Keys` uses. | the key 0x00 0x61 is stored and listed as 0x61, which `Find` does not locate at that rank | the last chunk rebuilt to the length its bucket fixes (bucket index + 1 bytes in all) | high (not executed) | Words.ReverseDropsLeadingZero | Words.ReverseExactKeyWords |
