# Field-record codec and field scan over an ordered key/value store

This project models the record format and the scan query in
`test/Serialize_test.cc`, and proves properties about them.

A record is an ordered list of `(name, value)` byte-string pairs (`Field`, `FieldArray`).

- **`SerializeValue`** writes a record to an output string stream:
  - first the number of fields, as a 4-byte unsigned integer;
  - then, for each field in order, its name length (4 bytes), the name bytes, its value length (4 bytes) and the value bytes.
- **`ParseValue`** reads that layout back through an input string stream.
- **`FindKeysByField`** walks every entry of an ordered key/value store from the first key to the last. It decodes each stored value with `ParseValue` and collects the key when some field equals the query on both name and value. It stops comparing within a record at the first match.

## Modules

- `wire.dfy` (`Wire`):
  - bytes;
  - the `size_t` → `uint32_t` conversion (modulo 2^32);
  - the 4-byte encoding of a `uint32_t` and its inverse.
- `streams.dfy` (`Streams`): the two string streams.
  - `OutputStream.Write` appends bytes.
  - `InputStream.Read` copies bytes from the read position. If fewer bytes remain than requested, it copies what is left into the front of the buffer, moves to the end and sets the fail flag. A failed stream reads nothing.
  - `InState` / `ReadInto` give the same state and step as values.
- `codec.dfy` (`Codec`):
  - the layout as a function (`Encode`);
  - the reading code as a function on any byte string (`ParseRun` / `Parse`), following the stream's read rules. Truncated and malformed input is therefore modelled as the program reads it. The program reports no error for such input: the stream's fail flag is set, but the reading code never consults it;
  - the two loop methods `SerializeValue` and `ParseValue`, proved equal to those functions;
  - the properties of the format.
- `scan.dfy` (`Scan`):
  - the store, given as the sequence of entries its iterator yields;
  - a `StoreIterator` class with `SeekToFirst` / `Valid` / `Next` / `Key` / `Value`;
  - the inner match loop `RecordHoldsField`;
  - the scan method `FindKeysByField`, proved equal to the specification `MatchingKeys`, and that specification's properties.
- `demo.dfy` (`Demo`): the three customer records and the query of the program's `main`, with their expected results, assuming the database held nothing before.

Each `uint32_t` is copied into the stream through its memory representation, so the byte order is the machine's. This model fixes it to little-endian (`Wire.EncodeU32`). That is a modelling choice.

## Model

| member | source | states |
|---|---|---|
| Wire.Wrap32 | test/Serialize_test.cc:18 | The count stored in a `uint32_t` is below 2^32. It is at most the real size, and equal to it when the size fits. |
| Wire.U32DecodeEncode | test/Serialize_test.cc:21 | Reading back the 4 bytes written for a `uint32_t` gives the same number. |
| Wire.U32EncodeDecode | test/Serialize_test.cc:46 | Any 4 bytes read as a `uint32_t` are exactly the bytes of that number, so every count is representable. |
| Streams.InputStream.Read | test/Serialize_test.cc:46 | One `read` moves the stream from its old state to `ReadInto(old state, buffer)` and returns the new buffer. A short read copies the remaining bytes, keeps the rest of the buffer, moves to the end and sets the fail flag. A failed stream changes nothing. |
| Streams.OutputStream.Write | test/Serialize_test.cc:21 | `write(src, n)` appends exactly the first `n` bytes of `src`. |
| Codec.SerializeValue | test/Serialize_test.cc:16-38 | The bytes the write loop produces are exactly `Encode(fields)`: the count, then each field's four pieces in list order. |
| Codec.ParseValue | test/Serialize_test.cc:41-65 | For every input, including short or malformed ones, the read loop returns exactly `Parse(valueStr)`. |
| Codec.EncodeFieldLength | test/Serialize_test.cc:25-34 | A field whose lengths fit takes exactly 4 + name length + 4 + value length bytes. |
| Codec.FieldLayout | test/Serialize_test.cc:29-34 | A field's bytes are its name length, its name, its value length and its value, in that order, and nothing else. |
| Codec.EncodeFieldsAppend | test/Serialize_test.cc:24-35 | Writing one more field appends that field's bytes after those already written. |
| Codec.EncodeFieldsLength | test/Serialize_test.cc:24-35 | The field part of a record is as long as the sum of its fields' sizes. |
| Codec.EncodedLength | test/Serialize_test.cc:18-35 | A record encodes to exactly 4 + Σ(4 + \|name\| + 4 + \|value\|) bytes. |
| Codec.EncodedCount | test/Serialize_test.cc:18-21 | The first 4 bytes of the encoding hold the number of fields. |
| Codec.FieldAtConcat | test/Serialize_test.cc:29-34 | Wherever a field's bytes are placed, its four pieces are found at consecutive offsets from that point. |
| Codec.FieldsAtConcat | test/Serialize_test.cc:24-35 | Encoded fields placed after any prefix are found one after another, in list order. |
| Codec.EncodedFields | test/Serialize_test.cc:24-35 | In an encoding, every field is found right after the count, in list order. |
| Codec.FieldsAtIndex | test/Serialize_test.cc:24-35 | Where a run of fields is found, field `i` starts after the sizes of the fields before it. |
| Codec.EncodedFieldAt | test/Serialize_test.cc:24-35 | Field order is preserved on writing. Field `i`'s length prefixes, name and value start at 4 plus the sizes of fields 0..i-1. |
| Codec.FootprintPrefix | test/Serialize_test.cc:24-35 | Each further field adds its own size to the bytes taken. |
| Codec.ReadU32 | test/Serialize_test.cc:45-46 | A zero-initialised `uint32_t` read yields a value below 2^32. The stream stays over the same data. |
| Codec.ReadString | test/Serialize_test.cc:52-54 | A length read followed by a buffer read keeps the stream over the same data. A failed stream yields an empty string and stays as it is. |
| Codec.ReadField | test/Serialize_test.cc:49-61 | One loop iteration keeps the stream valid. From a failed stream it yields the empty pair and leaves the stream unchanged. |
| Codec.ReadFields | test/Serialize_test.cc:48-62 | The loop yields exactly as many fields as the count it runs to, whatever the input. |
| Codec.ReadIterationStep | test/Serialize_test.cc:48-61 | An iteration that reads field `f` puts `f` in front of what the remaining iterations read, so read order is list order. |
| Codec.ParseRun | test/Serialize_test.cc:41-65 | The reading code never leaves the input it was given. |
| Codec.ReadAfterFailure | test/Serialize_test.cc:48-61 | After a read has failed, each remaining iteration appends an empty pair and changes nothing else. |
| Codec.ReadU32At | test/Serialize_test.cc:46 | Reading where a number's 4 bytes are found gives that number and moves 4 bytes on. |
| Codec.ReadStringAt | test/Serialize_test.cc:52-59 | Reading where a length-prefixed string is found gives the string and moves past it. |
| Codec.ReadFieldAt | test/Serialize_test.cc:49-61 | Reading where an encoded field is found gives that field and moves past it. |
| Codec.ReadFieldsAtStep | test/Serialize_test.cc:48-61 | Where field `f` is found, the loop reads `f` and continues right after it. |
| Codec.ReadFieldsAt | test/Serialize_test.cc:48-62 | Where encoded fields are found, the loop reads them back in order and ends right after them without failing. |
| Codec.ParseFieldsAt | test/Serialize_test.cc:41-65 | Input that starts with a count followed by that many encoded fields parses to exactly those fields. Any bytes after them are left unread. |
| Codec.RoundTrip | test/Serialize_test.cc:16-65 | `ParseValue(SerializeValue(fields)) == fields` for every record whose count and lengths fit in 32 bits. This holds for every byte in names and values, `=`, `;`, `#` and `-` included. The stream ends exactly at the end of the encoding, not failed. |
| Codec.EncodeInjective | test/Serialize_test.cc:16-38 | Different records that fit have different encodings. |
| Codec.ReadTruncatedField | test/Serialize_test.cc:52-59 | Reading a field from input cut off inside it makes one of the four reads fail. |
| Codec.FieldAtPrefix | test/Serialize_test.cc:29-34 | A field found before the cut of a truncated copy is still found there. |
| Codec.ReadTruncatedStep | test/Serialize_test.cc:48-61 | If the input is cut inside the next field, the loop's stream ends failed. |
| Codec.ReadPrefixStep | test/Serialize_test.cc:48-61 | A field that lies wholly before the cut is read back as itself, put in front of what the remaining iterations read, and the loop carries on right after it. |
| Codec.ReadTruncatedFields | test/Serialize_test.cc:48-62 | If the input is cut anywhere within the fields, the loop's stream ends failed. |
| Codec.TruncatedInputFails | test/Serialize_test.cc:41-65 | Reading any strict prefix of an encoding, the empty one included, leaves the stream's fail flag set. |
| Codec.OneEmptyFieldEncoding | test/Serialize_test.cc:18-34 | A record of one field with an empty name and value encodes to the count 1 followed by two zero lengths, 12 bytes. |
| Codec.CountOnlyParse | test/Serialize_test.cc:45-61 | The 4 bytes of the count 1 alone set the fail flag and still decode to one pair of empty strings, the zero-initialised lengths read as 0. |
| Codec.TruncationUndetected | test/Serialize_test.cc:41-65 | A strict prefix of an encoding can fail the stream and still decode to exactly the encoded record, so `ParseValue`'s result does not reveal truncation. |
| Codec.ParseLength | test/Serialize_test.cc:45-62 | On any input, the number of fields returned is the count in the first 4 bytes. If fewer than 4 bytes exist, the missing ones read as zero. |
| Codec.LargestCountParse | test/Serialize_test.cc:45-61 | The 4 bytes 0xff alone make the read loop return 2^32 - 1 fields. |
| Codec.EmptyRecord | test/Serialize_test.cc:18-21 | The empty record encodes to exactly 4 zero bytes, and those parse back to the empty record. |
| Codec.WriteFieldPieces | test/Serialize_test.cc:25-34 | The four writes of one iteration append exactly that field's encoding. |
| Scan.KeyLessIrreflexive | test/Serialize_test.cc:72 | No key precedes itself in the store's bytewise order. |
| Scan.KeysWhere | test/Serialize_test.cc:72-85 | A filter selects at most as many keys as the store holds. |
| Scan.KeysWhereMembers | test/Serialize_test.cc:72-85 | A key is selected exactly when some entry with that key satisfies the filter (both directions). |
| Scan.MatchingKeysMembers | test/Serialize_test.cc:72-85 | A key is in the result exactly when some entry with that key stores a record holding a field equal to the query on both name and value. |
| Scan.KeysWhereSubsequence | test/Serialize_test.cc:72-85 | The selected keys are store keys, in iteration order, possibly with some left out. |
| Scan.MatchingKeysSubsequence | test/Serialize_test.cc:72-85 | The result is a subsequence of the store's keys. |
| Scan.SkipLast | test/Serialize_test.cc:72-85 | Skipping an entry keeps the result a subsequence. |
| Scan.KeysWhereAscending | test/Serialize_test.cc:72-85 | Over a store with ascending keys, the selected keys strictly ascend. |
| Scan.MatchingKeysAscending | test/Serialize_test.cc:79-83 | Over an ascending store, the result strictly ascends. So no key appears twice, even when its record holds several matching fields. |
| Scan.MatchingKeysStep | test/Serialize_test.cc:72-85 | Scanning one more entry appends its key exactly when its decoded record holds the query. |
| Scan.KeysStep | test/Serialize_test.cc:72-73 | Visiting one more entry appends its key to the keys visited so far. |
| Scan.StoreIterator.constructor | test/Serialize_test.cc:70 | A new iterator is over the given entries and is not yet positioned on any of them. |
| Scan.StoreIterator.SeekToFirst | test/Serialize_test.cc:72 | `SeekToFirst` positions the iterator on the first entry. |
| Scan.StoreIterator.Next | test/Serialize_test.cc:72 | `Next` advances by exactly one entry. |
| Scan.RecordHoldsField | test/Serialize_test.cc:79-84 | The inner loop reports a match exactly when the record holds a field equal to the query on both name and value. |
| Scan.FindKeysByField | test/Serialize_test.cc:68-89 | The scan returns exactly `MatchingKeys(store, query)`: the matching keys, in iteration order. The keys the iterator stops at (the ghost `visited`) are exactly the store's keys in order, so each entry is visited once. |
| Demo.Record1RoundTrip | test/Serialize_test.cc:100-105 | The first record stored by `main` reads back as written. |
| Demo.Record2RoundTrip | test/Serialize_test.cc:107-112 | The second record stored by `main` reads back as written. |
| Demo.SpecialCharactersRoundTrip | test/Serialize_test.cc:114-120 | The record with `=` and `;` in its name and address reads back as written. |
| Demo.DemoQueryHeldBy | test/Serialize_test.cc:143-144 | Of the three records, only the first holds `name = Customer#000000001`. |
| Demo.ScanFirstOfThree | test/Serialize_test.cc:72-85 | Over three entries, a query held only by the first record selects that record's key alone. |
| Demo.DemoScan | test/Serialize_test.cc:143-151 | The scan for `name = Customer#000000001` over the three stored records returns exactly `k_1`. |

## Left out

- `main` (test/Serialize_test.cc:91-155) is left out: opening the database at a fixed path, the `Put`/`Get` calls, the printing and the `assert`. Only its records and its query are kept, as the `Demo` lemmas.
- The key/value store library (`DB::Open`, `NewIterator`, on-disk storage, `Status`) is not part of this model. The store is the sequence of `(key, value)` entries its iterator yields after `SeekToFirst`. Key order is assumed ascending only where a lemma needs it (`Ascending`).
- Iterator allocation and `delete it` (test/Serialize_test.cc:70, 87) are left out. They are memory management with no effect on the result.
- Wire.EncodeU32: native byte order is not modelled. The `uint32_t` prefixes are written and read little-endian, whatever the machine.
- Codec.ParseValue: the program reports no error on truncated or malformed input. The stream's fail flag stays internal to the reading code, which never checks it. A truncated value can even decode to the original record (`Codec.TruncationUndetected`). The model proves when the flag ends up set (`Codec.TruncatedInputFails`), but `ParseValue`'s result carries no error indication, just as in the program.
- Memory exhaustion is not modelled. On malformed input the program may throw `std::bad_alloc`, in two cases. A huge length read for a name or value makes `std::string(n, '\0')` allocate up to 4 GiB. A huge count makes the loop append up to 2^32 - 1 pairs to `fields` (`Codec.LargestCountParse`). The model allocates any size.
- Codec.RoundTrip: requires the field count and every length to be below 2^32. Past that, the program truncates the stored lengths; `Encode` models that truncation, and no round trip holds.
- There is no put/get facade and no overwrite behaviour beyond the iteration order; overwriting is the store's own behaviour.
