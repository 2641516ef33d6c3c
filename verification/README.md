# FRU EEPROM codec — a Dafny model

This project models the FRU (Field Replaceable Unit) EEPROM codec of `fru.c`:
- the 8-bit additive checksum `calc_cs`;
- the length-prefixed string reader `read_fru_str`;
- the board and product area parsers;
- the multirecord encoder and decoder;
- `parse_fru`, which decodes a whole image: common header, two areas and up to `N_MULTIREC` (8) multirecords;
- `fru_mk_multirecords_area`, which re-encodes the records;
- the five record mutators (MAC, boot device, password line, test-ok flag, power policy);
- the pure parts of `fru_open_parse` (copying record payloads into the cached fields of `struct fru`) and of `fru_update_mrec_eeprom` (splicing a re-encoded multirecord area into the image).

Modules follow the structure of the C file:

| file | module | models |
|---|---|---|
| `types.dfy` | `FruTypes` | bytes, constants of `fru.h`, `Option`/`Result` |
| `checksum.dfy` | `Checksum` | `calc_cs` and the two's-complement checksum byte |
| `strings.dfy` | `FruStrings` | `read_fru_str` and a string encoder as its partner |
| `areas.dfy` | `Areas` | `parse_board_area`, `parse_product_area` and an area encoder |
| `multirecord.dfy` | `Multirecords` | `fru_mk_multirecord`, `fru_parse_multirecord`, the record loop of `parse_fru`, `fru_mk_multirecords_area` |
| `document.dfy` | `Document` | `struct fru` and `parse_fru` |
| `mutators.dfy` | `Mutators` | `fru_mrec_update_*` |
| `image.dfy` | `Image` | extraction after a parse, and the image splice before a write |

Modelling choices:
- **Integer widths.** Integer widths are explicit.
  - `calc_cs` receives its size as a `uint8_t`, so `buf[1]*8` is truncated to a byte (`Trunc8`). An area declaring 32 units therefore has its checksum computed over no bytes.
  - `256 - cs` stored in a byte is `Negate`.
  - `buf[1] & 0x7` is `FormatBits`.
  - `buf[1] & 0x80` is `EndBit`.
- **Out-of-bounds reads.** Reads the C makes without a bound check are modelled as explicit errors, because they have no C return code: `Areas.AreaError.Overrun` and `Document.FruError.OutOfRange` (with `None` from the string reader). `Document.FullImageNeverOverruns` shows that on a full 4096-byte image those errors never occur.
- **Pointers.** Records own their payload bytes. In the C, a record's `data` pointer aims into the image buffer or into the cached fields of `struct fru`.
- **Stored end flag.** When a mutator appends a record flagged last, the record that was last before keeps its stored end flag (fru.c:369-375 sets only the new record's fields), and so does the model. The encoder recomputes every end flag from the position of each record (`Multirecords.AreaIgnoresStoredFlags`).
- **Cached fields.** The cached fields of `struct fru` are the `Document.Cache` datatype.
- **Undefined constants.** The record types `MR_SATADEV_REC`, `MR_PASSWD_REC`, `MR_TESTOK_REC`, `MR_POWER_POLICY_REC` and the password buffer size `FRU_PWD_MAX` are used by `fru.c` but not defined in it or in `fru.h`. They are declared as constants without a value, and the classification after a parse follows the order of the C `if`/`else if` chain, so no proof depends on their values.

## Model

| member | source | states |
|---|---|---|
| Checksum.CalcCsLoop | fru.c:44-60 | the wrapping `uint8_t` accumulator loop yields the unbounded sum of the first `size` bytes reduced modulo 256 |
| Checksum.Negate | fru.c:76-77 | `256 - cs` kept in a byte is the byte that brings a sum of `cs` back to zero modulo 256 |
| Checksum.NegatedChecksumCloses | fru.c:76-77 | appending the negated checksum of a region makes the extended region sum to zero |
| FruStrings.ReadFruStr | fru.c:88-95 | a read succeeds exactly when the length byte and the capped copy lie inside the buffer; the cursor advances past the uncapped length |
| FruStrings.ReadFruStrStores | fru.c:88-95 | the stored length is the length byte capped at 31; the buffer holds exactly that many following bytes and zeros after them |
| FruStrings.FromText | fru.h:21 | a text of at most 31 bytes stored in a 32-byte buffer is valid and reads back as the text |
| FruStrings.ReadStrs | fru.c:133-138 | successive reads starting where the previous one ended yield one string per read |
| FruStrings.StrRoundTrip | fru.c:88-95 | reading an encoded string gives back its text, and the cursor lands just after it |
| FruStrings.StrsRoundTrip | fru.c:133-138 | reading a run of encoded strings recovers every text in order and ends after the last one |
| FruStrings.StrsStayInside | fru.c:89-93 | whatever the length bytes say, n reads stay inside a buffer that extends 256 bytes per string past the start |
| Areas.ParseBoardArea | fru.c:97-143 | -1 exactly on a wrong version, -2 exactly when the declared size exceeds the buffer, -3 exactly on a bad checksum over the byte-truncated size; success exactly when the checks pass and five strings can be read from offset 5, and then the date is bytes 3..5 and the five fields are those reads in order, each starting where the previous length byte (uncapped) says |
| Areas.ParseProductArea | fru.c:155-195 | the same three errors, each exactly when its check is the first to fail; success exactly when the checks pass and six strings can be read from offset 3, and then the six fields are those reads in order |
| Areas.BoardDateOverlapsName | fru.c:129-134 | the third date byte is the raw length byte of the manufacturer name, whose stored length is that byte capped at 31 |
| Areas.ChecksumSkippedAt32Units | fru.c:124-128 | an area declaring 32 units passes the checksum check whatever its contents |
| Areas.AreasStayInside | fru.c:133-138 | with room for 256 bytes per string, neither parser reads outside the area |
| Areas.EncodeArea | fru.c:102-128 | an encoded area has its version, a size in 8-byte units equal to its length, a zero checksum, and the fixed fields and strings in place |
| Areas.EncodedAreaChecks | fru.c:102-128 | a well-formed area under 256 bytes passes all three header checks, whatever follows it |
| Areas.AreaStringsAt | fru.c:133-138 | in an encoded area the strings read back as the texts written |
| Areas.BoardDateBytes | fru.c:129-134 | in an encoded board area the date reads back as the two date bytes written plus the first string's length |
| Areas.BoardRoundTrip | fru.c:97-143 | parsing an encoded board area gives back the five strings and the date (third byte: first string's length) |
| Areas.ProductRoundTrip | fru.c:155-195 | parsing an encoded product area gives back the six strings |
| Multirecords.EncodeRecord | fru.c:72-77 | record layout: type, format byte (2, plus bit 7 when last), length, then the payload from byte 5 |
| Multirecords.MkMultirecord | fru.c:62-86 | fails (-1) exactly when the buffer has no byte to spare beyond `5 + size`, otherwise writes the record |
| Multirecords.EncodeRecordChecksums | fru.c:75-77 | byte 3 closes the payload sum and the five header bytes sum to zero |
| Multirecords.ParseMultirecord | fru.c:208-269 | a decoded record takes `5 + buf[2]` bytes inside the buffer, with type `buf[0]`, format 2, end bit 7 of `buf[1]` and payload `buf[5..]` |
| Multirecords.ParseMultirecordChecks | fru.c:208-269 | -4, -1, -2, -5 and -3 each exactly when its check is the first to fail, in that order, and a record is decoded exactly when all five checks pass; its payload then closes the data checksum |
| Multirecords.RecordRoundTrip | fru.c:208-269 | decoding an encoded record gives back its type, end flag and payload, whatever follows it |
| Multirecords.RecordReencode | fru.c:233-243 | re-encoding a decoded record reproduces its bytes exactly when byte 1 holds only the format and end bits |
| Multirecords.HeaderChecksumDetermined | fru.c:226-229 | two valid headers that agree on bytes 0..3 agree on the checksum byte |
| Multirecords.ParseMrecs | fru.c:300-318 | the record loop yields at most `budget` records |
| Multirecords.ParseMrecsShape | fru.c:300-318 | a decoded sequence is non-empty, only its last record can be flagged last (and is, unless eight were read), and each has format 2 and exactly its payload |
| Multirecords.ChainDecodes | fru.c:300-318 | records lying back to back, the last one flagged, are all read by the loop |
| Multirecords.FailureAborts | fru.c:302-310 | a record that fails to decode within the budget, after any number of good unflagged records, fails the whole loop with its error |
| Multirecords.BudgetStops | fru.c:300-318 | when eight (the budget) records decode with none flagged last, the loop stops and succeeds with all of them |
| Multirecords.EncodeRecords | fru.c:327-334 | the encoded records take exactly five bytes plus the length per record |
| Multirecords.EncodedChain | fru.c:327-334 | encoded records lie back to back, each decoding where the previous ends, with the end flag on the last only |
| Multirecords.MkMultirecordsArea | fru.c:321-336 | succeeds exactly when there are no records or they fit in fewer bytes than the buffer, and then writes them back to back |
| Multirecords.RecordsRoundTrip | fru.c:321-336 | decoding encoded records gives back the records in order, with format 2 and the end flag on the last one only |
| Multirecords.AreaRoundTrip | fru.c:321-336 | an area the encoder accepts decodes back to its records |
| Multirecords.AreaIgnoresStoredFlags | fru.c:328 | the stored end and format fields play no part in the encoded area |
| Document.ParseFru | fru.c:271-319 | -1, -2, -3, -4 each exactly when its header check is the first to fail; on success the offsets are the header bytes times 8 and at most eight records are read |
| Document.ParseFruAreaErrors | fru.c:294-310 | once the header passes, -5, -6 and -7 are reported exactly when the board area, the product area or the record loop is the first part to fail, and the decode succeeds (0) exactly when all three parts decode |
| Document.ParseFruContents | fru.c:291-318 | a decoded document holds the areas and records read at the header's offsets; the records are well terminated and can be encoded |
| Document.ParsedRecordsEncodable | fru.c:243-247 | decoded record lengths come from one byte and fit in the data read |
| Document.FullImageNeverOverruns | fru.c:291-299 | on a 4096-byte image no offset or string read leaves the buffer |
| Mutators.FindType | fru.c:342-347 | finds the first record of the type, or reports that none exists |
| Mutators.Upsert | fru.c:359-376 | returns 0 exactly when a record of the type exists; otherwise appends one, keeping the earlier records as they were (-1) |
| Mutators.UpsertEffect | fru.c:359-376 | an update rewrites the first record of the type in the input, changing only its data and length; otherwise the appended record (format 2, flagged last) carries them; every other record is unchanged |
| Mutators.UpsertIdempotent | fru.c:359-376 | repeating an update with the same value finds the record and changes nothing |
| Mutators.UpsertKeepsShape | fru.c:369-375 | an update keeps at most eight records, all encodable when the new payload is |
| Mutators.CString | fru.c:354 | `strlen`: the bytes before the first NUL |
| Mutators.StoreString | fru.c:354-357 | the length is `strlen` capped at the capacity; the buffer holds that many bytes of the string, then zeros |
| Mutators.UpdateMac | fru.c:338-349 | the cached MAC is always replaced; returns 0 exactly when a MAC record exists, otherwise -1 and the records are unchanged |
| Mutators.UpdateMacEffect | fru.c:342-346 | only the first MAC record changes, and only in its data: type, format, length and end flag are kept |
| Mutators.UpdateBootdevice | fru.c:351-377 | the cached boot device holds the string truncated to 32 bytes; 0 exactly when a boot device record exists, else one is appended (-1); the first record of the type then sends exactly that string with its length, and no other record changes |
| Mutators.UpdatePasswdLine | fru.c:379-404 | as the boot device, with the password buffer's capacity: the cache, the return code, the record sending the truncated string, no other record changed |
| Mutators.UpdateTestOk | fru.c:406-428 | the cached flag holds the value; 0 exactly when a test-ok record exists, else one is appended (-1); that record then sends exactly the one byte, and no other record changes |
| Mutators.UpdatePowerPolicy | fru.c:430-452 | the cached policy holds the value; 0 exactly when a power policy record exists, else one is appended (-1); that record then sends exactly the one byte, and no other record changes |
| Mutators.StringUpdateReadBack | fru.c:354-364 | after a string update the record sends exactly the string truncated to capacity |
| Mutators.ByteUpdateReadBack | fru.c:409-416 | after a one-byte update the record sends exactly that byte |
| Image.Extract | fru.c:470-491 | a record changes only its field: the MAC gets the first six payload bytes, a string field the record's length capped at its capacity and zeros after, a byte field the first payload byte |
| Image.ExtractAll | fru.c:470-491 | the loop over all records keeps every cached buffer at its declared size |
| Image.ExtractTouchesOneField | fru.c:471-490 | a record writes only the field its type selects |
| Image.ExtractOverwrites | fru.c:474-480 | a record overwrites its field completely, whatever was there before |
| Image.NoMatchKeeps | fru.c:470-491 | a field that no record selects keeps its value |
| Image.LastMatchWins | fru.c:470-491 | a field ends up holding the value of the last record that selects it |
| Image.OpenParse | fru.c:467-469 | opening fails exactly when decoding fails; otherwise it yields the decoded document with the cache filled |
| Image.OpenParseFields | fru.c:467-491 | an opened image holds the records decoded at the header's offset and the cache those records fill |
| Image.UpdateMrecImage | fru.c:500-505 | fails (-1) exactly when the records do not fit before the end of the EEPROM; otherwise the bytes before the area are the image's, then the encoded records, then the output buffer's previous contents |
| Image.SpliceRoundTrip | fru.c:500-502 | a spliced image keeps its header, and decoding from the area offset gives back the records written |
| Image.ReopenSeesUpdate | fru.c:467-502 | reopening a spliced image yields the records written, and each field holds the value of the last record that selects it |
| Image.BootdeviceReadBack | fru.c:351-377 | the boot device record a mutator leaves, once encoded and decoded, fills the field with exactly the buffer the mutator cached |
| Image.TestOkReadBack | fru.c:406-428 | the test-ok record a mutator leaves, once encoded and decoded, sets the flag to the value the mutator cached |
| Image.ReopenSeesBootdevice | fru.c:351-377 | updating the boot device, writing the records and reopening the image gives the records written and, when no later record feeds the field, the boot device buffer the mutator stored |

## Left out

- Device I/O is not modelled: the sysfs file and I2C bus reads and writes, `udelay`, and the -1/-2/-3 returns they cause in `fru_open_parse` and `fru_update_mrec_eeprom`. The image is a parameter and the function returns the bytes to write.
- Short reads are not modelled: `fru_open_parse` ignores the count `fread` returns, and the model takes the image as complete.
- Printing is not modelled (`print_board_area`, `print_product_area`, the debug dumps and logging): it has no effect on state.
- The `mitxfru-tool.c` command line is not part of this model.
- `header_cs_ok` and `cs_ok` of `struct multirec` are left out. `cs_ok` is never written, and `header_cs_ok` is only set on the way to a return value the model already reports.
- Image.Extract: a payload shorter than the copy (6 MAC bytes, 1 byte for test-ok and power policy) is zero-filled, and the contract states the copied bytes only when the payload holds them. The C copies the image bytes that follow the payload instead: a decoded record's `data` points at its byte 5 inside the image buffer (fru.c:267), so the copy takes the start of the next record, or the bytes after the record area, as the image holds them.
- Mutators.Upsert: requires a free slot when no record of the type exists, because the C writes `mrec[mrec_count]` with no bound check and would write past the eighth record.
- Mutators.UpdateMac: requires exactly six MAC bytes; the C copies six bytes from the pointer whatever it points at.
- Mutators.UpdateMac: keeps the record's stored length. When that length exceeds six, the C encoder reads past the cached MAC; the model's record is then no longer encodable, and the model states nothing about those extra bytes.
- Mutators.UpdatePowerPolicy: takes the policy as the byte the record sends, the low byte of the enum value on a little-endian target; the enum itself is not modelled.
- Multirecords.MkMultirecordsArea: requires each record's length below 256 with that many data bytes. The C passes the length through a `uint8_t` parameter, which would truncate it.
- Multirecords.MkMultirecord: the size test uses unbounded integers. The C computes `buf_size - size` in `unsigned int` and converts it to `int`, which agrees for buffers below 2^31 bytes.
- Aliasing between records and the cached fields is not modelled: in the C, a record updated by a mutator points at the cached field, so a later change to the field changes the record. The model copies the value at the time of the update.
- Document.ParseFru: a read outside the buffer is reported as `OutOfRange` rather than left undefined. This includes an area offset past the end, where the C's `buf_len - offset` wraps around as an unsigned value.
