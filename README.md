# Employee database: header, records and the add string, in Dafny

A model of `src/parse.c`, the storage core of a small command-line employee
database. A database file holds a 12-byte header followed by `count`
fixed-width employee records:

- the header is the magic number, the version, the count and the file size;
- a record is a 256-byte name, a 256-byte address and a 4-byte number of hours;
- every number is stored in network byte order.

The core does five things, and the model has one member for each:

- `create_db_header` builds a new header: `Parse.Database.Create`.
- `validate_db_header` reads the header back from offset 0 and checks it: `Parse.Database.Validate`.
- `read_employees` reads the records after the header into an array with one spare slot: `Parse.Database.ReadEmployees`.
- `add_employee` parses `"name,address,hours"` into that spare slot with `strtok`, `strncpy` and `atoi`: `Parse.Database.AddEmployee`.
- `output_file` recomputes the file size and writes the header and the records from offset 0: `Parse.Database.OutputFile`.

`list_employees` is modelled as the sequence of rows it prints.

Modules:

- `Bytes`: fixed-width unsigned integers and the `htonl`/`htons`
  encodings with their inverses.
- `Format`: the on-disk layout, as pure functions.
  - It encodes and decodes the header, one record and a whole file image.
  - `CheckHeader` gives the verdict of the validator on a file's bytes.
  - `LoadEmployees` gives the records that the reader finds at an offset.
- `Text`: the C string routines the add string goes through.
  - `strtok` with the delimiter `","` is `StrTok`, which resumes at a saved position.
  - Its reference definition is `Tokens`, the non-empty comma-separated fields.
  - `strncpy` into a zeroed field is `CopyField`.
  - `atoi` is `Atoi`, and the `(unsigned int)` cast is `ToUnsigned`.
- `Store`: the file behind the descriptor, as the class `DbFile`.
  - It holds the bytes and the offset, and has `lseek(fd, 0, SEEK_SET)`, `read` and `write`.
  - A write may be short.
  - A write overwrites and extends the file but never truncates it (`Overwrite`).
- `Parse`: the class `Database`.
  - It holds the header fields (`struct dbheader_t`, updated in place) and the employee array.
  - Its methods are the five operations and the listing.
  - Each method is proved against the `Format` and `Text` functions.
  - The lemmas about those functions carry the round trips.
- `Scenarios`: the `-n` and `-a` actions of `src/main.c` as client methods, and a few concrete add strings.
  - One of them is the example add string of the usage text, `"name=John,address=123 Main,hours=40"`.
  - The parser splits it on commas only, so the keys stay in the stored name and address.
  - `atoi("hours=40")` is 0, so the employee is stored with 0 hours.

## Model

| member | source | states |
|---|---|---|
| Bytes.Be16RoundTrip | src/parse.c:54-57 | ntohs undoes htons for every 16-bit value |
| Bytes.FromBe16RoundTrip | src/parse.c:190-193 | any two bytes read are the htons encoding of the value ntohs makes of them |
| Bytes.Be32RoundTrip | src/parse.c:54-57 | ntohl undoes htonl for every 32-bit value |
| Bytes.FromBe32RoundTrip | src/parse.c:190-193 | any four bytes read are the htonl encoding of the value ntohl makes of them |
| Bytes.Be32MostSignificantFirst | src/parse.c:190 | htonl's four bytes are v / 2^24, v / 2^16 mod 256, v / 2^8 mod 256 and v mod 256, in that order, so the first is zero exactly when v < 2^24 |
| Format.HeaderRoundTrip | src/parse.c:189-193 | decoding the 12 header bytes output_file writes gives back magic, version, count and filesize |
| Format.EmployeeRoundTrip | src/parse.c:204-206 | decoding a written record (name, address, hours in network order) gives back the record |
| Format.EncodeEmployeesLayout | src/parse.c:202-213 | the records follow each other without padding: record k occupies bytes k*516 up to (k+1)*516 |
| Format.EncodeEmployeesSnoc | src/parse.c:203-208 | writing one more record appends exactly its 516 bytes |
| Format.EncodeEmployeesPrefix | src/parse.c:202-213 | the bytes of the first j records are a prefix of the bytes of all of them |
| Format.PartialRecordPrefix | src/parse.c:202-210 | after the header, the first i records and the start of record i are a prefix of the header followed by all the records |
| Format.ImageLength | src/parse.c:179-180 | the recomputed filesize is exactly the number of bytes output_file writes |
| Format.CheckHeaderVerdicts | src/parse.c:46-70 | the validator fails exactly on a short read, a wrong magic, or a version other than 1, in that order, and otherwise returns the decoded header |
| Format.CheckHeaderIgnoresCountAndSize | src/parse.c:59-70 | the verdict depends only on the magic and version bytes: count and filesize are not checked |
| Format.LoadEmployees | src/parse.c:89-99 | a successful load gives exactly `count` records, each with the fixed field widths |
| Format.LoadEmployeesStep | src/parse.c:90-99 | reading one more record extends the records read so far by that record decoded, with hours converted by ntohl |
| Format.LoadEmployeesShort | src/parse.c:91-95 | a record cut short by the end of the file makes the whole load fail |
| Format.ImageRoundTrip | src/parse.c:189-213 | what output_file writes validates to the same header and reloads to the same records, whatever bytes follow it |
| Format.NewImageValidates | src/parse.c:19-22 | a new header written alone validates, with count 0, no records, and a filesize equal to the bytes written |
| Store.Overwrite | src/parse.c:195 | a write at the offset replaces the bytes there, extends the file past its end and leaves the rest unchanged |
| Store.WritesCompose | src/parse.c:203-213 | two consecutive writes leave the file as one write of both |
| Store.OverwriteFromStart | src/parse.c:183-195 | writing from offset 0 leaves the written bytes followed by what lay beyond them |
| Store.DbFile.Rewind | src/parse.c:183-186 | lseek to 0 moves the offset and nothing else |
| Store.DbFile.Read | src/parse.c:46-47 | read returns the bytes from the offset up to n or the end of the file, and advances the offset by that many |
| Store.DbFile.Write | src/parse.c:195-196 | write stores a prefix of the buffer at the offset, reports how much, and advances the offset by that much |
| Text.StrTok | src/parse.c:139 | a token returned is non-empty and comma-free, and the resume position moves past it |
| Text.StrTokIsNextToken | src/parse.c:148 | strtok returns the first of the remaining non-empty comma-separated fields, resumes after it, and returns NULL exactly when none remain |
| Text.StrTokFinds | src/parse.c:139 | strtok skips the leading commas and returns the run up to the next comma, which it consumes |
| Text.StrTokExhausted | src/parse.c:157-158 | where only commas remain, strtok returns NULL |
| Text.ThreeCalls | src/parse.c:139-157 | the three strtok calls of add_employee return the first three tokens, and each returns NULL exactly when fewer tokens exist |
| Text.CopyField | src/parse.c:145 | the field has the field's width and holds the token's first min(len, width - 1) bytes followed by zero bytes to the end |
| Text.CopyFieldTruncates | src/parse.c:145 | the field ends in a zero byte, and as a C string it is the token cut to width - 1 bytes, or the whole token when it fits |
| Text.AtoiOfDecimal | src/parse.c:163 | atoi reads back the decimal text of any number, whatever non-digit text follows it |
| Text.AtoiOfNonNumeric | src/parse.c:163 | text that starts with no white space, sign or digit reads as 0 |
| Text.AtoiOfMinus | src/parse.c:163 | a minus sign followed by digits reads as the negated value of the digits |
| Text.AtoiNegative | src/parse.c:163 | a negative number of hours is stored as its two's-complement 32-bit pattern |
| Text.ToUnsignedOfNegative | src/parse.c:163 | the (unsigned int) cast maps -n to 2^32 - n |
| Parse.HoursOfDecimal | src/parse.c:163 | hours written as a decimal number below 2^32 are stored as that number |
| Parse.ParseSpecByTokens | src/parse.c:135-163 | the add succeeds exactly when the string has at least three non-empty fields; it takes the first three and ignores the rest, and otherwise names the first missing field and leaves the partly filled slot |
| Parse.ParseThreeFields | src/parse.c:139-163 | three comma-free fields separated by runs of commas parse to those fields, truncated, with the hours as atoi reads them |
| Parse.ParseJoined | src/parse.c:128-163 | "name,address,hours" with three non-empty comma-free fields adds exactly that employee |
| Parse.ParseTwoFields | src/parse.c:156-162 | two fields only are rejected for the missing hours, with name and address already in the slot |
| Parse.ParseSpec | src/parse.c:135-163 | the slot add_employee writes always has the record's fixed widths, whether or not the add succeeds |
| Parse.AddedRow | src/parse.c:115-119 | an added employee lists with the name and address as given, each cut to its width less one, and the hours as atoi read them |
| Parse.PersistThenReload | src/parse.c:189-213 | saving over any old file, then validating and loading, gives back the same header and records |
| Parse.WriteNextRecord | src/parse.c:203-213 | after the header and records 0..i-1, writing record i leaves the file as one write of the header and records 0..i |
| Parse.ShortWriteAt | src/parse.c:203-210 | a short write of record i leaves the file as one write, from offset 0, of a prefix of the header and all records |
| Parse.Database.Zeroed | src/parse.c:34 | a header as calloc leaves it: all fields 0, no array |
| Parse.Database.Create | src/parse.c:12-26 | a new header: HEADER_MAGIC, version 1, count 0, filesize 12 |
| Parse.Database.Validate | src/parse.c:28-74 | an invalid descriptor fails; otherwise the file is read from offset 0 and the result is CheckHeader's verdict on the file, with the decoded header on success; the file is unchanged |
| Parse.Database.ReadEmployees | src/parse.c:76-103 | on success, a fresh array of count + 1 slots holding the records at the offset and a blank spare slot; any short record fails and leaves the array as it was; the header is unchanged |
| Parse.Database.ReadRecords | src/parse.c:90-99 | the loop reads count records in order, stops at the first short read, and leaves the offset after what it read |
| Parse.Database.List | src/parse.c:105-121 | no array lists nothing; otherwise one row per record in use, in storage order, each text field up to its first zero byte, as printf %s shows it |
| Parse.Database.AddEmployee | src/parse.c:123-171 | without an array the add fails; otherwise only the spare slot changes, and the result is ParseSpec's: on success count grows by one and the records gain the parsed record; on failure count stays and the slot holds what was filled so far |
| Parse.Database.OutputFile | src/parse.c:173-217 | filesize becomes 12 + count*516; on success the file starts with the image of the header and records, and the rest of it is unchanged; a short write is reported and leaves the old file overwritten from offset 0 by a prefix of that image, with the offset at the prefix's end |
| Parse.Database.WriteRecords | src/parse.c:202-213 | the loop writes the records in order after the header; the first short write stops it, leaving a prefix of the header and records written from offset 0 |
| Parse.Database.WriteRecord | src/parse.c:203-210 | one pass of the loop either appends record i in full or leaves a prefix of the header and all records written from offset 0 |
| Scenarios.NewFile | src/main.c:131-148 | the -n action on a new empty file leaves exactly the new header in it, which validates |
| Scenarios.AddToFile | src/main.c:167-189 | the -a action fails with the header's error, with a short-record error, or with the add string's error, leaving the file unchanged in each case; with a valid file and an accepted add string it either succeeds or fails with a short write, which leaves the old file overwritten from offset 0 by a prefix of the new image; on success the file validates with count and filesize one record larger and reloads to the old records followed by the new one |
| Scenarios.AddJohn | src/parse.c:139-163 | "John,123 Main,40" adds John at 123 Main with 40 hours |
| Scenarios.AddUsageExample | src/main.c:25 | the usage text's "name=John,address=123 Main,hours=40" stores the keys in the name and address and 0 hours |
| Scenarios.AddWithoutHours | src/parse.c:156-162 | "John,123 Main" is rejected for the missing hours after the name and address are stored |

## Left out

- `src/main.c` is modelled only as the two client methods in `Scenarios`.
  - Option parsing, usage output and file creation and opening are left out.
  - Delete and update are not implemented in the source (they only print a message) and are not modelled.
  - `common.h`, `parse.h` and `file.h` are not part of this model. `HEADER_MAGIC` is the constant 0x4c4c4144, and the name and address widths are 256 each. No proof depends on the magic's value. Every proof depends on the widths only through the record size, 256 + 256 + 4 = 516 bytes.
- Real descriptors and the kernel: `DbFile` is a byte sequence with an offset.
  - A negative descriptor is the null `DbFile`.
  - `lseek` to 0 cannot fail on a regular file and is modelled without an error path.
  - A short `write` is a nondeterministic choice of prefix; a failing `write` (-1) is a short write of nothing.
  - A failing `read` (-1, for example on an I/O error) is not modelled. A read is short only at the end of the file, as on a regular file. The STATUS_ERROR that `validate_db_header` (src/parse.c:46-47) and `read_employees` (src/parse.c:91-92) return for it is therefore not modelled either.
  - `close` is not modelled.
- Allocation failures of `calloc` and `strdup`, and `free`, are not modelled. The null `dbhdr` and null `addstring` checks cannot arise in the model, because headers are objects and strings are values.
- Diagnostics printed with `fprintf`/`printf`/`perror`, and the column formatting of `list_employees`, are left out. The listing is modelled as the rows it prints.
- `output_file` rewinds and writes the new image but never truncates the file, and the model does the same. A file that held more bytes than the new image keeps the extra bytes after it.
- Parse.Database.List: a name or address field with no zero byte in it (possible only in a file written by other means) is cut at the field width. `printf("%s")` (src/parse.c:116-119) would read past the field, which is undefined behaviour.
- Parse.Database.AddEmployee: requires `count < 65535`. At 65535, `dbhdr->count++` (src/parse.c:167) wraps the 16-bit count to 0. The wrap is not modelled.
- Text.Atoi: computes the mathematical value of the digits. A value that does not fit an `int` is undefined behaviour in C. The model reduces that value modulo 2^32 by the `(unsigned int)` cast, with no precondition.
- The `add_employee` string is a byte sequence and the model does not require it to be free of zero bytes. A C string cannot contain one, and Parse.AddedRow requires that the string has none.
