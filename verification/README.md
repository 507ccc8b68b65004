# Travel agency booking decoder — a Dafny model

This project models the core of a small C++ travel-agency program: the
decoder that loads a catalog of bookings from one of two file formats, and
the booking data model it fills.

- **Text format.** A JSON document whose root is an array of booking
  objects, or an object with a `"bookings"` array. `TravelAgency::readFile`
  takes the parsed tree, re-scans the raw text to find the line of each
  array element, and then validates and appends the elements in order.
- **Binary format.** A stream of fixed-width records. Each starts with a
  one-byte tag (`F`, `H`, `R`, `T`), a 38-byte id, an 8-byte price and two
  8-byte dates, followed by the fields of the variant. A train record ends
  with a 32-bit via-station count and that many 15-byte station names.
  `TravelAgency::readBinaryFile` decodes records until the stream ends or a
  record fails.
- **Shared parts.** The closed `Booking` variant type (flight, hotel, rental
  car, train), the catalog with `addBooking` / `clear` / `existsId`, and
  the string helpers `trimSpaces`, `isAirportCode`, `formatDate` and
  `joinStrings`.

Everything is a pure function over values. A load never throws: it returns
a `Load(catalog, failure)`. `catalog` is what the agency holds afterwards,
including the bookings appended before a failure. `failure` is the error
that stopped the load, if any. Errors are kinds (`MissingField(key)`,
`DuplicateId(id)`, `UnexpectedEof`, …). Text errors carry the element's
line number.

Modules, one per file:

| module | file | models |
|---|---|---|
| `Results` | results.dfy | `Result`/`Option` with early return |
| `Numbers` | numbers.dfy | the 8-byte `double` image and its finiteness test; little-endian `int32` |
| `Strings` | strings.dfy | `trimSpaces`, `isAirportCode`, `formatDate`, `joinStrings` |
| `Bookings` | bookings.dfy | the four booking variants; `getId`/`getPrice` are the `id`/`price` destructors |
| `Catalog` | catalog.dfy | `addBooking`, `clear`, `existsId` |
| `Errors` | errors.dfy | error kinds and the load outcome |
| `Json` | json.dfy | the parsed JSON value; `requireString`, `requirePrice`, `requireStringArray` |
| `Scanner` | scanner.dfy | `extractTopLevelArrayObjects` (with its loop invariant), `computeLineNumber` |
| `TextDecoder` | text_decoder.dfy | `readFile` after parsing |
| `BinaryDecoder` | binary_decoder.dfy | `readBinaryFile` over bytes |
| `BinaryEncoder` | binary_encoder.dfy | a writer for the binary format, so that round trips can be stated (the program has no writer) |
| `BinaryFraming` | binary_framing.dfy | a truncated record fails with an end-of-file error |

Behaviour of the code worth noting:

- **Parse errors.** The program writes the parser's byte offset where other
  messages put a line number (src/TravelAgency.cpp:170-171). The model
  keeps that offset: `ParseFailure(byteOffset)`.
- **Order of checks.** `readFile` reads type, price and both dates before
  it dispatches on the type. An unknown type is therefore reported only
  after those have passed.
- **Clearing.** The previous catalog is cleared only after the parse and
  root-shape checks. A failure in either leaves the previous catalog as it
  was.
- **JSON strings are not trimmed.** Only the empty string is refused.
- **The binary path checks less.** Only the id must be non-empty after
  trimming. Airport codes are not validated, and every other field may be
  empty.

## Model

| member | source | states |
|---|---|---|
| Strings.TrimSpaces | src/Booking.cpp:87-94 | the result has no leading or trailing space, is no longer than the input, and is empty exactly when the input is all spaces |
| Strings.TrimSpacesRemovesOnlySpaces | src/Booking.cpp:87-94 | the result is one contiguous piece of the input, and everything outside it is a space |
| Strings.TrimSpacesOfTrimmed | src/Booking.cpp:87-94 | a string without leading or trailing spaces is its own trim |
| Strings.TrimSpacesIdempotent | src/Booking.cpp:87-94 | trimming twice is trimming once |
| Strings.TrimSpacesOfPadded | src/Booking.cpp:87-94 | trimming undoes right padding with spaces, which is how fixed-width binary fields are stored |
| Strings.IsAirportCode | src/Booking.cpp:96-101 | true exactly for three characters that are all ASCII letters |
| Strings.AirportCodeExamples | src/Booking.cpp:96-101 | `LHR`, `lhr` and `ABC` pass; `xx1`, `ABCD`, `ab` and `AB3` fail |
| Strings.FormatDate | src/Booking.cpp:63-68 | an input of any length other than 8 comes back unchanged; an 8-character one becomes 10 characters with dots at positions 2 and 5 |
| Strings.FormatDateRoundTrip | src/Booking.cpp:63-68 | reading `DD.MM.YYYY` back gives the original `YYYYMMDD`: no character is lost or moved out of its group |
| Strings.JoinStrings | src/Booking.cpp:76-85 | empty list gives `""`, a single value gives itself, and in general the length is the sum of the lengths plus (n-1) separators |
| Strings.JoinStringsLayout | src/Booking.cpp:76-85 | each value appears unchanged at its offset, in order, with the separator just before every value but the first |
| Bookings.TypeName | src/TravelAgency.cpp:210-238 | each variant has one of the four text discriminators |
| Bookings.Tag | src/TravelAgency.cpp:301-341 | each variant has one of the four binary tags |
| Bookings.DiscriminatorsAreInjective | include/Booking.h:17-87 | the hierarchy is closed: two bookings share a name exactly when they share a tag, exactly when they are the same variant |
| Catalog.Clear | src/TravelAgency.cpp:391-393 | the catalog is empty |
| Catalog.AddBooking | src/TravelAgency.cpp:153-155 | appends at the end and keeps every earlier booking in place |
| Catalog.ExistsId | src/TravelAgency.cpp:395-402 | true exactly when some booking of the catalog has the id |
| Catalog.ExistsIdInCleared | src/TravelAgency.cpp:391-402 | no id is known after a clear |
| Catalog.ExistsIdAfterAdd | src/TravelAgency.cpp:395-402 | after an append, an id is known exactly when it was known before or is the new booking's |
| Catalog.AddKeepsDistinct | src/TravelAgency.cpp:200-203 | appending only bookings with unknown ids keeps ids pairwise distinct |
| Json.RequireString | src/TravelAgency.cpp:100-113 | succeeds exactly when the key holds a non-empty string, which it returns unchanged; otherwise the first of missing, not a string, empty |
| Json.RequirePrice | src/TravelAgency.cpp:115-127 | succeeds exactly on a finite number under `price`; otherwise the first of missing, not a number, not finite |
| Json.RequireStringArray | src/TravelAgency.cpp:129-145 | succeeds exactly on an array of strings and returns the entries in order; otherwise missing, not an array, or a non-string entry |
| Json.RequireStringOfStored | src/TravelAgency.cpp:108-112 | a non-empty string stored under a key is read back unchanged |
| Json.RequireStringArrayOfStored | src/TravelAgency.cpp:137-144 | stored strings are read back, same length and order |
| Numbers.NonFiniteBytes | src/TravelAgency.cpp:293-296 | a price is non-finite exactly when all eleven exponent bits are set |
| Numbers.FiniteExamples | src/TravelAgency.cpp:293-296 | 1.0 and the largest double are finite; +infinity and a NaN are not |
| Numbers.DecodeInt32 | src/TravelAgency.cpp:269-276 | the count is a 32-bit integer, negative exactly when the top bit of the last byte is set |
| Numbers.DecodeInt32IsModular | src/TravelAgency.cpp:269-276 | the value agrees with the unsigned reading of the four bytes modulo 2^32 |
| Numbers.Int32RoundTrip | src/TravelAgency.cpp:269-276 | every 32-bit integer written and read back is itself |
| Scanner.ExtractTopLevelArrayObjects | src/TravelAgency.cpp:22-88 | the ranges are ordered and disjoint; each goes from a `{` that opens an element at array depth one, outside strings, to the `}` that balances it, with no other element-opening `{` between the two; there is exactly one range per such closing position |
| Scanner.ScanInvariant | src/TravelAgency.cpp:31-85 | the loop invariant holds after every prefix of the text |
| Scanner.StepKeepsInvariant | src/TravelAgency.cpp:32-84 | one character of the loop body keeps the invariant |
| Scanner.StringBodyIsInert | src/TravelAgency.cpp:33-48 | inside a string, a body made of escaped characters and non-quotes leaves the state unchanged, so the braces and brackets in it count for nothing |
| Scanner.QuotedStringIsInert | src/TravelAgency.cpp:33-49 | a whole quoted string, including one holding `\"`, leaves the state outside strings unchanged |
| Scanner.BackslashOutsideStringIsSkipped | src/TravelAgency.cpp:37-42 | a backslash outside a string changes nothing |
| Scanner.ComputeLineNumber | src/TravelAgency.cpp:90-98 | one plus the number of newlines before the position, or before the end when the position lies beyond it; always at least 1 |
| Scanner.LineNumberMonotone | src/TravelAgency.cpp:90-98 | a later position never has an earlier line |
| Scanner.LineNumberStep | src/TravelAgency.cpp:92-96 | moving one character forward raises the line by one exactly when that character is a newline |
| TextDecoder.BookingsNode | src/TravelAgency.cpp:174-183 | the bookings are the root array, or else the root object's `bookings` array; no other shape is accepted |
| TextDecoder.FitRanges | src/TravelAgency.cpp:185-188 | the ranges are cut or padded with `{0, 0}` to the element count |
| TextDecoder.ElementLines | src/TravelAgency.cpp:185-194 | every element gets a line, and every line is at least 1 |
| TextDecoder.ElementLinesFromScan | src/TravelAgency.cpp:185-194 | an element with a scanned range gets the line of its `{`; any other element gets line 1 |
| TextDecoder.DecodeBooking | src/TravelAgency.cpp:196-239 | a booking it yields is described field by field by the element and has an unknown id; every error is located at the element's line; a non-object fails as such |
| TextDecoder.DecodeBookingRefusesKnownIds | src/TravelAgency.cpp:200-203 | the element decoder never yields a booking whose id the catalog holds |
| TextDecoder.DecodeBookingComplete | src/TravelAgency.cpp:196-239 | every element that describes a booking with a new id decodes to exactly that booking (the converse of the above) |
| TextDecoder.DuplicateIdRejected | src/TravelAgency.cpp:200-203 | a known id is refused, and the error names it |
| TextDecoder.UnknownTypeReportedLast | src/TravelAgency.cpp:205-238 | an unknown type is reported exactly when shape, id, type, price and both dates have all passed |
| TextDecoder.BadAirportRejected | src/TravelAgency.cpp:211-215 | a flight with a present airport that is not three letters is refused as an airport error |
| TextDecoder.DecodeElements | src/TravelAgency.cpp:192-240 | the loop appends one booking per decoded element, in order, against the bookings before it; it stops at the first failing element and keeps what came before; ids stay distinct |
| TextDecoder.ReadFile | src/TravelAgency.cpp:167-240 | a parse error or a wrong root shape leaves the previous catalog untouched; otherwise the catalog holds distinct ids and is complete exactly when there is no failure, and every failure has a line of at least 1 |
| TextDecoder.ReadFileDecodesInOrder | src/TravelAgency.cpp:190-240 | booking k is element k decoded against bookings 0..k-1; on failure, the element after the last booking is the one that failed, at its line |
| TextDecoder.ErrorAtOpeningBraceLine | src/TravelAgency.cpp:185-198 | when the scan finds one range per element, a failure is reported at the line that holds the failing element's `{` |
| TextDecoder.ReadFileIgnoresPrior | src/TravelAgency.cpp:190 | once the shape is right, the previous catalog plays no part |
| TextDecoder.ReloadIsIdempotent | src/TravelAgency.cpp:157-241 | loading the same document twice gives the same catalog and outcome |
| TextDecoder.EmptyArrayLoadsNothing | src/TravelAgency.cpp:175-192 | an empty array loads an empty catalog without error |
| BinaryDecoder.ReadFixedString | src/TravelAgency.cpp:251-258 | a field of n bytes is the trim of those bytes, read from the front; fewer than n bytes is an end-of-file error |
| BinaryDecoder.FixedStringExamples | src/TravelAgency.cpp:251-258 | only spaces are trimmed, at both ends: a NUL byte stays in the value, an all-space field reads as empty, and a short input fails at end of file |
| BinaryDecoder.ReadDouble | src/TravelAgency.cpp:260-267 | the price is the next 8 bytes; fewer is an end-of-file error |
| BinaryDecoder.ReadInt32 | src/TravelAgency.cpp:269-276 | the count is the next 4 bytes; fewer is an end-of-file error |
| BinaryDecoder.ReadFields | src/TravelAgency.cpp:298-326 | text fields back to back: succeeds exactly when the bytes cover all widths, and yields one value per width |
| BinaryDecoder.ReadFieldsLayout | src/TravelAgency.cpp:251-258 | value i is the trim of the bytes that start at the sum of the widths before it and run for width i |
| BinaryDecoder.ReadStations | src/TravelAgency.cpp:331-335 | `count` stations take exactly 15·count bytes, and station i is the trim of bytes 15·i to 15·i+15 |
| BinaryDecoder.ReadVia | src/TravelAgency.cpp:327-335 | succeeds exactly when the first 4 bytes hold a count n that is not negative and 4 + 15·n bytes are there; then there are n stations, station i is the trim of bytes 4+15·i to 19+15·i, and reading stops right after them; a negative count is refused as such, anything else is end of file |
| BinaryDecoder.NegativeCountRefused | src/TravelAgency.cpp:327-330 | a count with the sign bit set is refused |
| BinaryDecoder.ReadCommon | src/TravelAgency.cpp:285-299 | the common part takes 63 bytes and yields a non-empty unknown id and a finite price; the id is the trim of bytes 1..39, the price is bytes 39..47, the dates the trims of bytes 47..55 and 55..63; fewer than 39 bytes is an end-of-file error |
| BinaryDecoder.ReadCommonErrors | src/TravelAgency.cpp:285-296 | a short record fails at end of file, an empty id as empty, a known id as duplicate, a non-finite price as such, in that order |
| BinaryDecoder.ReadCommonAccepts | src/TravelAgency.cpp:285-299 | once the id is non-empty and new and the price finite, the common part succeeds exactly when all 63 bytes are there, and fails at end of file otherwise |
| BinaryDecoder.ReadVariant | src/TravelAgency.cpp:301-341 | a variant keeps the common fields and the tag, and takes its fixed width; an unknown tag is refused naming the byte |
| BinaryDecoder.ReadVariantLayout | src/TravelAgency.cpp:301-336 | every field of a decoded variant is the trim of its bytes at its offset: a flight's airports at 0 and 3 and airline at 6; a hotel's name and city at 0 and 15; a car's pick-up, drop-off and company at 0, 15 and 30; a train's stations at 0 and 15, times at 30 and 35, and via count at 40 with station i at 44+15·i |
| BinaryDecoder.ReadVariantAccepts | src/TravelAgency.cpp:301-336 | a known tag succeeds exactly when the bytes cover its fields and, for a train, the via part reads, whatever the field bytes are; a failure is end of file or the via part's own error |
| BinaryDecoder.DecodeRecord | src/TravelAgency.cpp:279-341 | a record takes exactly its width, starts with its tag, and has an id the catalog does not hold |
| BinaryDecoder.DecodeRecordLayout | src/TravelAgency.cpp:279-336 | a decoded record is its tag byte, then id, price and dates at bytes 1, 39, 47 and 55, then every variant field at its offset counted from byte 63 |
| BinaryDecoder.DecodeRecordAccepts | src/TravelAgency.cpp:279-341 | a record with a known tag, a new non-empty id and a finite price is accepted exactly when its bytes cover the variant's fields and, for a train, the via part reads: no other field is checked |
| BinaryDecoder.RecordWidths | src/TravelAgency.cpp:285-338 | a flight takes 84 bytes, a hotel 93, a rental car 108, a train 107 + 15 per via station |
| BinaryDecoder.DecodeRecordIsCommonThenVariant | src/TravelAgency.cpp:285-341 | a decoded record is the common part followed by the variant |
| BinaryDecoder.UnknownTagReportedAfterCommon | src/TravelAgency.cpp:340-341 | an unknown tag is reported exactly when id, price and dates have been read and passed |
| BinaryDecoder.DecodeRecordProperties | src/TravelAgency.cpp:278-343 | the record reader consumes bytes and never accepts a known id |
| BinaryDecoder.ReadRecords | src/TravelAgency.cpp:278-343 | the loop keeps the earlier catalog as a prefix and appends records decoded one after another |
| BinaryDecoder.DecodesDetermineLoad | src/TravelAgency.cpp:278-343 | any account of the stream as records followed by an outcome is exactly what the loop returns |
| BinaryDecoder.DecodesKeepsDistinct | src/TravelAgency.cpp:289-291 | the loop keeps ids pairwise distinct |
| BinaryDecoder.DecodesWidth | src/TravelAgency.cpp:278-283 | a load without failure ends exactly on a record boundary |
| BinaryDecoder.ReadBinaryFile | src/TravelAgency.cpp:243-344 | starts from an empty catalog, decodes records in order with distinct ids, and succeeds only on an input made of whole records |
| BinaryDecoder.EmptyFileLoadsNothing | src/TravelAgency.cpp:278 | an empty file loads an empty catalog without error |
| BinaryDecoder.BinaryLoadIsDetermined | src/TravelAgency.cpp:249-343 | the load is the unique decomposition of the stream into records and an outcome |
| BinaryEncoder.ReadPadded | src/TravelAgency.cpp:251-258 | a trimmed value padded to its width is read back unchanged |
| BinaryEncoder.ReadEncodedVia | src/TravelAgency.cpp:327-335 | a written count and stations are read back in order |
| BinaryEncoder.ReadEncodedRecord | src/TravelAgency.cpp:285-341 | a written record with a new id decodes to the same booking and leaves the rest of the stream |
| BinaryEncoder.BinaryRoundTrip | src/TravelAgency.cpp:243-344 | writing bookings with distinct ids and loading the file gives back the same bookings, in order, without failure |
| BinaryEncoder.SingleRecordLoads | src/TravelAgency.cpp:278-343 | a file of one record loads that record |
| BinaryEncoder.BinaryLeavesFieldsUnchecked | src/TravelAgency.cpp:302-307 | a flight with a non-letter airport and empty dates and airline can be written, a file of that one record loads it without failure, and no JSON element decodes to it for any catalog or line (the text path checks airports at lines 211-215) |
| BinaryEncoder.EncodedRecordRefusedWhenKnown | src/TravelAgency.cpp:289-291 | a record whose id is already loaded is refused as a duplicate |
| BinaryEncoder.RepeatedRecordRefused | src/TravelAgency.cpp:289-291 | a record written twice loads once, then fails as a duplicate |
| BinaryFraming.FixedStringCutAt | src/TravelAgency.cpp:251-258 | on a shorter prefix, a text field reads the same or reports end of file |
| BinaryFraming.FieldsCutAt | src/TravelAgency.cpp:298-326 | on a shorter prefix, a run of fields reads the same or reports end of file |
| BinaryFraming.ViaCutAt | src/TravelAgency.cpp:327-335 | on a shorter prefix, the via part reads the same or reports end of file |
| BinaryFraming.ReadCommonCut | src/TravelAgency.cpp:285-299 | on a shorter prefix, the common part reads the same or reports end of file |
| BinaryFraming.VariantCutAt | src/TravelAgency.cpp:301-341 | on a shorter prefix, the variant part reads the same or reports end of file |
| BinaryFraming.TruncatedRecordFails | src/TravelAgency.cpp:251-338 | any shortfall inside a record is an end-of-file error: a record that decodes from some bytes fails that way on every shorter prefix |

## Left out

- File opening and reading, and the open-failure error: the decoders take the text and the bytes as values.
- The JSON parser: `readFile` takes its outcome as an input, either the parsed tree or the reported byte offset. Parser behaviour on duplicate keys and number syntax is therefore outside the model.
- Floating point: a price is the 8-byte image of a `double`. Finiteness is the IEEE-754 test on the exponent bits, and nothing is computed with prices.
- Byte order: the program reads the `double` and the `int32` in the host's order. The model fixes little-endian.
- `formatPrice`, `showDetails`, `printAllDetails`, `printStatistics` and the menu in src/main.cpp: console output and float formatting.
- Message strings: the model keeps the error kind, the field or id it names, and the line for text errors.
- `std::isalpha` locale: letters are the ASCII letters.
- Ownership: `unique_ptr`, destructors and the destructor's `clear()` have no counterpart in a value model.
- `viaStations.reserve(count)` with a huge count can throw an allocation error before the stations are read. The model only reads the stations, so a huge count fails at end of file.
- Scanner.ExtractTopLevelArrayObjects: array and brace depths are unbounded integers; the `int` overflow after 2^31 nested brackets is not modelled.
- Characters of binary fields: a byte becomes the character with the same code (0-255); the signedness of `char` plays no part because only the space character is compared.
- BinaryDecoder.ReadFields: its own contract gives the count and the rest of the input; the value of each field at its offset is stated by `BinaryDecoder.ReadFieldsLayout`, kept apart so the proofs that use the reader stay small.
- BinaryDecoder.ReadVariant: its own contract gives the tag, the common part and the width; the value of every variant field is stated by `BinaryDecoder.ReadVariantLayout`, for the same reason.
- BinaryDecoder.DecodeRecord: its own contract gives the width, the tag and the id check; the value of every field of the record is stated by `BinaryDecoder.DecodeRecordLayout`, for the same reason.
- Text positions: the text is a sequence of characters, while the program indexes the bytes of its UTF-8 text. Line numbers agree because no byte of a multi-byte UTF-8 character is a quote, a backslash, a bracket, a brace or a newline; the byte offset of a parse error is taken as given.
- The writer: the program has none. The encoder exists only to state round trips, and it writes only values that fit their fields and are already trimmed.
