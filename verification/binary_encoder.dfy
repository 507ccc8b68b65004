/**
 The byte layout `readBinaryFile` expects, written out as an encoder: text
 fields left-aligned and padded with spaces to their fixed width, the price
 as its eight binary64 bytes, the via-station count as a little-endian
 32-bit integer. The repository has no writer of its own; this one states
 the format independently of the reader, and the lemmas below show that
 reading what it writes gives back the bookings.
 */
module BinaryEncoder {
  import opened Results
  import opened Numbers
  import opened Strings
  import opened Bookings
  import opened Catalog
  import opened Errors
  import opened BinaryDecoder
  import Json
  import TextDecoder

  const SPACE: byte := 0x20

  /** Every character has a code below 256, so it fits one byte of a `std::string`. */
  predicate Latin1(s: string)
  {
    forall i | 0 <= i < |s| :: s[i] as int < 256
  }

  /** The bytes of a string whose characters each fit one byte. */
  function FromChars(s: string): (bytes: seq<byte>)
    requires Latin1(s)
    ensures |bytes| == |s|
    ensures forall i | 0 <= i < |s| :: bytes[i] as int == s[i] as int
  {
    seq(|s|, i requires 0 <= i < |s| => s[i] as int as byte)
  }

  lemma ToCharsFromChars(s: string)
    requires Latin1(s)
    ensures ToChars(FromChars(s)) == s
  {
    var t := ToChars(FromChars(s));
    forall i | 0 <= i < |s|
      ensures t[i] == s[i]
    {
      assert t[i] as int == s[i] as int;
    }
  }

  /**
   A value a text field of `width` bytes can carry so that reading the field
   gives it back: it fits, every character is one byte, and it has no
   spaces at its ends (the reader trims those away).
   */
  predicate Fits(s: string, width: nat)
  {
    |s| <= width && Latin1(s) && Trimmed(s)
  }

  /** A text field: the value, then spaces up to the width. */
  function Pad(s: string, width: nat): (field: seq<byte>)
    requires Fits(s, width)
    ensures |field| == width
  {
    var padded := s + Spaces(width - |s|);
    assert Latin1(padded);
    FromChars(padded)
  }

  /** Reading a padded field gives back the value and leaves what follows it. */
  lemma ReadPadded(s: string, width: nat, tail: seq<byte>)
    requires Fits(s, width)
    ensures ReadFixedString(Pad(s, width) + tail, width) == Ok(Read(s, tail))
  {
    var padded := s + Spaces(width - |s|);
    var input := Pad(s, width) + tail;
    assert input[..width] == Pad(s, width);
    assert input[width..] == tail;
    assert Latin1(padded);
    ToCharsFromChars(padded);
    TrimSpacesOfPadded(s, width - |s|);
  }

  /** Values that each fit the width at the same position. */
  predicate FitAll(values: seq<string>, widths: seq<nat>)
  {
    |values| == |widths| && forall i | 0 <= i < |values| :: Fits(values[i], widths[i])
  }

  /** Text fields back to back, the first value first. */
  function EncodeFields(values: seq<string>, widths: seq<nat>): (bytes: seq<byte>)
    requires FitAll(values, widths)
    ensures |bytes| == Sum(widths)
    decreases |values|
  {
    if values == [] then []
    else Pad(values[0], widths[0]) + EncodeFields(values[1..], widths[1..])
  }

  /** Reading fields written back to back gives back every value, in order. */
  lemma {:induction false} ReadEncodedFields(values: seq<string>, widths: seq<nat>, tail: seq<byte>)
    requires FitAll(values, widths)
    ensures ReadFields(EncodeFields(values, widths) + tail, widths) == Ok(Read(values, tail))
    decreases |values|
  {
    if values != [] {
      var rest := EncodeFields(values[1..], widths[1..]) + tail;
      assert EncodeFields(values, widths) + tail == Pad(values[0], widths[0]) + rest;
      ReadPadded(values[0], widths[0], rest);
      ReadEncodedFields(values[1..], widths[1..], tail);
      assert [values[0]] + values[1..] == values;
    }
  }

  /** The text fields after the dates, in the order the reader takes them. */
  function VariantValues(b: Booking): (values: seq<string>)
    ensures |values| == |VariantFields(Tag(b)).value|
  {
    match b
    case Flight(_, _, _, _, fromAirport, toAirport, airline) => [fromAirport, toAirport, airline]
    case Hotel(_, _, _, _, hotel, city) => [hotel, city]
    case RentalCar(_, _, _, _, pickup, dropoff, company) => [pickup, dropoff, company]
    case Train(_, _, _, _, fromStation, toStation, departure, arrival, _) =>
      [fromStation, toStation, departure, arrival]
  }

  /**
   A booking the format can carry unchanged: every text field fits its
   width, the id is not empty, the price is finite, and a train's via
   stations can be counted by a signed 32-bit integer.
   */
  predicate Encodable(b: Booking)
  {
    && Fits(b.id, ID_WIDTH) && b.id != ""
    && IsFinite(b.price)
    && Fits(b.fromDate, DATE_WIDTH) && Fits(b.toDate, DATE_WIDTH)
    && FitAll(VariantValues(b), VariantFields(Tag(b)).value)
    && (b.Train? ==> |b.viaStations| < TWO_31 && FitAll(b.viaStations, StationWidths(|b.viaStations|)))
  }

  /** Id, price and dates. */
  function CommonBytes(b: Booking): (bytes: seq<byte>)
    requires Encodable(b)
    ensures |bytes| == COMMON_WIDTH - 1
  {
    FieldWidths();
    Pad(b.id, ID_WIDTH) + b.price + EncodeFields([b.fromDate, b.toDate], DATE_FIELDS)
  }

  /** Everything after the dates: the tag's text fields, and a train's count and stations. */
  function VariantBytes(b: Booking): (bytes: seq<byte>)
    requires Encodable(b)
    ensures |bytes| == Width(b) - COMMON_WIDTH
  {
    FieldWidths();
    EncodeFields(VariantValues(b), VariantFields(Tag(b)).value) +
    if b.Train? then EncodeInt32(|b.viaStations|) + EncodeFields(b.viaStations, StationWidths(|b.viaStations|))
    else []
  }

  /** The record of one booking: its tag byte, the common fields, then its own part. */
  function EncodeRecord(b: Booking): (bytes: seq<byte>)
    requires Encodable(b)
    ensures |bytes| == Width(b)
    ensures bytes[0] == Tag(b)
  {
    [Tag(b)] + CommonBytes(b) + VariantBytes(b)
  }

  /** The common fields written for `b` read back as `b`'s. */
  lemma ReadEncodedCommon(b: Booking, tail: seq<byte>, catalog: Catalog)
    requires Encodable(b) && !ExistsId(catalog, b.id)
    ensures ReadCommon([Tag(b)] + CommonBytes(b) + tail, catalog) == Ok(Read(CommonOf(b), tail))
  {
    FieldWidths();
    var id := Pad(b.id, ID_WIDTH);
    var dates := EncodeFields([b.fromDate, b.toDate], DATE_FIELDS);
    var afterId := b.price + (dates + tail);
    DropFirst(Tag(b), CommonBytes(b), tail);
    AppendAssoc(id + b.price, dates, tail);
    AppendAssoc(id, b.price, dates + tail);
    ReadPadded(b.id, ID_WIDTH, afterId);
    SplitAt(b.price, dates + tail);
    ReadEncodedFields([b.fromDate, b.toDate], DATE_FIELDS, tail);
  }

  lemma DropFirst<T>(x: T, a: seq<T>, b: seq<T>)
    ensures ([x] + a + b)[1..] == a + b
  {
  }

  lemma SplitAt<T>(a: seq<T>, b: seq<T>)
    ensures (a + b)[..|a|] == a && (a + b)[|a|..] == b
  {
  }

  /** The part after the dates written for `b` reads back as `b`. */
  lemma ReadEncodedVariant(b: Booking, tail: seq<byte>)
    requires Encodable(b)
    ensures ReadVariant(Tag(b), CommonOf(b), VariantBytes(b) + tail) == Ok(Read(b, tail))
  {
    var widths := VariantFields(Tag(b)).value;
    var fields := EncodeFields(VariantValues(b), widths);
    if b.Train? {
      var n := |b.viaStations|;
      var via := EncodeInt32(n) + EncodeFields(b.viaStations, StationWidths(n));
      AppendAssoc(fields, via, tail);
      ReadEncodedFields(VariantValues(b), widths, via + tail);
      ReadEncodedVia(b.viaStations, tail);
    } else {
      assert fields + [] == fields;
      ReadEncodedFields(VariantValues(b), widths, tail);
    }
  }

  /** A train's count and stations read back as its via stations. */
  lemma ReadEncodedVia(via: seq<string>, tail: seq<byte>)
    requires |via| < TWO_31 && FitAll(via, StationWidths(|via|))
    ensures ReadVia(EncodeInt32(|via|) + EncodeFields(via, StationWidths(|via|)) + tail) == Ok(Read(via, tail))
  {
    var n := |via|;
    var stations := EncodeFields(via, StationWidths(n)) + tail;
    var input := EncodeInt32(n) + stations;
    ReadEncodedInt32(n, stations);
    ReadEncodedFields(via, StationWidths(n), tail);
    ReadViaOfCount(input, stations, via, tail);
    AppendAssoc(EncodeInt32(n), EncodeFields(via, StationWidths(n)), tail);
  }

  lemma AppendAssoc<T>(a: seq<T>, b: seq<T>, c: seq<T>)
    ensures a + b + c == a + (b + c)
  {
  }

  lemma ReadViaOfCount(input: seq<byte>, stations: seq<byte>, via: seq<string>, tail: seq<byte>)
    requires ReadInt32(input) == Ok(Read(|via|, stations))
    requires ReadFields(stations, StationWidths(|via|)) == Ok(Read(via, tail))
    ensures ReadVia(input) == Ok(Read(via, tail))
  {
  }

  lemma ReadEncodedInt32(n: int, rest: seq<byte>)
    requires IsInt32(n)
    ensures ReadInt32(EncodeInt32(n) + rest) == Ok(Read(n, rest))
  {
    var input := EncodeInt32(n) + rest;
    assert input[..4] == EncodeInt32(n) && input[4..] == rest;
    Int32RoundTrip(n);
  }

  /**
   Reading the record written for `b` gives back `b` and leaves the bytes
   after it, provided the catalog does not hold `b`'s id yet.
   */
  lemma ReadEncodedRecord(b: Booking, tail: seq<byte>, catalog: Catalog)
    requires Encodable(b) && !ExistsId(catalog, b.id)
    ensures DecodeRecord(EncodeRecord(b) + tail, catalog) == Ok(Read(b, tail))
  {
    var input := EncodeRecord(b) + tail;
    assert input == [Tag(b)] + CommonBytes(b) + (VariantBytes(b) + tail);
    ReadEncodedCommon(b, VariantBytes(b) + tail, catalog);
    ReadEncodedVariant(b, tail);
  }

  /** The records of `bs`, one after another. */
  function EncodeAll(bs: seq<Booking>): (bytes: seq<byte>)
    requires forall i | 0 <= i < |bs| :: Encodable(bs[i])
    ensures |bytes| == TotalWidth(bs)
  {
    if bs == [] then [] else EncodeRecord(bs[0]) + EncodeAll(bs[1..])
  }

  /** A stream of encoded records decodes as those bookings, with no failure. */
  lemma {:induction false} EncodedStreamDecodes(bs: seq<Booking>, catalog: Catalog)
    requires forall i | 0 <= i < |bs| :: Encodable(bs[i])
    requires DistinctIds(catalog + bs)
    ensures Decodes(DecodeRecord, EncodeAll(bs), catalog, bs, None)
    decreases |bs|
  {
    if bs != [] {
      var all := catalog + bs;
      assert !ExistsId(catalog, bs[0].id) by {
        forall k | 0 <= k < |catalog|
          ensures catalog[k].id != bs[0].id
        {
          assert all[k] == catalog[k] && all[|catalog|] == bs[0];
        }
      }
      ReadEncodedRecord(bs[0], EncodeAll(bs[1..]), catalog);
      AppendFirst(catalog, bs);
      EncodedStreamDecodes(bs[1..], AddBooking(catalog, bs[0]));
    }
  }

  /**
   The round trip of the binary format: a file of encoded bookings with
   pairwise distinct ids loads as exactly those bookings, in file order.
   */
  lemma BinaryRoundTrip(bs: seq<Booking>)
    requires forall i | 0 <= i < |bs| :: Encodable(bs[i])
    requires DistinctIds(bs)
    ensures ReadBinaryFile(EncodeAll(bs)) == Load(bs, None)
  {
    assert Clear() + bs == bs;
    EncodedStreamDecodes(bs, Clear());
    BinaryLoadIsDetermined(EncodeAll(bs), bs, None);
  }

  /** The record of `b` is refused by a catalog that already holds `b`'s id. */
  lemma EncodedRecordRefusedWhenKnown(b: Booking, catalog: Catalog)
    requires Encodable(b) && ExistsId(catalog, b.id)
    ensures DecodeRecord(EncodeRecord(b), catalog) == Err(DuplicateId(b.id))
  {
    var record := EncodeRecord(b);
    ReadEncodedCommon(b, VariantBytes(b), []);
    ReadCommonErrors(record, catalog);
  }

  /**
   A repeated record is refused at its second copy, with the first copy
   already in the catalog.
   */
  lemma RepeatedRecordRefused(b: Booking)
    requires Encodable(b)
    ensures ReadBinaryFile(EncodeRecord(b) + EncodeRecord(b)) == Load([b], Some(InBinary(DuplicateId(b.id))))
  {
    var record := EncodeRecord(b);
    var catalog := AddBooking(Clear(), b);
    ReadEncodedRecord(b, record, Clear());
    assert catalog[0] == b;
    EncodedRecordRefusedWhenKnown(b, catalog);
    assert [b][1..] == [];
    assert Decodes(DecodeRecord, record + record, Clear(), [b], Some(DuplicateId(b.id)));
    BinaryLoadIsDetermined(record + record, [b], Some(DuplicateId(b.id)));
  }

  /** A file of one encodable record loads that record and nothing else. */
  lemma SingleRecordLoads(b: Booking)
    requires Encodable(b)
    ensures ReadBinaryFile(EncodeRecord(b)) == Load([b], None)
  {
    BinaryRoundTrip([b]);
    assert EncodeAll([b]) == EncodeRecord(b) + EncodeAll([]);
    assert EncodeRecord(b) + [] == EncodeRecord(b);
  }

  /**
   A flight whose airport is not three letters and whose dates and airline
   are empty: the binary reader loads it from a file of one record, while no
   JSON element decodes to it, whatever the catalog and line.
   */
  lemma BinaryLeavesFieldsUnchecked(b: Booking)
    requires b == Flight("B1", [0, 0, 0, 0, 0, 0, 0xF0, 0x3F], "", "", "1", "", "")
    ensures !IsAirportCode(b.fromAirport) && b.fromDate == "" && b.airline == ""
    ensures Encodable(b)
    ensures ReadBinaryFile(EncodeRecord(b)) == Load([b], None)
    ensures forall node: Json.Json, line: nat, catalog: Catalog ::
              TextDecoder.DecodeBooking(node, line, catalog) != Ok(b)
  {
    UncheckedFlightEncodable(b);
    SingleRecordLoads(b);
  }

  lemma UncheckedFlightEncodable(b: Booking)
    requires b == Flight("B1", [0, 0, 0, 0, 0, 0, 0xF0, 0x3F], "", "", "1", "", "")
    ensures !IsAirportCode(b.fromAirport)
    ensures Encodable(b)
  {
    FiniteExamples();
    assert Fits(b.id, ID_WIDTH);
    assert Fits(b.fromAirport, AIRPORT_WIDTH);
    assert VariantValues(b) == ["1", "", ""];
    assert !IsAlpha(b.fromAirport[0]);
  }
}
