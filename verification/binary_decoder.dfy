/**
 `TravelAgency::readBinaryFile` over the bytes of the file. The stream is
 modelled by the bytes not yet consumed: every read takes a prefix of them
 and hands back the rest, or fails when too few remain.
 */
module BinaryDecoder {
  import opened Results
  import opened Numbers
  import opened Strings
  import opened Bookings
  import opened Catalog
  import opened Errors

  /** A value read from the front of the stream, and what remains after it. */
  datatype Read<+T> = Read(value: T, rest: seq<byte>)

  const ID_WIDTH: nat := 38
  const DATE_WIDTH: nat := 8
  const AIRPORT_WIDTH: nat := 3
  const NAME_WIDTH: nat := 15
  const TIME_WIDTH: nat := 5

  /** Tag, id, price and the two dates: the part every record starts with. */
  const COMMON_WIDTH: nat := 1 + ID_WIDTH + 8 + 2 * DATE_WIDTH

  /** The number of bytes the record of booking `b` occupies. */
  function Width(b: Booking): (w: nat)
    ensures w >= COMMON_WIDTH
  {
    COMMON_WIDTH +
    match b
    case Flight(_, _, _, _, _, _, _) => 2 * AIRPORT_WIDTH + NAME_WIDTH
    case Hotel(_, _, _, _, _, _) => 2 * NAME_WIDTH
    case RentalCar(_, _, _, _, _, _, _) => 3 * NAME_WIDTH
    case Train(_, _, _, _, _, _, _, _, via) => 2 * NAME_WIDTH + 2 * TIME_WIDTH + 4 + 15 * |via|
  }

  /** The record widths of the format: 84, 93 and 108 bytes, and 107 plus 15 per via station. */
  lemma RecordWidths(b: Booking)
    ensures b.Flight? ==> Width(b) == 84
    ensures b.Hotel? ==> Width(b) == 93
    ensures b.RentalCar? ==> Width(b) == 108
    ensures b.Train? ==> Width(b) == 107 + 15 * |b.viaStations|
  {
  }

  /** The bytes taken by the records of `bs`, one after another. */
  function TotalWidth(bs: seq<Booking>): nat
  {
    if bs == [] then 0 else Width(bs[0]) + TotalWidth(bs[1..])
  }

  /** Bytes taken as characters of the same code, as `std::string` holds them. */
  function ToChars(bytes: seq<byte>): (s: string)
    ensures |s| == |bytes|
    ensures forall i | 0 <= i < |s| :: s[i] as int == bytes[i] as int
  {
    seq(|bytes|, i requires 0 <= i < |bytes| => (bytes[i] as int) as char)
  }

  /** What a fixed-width field holds: its bytes as characters, with the spaces at both ends removed. */
  function FieldText(bytes: seq<byte>): string
  {
    TrimSpaces(ToChars(bytes))
  }

  /** `readFixedString`: `width` bytes as text with the spaces at both ends removed. */
  function ReadFixedString(input: seq<byte>, width: nat): (r: Result<Read<string>, ErrorKind>)
    ensures r.Ok? <==> |input| >= width
    ensures r.Ok? ==> r.value == Read(FieldText(input[..width]), input[width..])
    ensures r.Err? ==> r.error == UnexpectedEof
  {
    if |input| < width then Err(UnexpectedEof)
    else Ok(Read(FieldText(input[..width]), input[width..]))
  }

  /** Only spaces are trimmed: a NUL byte in a field stays in the value, and
      spaces are dropped at both ends, not only after the value. */
  lemma FixedStringExamples()
    ensures ReadFixedString([32, 65, 0, 32, 32, 66], 5) == Ok(Read("A\0", [66]))
    ensures ReadFixedString([32, 32, 32], 3) == Ok(Read("", []))
    ensures ReadFixedString([65, 66], 3) == Err(UnexpectedEof)
  {
    var a: seq<byte> := [32, 65, 0, 32, 32, 66];
    var text := ToChars(a[..5]);
    assert text == " A\0  ";
    assert FirstNotSpace(text, 0) == 1;
    assert LastNotSpace(text, 3) == 2;
    assert LastNotSpace(text, 4) == 2;
    assert LastNotSpace(text, 5) == 2;
    assert text[1..3] == "A\0";
    var b: seq<byte> := [32, 32, 32];
    var blank := ToChars(b[..3]);
    assert blank == "   ";
    assert AllSpaces(blank);
    assert b[3..] == [];
    assert ReadFixedString(b, 3) == Ok(Read("", []));
  }

  /** The eight bytes of a binary64 value. */
  function ReadDouble(input: seq<byte>): (r: Result<Read<Float64>, ErrorKind>)
    ensures r.Ok? <==> |input| >= 8
    ensures r.Ok? ==> r.value.value == input[..8] && r.value.rest == input[8..]
    ensures r.Err? ==> r.error == UnexpectedEof
  {
    if |input| < 8 then Err(UnexpectedEof)
    else
      var d: Float64 := input[..8];
      Ok(Read(d, input[8..]))
  }

  /** `readInt32`: four bytes as a signed 32-bit integer. */
  function ReadInt32(input: seq<byte>): (r: Result<Read<int>, ErrorKind>)
    ensures r.Ok? <==> |input| >= 4
    ensures r.Ok? ==> r.value == Read(DecodeInt32(input[..4]), input[4..])
    ensures r.Err? ==> r.error == UnexpectedEof
  {
    if |input| < 4 then Err(UnexpectedEof) else Ok(Read(DecodeInt32(input[..4]), input[4..]))
  }

  function Sum(widths: seq<nat>): nat
  {
    if widths == [] then 0 else widths[0] + Sum(widths[1..])
  }

  /** `s` is what `text` makes of the `width` bytes at offset `start`. */
  ghost predicate TextAt(text: seq<byte> -> string, input: seq<byte>, start: nat, width: nat, s: string)
  {
    start + width <= |input| && s == text(input[start..start + width])
  }

  /** `s` is what the field of `width` bytes at offset `start` holds. */
  ghost predicate FieldAt(input: seq<byte>, start: nat, width: nat, s: string)
  {
    TextAt(FieldText, input, start, width, s)
  }

  /** A field of the bytes after the first `k` is a field of the whole input, `k` bytes further on. */
  lemma TextAtShift(text: seq<byte> -> string, input: seq<byte>, k: nat, start: nat, width: nat, s: string)
    requires k <= |input| && TextAt(text, input[k..], start, width, s)
    ensures TextAt(text, input, k + start, width, s)
  {
    assert input[k..][start..start + width] == input[k + start..k + start + width];
  }

  /** Where field `i` starts: the widths of the fields before it, added up. */
  function Offset(widths: seq<nat>, i: nat): nat
    requires i <= |widths|
  {
    if i == 0 then 0 else widths[0] + Offset(widths[1..], i - 1)
  }

  /** Text fields of the given widths, back to back, read front to back. */
  function ReadFields(input: seq<byte>, widths: seq<nat>): (r: Result<Read<seq<string>>, ErrorKind>)
    ensures r.Ok? <==> |input| >= Sum(widths)
    ensures r.Ok? ==> |r.value.value| == |widths| && r.value.rest == input[Sum(widths)..]
    ensures r.Err? ==> r.error == UnexpectedEof
    decreases |widths|
  {
    if widths == [] then Ok(Read([], input))
    else
      var first :- ReadFixedString(input, widths[0]);
      var more :- ReadFields(first.rest, widths[1..]);
      assert more.rest == input[Sum(widths)..];
      Ok(Read([first.value] + more.value, more.rest))
  }

  /** Field `i` of what ReadFields reads is the text of its bytes, at the sum of the widths before it. */
  lemma {:induction false} ReadFieldsLayout(input: seq<byte>, widths: seq<nat>)
    requires |input| >= Sum(widths)
    ensures var values := ReadFields(input, widths).value.value;
            forall i | 0 <= i < |widths| :: FieldAt(input, Offset(widths, i), widths[i], values[i])
    decreases |widths|
  {
    if widths != [] {
      var first := ReadFixedString(input, widths[0]).value;
      var more := ReadFields(first.rest, widths[1..]).value;
      ReadFieldsLayout(first.rest, widths[1..]);
      FieldsAfterFirst(FieldText, input, widths, first.value, more.value);
    }
  }

  /**
   The step of ReadFields, for any reading of a field: the first field at
   offset 0, the others shifted by its width.
   */
  lemma FieldsAfterFirst(text: seq<byte> -> string, input: seq<byte>, widths: seq<nat>, first: string, more: seq<string>)
    requires widths != [] && |input| >= widths[0] && |more| == |widths| - 1
    requires first == text(input[..widths[0]])
    requires forall i | 0 <= i < |more| :: TextAt(text, input[widths[0]..], Offset(widths[1..], i), widths[1..][i], more[i])
    ensures forall i | 0 <= i < |widths| :: TextAt(text, input, Offset(widths, i), widths[i], ([first] + more)[i])
  {
    forall i | 0 <= i < |widths|
      ensures TextAt(text, input, Offset(widths, i), widths[i], ([first] + more)[i])
    {
      if i == 0 {
        assert input[0..widths[0]] == input[..widths[0]];
        assert ([first] + more)[0] == first;
      } else {
        assert TextAt(text, input[widths[0]..], Offset(widths[1..], i - 1), widths[1..][i - 1], more[i - 1]);
        LaterFieldAt(text, input, widths, i, first, more);
      }
    }
  }

  lemma LaterFieldAt(text: seq<byte> -> string, input: seq<byte>, widths: seq<nat>, i: nat, first: string, more: seq<string>)
    requires 0 < i < |widths| && widths[0] <= |input| && |more| == |widths| - 1
    requires TextAt(text, input[widths[0]..], Offset(widths[1..], i - 1), widths[1..][i - 1], more[i - 1])
    ensures TextAt(text, input, Offset(widths, i), widths[i], ([first] + more)[i])
  {
    var offset := Offset(widths[1..], i - 1);
    var s := more[i - 1];
    assert widths[1..][i - 1] == widths[i];
    TextAtShift(text, input, widths[0], offset, widths[i], s);
    assert Offset(widths, i) == widths[0] + offset;
    assert ([first] + more)[i] == s;
  }

  /** `count` copies of the width of a via station. */
  function StationWidths(count: nat): (widths: seq<nat>)
    ensures |widths| == count && Sum(widths) == 15 * count
  {
    if count == 0 then [] else [NAME_WIDTH] + StationWidths(count - 1)
  }

  /** Station `i` starts fifteen bytes after station `i - 1`. */
  lemma {:induction false} StationOffset(count: nat, i: nat)
    requires i < count
    ensures StationWidths(count)[i] == NAME_WIDTH && Offset(StationWidths(count), i) == 15 * i
  {
    if i > 0 {
      StationOffset(count - 1, i - 1);
      assert StationWidths(count)[1..] == StationWidths(count - 1);
    }
  }

  /** The via-station loop: `count` names of fifteen bytes each, in stream order. */
  function ReadStations(input: seq<byte>, count: nat): (r: Result<Read<seq<string>>, ErrorKind>)
    ensures r.Ok? <==> |input| >= 15 * count
    ensures r.Ok? ==> |r.value.value| == count && r.value.rest == input[15 * count..]
    ensures r.Ok? ==> forall i | 0 <= i < count :: FieldAt(input, 15 * i, NAME_WIDTH, r.value.value[i])
    ensures r.Err? ==> r.error == UnexpectedEof
  {
    var r := ReadFields(input, StationWidths(count));
    if r.Ok? then StationsAt(input, count, r.value.value); r else r
  }

  lemma StationsAt(input: seq<byte>, count: nat, stations: seq<string>)
    requires ReadFields(input, StationWidths(count)).Ok? && ReadFields(input, StationWidths(count)).value.value == stations
    ensures forall i | 0 <= i < count :: FieldAt(input, 15 * i, NAME_WIDTH, stations[i])
  {
    ReadFieldsLayout(input, StationWidths(count));
    forall i | 0 <= i < count
      ensures FieldAt(input, 15 * i, NAME_WIDTH, stations[i])
    {
      StationOffset(count, i);
    }
  }

  /** The fields every record carries, whatever its tag. */
  datatype Common = Common(id: string, price: Float64, fromDate: string, toDate: string)

  /**
   The start of every record: the tag byte, then id (refused when empty
   after trimming or already in the catalog), price (refused when not
   finite) and both dates.
   */
  function ReadCommon(input: seq<byte>, catalog: Catalog): (r: Result<Read<Common>, ErrorKind>)
    requires |input| > 0
    ensures r.Ok? ==> var c := r.value.value;
                      && |input| >= COMMON_WIDTH && r.value.rest == input[COMMON_WIDTH..]
                      && c.id != "" && !ExistsId(catalog, c.id) && IsFinite(c.price)
                      && CommonAt(c, input)
    ensures |input| < 1 + ID_WIDTH ==> r == Err(UnexpectedEof)
  {
    var id :- ReadFixedString(input[1..], ID_WIDTH);
    if id.value == "" then Err(EmptyId)
    else if ExistsId(catalog, id.value) then Err(DuplicateId(id.value))
    else
      var price :- ReadDouble(id.rest);
      if !IsFinite(price.value) then Err(NonFinitePrice)
      else
        FieldWidths();
        var dates :- ReadFields(price.rest, DATE_FIELDS);
        CommonFieldsAt(input, id, price, dates);
        Ok(Read(Common(id.value, price.value, dates.value[0], dates.value[1]), dates.rest))
  }

  /**
   The common fields `c` as a record holds them: the id in bytes 1 to 38,
   the price in bytes 39 to 46, the dates in bytes 47 to 54 and 55 to 62.
   */
  ghost predicate CommonAt(c: Common, input: seq<byte>)
  {
    && FieldAt(input, 1, ID_WIDTH, c.id)
    && |input| >= 47 && c.price == input[39..47]
    && FieldAt(input, 47, DATE_WIDTH, c.fromDate) && FieldAt(input, 55, DATE_WIDTH, c.toDate)
  }

  lemma CommonFieldsAt(input: seq<byte>, id: Read<string>, price: Read<Float64>, dates: Read<seq<string>>)
    requires |input| > 0
    requires ReadFixedString(input[1..], ID_WIDTH) == Ok(id)
    requires ReadDouble(id.rest) == Ok(price)
    requires ReadFields(price.rest, DATE_FIELDS) == Ok(dates)
    ensures CommonAt(Common(id.value, price.value, dates.value[0], dates.value[1]), input)
  {
    IdFieldAt(input, id);
    assert price.rest == input[47..];
    DateFieldsAt(input, dates);
  }

  lemma IdFieldAt(input: seq<byte>, id: Read<string>)
    requires |input| > 0 && ReadFixedString(input[1..], ID_WIDTH) == Ok(id)
    ensures FieldAt(input, 1, ID_WIDTH, id.value) && id.rest == input[39..]
  {
    assert input[1..][..ID_WIDTH] == input[1..39];
  }

  lemma DateFieldsAt(input: seq<byte>, dates: Read<seq<string>>)
    requires |input| >= 47 && ReadFields(input[47..], DATE_FIELDS) == Ok(dates)
    ensures FieldAt(input, 47, DATE_WIDTH, dates.value[0]) && FieldAt(input, 55, DATE_WIDTH, dates.value[1])
  {
    ReadFieldsLayout(input[47..], DATE_FIELDS);
    assert Offset(DATE_FIELDS, 1) == DATE_WIDTH by {
      assert DATE_FIELDS[1..] == [DATE_WIDTH];
    }
    TextAtShift(FieldText, input, 47, 0, DATE_WIDTH, dates.value[0]);
    TextAtShift(FieldText, input, 47, DATE_WIDTH, DATE_WIDTH, dates.value[1]);
  }

  const DATE_FIELDS: seq<nat> := [DATE_WIDTH, DATE_WIDTH]

  /** The common fields of a booking. */
  function CommonOf(b: Booking): Common
  {
    Common(b.id, b.price, b.fromDate, b.toDate)
  }

  const FLIGHT_FIELDS: seq<nat> := [AIRPORT_WIDTH, AIRPORT_WIDTH, NAME_WIDTH]
  const HOTEL_FIELDS: seq<nat> := [NAME_WIDTH, NAME_WIDTH]
  const RENTAL_FIELDS: seq<nat> := [NAME_WIDTH, NAME_WIDTH, NAME_WIDTH]
  const TRAIN_FIELDS: seq<nat> := [NAME_WIDTH, NAME_WIDTH, TIME_WIDTH, TIME_WIDTH]

  lemma FieldWidths()
    ensures Sum(FLIGHT_FIELDS) == 21 && Sum(HOTEL_FIELDS) == 30
    ensures Sum(RENTAL_FIELDS) == 45 && Sum(TRAIN_FIELDS) == 40
    ensures Sum(DATE_FIELDS) == 16
  {
    assert DATE_FIELDS[1..] == [DATE_WIDTH];
    SumOfThree(AIRPORT_WIDTH, AIRPORT_WIDTH, NAME_WIDTH);
    SumOfThree(NAME_WIDTH, NAME_WIDTH, NAME_WIDTH);
    assert HOTEL_FIELDS[1..] == [NAME_WIDTH];
    assert TRAIN_FIELDS[1..] == [NAME_WIDTH, TIME_WIDTH, TIME_WIDTH];
    SumOfThree(NAME_WIDTH, TIME_WIDTH, TIME_WIDTH);
  }

  lemma SumOfThree(a: nat, b: nat, c: nat)
    ensures Sum([a, b, c]) == a + b + c
  {
    assert [a, b, c][1..] == [b, c];
    assert [b, c][1..] == [c];
    assert [c][1..] == [];
    assert Sum([c]) == c;
    assert Sum([b, c]) == b + c;
  }

  /** The widths of the text fields that follow the dates, by tag; None for an unknown tag. */
  function VariantFields(tag: byte): (widths: Option<seq<nat>>)
    ensures widths.Some? <==> tag in {'F' as byte, 'H' as byte, 'R' as byte, 'T' as byte}
  {
    if tag == 'F' as byte then Some(FLIGHT_FIELDS)
    else if tag == 'H' as byte then Some(HOTEL_FIELDS)
    else if tag == 'R' as byte then Some(RENTAL_FIELDS)
    else if tag == 'T' as byte then Some(TRAIN_FIELDS)
    else None
  }

  /**
   The via stations of a train: the signed count, refused when negative,
   then that many names.
   */
  function ReadVia(input: seq<byte>): (r: Result<Read<seq<string>>, ErrorKind>)
    ensures r.Ok? <==> |input| >= 4 && DecodeInt32(input[..4]) >= 0 && |input| >= 4 + 15 * DecodeInt32(input[..4])
    ensures r.Ok? ==> && |input| >= 4 && |r.value.value| == DecodeInt32(input[..4])
                      && r.value.rest == input[4 + 15 * |r.value.value|..]
                      && forall i | 0 <= i < |r.value.value| :: FieldAt(input, 4 + 15 * i, NAME_WIDTH, r.value.value[i])
    ensures r.Err? ==> r.error == if |input| >= 4 && DecodeInt32(input[..4]) < 0 then NegativeCount else UnexpectedEof
  {
    var count :- ReadInt32(input);
    if count.value < 0 then Err(NegativeCount)
    else
      var via :- ReadStations(count.rest, count.value);
      StationsShifted(input, via.value);
      Ok(Read(via.value, via.rest))
  }

  lemma StationsShifted(input: seq<byte>, via: seq<string>)
    requires |input| >= 4
    requires forall i | 0 <= i < |via| :: FieldAt(input[4..], 15 * i, NAME_WIDTH, via[i])
    ensures forall i | 0 <= i < |via| :: FieldAt(input, 4 + 15 * i, NAME_WIDTH, via[i])
  {
    forall i | 0 <= i < |via|
      ensures FieldAt(input, 4 + 15 * i, NAME_WIDTH, via[i])
    {
      TextAtShift(FieldText, input, 4, 15 * i, NAME_WIDTH, via[i]);
    }
  }

  /** What follows the text fields: a train's count and stations, nothing for the other variants. */
  function ReadTail(tag: byte, input: seq<byte>): (r: Result<Read<seq<string>>, ErrorKind>)
    ensures tag != 'T' as byte ==> r == Ok(Read([], input))
    ensures r.Ok? ==> |r.value.rest| <= |input| && r.value.rest == input[|input| - |r.value.rest|..]
  {
    if tag == 'T' as byte then ReadVia(input) else Ok(Read([], input))
  }

  function Assemble(tag: byte, c: Common, f: seq<string>, via: seq<string>): (b: Booking)
    requires VariantFields(tag).Some? && |f| == |VariantFields(tag).value|
    ensures CommonOf(b) == c && Tag(b) == tag
  {
    if tag == 'F' as byte then Flight(c.id, c.price, c.fromDate, c.toDate, f[0], f[1], f[2])
    else if tag == 'H' as byte then Hotel(c.id, c.price, c.fromDate, c.toDate, f[0], f[1])
    else if tag == 'R' as byte then RentalCar(c.id, c.price, c.fromDate, c.toDate, f[0], f[1], f[2])
    else Train(c.id, c.price, c.fromDate, c.toDate, f[0], f[1], f[2], f[3], via)
  }

  /**
   The fields of `b` after the dates as a record holds them from offset
   `at` on: each text field at its fixed offset and, for a train, the
   32-bit station count after the two times, then the stations, fifteen
   bytes each.
   */
  ghost predicate VariantAt(b: Booking, input: seq<byte>, at: nat)
  {
    VariantRead(FieldText, b, input, at)
  }

  /** VariantAt for any reading `text` of a field's bytes. */
  ghost predicate VariantRead(text: seq<byte> -> string, b: Booking, input: seq<byte>, at: nat)
  {
    match b
    case Flight(_, _, _, _, fromAirport, toAirport, airline) =>
      && TextAt(text, input, at, AIRPORT_WIDTH, fromAirport) && TextAt(text, input, at + 3, AIRPORT_WIDTH, toAirport)
      && TextAt(text, input, at + 6, NAME_WIDTH, airline)
    case Hotel(_, _, _, _, hotel, city) =>
      TextAt(text, input, at, NAME_WIDTH, hotel) && TextAt(text, input, at + 15, NAME_WIDTH, city)
    case RentalCar(_, _, _, _, pickup, dropoff, company) =>
      && TextAt(text, input, at, NAME_WIDTH, pickup) && TextAt(text, input, at + 15, NAME_WIDTH, dropoff)
      && TextAt(text, input, at + 30, NAME_WIDTH, company)
    case Train(_, _, _, _, fromStation, toStation, departure, arrival, via) =>
      && TextAt(text, input, at, NAME_WIDTH, fromStation) && TextAt(text, input, at + 15, NAME_WIDTH, toStation)
      && TextAt(text, input, at + 30, TIME_WIDTH, departure) && TextAt(text, input, at + 35, TIME_WIDTH, arrival)
      && at + 44 <= |input| && |via| == DecodeInt32(input[at + 40..at + 44])
      && forall i | 0 <= i < |via| :: TextAt(text, input, at + 44 + 15 * i, NAME_WIDTH, via[i])
  }

  /** The part of a record after the dates, as selected by the tag. */
  function ReadVariant(tag: byte, c: Common, input: seq<byte>): (r: Result<Read<Booking>, ErrorKind>)
    ensures r.Ok? ==> var b := r.value.value;
                      && CommonOf(b) == c && Tag(b) == tag
                      && Width(b) - COMMON_WIDTH <= |input|
                      && r.value.rest == input[Width(b) - COMMON_WIDTH..]
    ensures tag !in {'F' as byte, 'H' as byte, 'R' as byte, 'T' as byte} ==> r == Err(UnknownRecordType(tag))
  {
    match VariantFields(tag)
    case None => Err(UnknownRecordType(tag))
    case Some(widths) =>
      var f :- ReadFields(input, widths);
      var via :- ReadTail(tag, f.rest);
      var b := Assemble(tag, c, f.value, via.value);
      FieldWidths();
      assert Width(b) - COMMON_WIDTH == Sum(widths) + (if tag == 'T' as byte then 4 + 15 * |via.value| else 0);
      Ok(Read(b, via.rest))
  }

  /**
   What ReadVariant accepts is what the bytes say: every field after the
   dates at its fixed offset, and a train's count and stations after them.
   */
  /**
   A known tag is accepted on any bytes that cover its fields, and for a train
   a via part that reads; the fields themselves are not checked. A failure is
   end of file, or the via part's own error.
   */
  lemma ReadVariantAccepts(tag: byte, c: Common, input: seq<byte>)
    requires VariantFields(tag).Some?
    ensures var n := Sum(VariantFields(tag).value);
            ReadVariant(tag, c, input).Ok? <==> |input| >= n && (tag == 'T' as byte ==> ReadVia(input[n..]).Ok?)
    ensures var n := Sum(VariantFields(tag).value);
            ReadVariant(tag, c, input).Err? ==>
              ReadVariant(tag, c, input).error == if |input| >= n && tag == 'T' as byte then ReadVia(input[n..]).error else UnexpectedEof
  {
  }

  lemma ReadVariantLayout(tag: byte, c: Common, input: seq<byte>)
    requires ReadVariant(tag, c, input).Ok?
    ensures VariantAt(ReadVariant(tag, c, input).value.value, input, 0)
  {
    var widths := VariantFields(tag).value;
    var f := ReadFields(input, widths).value;
    var via := ReadTail(tag, f.rest).value;
    AssembledAt(tag, c, input, f, via);
  }

  /** Where the text fields after the dates start, by tag. */
  lemma FieldOffsets()
    ensures Offset(FLIGHT_FIELDS, 1) == 3 && Offset(FLIGHT_FIELDS, 2) == 6
    ensures Offset(HOTEL_FIELDS, 1) == 15
    ensures Offset(RENTAL_FIELDS, 1) == 15 && Offset(RENTAL_FIELDS, 2) == 30
    ensures Offset(TRAIN_FIELDS, 1) == 15 && Offset(TRAIN_FIELDS, 2) == 30 && Offset(TRAIN_FIELDS, 3) == 35
  {
    OffsetsOfThree(AIRPORT_WIDTH, AIRPORT_WIDTH, NAME_WIDTH);
    OffsetsOfThree(NAME_WIDTH, NAME_WIDTH, NAME_WIDTH);
    assert HOTEL_FIELDS[1..] == [NAME_WIDTH];
    var train := TRAIN_FIELDS;
    assert train[1..] == [NAME_WIDTH, TIME_WIDTH, TIME_WIDTH];
    OffsetsOfThree(NAME_WIDTH, TIME_WIDTH, TIME_WIDTH);
  }

  lemma OffsetsOfThree(a: nat, b: nat, c: nat)
    ensures Offset([a, b, c], 1) == a && Offset([a, b, c], 2) == a + b && Offset([a, b, c], 3) == a + b + c
  {
    assert [a, b, c][1..] == [b, c];
    assert [b, c][1..] == [c];
    assert [c][1..] == [];
    assert Offset([c], 1) == c;
    assert Offset([b, c], 1) == b && Offset([b, c], 2) == b + c;
  }

  /** The booking ReadVariant assembles holds the fields at the offsets VariantAt gives. */
  lemma AssembledAt(tag: byte, c: Common, input: seq<byte>, f: Read<seq<string>>, via: Read<seq<string>>)
    requires VariantFields(tag).Some? && ReadFields(input, VariantFields(tag).value) == Ok(f)
    requires ReadTail(tag, f.rest) == Ok(via)
    ensures VariantAt(Assemble(tag, c, f.value, via.value), input, 0)
  {
    ReadFieldsLayout(input, VariantFields(tag).value);
    FieldOffsets();
    FieldWidths();
    if tag == 'T' as byte {
      TrainStationsAt(input, f.rest, via.value);
    }
  }

  lemma TrainStationsAt(input: seq<byte>, rest: seq<byte>, via: seq<string>)
    requires |input| >= 40 && rest == input[40..]
    requires |rest| >= 4 && |via| == DecodeInt32(rest[..4])
    requires forall i | 0 <= i < |via| :: FieldAt(rest, 4 + 15 * i, NAME_WIDTH, via[i])
    ensures 44 <= |input| && |via| == DecodeInt32(input[40..44])
    ensures forall i | 0 <= i < |via| :: FieldAt(input, 44 + 15 * i, NAME_WIDTH, via[i])
  {
    assert rest[..4] == input[40..44];
    forall i | 0 <= i < |via|
      ensures FieldAt(input, 44 + 15 * i, NAME_WIDTH, via[i])
    {
      TextAtShift(FieldText, input, 40, 4 + 15 * i, NAME_WIDTH, via[i]);
    }
  }

  /**
   One pass of the loop body: the tag, the common fields, then the tagged
   part. Reading the tag from an exhausted stream is an end-of-file error;
   the loop itself never does that, because it peeks first.
   */
  function DecodeRecord(input: seq<byte>, catalog: Catalog): (r: Result<Read<Booking>, ErrorKind>)
    ensures r.Ok? ==> var b := r.value.value;
                      && Width(b) <= |input| && r.value.rest == input[Width(b)..]
                      && Tag(b) == input[0]
                      && !ExistsId(catalog, b.id)
    ensures |input| < 1 + ID_WIDTH ==> r == Err(UnexpectedEof)
  {
    if input == [] then Err(UnexpectedEof)
    else
      var common :- ReadCommon(input, catalog);
      ReadVariant(input[0], common.value, common.rest)
  }

  // ------------------------------------------------------------- the loop

  /**
   A reader of one record against the catalog built so far. The loop below
   is stated for any reader; `readBinaryFile` runs it with `DecodeRecord`.
   */
  type RecordReader = (seq<byte>, Catalog) -> Result<Read<Booking>, ErrorKind>

  /** Every record a reader accepts takes at least one byte off the stream. */
  ghost predicate Consumes(read: RecordReader)
  {
    forall input, catalog :: read(input, catalog).Ok? ==> |read(input, catalog).value.rest| < |input|
  }

  /** A reader never accepts a booking whose id the catalog already holds. */
  ghost predicate ChecksIds(read: RecordReader)
  {
    forall input, catalog :: read(input, catalog).Ok? ==> !ExistsId(catalog, read(input, catalog).value.value.id)
  }

  /**
   The input is the records of `bs`, back to back, each one read against
   the catalog as it stands after the ones before it, followed either by
   nothing (`failure` is None) or by a record that fails with `failure`.
   */
  ghost predicate Decodes(read: RecordReader, input: seq<byte>, catalog: Catalog, bs: seq<Booking>,
                          failure: Option<ErrorKind>)
    decreases |bs|
  {
    if bs == [] then
      if failure.None? then input == []
      else input != [] && read(input, catalog) == Err(failure.value)
    else
      input != [] &&
      var d := read(input, catalog);
      d.Ok? && d.value.value == bs[0] && Decodes(read, d.value.rest, AddBooking(catalog, bs[0]), bs[1..], failure)
  }

  /** The load failure that stops the binary loop with `kind`. */
  function AsFailure(kind: Option<ErrorKind>): (f: Option<LoadError>)
    ensures f.None? <==> kind.None?
    ensures f.Some? ==> f.value == InBinary(kind.value)
  {
    match kind
    case None => None
    case Some(k) => Some(InBinary(k))
  }

  /** The kind of a binary load failure. */
  function KindOf(failure: Option<LoadError>): Option<ErrorKind>
  {
    match failure
    case None => None
    case Some(e) => if e.InBinary? then Some(e.kind) else None
  }

  /**
   The `while (peek() != EOF)` loop: reads records one after another until
   the bytes run out exactly at a record boundary, or stops at the first
   record that fails, keeping the bookings appended before it.
   */
  function ReadRecords(read: RecordReader, input: seq<byte>, catalog: Catalog): (r: Load)
    requires Consumes(read)
    ensures |catalog| <= |r.catalog| && r.catalog[..|catalog|] == catalog
    ensures r.failure == AsFailure(KindOf(r.failure))
    ensures Decodes(read, input, catalog, r.catalog[|catalog|..], KindOf(r.failure))
    decreases |input|
  {
    if input == [] then
      assert catalog[|catalog|..] == [];
      Load(catalog, None)
    else match read(input, catalog)
      case Err(e) =>
        assert catalog[|catalog|..] == [];
        Load(catalog, Some(InBinary(e)))
      case Ok(record) =>
        var b := record.value;
        var next := AddBooking(catalog, b);
        var r := ReadRecords(read, record.rest, next);
        assert r.catalog[..|catalog|] == catalog by {
          assert r.catalog[..|catalog|] == r.catalog[..|next|][..|catalog|];
        }
        var tail := r.catalog[|next|..];
        SplitAfterPrefix(r.catalog, catalog, b);
        DecodesCons(read, input, catalog, record, tail, KindOf(r.failure));
        r
  }

  /** One record read in front of a decoding stream gives a decoding stream. */
  lemma DecodesCons(read: RecordReader, input: seq<byte>, catalog: Catalog, record: Read<Booking>,
                    bs: seq<Booking>, failure: Option<ErrorKind>)
    requires input != [] && read(input, catalog) == Ok(record)
    requires Decodes(read, record.rest, AddBooking(catalog, record.value), bs, failure)
    ensures Decodes(read, input, catalog, [record.value] + bs, failure)
  {
    assert ([record.value] + bs)[1..] == bs;
  }

  lemma SplitAfterPrefix<T>(s: seq<T>, p: seq<T>, x: T)
    requires |p| < |s| && s[..|p| + 1] == p + [x]
    ensures s[|p|..] == [x] + s[|p| + 1..]
  {
    assert s[|p|] == x;
  }

  lemma AppendFirst<T>(c: seq<T>, s: seq<T>)
    requires s != []
    ensures (c + [s[0]]) + s[1..] == c + s
  {
  }

  /**
   The loop's outcome is the only one the stream allows: whenever the input
   decodes as `bs` followed by `failure`, the loop appends exactly `bs` and
   stops with exactly `failure`.
   */
  lemma {:induction false} DecodesDetermineLoad(read: RecordReader, input: seq<byte>, catalog: Catalog,
                                                bs: seq<Booking>, failure: Option<ErrorKind>)
    requires Consumes(read)
    requires Decodes(read, input, catalog, bs, failure)
    ensures ReadRecords(read, input, catalog) == Load(catalog + bs, AsFailure(failure))
    decreases |bs|
  {
    if bs == [] {
      assert catalog + bs == catalog;
    } else {
      var d := read(input, catalog);
      DecodesDetermineLoad(read, d.value.rest, AddBooking(catalog, bs[0]), bs[1..], failure);
      AppendFirst(catalog, bs);
    }
  }

  /**
   Every record of a decoding stream was checked against the catalog as it
   stood before it, so the appended bookings never repeat an id.
   */
  lemma {:induction false} DecodesKeepsDistinct(read: RecordReader, input: seq<byte>, catalog: Catalog,
                                                bs: seq<Booking>, failure: Option<ErrorKind>)
    requires ChecksIds(read)
    requires DistinctIds(catalog)
    requires Decodes(read, input, catalog, bs, failure)
    ensures DistinctIds(catalog + bs)
    decreases |bs|
  {
    if bs != [] {
      var d := read(input, catalog);
      var next := AddBooking(catalog, bs[0]);
      AddKeepsDistinct(catalog, bs[0]);
      DecodesKeepsDistinct(read, d.value.rest, next, bs[1..], failure);
      AppendFirst(catalog, bs);
    }
  }

  /** A complete load covers the input exactly: the records' widths add up to its length. */
  lemma {:induction false} DecodesWidth(input: seq<byte>, catalog: Catalog, bs: seq<Booking>)
    requires Decodes(DecodeRecord, input, catalog, bs, None)
    ensures |input| == TotalWidth(bs)
    decreases |bs|
  {
    if bs != [] {
      var d := DecodeRecord(input, catalog);
      DecodesWidth(d.value.rest, AddBooking(catalog, bs[0]), bs[1..]);
    }
  }

  lemma DecodeRecordProperties()
    ensures Consumes(DecodeRecord)
    ensures ChecksIds(DecodeRecord)
  {
  }

  // ------------------------------------------------- what one record reads

  /**
   What DecodeRecord accepts is what the record's bytes say: the tag in
   byte 0, the id, price and dates at their offsets, and the fields of the
   variant from byte 63 on.
   */
  lemma DecodeRecordLayout(input: seq<byte>, catalog: Catalog)
    requires DecodeRecord(input, catalog).Ok?
    ensures var b := DecodeRecord(input, catalog).value.value;
            && Tag(b) == input[0] && CommonAt(CommonOf(b), input) && VariantAt(b, input, COMMON_WIDTH)
  {
    var b := DecodeRecord(input, catalog).value.value;
    var common := ReadCommon(input, catalog).value;
    ReadVariantLayout(input[0], common.value, common.rest);
    VariantShift(FieldText, b, input, COMMON_WIDTH);
  }

  /** The fields of a variant part that starts `k` bytes into the input. */
  /**
   A record with a known tag, a new non-empty id and a finite price is accepted
   exactly when the bytes cover the variant's fields and, for a train, the via
   part reads: nothing else about the field bytes is checked.
   */
  lemma DecodeRecordAccepts(input: seq<byte>, catalog: Catalog)
    requires |input| >= COMMON_WIDTH && VariantFields(input[0]).Some?
    requires FieldText(input[1..39]) != "" && !ExistsId(catalog, FieldText(input[1..39]))
    requires IsFinite(input[39..47])
    ensures var n := Sum(VariantFields(input[0]).value);
            DecodeRecord(input, catalog).Ok? <==>
              |input| >= COMMON_WIDTH + n && (input[0] == 'T' as byte ==> ReadVia(input[COMMON_WIDTH + n..]).Ok?)
  {
    ReadCommonAccepts(input, catalog);
    assert ReadCommon(input, catalog).value.rest == input[COMMON_WIDTH..];
    ReadVariantAccepts(input[0], ReadCommon(input, catalog).value.value, input[COMMON_WIDTH..]);
  }

  lemma VariantShift(text: seq<byte> -> string, b: Booking, input: seq<byte>, k: nat)
    requires k <= |input| && VariantRead(text, b, input[k..], 0)
    ensures VariantRead(text, b, input, k)
  {
    var rest := input[k..];
    match b
    case Flight(_, _, _, _, fromAirport, toAirport, airline) =>
      TextAtShift(text, input, k, 0, AIRPORT_WIDTH, fromAirport);
      TextAtShift(text, input, k, 3, AIRPORT_WIDTH, toAirport);
      TextAtShift(text, input, k, 6, NAME_WIDTH, airline);
    case Hotel(_, _, _, _, hotel, city) =>
      TextAtShift(text, input, k, 0, NAME_WIDTH, hotel);
      TextAtShift(text, input, k, 15, NAME_WIDTH, city);
    case RentalCar(_, _, _, _, pickup, dropoff, company) =>
      TextAtShift(text, input, k, 0, NAME_WIDTH, pickup);
      TextAtShift(text, input, k, 15, NAME_WIDTH, dropoff);
      TextAtShift(text, input, k, 30, NAME_WIDTH, company);
    case Train(_, _, _, _, fromStation, toStation, departure, arrival, via) =>
      TextAtShift(text, input, k, 0, NAME_WIDTH, fromStation);
      TextAtShift(text, input, k, 15, NAME_WIDTH, toStation);
      TextAtShift(text, input, k, 30, TIME_WIDTH, departure);
      TextAtShift(text, input, k, 35, TIME_WIDTH, arrival);
      assert rest[40..44] == input[k + 40..k + 44];
      forall i | 0 <= i < |via|
        ensures TextAt(text, input, k + 44 + 15 * i, NAME_WIDTH, via[i])
      {
        TextAtShift(text, input, k, 44 + 15 * i, NAME_WIDTH, via[i]);
      }
  }

  /** A record is its common fields followed by the part its tag selects. */
  lemma DecodeRecordIsCommonThenVariant(input: seq<byte>, catalog: Catalog)
    requires DecodeRecord(input, catalog).Ok?
    ensures ReadCommon(input, catalog).Ok?
    ensures CommonOf(DecodeRecord(input, catalog).value.value) == ReadCommon(input, catalog).value.value
  {
  }

  /**
   An unknown tag is reported only once the id, price and dates have been
   read and accepted: the tag byte is looked at after them.
   */
  lemma UnknownTagReportedAfterCommon(input: seq<byte>, catalog: Catalog)
    requires input != [] && input[0] !in {'F' as byte, 'H' as byte, 'R' as byte, 'T' as byte}
    ensures DecodeRecord(input, catalog) == Err(UnknownRecordType(input[0])) <==> ReadCommon(input, catalog).Ok?
  {
  }

  /** A count whose top bit is set is negative and refused before any station is read. */
  lemma NegativeCountRefused(input: seq<byte>)
    requires |input| >= 4 && input[3] >= 0x80
    ensures ReadVia(input) == Err(NegativeCount)
  {
  }

  /** Each failure the common fields can report, in the order `readBinaryFile` checks them. */
  lemma ReadCommonErrors(input: seq<byte>, catalog: Catalog)
    requires |input| > 0
    ensures |input| < 39 ==> ReadCommon(input, catalog) == Err(UnexpectedEof)
    ensures |input| >= 39 && FieldText(input[1..39]) == "" ==> ReadCommon(input, catalog) == Err(EmptyId)
    ensures |input| >= 39 ==> var id := FieldText(input[1..39]);
            id != "" && ExistsId(catalog, id) ==> ReadCommon(input, catalog) == Err(DuplicateId(id))
    ensures |input| >= 47 ==> var id := FieldText(input[1..39]);
            id != "" && !ExistsId(catalog, id) && !IsFinite(input[39..47]) ==> ReadCommon(input, catalog) == Err(NonFinitePrice)
  {
    assert |input| >= 39 ==> input[1..][..ID_WIDTH] == input[1..39];
    assert |input| >= 47 ==> input[1..][ID_WIDTH..][..8] == input[39..47];
  }

  /**
   A record whose id is new and whose price is finite fails in its common
   part only when it ends before the second date does.
   */
  lemma ReadCommonAccepts(input: seq<byte>, catalog: Catalog)
    requires |input| >= 1 + ID_WIDTH
    requires FieldText(input[1..39]) != "" && !ExistsId(catalog, FieldText(input[1..39]))
    requires |input| >= 47 ==> IsFinite(input[39..47])
    ensures ReadCommon(input, catalog).Ok? <==> |input| >= COMMON_WIDTH
    ensures |input| < COMMON_WIDTH ==> ReadCommon(input, catalog) == Err(UnexpectedEof)
  {
    assert input[1..][..ID_WIDTH] == input[1..39];
    if |input| >= 47 {
      assert input[1..][ID_WIDTH..][..8] == input[39..47];
      FieldWidths();
    }
  }

  // ------------------------------------------------------------ the file

  /** An empty file loads an empty catalog without error. */
  lemma EmptyFileLoadsNothing()
    ensures ReadBinaryFile([]) == Load([], None)
  {
  }

  /**
   `readBinaryFile` once the file is open: the catalog is cleared first,
   then filled from the records; the ids of the catalog are always pairwise
   distinct, and the stream is exactly the records read followed by the
   failing one, if any.
   */
  function ReadBinaryFile(data: seq<byte>): (r: Load)
    ensures DistinctIds(r.catalog)
    ensures r.failure == AsFailure(KindOf(r.failure))
    ensures Decodes(DecodeRecord, data, Clear(), r.catalog, KindOf(r.failure))
    ensures r.failure.None? ==> |data| == TotalWidth(r.catalog)
  {
    DecodeRecordProperties();
    var r := ReadRecords(DecodeRecord, data, Clear());
    assert r.catalog[0..] == r.catalog;
    DecodesKeepsDistinct(DecodeRecord, data, Clear(), r.catalog, KindOf(r.failure));
    assert Clear() + r.catalog == r.catalog;
    assert r.failure.None? ==> |data| == TotalWidth(r.catalog) by {
      if r.failure.None? {
        DecodesWidth(data, Clear(), r.catalog);
      }
    }
    r
  }

  /** A file is refused at the first record that fails, keeping the bookings read before it. */
  lemma BinaryLoadIsDetermined(data: seq<byte>, bs: seq<Booking>, failure: Option<ErrorKind>)
    requires Decodes(DecodeRecord, data, Clear(), bs, failure)
    ensures ReadBinaryFile(data) == Load(bs, AsFailure(failure))
  {
    DecodeRecordProperties();
    DecodesDetermineLoad(DecodeRecord, data, Clear(), bs, failure);
    assert Clear() + bs == bs;
  }
}
