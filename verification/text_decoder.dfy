/**
 `TravelAgency::readFile` from the point where the document text has been
 read and handed to the JSON parser. The parser's verdict is an input:
 either the parsed root or the byte offset it reported.
 */
module TextDecoder {
  import opened Results
  import opened Numbers
  import opened Strings
  import opened Bookings
  import opened Catalog
  import opened Errors
  import opened Json
  import opened Scanner

  datatype ParseOutcome = Parsed(root: Json) | ParseFailed(byteOffset: nat)

  /**
   The array of bookings: the root itself when it is an array, otherwise
   the root object's "bookings" entry when that is an array.
   */
  function BookingsNode(root: Json): (r: Option<seq<Json>>)
    ensures r.Some? <==> root.JArray? || (Contains(root, "bookings") && root.fields["bookings"].JArray?)
    ensures root.JArray? ==> r == Some(root.items)
    ensures !root.JArray? && r.Some? ==> r.value == root.fields["bookings"].items
  {
    var node := if root.JArray? then Some(root)
                else if Contains(root, "bookings") then Some(root.fields["bookings"])
                else None;
    if node.None? || !node.value.JArray? then None else Some(node.value.items)
  }

  /** `std::vector::resize` on the scanned ranges: cut to `n`, or filled up with `{0, 0}`. */
  function FitRanges(ranges: seq<Range>, n: nat): (r: seq<Range>)
    ensures |r| == n
    ensures forall k | 0 <= k < n :: r[k] == if k < |ranges| then ranges[k] else Range(0, 0)
  {
    if |ranges| >= n then ranges[..n] else ranges + seq(n - |ranges|, _ => Range(0, 0))
  }

  /**
   The line reported for each of the `n` array elements: the line of the
   `{` the scanner found for it, or line 1 when the scan found fewer
   ranges than the parser found elements.
   */
  function ElementLines(content: string, n: nat): (lines: seq<nat>)
    ensures |lines| == n
    ensures forall k | 0 <= k < n :: lines[k] >= 1
  {
    var ranges := ExtractTopLevelArrayObjects(content);
    var fitted := FitRanges(ranges, n);
    // After the resize `fitted` holds n entries, so the `ranges.empty()` guard in `readFile` never applies.
    seq(n, k requires 0 <= k < n => ComputeLineNumber(content, fitted[k].start))
  }

  /**
   Each element's line is the line of the `{` the scanner found for it;
   elements beyond the scanned ranges get line 1.
   */
  lemma ElementLinesFromScan(content: string, n: nat)
    ensures var lines := ElementLines(content, n);
            var ranges := ExtractTopLevelArrayObjects(content);
            forall k | 0 <= k < n ::
              if k < |ranges| then
                ranges[k].start < |content| && content[ranges[k].start] == '{'
                && lines[k] == ComputeLineNumber(content, ranges[k].start)
              else lines[k] == 1
  {
  }

  /** Attaches the element's line to a field error. */
  function Located<T>(r: Result<T, ErrorKind>, line: nat): (r': Result<T, LoadError>)
    ensures r.Ok? <==> r'.Ok?
    ensures r.Ok? ==> r'.value == r.value
    ensures r.Err? ==> r'.error == AtLine(line, r.error)
  {
    r.MapError(kind => AtLine(line, kind))
  }

  /** A non-empty string stored under `key`. */
  predicate StringField(node: Json, key: string, s: string)
  {
    Contains(node, key) && node.fields[key] == JString(s) && s != ""
  }

  /**
   The object `node` spells out booking `b`: every field of b's variant is
   stored under its key, verbatim; required strings are non-empty, the
   price is finite, both airport codes of a flight are three letters, and
   a train's via stations come from a string array or, with no such key,
   are empty.
   */
  predicate Describes(node: Json, b: Booking)
  {
    && node.JObject?
    && StringField(node, "id", b.id)
    && StringField(node, "type", TypeName(b))
    && Contains(node, "price") && node.fields["price"] == JNumber(b.price) && IsFinite(b.price)
    && StringField(node, "fromDate", b.fromDate)
    && StringField(node, "toDate", b.toDate)
    && match b
       case Flight(_, _, _, _, fromAirport, toAirport, airline) =>
         && StringField(node, "fromAirport", fromAirport)
         && StringField(node, "toAirport", toAirport)
         && IsAirportCode(fromAirport) && IsAirportCode(toAirport)
         && StringField(node, "airline", airline)
       case Hotel(_, _, _, _, hotel, city) =>
         StringField(node, "hotel", hotel) && StringField(node, "city", city)
       case RentalCar(_, _, _, _, pickup, dropoff, company) =>
         && StringField(node, "pickupLocation", pickup)
         && StringField(node, "returnLocation", dropoff)
         && StringField(node, "company", company)
       case Train(_, _, _, _, fromStation, toStation, departure, arrival, via) =>
         && StringField(node, "fromStation", fromStation)
         && StringField(node, "toStation", toStation)
         && StringField(node, "departureTime", departure)
         && StringField(node, "arrivalTime", arrival)
         && (if Contains(node, "viaStations") then node.fields["viaStations"] == StringArray(via) else via == [])
  }

  /**
   The body of the element loop for one array element: shape, id and its
   uniqueness against the bookings decoded so far, then type, price and
   dates, and only then the fields of the variant the type names.
   */
  function DecodeBooking(node: Json, line: nat, catalog: Catalog): (r: Result<Booking, LoadError>)
    ensures r.Ok? ==> Describes(node, r.value) && !ExistsId(catalog, r.value.id)
    ensures r.Err? ==> r.error.AtLine? && r.error.line == line
    ensures !node.JObject? ==> r == Err(AtLine(line, InvalidRecordShape))
  {
    if !node.JObject? then Err(AtLine(line, InvalidRecordShape))
    else
      var id :- Located(RequireString(node, "id"), line);
      if ExistsId(catalog, id) then Err(AtLine(line, DuplicateId(id)))
      else
        var typeName :- Located(RequireString(node, "type"), line);
        var price :- Located(RequirePrice(node), line);
        var fromDate :- Located(RequireString(node, "fromDate"), line);
        var toDate :- Located(RequireString(node, "toDate"), line);
        if typeName == "Flight" then
          var fromAirport :- Located(RequireString(node, "fromAirport"), line);
          var toAirport :- Located(RequireString(node, "toAirport"), line);
          if !IsAirportCode(fromAirport) || !IsAirportCode(toAirport) then Err(AtLine(line, InvalidAirportCode))
          else
            var airline :- Located(RequireString(node, "airline"), line);
            Ok(Flight(id, price, fromDate, toDate, fromAirport, toAirport, airline))
        else if typeName == "Hotel" then
          var hotel :- Located(RequireString(node, "hotel"), line);
          var city :- Located(RequireString(node, "city"), line);
          Ok(Hotel(id, price, fromDate, toDate, hotel, city))
        else if typeName == "RentalCar" then
          var pickup :- Located(RequireString(node, "pickupLocation"), line);
          var dropoff :- Located(RequireString(node, "returnLocation"), line);
          var company :- Located(RequireString(node, "company"), line);
          Ok(RentalCar(id, price, fromDate, toDate, pickup, dropoff, company))
        else if typeName == "Train" then
          var fromStation :- Located(RequireString(node, "fromStation"), line);
          var toStation :- Located(RequireString(node, "toStation"), line);
          var departure :- Located(RequireString(node, "departureTime"), line);
          var arrival :- Located(RequireString(node, "arrivalTime"), line);
          var via :- if Contains(node, "viaStations") then Located(RequireStringArray(node, "viaStations"), line)
                     else Ok([]);
          Ok(Train(id, price, fromDate, toDate, fromStation, toStation, departure, arrival, via))
        else Err(AtLine(line, UnknownType(typeName)))
  }

  /** The decoder the element loop runs on each element, against the bookings before it. */
  type ElementDecoder = (Json, nat, Catalog) -> Result<Booking, LoadError>

  /** A decoder never accepts a booking whose id the catalog already holds. */
  ghost predicate RefusesKnownIds(decode: ElementDecoder)
  {
    forall node, line, catalog :: decode(node, line, catalog).Ok? ==> !ExistsId(catalog, decode(node, line, catalog).value.id)
  }

  lemma DecodeBookingRefusesKnownIds()
    ensures RefusesKnownIds(DecodeBooking)
  {
  }

  /**
   The element loop: decodes `items` in order, appending each booking to
   `catalog`, and stops at the first element that fails, keeping what was
   appended before it. It is stated for any element decoder; `readFile`
   runs it with `DecodeBooking`.
   */
  function DecodeElements(decode: ElementDecoder, items: seq<Json>, lines: seq<nat>, catalog: Catalog): (r: Load)
    requires |lines| == |items|
    ensures |catalog| <= |r.catalog| <= |catalog| + |items| && r.catalog[..|catalog|] == catalog
    ensures r.failure.None? <==> |r.catalog| == |catalog| + |items|
    ensures RefusesKnownIds(decode) && DistinctIds(catalog) ==> DistinctIds(r.catalog)
    ensures forall k | |catalog| <= k < |r.catalog| ::
              decode(items[k - |catalog|], lines[k - |catalog|], r.catalog[..k]) == Ok(r.catalog[k])
    ensures r.failure.Some? ==>
              decode(items[|r.catalog| - |catalog|], lines[|r.catalog| - |catalog|], r.catalog) == Err(r.failure.value)
    decreases |items|
  {
    if items == [] then Load(catalog, None)
    else match decode(items[0], lines[0], catalog)
      case Err(e) => Load(catalog, Some(e))
      case Ok(b) =>
        var next := AddBooking(catalog, b);
        assert RefusesKnownIds(decode) && DistinctIds(catalog) ==> DistinctIds(next) by {
          if RefusesKnownIds(decode) && DistinctIds(catalog) {
            AddKeepsDistinct(catalog, b);
          }
        }
        var r := DecodeElements(decode, items[1..], lines[1..], next);
        assert r.catalog[..|catalog|] == catalog by {
          assert r.catalog[..|catalog|] == r.catalog[..|next|][..|catalog|];
        }
        assert r.catalog[|catalog|] == b by {
          assert r.catalog[..|next|][|catalog|] == b;
        }
        AppendedInOrder(decode, items, lines, catalog, r.catalog);
        r
  }

  /**
   The loop's record of its steps is kept when one more element is put in
   front: if the first element decoded to the booking appended first, and
   the later ones to the later bookings, then so does every element.
   */
  lemma AppendedInOrder(decode: ElementDecoder, items: seq<Json>, lines: seq<nat>, catalog: Catalog, rc: Catalog)
    requires |lines| == |items| && items != [] && |catalog| < |rc| <= |catalog| + |items| && rc[..|catalog|] == catalog
    requires decode(items[0], lines[0], catalog) == Ok(rc[|catalog|])
    requires forall k | |catalog| + 1 <= k < |rc| ::
               decode(items[1..][k - (|catalog| + 1)], lines[1..][k - (|catalog| + 1)], rc[..k]) == Ok(rc[k])
    ensures forall k | |catalog| <= k < |rc| :: decode(items[k - |catalog|], lines[k - |catalog|], rc[..k]) == Ok(rc[k])
  {
    forall k | |catalog| <= k < |rc|
      ensures decode(items[k - |catalog|], lines[k - |catalog|], rc[..k]) == Ok(rc[k])
    {
      if k > |catalog| {
        assert items[1..][k - (|catalog| + 1)] == items[k - |catalog|];
        assert lines[1..][k - (|catalog| + 1)] == lines[k - |catalog|];
      }
    }
  }

  /**
   `readFile` after the parse: fails on a parse error or a wrong root
   shape with the previous catalog intact; otherwise clears the catalog
   and decodes the elements in order.
   */
  function ReadFile(prior: Catalog, content: string, parsed: ParseOutcome): (r: Load)
    ensures parsed.ParseFailed? ==> r == Load(prior, Some(ParseFailure(parsed.byteOffset)))
    ensures parsed.Parsed? && BookingsNode(parsed.root).None? ==> r == Load(prior, Some(AtLine(1, InvalidShape)))
    ensures parsed.Parsed? && BookingsNode(parsed.root).Some? ==>
              var items := BookingsNode(parsed.root).value;
              && DistinctIds(r.catalog)
              && |r.catalog| <= |items|
              && (r.failure.None? <==> |r.catalog| == |items|)
              && (r.failure.Some? ==> r.failure.value.AtLine? && r.failure.value.line >= 1)
  {
    match parsed
    case ParseFailed(offset) => Load(prior, Some(ParseFailure(offset)))
    case Parsed(root) =>
      match BookingsNode(root)
      case None => Load(prior, Some(AtLine(1, InvalidShape)))
      case Some(items) =>
        var lines := ElementLines(content, |items|);
        DecodeBookingRefusesKnownIds();
        DecodeElements(DecodeBooking, items, lines, Clear())
  }

  // ---------------------------------------------------------------- lemmas

  /** Decoding succeeds exactly on an object that describes a booking with a new id. */
  lemma DecodeBookingComplete(node: Json, line: nat, catalog: Catalog, b: Booking)
    requires Describes(node, b)
    requires !ExistsId(catalog, b.id)
    ensures DecodeBooking(node, line, catalog) == Ok(b)
  {
    if b.Train? && Contains(node, "viaStations") {
      RequireStringArrayOfStored(node.fields, "viaStations", b.viaStations);
      assert node.fields["viaStations" := StringArray(b.viaStations)] == node.fields;
    }
  }

  /** A second element with a known id is refused, naming that id. */
  lemma DuplicateIdRejected(node: Json, line: nat, catalog: Catalog, id: string)
    requires node.JObject? && RequireString(node, "id") == Ok(id)
    requires ExistsId(catalog, id)
    ensures DecodeBooking(node, line, catalog) == Err(AtLine(line, DuplicateId(id)))
  {
  }

  /**
   An unknown type is reported only once the id, type, price and both
   dates have passed: those checks run before the dispatch on the type.
   */
  lemma UnknownTypeReportedLast(node: Json, line: nat, catalog: Catalog, name: string)
    ensures DecodeBooking(node, line, catalog) == Err(AtLine(line, UnknownType(name))) <==>
              && node.JObject?
              && RequireString(node, "id").Ok?
              && !ExistsId(catalog, RequireString(node, "id").value)
              && RequireString(node, "type") == Ok(name)
              && name !in {"Flight", "Hotel", "RentalCar", "Train"}
              && RequirePrice(node).Ok?
              && RequireString(node, "fromDate").Ok?
              && RequireString(node, "toDate").Ok?
  {
  }

  /** A flight with a present, non-empty airport that is not three letters is refused as such. */
  lemma BadAirportRejected(node: Json, line: nat, catalog: Catalog)
    requires node.JObject?
    requires RequireString(node, "id").Ok? && !ExistsId(catalog, RequireString(node, "id").value)
    requires RequireString(node, "type") == Ok("Flight")
    requires RequirePrice(node).Ok?
    requires RequireString(node, "fromDate").Ok? && RequireString(node, "toDate").Ok?
    requires RequireString(node, "fromAirport").Ok? && RequireString(node, "toAirport").Ok?
    requires !IsAirportCode(RequireString(node, "fromAirport").value)
             || !IsAirportCode(RequireString(node, "toAirport").value)
    ensures DecodeBooking(node, line, catalog) == Err(AtLine(line, InvalidAirportCode))
  {
  }

  /**
   A loaded catalog is the elements decoded one after another, each
   against the bookings before it; a failure belongs to the first element
   that did not decode, and is reported at that element's line.
   */
  lemma ReadFileDecodesInOrder(prior: Catalog, content: string, root: Json)
    requires BookingsNode(root).Some?
    ensures var items := BookingsNode(root).value;
            var lines := ElementLines(content, |items|);
            var r := ReadFile(prior, content, Parsed(root));
            && (forall k | 0 <= k < |r.catalog| :: DecodeBooking(items[k], lines[k], r.catalog[..k]) == Ok(r.catalog[k]))
            && (r.failure.Some? ==>
                  && DecodeBooking(items[|r.catalog|], lines[|r.catalog|], r.catalog) == Err(r.failure.value)
                  && r.failure.value.AtLine? && r.failure.value.line == lines[|r.catalog|])
  {
    var items := BookingsNode(root).value;
    var lines := ElementLines(content, |items|);
    assert ReadFile(prior, content, Parsed(root)) == DecodeElements(DecodeBooking, items, lines, []);
    LoopFromEmpty(DecodeBooking, items, lines);
  }

  /** The element loop started on an empty catalog, with the indices counted from zero. */
  lemma LoopFromEmpty(decode: ElementDecoder, items: seq<Json>, lines: seq<nat>)
    requires |lines| == |items|
    ensures var r := DecodeElements(decode, items, lines, []);
            && (forall k | 0 <= k < |r.catalog| :: decode(items[k], lines[k], r.catalog[..k]) == Ok(r.catalog[k]))
            && (r.failure.Some? ==> |r.catalog| < |items| && decode(items[|r.catalog|], lines[|r.catalog|], r.catalog) == Err(r.failure.value))
  {
  }

  /**
   When the scan found one range per element, a failing element is
   reported at the line that holds its opening brace.
   */
  lemma ErrorAtOpeningBraceLine(prior: Catalog, content: string, root: Json)
    requires BookingsNode(root).Some?
    requires |ExtractTopLevelArrayObjects(content)| == |BookingsNode(root).value|
    requires ReadFile(prior, content, Parsed(root)).failure.Some?
    ensures var r := ReadFile(prior, content, Parsed(root));
            var start := ExtractTopLevelArrayObjects(content)[|r.catalog|].start;
            && start < |content| && content[start] == '{'
            && r.failure.value == AtLine(ComputeLineNumber(content, start), r.failure.value.kind)
  {
    ReadFileDecodesInOrder(prior, content, root);
    ElementLinesFromScan(content, |BookingsNode(root).value|);
  }

  /** Once the root has the right shape, the previous catalog plays no part: it was cleared. */
  lemma ReadFileIgnoresPrior(prior1: Catalog, prior2: Catalog, content: string, root: Json)
    requires BookingsNode(root).Some?
    ensures ReadFile(prior1, content, Parsed(root)) == ReadFile(prior2, content, Parsed(root))
  {
  }

  /** Loading the same document twice in a row yields the same catalog and outcome. */
  lemma ReloadIsIdempotent(prior: Catalog, content: string, parsed: ParseOutcome)
    ensures var first := ReadFile(prior, content, parsed);
            ReadFile(first.catalog, content, parsed) == first
  {
  }

  /** An empty array loads an empty catalog. */
  lemma EmptyArrayLoadsNothing(prior: Catalog, content: string)
    ensures ReadFile(prior, content, Parsed(JArray([]))) == Load([], None)
  {
  }
}
