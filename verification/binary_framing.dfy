/**
 Framing of the binary format: a record that decodes from some bytes fails
 with an end-of-file error on every shorter prefix of them. Each reader is
 shown to behave on a prefix exactly as on the whole input as long as the
 prefix holds the bytes it takes, and to report end of file otherwise; the
 record decoder inherits this from its parts.
 */
module BinaryFraming {
  import opened Results
  import opened Numbers
  import opened Catalog
  import opened Errors
  import opened BinaryDecoder

  /**
   What a reader that took `read` from `input` gives on the first `m` bytes
   of it: the same value when those bytes hold everything it consumed, an
   end-of-file error when they do not.
   */
  function Cut<T>(read: Read<T>, input: seq<byte>, m: nat): (r: Result<Read<T>, ErrorKind>)
    requires |read.rest| <= |input| && m <= |input|
    ensures r.Err? <==> m < |input| - |read.rest|
    ensures r.Err? ==> r.error == UnexpectedEof
    ensures r.Ok? ==> r.value.value == read.value
  {
    var used := |input| - |read.rest|;
    if m < used then Err(UnexpectedEof) else Ok(Read(read.value, input[used..m]))
  }

  lemma CutWithin<T>(read: Read<T>, input: seq<byte>, m: nat, used: nat)
    requires used == |input| - |read.rest| && used <= m <= |input|
    ensures Cut(read, input, m) == Ok(Read(read.value, input[used..m]))
  {
  }

  /** A reader whose value is replaced by `x` is cut at the same place. */
  lemma CutWithValue<A, B>(read: Read<A>, x: B, input: seq<byte>, m: nat)
    requires |read.rest| <= |input| && m <= |input|
    ensures var r := Cut(read, input, m);
            Cut(Read(x, read.rest), input, m) == if r.Err? then Err(r.error) else Ok(Read(x, r.value.rest))
  {
  }

  // Each reader below is started at offset `k` of `input` and run once on
  // everything from there on, once on the bytes from `k` up to `m` only.

  lemma FixedStringCutAt(input: seq<byte>, k: nat, width: nat, m: nat)
    requires k + width <= |input| && k <= m <= |input|
    ensures ReadFixedString(input[k..m], width) == Cut(ReadFixedString(input[k..], width).value, input, m)
  {
    if m >= k + width {
      assert input[k..m][..width] == input[k..][..width];
      assert input[k..m][width..] == input[k + width..m];
      CutWithin(ReadFixedString(input[k..], width).value, input, m, k + width);
    }
  }

  lemma DoubleCutAt(input: seq<byte>, k: nat, m: nat)
    requires k + 8 <= |input| && k <= m <= |input|
    ensures ReadDouble(input[k..m]) == Cut(ReadDouble(input[k..]).value, input, m)
  {
    if m >= k + 8 {
      assert input[k..m][..8] == input[k..][..8];
      assert input[k..m][8..] == input[k + 8..m];
      CutWithin(ReadDouble(input[k..]).value, input, m, k + 8);
    }
  }

  lemma Int32CutAt(input: seq<byte>, k: nat, m: nat)
    requires k + 4 <= m <= |input|
    ensures ReadInt32(input[k..m]) == Ok(Read(ReadInt32(input[k..]).value.value, input[k + 4..m]))
  {
    assert input[k..m][..4] == input[k..][..4];
    assert input[k..m][4..] == input[k + 4..m];
  }

  /** A field list is its first field, then the rest of the list. */
  lemma FieldsSteps(input: seq<byte>, widths: seq<nat>, first: Read<string>,
                    more: Result<Read<seq<string>>, ErrorKind>)
    requires widths != [] && ReadFixedString(input, widths[0]) == Ok(first)
    requires ReadFields(first.rest, widths[1..]) == more
    ensures ReadFields(input, widths) == if more.Err? then Err(more.error) else Ok(Read([first.value] + more.value.value, more.value.rest))
  {
  }

  lemma PrefixOfSuffix<T>(s: seq<T>, a: nat, m: nat)
    requires a <= m <= |s|
    ensures s[..m][a..] == s[a..][..m - a] == s[a..m]
  {
  }

  lemma ReadFixedStringCut(input: seq<byte>, width: nat, m: nat)
    requires width <= |input| && m <= |input|
    ensures ReadFixedString(input[..m], width) == Cut(ReadFixedString(input, width).value, input, m)
  {
    if m >= width {
      assert input[..m][..width] == input[..width];
      PrefixOfSuffix(input, width, m);
    }
  }

  /** Fields read back to back keep their values on any prefix that holds them all. */
  lemma {:induction false} ReadFieldsCut(input: seq<byte>, widths: seq<nat>, m: nat)
    requires Sum(widths) <= |input| && m <= |input|
    ensures ReadFields(input[..m], widths) == Cut(ReadFields(input, widths).value, input, m)
    decreases |widths|
  {
    var full := ReadFields(input, widths).value;
    if m >= Sum(widths) && widths != [] {
      var w := widths[0];
      var first := ReadFixedString(input, w).value;
      var more := ReadFields(first.rest, widths[1..]);
      FieldsSteps(input, widths, first, more);
      var after := input[w..];
      ReadFixedStringCut(input, w, m);
      PrefixOfSuffix(input, w, m);
      ReadFieldsCut(after, widths[1..], m - w);
      CutOfSuffix(more.value, input, w, m);
      CutWithValue(more.value, full.value, input, m);
      FieldsSteps(input[..m], widths, Read(first.value, after[..m - w]), Cut(more.value, input, m));
    }
  }

  /** Cutting a reader that started `s` bytes in is cutting the whole input `s` bytes further on. */
  lemma CutOfSuffix<T>(read: Read<T>, input: seq<byte>, s: nat, m: nat)
    requires s <= m <= |input| && |read.rest| <= |input| - s
    ensures Cut(read, input[s..], m - s) == Cut(read, input, m)
  {
    var used := |input| - |read.rest|;
    if m >= used {
      assert input[s..][used - s..m - s] == input[used..m];
    }
  }

  lemma FieldsCutAt(input: seq<byte>, k: nat, widths: seq<nat>, m: nat)
    requires k + Sum(widths) <= |input| && k <= m <= |input|
    ensures ReadFields(input[k..m], widths) == Cut(ReadFields(input[k..], widths).value, input, m)
  {
    PrefixOfSuffix(input, k, m);
    ReadFieldsCut(input[k..], widths, m - k);
    CutOfSuffix(ReadFields(input[k..], widths).value, input, k, m);
  }

  /** The via part is the count, refused when negative, then that many stations. */
  lemma ViaSteps(input: seq<byte>, count: Read<int>, via: Result<Read<seq<string>>, ErrorKind>)
    requires ReadInt32(input) == Ok(count) && count.value >= 0
    requires ReadStations(count.rest, count.value) == via
    ensures ReadVia(input) == via
  {
  }

  lemma ViaCutAt(input: seq<byte>, k: nat, m: nat)
    requires k <= m <= |input| && ReadVia(input[k..]).Ok?
    ensures ReadVia(input[k..m]) == Cut(ReadVia(input[k..]).value, input, m)
  {
    var count := ReadInt32(input[k..]).value;
    assert count.rest == input[k + 4..];
    ViaSteps(input[k..], count, ReadStations(input[k + 4..], count.value));
    if m < k + 4 {
      assert ReadVia(input[k..m]) == Err(UnexpectedEof);
    } else {
      ViaCutAfterCount(input, k, count.value, m);
    }
  }

  lemma ViaCutAfterCount(input: seq<byte>, k: nat, n: nat, m: nat)
    requires k + 4 <= m <= |input| && ReadInt32(input[k..]).Ok? && ReadInt32(input[k..]).value.value == n
    requires ReadStations(input[k + 4..], n).Ok?
    ensures ReadVia(input[k..m]) == Cut(ReadStations(input[k + 4..], n).value, input, m)
  {
    Int32CutAt(input, k, m);
    FieldsCutAt(input, k + 4, StationWidths(n), m);
    ViaSteps(input[k..m], Read(n, input[k + 4..m]), ReadStations(input[k + 4..m], n));
  }

  /** The common part: id, its two checks, price, its check, then the dates. */
  lemma CommonSteps(input: seq<byte>, catalog: Catalog, id: Read<string>, price: Read<Float64>,
                    dates: Result<Read<seq<string>>, ErrorKind>)
    requires |input| > 0 && ReadFixedString(input[1..], ID_WIDTH) == Ok(id)
    requires id.value != "" && !ExistsId(catalog, id.value)
    requires ReadDouble(id.rest) == Ok(price) && IsFinite(price.value)
    requires ReadFields(price.rest, DATE_FIELDS) == dates
    ensures dates.Err? ==> ReadCommon(input, catalog) == Err(dates.error)
    ensures dates.Ok? && |dates.value.value| == 2 ==>
              ReadCommon(input, catalog) == Ok(Read(Common(id.value, price.value, dates.value.value[0], dates.value.value[1]), dates.value.rest))
  {
  }

  lemma ReadCommonCut(input: seq<byte>, catalog: Catalog, m: nat)
    requires |input| > 0 && ReadCommon(input, catalog).Ok?
    requires 0 < m <= |input|
    ensures ReadCommon(input[..m], catalog) == Cut(ReadCommon(input, catalog).value, input, m)
  {
    if m >= 1 + ID_WIDTH {
      var id := ReadFixedString(input[1..], ID_WIDTH).value;
      var price := ReadDouble(id.rest).value;
      var dates := ReadFields(price.rest, DATE_FIELDS);
      FieldWidths();
      CommonSteps(input, catalog, id, price, dates);
      assert input[..m][1..] == input[1..m];
      FixedStringCutAt(input, 1, ID_WIDTH, m);
      CutWithin(id, input, m, 1 + ID_WIDTH);
      if m < 1 + ID_WIDTH + 8 {
        CommonCutInPrice(input, catalog, id, price, m);
      } else {
        CommonCutInDates(input, catalog, id, price, m);
      }
    }
  }

  lemma CommonCutInPrice(input: seq<byte>, catalog: Catalog, id: Read<string>, price: Read<Float64>, m: nat)
    requires |input| >= COMMON_WIDTH && 1 + ID_WIDTH <= m < 1 + ID_WIDTH + 8
    requires id == ReadFixedString(input[1..], ID_WIDTH).value && price == ReadDouble(input[1 + ID_WIDTH..]).value
    requires id.value != "" && !ExistsId(catalog, id.value)
    requires ReadFixedString(input[..m][1..], ID_WIDTH) == Ok(Read(id.value, input[1 + ID_WIDTH..m]))
    ensures ReadCommon(input[..m], catalog) == Err(UnexpectedEof)
  {
    DoubleCutAt(input, 1 + ID_WIDTH, m);
  }

  lemma CommonCutInDates(input: seq<byte>, catalog: Catalog, id: Read<string>, price: Read<Float64>, m: nat)
    requires 1 + ID_WIDTH + 8 <= m <= |input| && ReadCommon(input, catalog).Ok?
    requires id == ReadFixedString(input[1..], ID_WIDTH).value && price == ReadDouble(id.rest).value
    requires ReadFixedString(input[..m][1..], ID_WIDTH) == Ok(Read(id.value, input[1 + ID_WIDTH..m]))
    requires ReadCommon(input, catalog) == Ok(Read(Common(id.value, price.value, ReadFields(price.rest, DATE_FIELDS).value.value[0], ReadFields(price.rest, DATE_FIELDS).value.value[1]), ReadFields(price.rest, DATE_FIELDS).value.rest))
    requires id.value != "" && !ExistsId(catalog, id.value) && IsFinite(price.value)
    ensures ReadCommon(input[..m], catalog) == Cut(ReadCommon(input, catalog).value, input, m)
  {
    var k := 1 + ID_WIDTH;
    FieldWidths();
    assert id.rest == input[k..];
    DoubleCutAt(input, k, m);
    CutWithin(price, input, m, k + 8);
    var dates := ReadFields(price.rest, DATE_FIELDS).value;
    assert price.rest == input[k + 8..];
    FieldsCutAt(input, k + 8, DATE_FIELDS, m);
    CutWithValue(dates, ReadCommon(input, catalog).value.value, input, m);
    CommonSteps(input[..m], catalog, Read(id.value, input[k..m]), Read(price.value, input[k + 8..m]),
                Cut(dates, input, m));
  }

  lemma TailCutAt(tag: byte, input: seq<byte>, k: nat, m: nat)
    requires k <= m <= |input| && ReadTail(tag, input[k..]).Ok?
    ensures ReadTail(tag, input[k..m]) == Cut(ReadTail(tag, input[k..]).value, input, m)
  {
    if tag == 'T' as byte {
      ViaCutAt(input, k, m);
    } else {
      var none: Read<seq<string>> := Read([], input[k..]);
      CutWithin(none, input, m, k);
    }
  }

  /** The part after the dates is its text fields, then the tail the tag calls for. */
  lemma VariantSteps(tag: byte, c: Common, input: seq<byte>, fields: Result<Read<seq<string>>, ErrorKind>)
    requires VariantFields(tag).Some?
    requires ReadFields(input, VariantFields(tag).value) == fields
    ensures fields.Err? ==> ReadVariant(tag, c, input) == Err(fields.error)
    ensures fields.Ok? ==>
              var tail := ReadTail(tag, fields.value.rest);
              && (tail.Err? ==> ReadVariant(tag, c, input) == Err(tail.error))
              && (tail.Ok? ==> ReadVariant(tag, c, input) == Ok(Read(Assemble(tag, c, fields.value.value, tail.value.value), tail.value.rest)))
  {
  }

  lemma VariantCutAt(tag: byte, c: Common, input: seq<byte>, k: nat, m: nat)
    requires k <= m <= |input| && ReadVariant(tag, c, input[k..]).Ok?
    ensures ReadVariant(tag, c, input[k..m]) == Cut(ReadVariant(tag, c, input[k..]).value, input, m)
  {
    var widths := VariantFields(tag).value;
    var s := k + Sum(widths);
    var f := ReadFields(input[k..], widths).value;
    assert f.rest == input[s..];
    var t := ReadTail(tag, f.rest).value;
    VariantSteps(tag, c, input[k..], Ok(f));
    if m < s {
      VariantSteps(tag, c, input[k..m], ReadFields(input[k..m], widths));
    } else {
      FieldsCutAt(input, k, widths, m);
      CutWithin(f, input, m, s);
      VariantCutInTail(tag, c, input[k..m], f.value, input, s, t, m);
    }
  }

  /** Once the text fields are read from a prefix, the variant is cut where its tail is. */
  lemma VariantCutInTail(tag: byte, c: Common, x: seq<byte>, fields: seq<string>, input: seq<byte>, s: nat, t: Read<seq<string>>, m: nat)
    requires VariantFields(tag).Some? && s <= m <= |input|
    requires ReadFields(x, VariantFields(tag).value) == Ok(Read(fields, input[s..m]))
    requires ReadTail(tag, input[s..]) == Ok(t)
    ensures ReadVariant(tag, c, x) == Cut(Read(Assemble(tag, c, fields, t.value), t.rest), input, m)
  {
    TailCutAt(tag, input, s, m);
    VariantOfCutTail(tag, c, x, Read(fields, input[s..m]), t, input, m);
  }

  /** A variant whose tail is cut is cut at the same place. */
  lemma VariantOfCutTail(tag: byte, c: Common, x: seq<byte>, f: Read<seq<string>>, t: Read<seq<string>>, input: seq<byte>, m: nat)
    requires VariantFields(tag).Some? && ReadFields(x, VariantFields(tag).value) == Ok(f)
    requires |t.rest| <= |input| && m <= |input| && ReadTail(tag, f.rest) == Cut(t, input, m)
    ensures ReadVariant(tag, c, x) == Cut(Read(Assemble(tag, c, f.value, t.value), t.rest), input, m)
  {
    VariantSteps(tag, c, x, Ok(f));
    CutWithValue(t, Assemble(tag, c, f.value, t.value), input, m);
  }

  /**
   Any shortfall inside a record is an end-of-file error: a record that
   decodes from `input` does not decode from any shorter prefix of it.
   */
  lemma TruncatedRecordFails(input: seq<byte>, catalog: Catalog, m: nat)
    requires DecodeRecord(input, catalog).Ok?
    requires m < Width(DecodeRecord(input, catalog).value.value)
    ensures DecodeRecord(input[..m], catalog) == Err(UnexpectedEof)
  {
    if m > 0 {
      ReadCommonCut(input, catalog, m);
      if m >= COMMON_WIDTH {
        var common := ReadCommon(input, catalog).value;
        VariantCutAt(input[0], common.value, input, COMMON_WIDTH, m);
      }
    }
  }
}
