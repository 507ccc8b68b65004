/**
 A parsed JSON document and the three field validators the text decoder
 applies to a booking object. Parsing itself is not modelled: a value of
 `Json` is what the parser hands over. Objects map each key to one value,
 as the parser's object type does. Numbers are held as the `double` the
 decoder asks for.
 */
module Json {
  import opened Numbers
  import opened Results
  import opened Errors

  datatype Json =
    | JNull
    | JBool(b: bool)
    | JNumber(n: Float64)
    | JString(s: string)
    | JArray(items: seq<Json>)
    | JObject(fields: map<string, Json>)

  /** `contains(key)`: only an object has keys. */
  predicate Contains(v: Json, key: string)
  {
    v.JObject? && key in v.fields
  }

  /**
   `requireString`: the key's value when it is a non-empty string, taken
   verbatim (no trimming); otherwise the first of missing / not a string /
   empty that applies.
   */
  function RequireString(v: Json, key: string): (r: Result<string, ErrorKind>)
    ensures r.Ok? <==> Contains(v, key) && v.fields[key].JString? && v.fields[key].s != ""
    ensures r.Ok? ==> r.value == v.fields[key].s
    ensures !Contains(v, key) ==> r == Err(MissingField(key))
    ensures Contains(v, key) && !v.fields[key].JString? ==> r == Err(NotAString(key))
    ensures Contains(v, key) && v.fields[key] == JString("") ==> r == Err(EmptyValue(key))
  {
    if !Contains(v, key) then Err(MissingField(key))
    else if !v.fields[key].JString? then Err(NotAString(key))
    else if v.fields[key].s == "" then Err(EmptyValue(key))
    else Ok(v.fields[key].s)
  }

  /** `requirePrice`: the "price" number when it is finite. */
  function RequirePrice(v: Json): (r: Result<Float64, ErrorKind>)
    ensures r.Ok? <==> Contains(v, "price") && v.fields["price"].JNumber? && IsFinite(v.fields["price"].n)
    ensures r.Ok? ==> r.value == v.fields["price"].n && IsFinite(r.value)
    ensures !Contains(v, "price") ==> r == Err(MissingField("price"))
    ensures Contains(v, "price") && !v.fields["price"].JNumber? ==> r == Err(NotANumber("price"))
    ensures Contains(v, "price") && v.fields["price"].JNumber? && !IsFinite(v.fields["price"].n)
            ==> r == Err(NonFinitePrice)
  {
    if !Contains(v, "price") then Err(MissingField("price"))
    else if !v.fields["price"].JNumber? then Err(NotANumber("price"))
    else if !IsFinite(v.fields["price"].n) then Err(NonFinitePrice)
    else Ok(v.fields["price"].n)
  }

  /** The strings of an array, front to back, or nothing when one entry is not a string. */
  function StringsOf(items: seq<Json>): (r: Option<seq<string>>)
    ensures r.Some? <==> forall i | 0 <= i < |items| :: items[i].JString?
    ensures r.Some? ==> |r.value| == |items| && forall i | 0 <= i < |items| :: r.value[i] == items[i].s
  {
    if items == [] then Some([])
    else if !items[0].JString? then None
    else match StringsOf(items[1..])
      case None => None
      case Some(rest) => Some([items[0].s] + rest)
  }

  /**
   `requireStringArray`: the entries of the key's array, in order, when
   every one of them is a string (empty entries are allowed).
   */
  function RequireStringArray(v: Json, key: string): (r: Result<seq<string>, ErrorKind>)
    ensures r.Ok? <==> Contains(v, key) && v.fields[key].JArray?
                       && forall i | 0 <= i < |v.fields[key].items| :: v.fields[key].items[i].JString?
    ensures r.Ok? ==> |r.value| == |v.fields[key].items|
                      && forall i | 0 <= i < |r.value| :: r.value[i] == v.fields[key].items[i].s
    ensures !Contains(v, key) ==> r == Err(MissingField(key))
    ensures Contains(v, key) && !v.fields[key].JArray? ==> r == Err(NotAnArray(key))
    ensures r.Err? && Contains(v, key) && v.fields[key].JArray? ==> r == Err(NonStringEntry(key))
  {
    if !Contains(v, key) then Err(MissingField(key))
    else if !v.fields[key].JArray? then Err(NotAnArray(key))
    else match StringsOf(v.fields[key].items)
      case None => Err(NonStringEntry(key))
      case Some(ss) => Ok(ss)
  }

  /** The JSON array that holds the given strings. */
  function StringArray(ss: seq<string>): (v: Json)
    ensures v.JArray? && |v.items| == |ss|
  {
    JArray(seq(|ss|, i requires 0 <= i < |ss| => JString(ss[i])))
  }

  /** Reading back a string that was stored under a key yields it unchanged. */
  lemma RequireStringOfStored(fields: map<string, Json>, key: string, s: string)
    requires s != ""
    ensures RequireString(JObject(fields[key := JString(s)]), key) == Ok(s)
  {
  }

  /** Reading back stored strings yields them, in the same order. */
  lemma {:induction false} RequireStringArrayOfStored(fields: map<string, Json>, key: string, ss: seq<string>)
    ensures RequireStringArray(JObject(fields[key := StringArray(ss)]), key) == Ok(ss)
  {
    var items := StringArray(ss).items;
    var r := StringsOf(items);
    assert r.Some?;
    assert r.value == ss;
  }
}
