/**
 What a load reports instead of throwing. The program builds one message
 string per failure; the model keeps the kind of failure, the field or
 value it names, and, for the text format, the line number.
 */
module Errors {
  import opened Numbers
  import opened Results
  import opened Catalog

  datatype ErrorKind =
    | InvalidShape                  // root is not an array and has no "bookings" array
    | InvalidRecordShape            // an array element is not an object
    | MissingField(key: string)
    | NotAString(key: string)
    | NotANumber(key: string)
    | NotAnArray(key: string)
    | NonStringEntry(key: string)   // an entry of a string array is not a string
    | EmptyValue(key: string)
    | NonFinitePrice
    | InvalidAirportCode
    | UnknownType(name: string)
    | DuplicateId(id: string)
    | EmptyId                       // binary id that is empty after trimming
    | UnexpectedEof                 // binary record cut short
    | NegativeCount                 // binary via-station count below zero
    | UnknownRecordType(tag: byte)

  datatype LoadError =
    | ParseFailure(byteOffset: nat)           // the JSON parser's own position report
    | AtLine(line: nat, kind: ErrorKind)      // text format, located by line
    | InBinary(kind: ErrorKind)               // binary format, no location

  /**
   The state a load leaves behind: the agency's catalog, and the failure
   that stopped the load, if any. Bookings appended before a failure stay.
   */
  datatype Load = Load(catalog: Catalog, failure: Option<LoadError>)
}
