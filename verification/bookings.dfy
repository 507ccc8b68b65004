/**
 The booking variants. The C++ class hierarchy (an abstract `Booking` with
 the four final subclasses) is a closed sum type here: every constructor
 carries the shared id, price and travel dates, followed by the fields of
 its own variant. The destructors `id` and `price` play the role of
 `getId()` and `getPrice()`.
 */
module Bookings {
  import opened Numbers

  datatype Booking =
    | Flight(id: string, price: Float64, fromDate: string, toDate: string,
             fromAirport: string, toAirport: string, airline: string)
    | Hotel(id: string, price: Float64, fromDate: string, toDate: string,
            hotel: string, city: string)
    | RentalCar(id: string, price: Float64, fromDate: string, toDate: string,
                pickupLocation: string, returnLocation: string, company: string)
    | Train(id: string, price: Float64, fromDate: string, toDate: string,
            fromStation: string, toStation: string,
            departureTime: string, arrivalTime: string,
            viaStations: seq<string>)

  /** The discriminator of the text format, one per variant. */
  function TypeName(b: Booking): (name: string)
    ensures name in {"Flight", "Hotel", "RentalCar", "Train"}
  {
    match b
    case Flight(_, _, _, _, _, _, _) => "Flight"
    case Hotel(_, _, _, _, _, _) => "Hotel"
    case RentalCar(_, _, _, _, _, _, _) => "RentalCar"
    case Train(_, _, _, _, _, _, _, _, _) => "Train"
  }

  /** The one-byte tag of the binary format, one per variant. */
  function Tag(b: Booking): (t: byte)
    ensures t in {'F' as byte, 'H' as byte, 'R' as byte, 'T' as byte}
  {
    match b
    case Flight(_, _, _, _, _, _, _) => 'F' as byte
    case Hotel(_, _, _, _, _, _) => 'H' as byte
    case RentalCar(_, _, _, _, _, _, _) => 'R' as byte
    case Train(_, _, _, _, _, _, _, _, _) => 'T' as byte
  }

  /** Distinct variants have distinct names and tags: neither discriminator loses information. */
  lemma DiscriminatorsAreInjective(a: Booking, b: Booking)
    ensures TypeName(a) == TypeName(b) <==> Tag(a) == Tag(b)
    ensures Tag(a) == Tag(b) <==> (a.Flight? && b.Flight?) || (a.Hotel? && b.Hotel?)
                                  || (a.RentalCar? && b.RentalCar?) || (a.Train? && b.Train?)
  {
  }
}
