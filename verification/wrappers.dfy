/** Failure-compatible wrappers used by every controller of the model. */
module Wrappers {

  /** `null`/`undefined` versus a present value. */
  datatype Option<+T> = None | Some(value: T) {
    function GetOr(default: T): T {
      match this
      case Some(v) => v
      case None => default
    }
  }

  /** The success payload or the error of one request. */
  datatype Result<+T, +E> = Ok(value: T) | Err(error: E)
}

/** Document identities. */
module Ids {
  import opened Wrappers

  /** A Mongo ObjectId, as its hex string. */
  type Id = string

  /** JavaScript truthiness of an optional id taken from a request body. */
  predicate Given(id: Option<Id>) {
    id.Some? && id.value != ""
  }
}

/** The failures the controllers report, one per distinct response. */
module Errors {
  datatype Error =
    | MissingRefugeeId      // 400 'Please provide refugee ID'
    | RefugeeNotFound       // 404 'Refugee not found'
    | AlreadyAssigned       // 400 'Refugee already assigned to a camp'
    | NoAvailableCamps      // 404 'No available camps found'
    | NoSufficientCapacity  // 404 'No camps with sufficient capacity found'
    | MissingAddress        // 400 'Please provide an address'
    | GeocodeFailed         // the geocoder threw
    | MissingCoordinates    // 400 'Please provide either coordinates or address' / 'all coordinates'
    | CampNotFound          // 404 'Camp not found' / 'One or both camps not found'
    | ValidationFailed      // a schema validator rejected the document
    | DuplicateCampName     // the unique index on camp names rejected the insert
}
