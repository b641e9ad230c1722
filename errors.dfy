/** The failures the services and repositories report to their callers. */
module Errors {

  datatype Error =
    | UserNotFound              // "User not found"
    | InsufficientKarma         // "Insufficient karma points"
    | RequestNotFound           // "Request not found"
    | RequestNotOpen            // "Request is not open"
    | CannotAcceptOwnRequest    // "Cannot accept your own request"
    | RequestNotInProgress      // "Request is not in progress"
    | OnlyRequesterCanComplete  // "Only requester can complete the request"
    | OnlyRequesterCanCancel    // "Only requester can cancel the request"
    | CannotCancelCompleted     // "Cannot cancel completed request"
    | UserAlreadyExists         // "User already exists"
    | ValidationFailed          // a document rejected by its schema on save()
    | DuplicateKey              // a unique index rejecting an insert
    | AlreadyCancelled          // the corrected cancel's refusal of a second cancellation
}
