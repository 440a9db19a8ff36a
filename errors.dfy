/** The exceptions the two services let escape, one constructor per distinct failure. */
module Errors {
  datatype Error =
    // ResourceNotFoundException("User", "id", id)
    | UserNotFound(userId: nat)
    // ResourceNotFoundException("User", "username", username)
    | UsernameNotFound(username: string)
    // ResourceNotFoundException("Transaction", "id", id): absent, or owned by someone else
    | TransactionNotFound(transactionId: nat)
    // DuplicateResourceException("User", field, value) with field "username" or "email"
    | DuplicateResource(field: string, value: string)
    // bean validation rejecting an entity when it is saved
    | ConstraintViolation
    // NullPointerException
    | NullDereference
}
