/** The status of a booking or of one participant in it. */
module Statuses {

  datatype EventStatus =
    | PENDING | ACCEPTED | CONFIRMED | COMPLETED
    | CANCELLED | CANCELLED_BY_CLIENT | CANCELLED_BY_CLIENT_REMOVED
    | PAID | NO_SHOW

  predicate IsCancelled(s: EventStatus) {
    s == CANCELLED || s == CANCELLED_BY_CLIENT || s == CANCELLED_BY_CLIENT_REMOVED
  }
}
