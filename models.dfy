/** The record the user service stores (models/user.go). */
module Models {

  /** An instant in time. The store never looks inside a timestamp: it only
      copies it, so an integer stands for Go's time.Time. */
  type Timestamp = int

  /** The zero value of a timestamp (Go's zero time.Time). */
  const ZeroTime: Timestamp := 0

  /** A user record. `id` is chosen by the caller, `email` is kept as an
      opaque, case-sensitive string. */
  datatype User = User(
    id: string,
    name: string,
    email: string,
    createdAt: Timestamp,
    updatedAt: Timestamp)

  /** The zero value of the Go struct `models.User{}`, returned together with
      the not-found error. */
  const ZeroUser: User := User("", "", "", ZeroTime, ZeroTime)
}
