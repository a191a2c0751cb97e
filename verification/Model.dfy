/** The service's records and errors: `model.DeviceAuth`, the admission statuses, and the
    error values that the layers compare by identity or by type. */
module Model {
  import opened Wrappers

  const ACCEPTED := "accepted"
  const REJECTED := "rejected"
  const PENDING := "pending"
  const PREAUTHORIZED := "preauthorized"

  type Attributes = map<string, string>

  /** A device authentication data set. The empty string, the empty map and `None` are Go's zero
      values; the store never writes them. */
  datatype DeviceAuth = DeviceAuth(
    id: string,
    deviceId: string,
    deviceIdentity: string,
    key: string,
    status: string,
    attributes: Attributes,
    requestTime: Option<int>)

  const ZERO := DeviceAuth("", "", "", "", "", map[], None)

  /** Errors. The first four are package-level values compared by identity, `UsageError` is
      recognised by its type, and wrapping hides both. */
  datatype Error =
    | ErrNotFound
    | ErrAuthNotFound
    | ErrNotPreauthorized
    | AuthSetConflict
    | UsageError(msg: string)
    | Failure(msg: string)
    | Wrapped(msg: string, cause: Error)

  /** `errors.Wrap`: nil stays nil. */
  function Wrap(err: Option<Error>, msg: string): Option<Error> {
    if err.None? then None else Some(Wrapped(msg, err.value))
  }

  predicate IsUsageError(err: Error) {
    err.UsageError?
  }

  predicate KnownStatus(status: string) {
    status == ACCEPTED || status == REJECTED || status == PENDING || status == PREAUTHORIZED
  }

  /** How a store operation ends: it works, it fails before anything is written (where a write
      first makes sure of the index, possibly there), or the write lands and only its
      acknowledgement is lost. */
  datatype Fault = Fine | FailedBefore(atIndex: bool) | FailedAfter

  /** A MongoDB object id in hexadecimal: 24 lower-case digits. */
  predicate IsObjectIdHex(s: string) {
    |s| == 24 && forall i :: 0 <= i < |s| ==> '0' <= s[i] <= '9' || 'a' <= s[i] <= 'f'
  }

  lemma StatusesDistinct()
    ensures ACCEPTED != REJECTED && ACCEPTED != PENDING && ACCEPTED != PREAUTHORIZED
    ensures REJECTED != PENDING && REJECTED != PREAUTHORIZED && PENDING != PREAUTHORIZED
    ensures ACCEPTED != "" && REJECTED != "" && PENDING != "" && PREAUTHORIZED != ""
  {
    assert ACCEPTED[0] != REJECTED[0];
  }
}
