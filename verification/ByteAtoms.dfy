/** The vocabulary of the parity tool: interval metadata and finished byte atoms. */
module ByteAtoms {

  datatype Option<+T> = None | Some(value: T)

  datatype Result<+T, +E> = Ok(value: T) | Err(error: E)

  type Byte = b: int | 0 <= b < 256

  const INVARIANT := "invariant"
  const ALLOWED_PAYLOAD := "allowed_payload"
  const DERIVED_FIELD := "derived_field"
  const DERIVED_PADDING := "derived_padding"

  /** The tuple stored with every claimed range (`_AtomMetadata`). */
  datatype Meta = Meta(
    locator: string,
    role: string,
    dependsOn: seq<string>,
    note: Option<string>,
    canonicalPayload: Option<seq<Byte>>)

  /** A claimed half-open range `[start, end)`. */
  datatype Interval = Interval(start: int, end: int, value: Meta)

  /** One finished atom; `Admissible` is the check its constructor makes. */
  datatype ByteAtom = ByteAtom(
    locator: string,
    role: string,
    offset: int,
    size: int,
    payload: seq<Byte>,
    dependsOn: seq<string>,
    note: Option<string>,
    canonicalPayload: Option<seq<Byte>>)
  {
    predicate Admissible() {
      && IsRole(role)
      && 0 <= offset && size == |payload|
      && (canonicalPayload.Some? ==> role == DERIVED_FIELD)
    }
  }

  predicate IsRole(role: string) {
    role == INVARIANT || role == ALLOWED_PAYLOAD || role == DERIVED_FIELD || role == DERIVED_PADDING
  }
}
