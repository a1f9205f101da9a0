/** The response record: one entry of the production plan. */
module Response {

  /** Power `p` (MW) assigned to the plant called `name`. */
  datatype PowerDispatch = PowerDispatch(name: string, p: real)

  /** The response schema demands `p >= 0` of every entry. */
  predicate ValidDispatch(d: PowerDispatch) {
    d.p >= 0.0
  }
}
